/**
 The 4x7 numeric font of the clock display (`NumericFont`): a table of 16
 glyphs, four column bytes each, and `render`, which lights pixel
 (x + column, y + row) for every set bit `row` of a column byte.
 */
module NumericFont {

  const FontWidth: nat := 4
  const FontHeight: nat := 7
  const GlyphCount: nat := 16

  /** A column byte of the table.  Only the low seven bits (the rows) are ever
      read, and every byte of the table fits in them. */
  type Column = b: nat | b < 0x80

  /** The four column bytes of one glyph, left to right. */
  datatype Columns = Columns(c0: Column, c1: Column, c2: Column, c3: Column) {
    function At(c: nat): Column
      requires c < FontWidth
    {
      if c == 0 then c0 else if c == 1 then c1 else if c == 2 then c2 else c3
    }
  }

  /** `m_font_data`: the four column bytes of each glyph, digits 0-9, then
      U, T, C, '+', '-', '='.  Bit r of column c is the pixel in row r (0 at
      the top) of column c. */
  function FontData(digit: nat): Columns
    requires digit < GlyphCount
  {
    match digit
    case 0 => Columns(0x3e, 0x41, 0x41, 0x3e)
    case 1 => Columns(0x00, 0x02, 0x7f, 0x00)
    case 2 => Columns(0x62, 0x51, 0x49, 0x46)
    case 3 => Columns(0x21, 0x49, 0x4d, 0x33)
    case 4 => Columns(0x18, 0x16, 0x11, 0x7f)
    case 5 => Columns(0x4f, 0x49, 0x49, 0x31)
    case 6 => Columns(0x3c, 0x4a, 0x49, 0x30)
    case 7 => Columns(0x01, 0x61, 0x19, 0x07)
    case 8 => Columns(0x36, 0x49, 0x49, 0x36)
    case 9 => Columns(0x06, 0x49, 0x29, 0x1e)
    case 10 => Columns(0x3f, 0x40, 0x40, 0x3f)   // U
    case 11 => Columns(0x01, 0x7f, 0x01, 0x00)   // T
    case 12 => Columns(0x3e, 0x41, 0x41, 0x22)   // C
    case 13 => Columns(0x00, 0x08, 0x1c, 0x08)   // +
    case 14 => Columns(0x00, 0x08, 0x08, 0x08)   // -
    case _ => Columns(0x00, 0x14, 0x14, 0x14)    // =
  }

  const DigitU: nat := 10
  const DigitT: nat := 11
  const DigitC: nat := 12
  const GlyphPlus: nat := 13
  const GlyphMinus: nat := 14
  const GlyphEquals: nat := 15

  datatype Pixel = Pixel(x: int, y: int)

  /** Whether `b & (1 << r)` is non-zero. */
  predicate Bit(b: nat, r: nat) {
    if r == 0 then b % 2 == 1 else Bit(b / 2, r - 1)
  }

  /** Whether column c, row r of the glyph of `digit` is lit. */
  predicate Lights(digit: nat, c: nat, r: nat)
    requires digit < GlyphCount && c < FontWidth
  {
    Bit(FontData(digit).At(c), r)
  }

  /** Whether the glyph of `digit` drawn with its top-left corner at (x, y)
      lights pixel p. */
  predicate Lit(x: int, y: int, digit: nat, p: Pixel) {
    && digit < GlyphCount
    && x <= p.x < x + FontWidth
    && y <= p.y < y + FontHeight
    && Lights(digit, p.x - x, p.y - y)
  }

  /** The pixels of the glyph of `digit` at (x, y); none for a digit past 15. */
  function Glyph(x: int, y: int, digit: nat): set<Pixel> {
    if digit >= GlyphCount then {}
    else set c: nat, r: nat | c < FontWidth && r < FontHeight && Lights(digit, c, r)
                            :: Pixel(x + c, y + r)
  }

  lemma GlyphMembership(x: int, y: int, digit: nat, p: Pixel)
    ensures p in Glyph(x, y, digit) <==> Lit(x, y, digit, p)
  {
    if Lit(x, y, digit, p) {
      var c: nat, r: nat := p.x - x, p.y - y;
      assert Pixel(x + c, y + r) == p;
    }
  }

  /** Whether p lies in the first `column` columns of the glyph, plus the
      first `row` rows of column `column`: the part `render` has drawn. */
  predicate DrawnSoFar(x: int, y: int, digit: nat, column: nat, row: nat, p: Pixel) {
    Lit(x, y, digit, p) && (p.x < x + column || (p.x == x + column && p.y < y + row))
  }

  /** The inner loop of `render`: the rows of one column. */
  method RenderColumn(x: int, y: int, digit: nat, column: nat, before: set<Pixel>) returns (drawn: set<Pixel>)
    requires digit < GlyphCount && column < FontWidth
    requires forall p :: p in before <==> DrawnSoFar(x, y, digit, column, 0, p)
    requires |before| <= FontHeight * column
    ensures forall p :: p in drawn <==> DrawnSoFar(x, y, digit, column + 1, 0, p)
    ensures |drawn| <= FontHeight * (column + 1)
  {
    drawn := before;
    var row := 0;
    while row < FontHeight
      invariant 0 <= row <= FontHeight
      invariant forall p :: p in drawn <==> DrawnSoFar(x, y, digit, column, row, p)
      invariant |drawn| <= FontHeight * column + row
    {
      if Lights(digit, column, row) {
        drawn := drawn + {Pixel(x + column, y + row)};
      }
      row := row + 1;
    }
  }

  /** `render`: the pixels it sets, column by column and row by row. */
  method Render(x: int, y: int, digit: nat) returns (drawn: set<Pixel>)
    ensures digit >= GlyphCount ==> drawn == {}
    ensures forall p :: p in drawn <==> Lit(x, y, digit, p)
    ensures forall p :: p in drawn ==> x <= p.x <= x + 3 && y <= p.y <= y + 6
    ensures |drawn| <= FontWidth * FontHeight
  {
    drawn := {};
    if digit >= GlyphCount {
      return;
    }
    var column := 0;
    while column < FontWidth
      invariant 0 <= column <= FontWidth
      invariant forall p :: p in drawn <==> DrawnSoFar(x, y, digit, column, 0, p)
      invariant |drawn| <= FontHeight * column
    {
      drawn := RenderColumn(x, y, digit, column, drawn);
      column := column + 1;
    }
  }

  /** `render` as a set: what the method draws is exactly `Glyph`. */
  lemma RenderIsGlyph(x: int, y: int, digit: nat, drawn: set<Pixel>)
    requires forall p :: p in drawn <==> Lit(x, y, digit, p)
    ensures drawn == Glyph(x, y, digit)
  {
    forall p
      ensures p in drawn <==> p in Glyph(x, y, digit)
    {
      GlyphMembership(x, y, digit, p);
    }
  }

  /** The glyph at (x, y) is the glyph at the origin moved by (x, y). */
  lemma GlyphTranslates(x: int, y: int, digit: nat)
    ensures Glyph(x, y, digit) == set p | p in Glyph(0, 0, digit) :: Pixel(p.x + x, p.y + y)
  {
    var moved := set p | p in Glyph(0, 0, digit) :: Pixel(p.x + x, p.y + y);
    forall q
      ensures q in Glyph(x, y, digit) <==> q in moved
    {
      var o := Pixel(q.x - x, q.y - y);
      GlyphMembership(x, y, digit, q);
      GlyphMembership(0, 0, digit, o);
      assert Pixel(o.x + x, o.y + y) == q;
      if q in moved {
        var p :| p in Glyph(0, 0, digit) && q == Pixel(p.x + x, p.y + y);
        assert p == o;
      }
    }
  }

  // ---------------------------------------------------------------------
  // Reading a glyph back

  function Pow2(n: nat): (r: nat)
    ensures r >= 1
  {
    if n == 0 then 1 else 2 * Pow2(n - 1)
  }

  lemma Pow2Rows()
    ensures Pow2(FontHeight) == 0x80
  {
    assert Pow2(3) == 8;
  }

  /** A number below 2^n has no bit set at or above n. */
  lemma {:induction false} NoBitAbove(b: nat, n: nat, k: nat)
    requires b < Pow2(n) && n <= k
    ensures !Bit(b, k)
    decreases k
  {
    if k > 0 {
      if n > 0 {
        NoBitAbove(b / 2, n - 1, k - 1);
      } else {
        NoBitAbove(b / 2, 0, k - 1);
      }
    }
  }

  /** Every table byte is below 0x80: no bit from row 7 up, the bits `render`
      never reads, carries glyph data. */
  lemma TableHighBitsClear(digit: nat, c: nat)
    requires digit < GlyphCount && c < FontWidth
    ensures forall k: nat :: k >= FontHeight ==> !Bit(FontData(digit).At(c), k)
  {
    Pow2Rows();
    forall k: nat | k >= FontHeight
      ensures !Bit(FontData(digit).At(c), k)
    {
      NoBitAbove(FontData(digit).At(c), FontHeight, k);
    }
  }

  /** The number whose bit k is lit exactly when pixel (cx, cy + k) is in
      `pixels`, for k below n. */
  function ColumnValue(pixels: set<Pixel>, cx: int, cy: int, n: nat): (v: nat)
    ensures v < Pow2(n)
    decreases n
  {
    if n == 0 then 0
    else (if Pixel(cx, cy) in pixels then 1 else 0) + 2 * ColumnValue(pixels, cx, cy + 1, n - 1)
  }

  /** A column of pixels that shows the low n bits of b reads back as b. */
  lemma {:induction false} ColumnValueOfBits(pixels: set<Pixel>, cx: int, cy: int, n: nat, b: nat)
    requires b < Pow2(n)
    requires forall k: nat :: k < n ==> (Pixel(cx, cy + k) in pixels <==> Bit(b, k))
    ensures ColumnValue(pixels, cx, cy, n) == b
    decreases n
  {
    if n == 0 {
    } else {
      assert Pixel(cx, cy + 0) in pixels <==> Bit(b, 0);
      forall k: nat | k < n - 1
        ensures Pixel(cx, cy + 1 + k) in pixels <==> Bit(b / 2, k)
      {
        assert Pixel(cx, cy + (k + 1)) in pixels <==> Bit(b, k + 1);
        assert cy + 1 + k == cy + (k + 1);
      }
      ColumnValueOfBits(pixels, cx, cy + 1, n - 1, b / 2);
    }
  }

  /** The first glyph index from `digit` on whose columns are `columns`, or -1. */
  function FindGlyph(columns: Columns, digit: nat): (k: int)
    requires digit <= GlyphCount
    ensures k == -1 || (digit <= k < GlyphCount && FontData(k) == columns)
    decreases GlyphCount - digit
  {
    if digit == GlyphCount then -1
    else if FontData(digit) == columns then digit
    else FindGlyph(columns, digit + 1)
  }

  /** The four column values of the 4x7 box at (x, y). */
  function ReadColumns(pixels: set<Pixel>, x: int, y: int): (cs: Columns)
    ensures forall c :: 0 <= c < FontWidth ==> cs.At(c) == ColumnValue(pixels, x + c, y, FontHeight)
  {
    Pow2Rows();
    Columns(ColumnValue(pixels, x, y, FontHeight), ColumnValue(pixels, x + 1, y, FontHeight),
            ColumnValue(pixels, x + 2, y, FontHeight), ColumnValue(pixels, x + 3, y, FontHeight))
  }

  /** The glyph index whose drawing at (x, y) are `pixels`, or -1 when the
      four columns match no glyph of the table. */
  function ReadGlyph(pixels: set<Pixel>, x: int, y: int): (k: int)
    ensures k == -1 || (0 <= k < GlyphCount && forall c :: 0 <= c < FontWidth ==>
                          FontData(k).At(c) == ColumnValue(pixels, x + c, y, FontHeight))
  {
    FindGlyph(ReadColumns(pixels, x, y), 0)
  }

  /** No glyph of the table repeats an earlier one: searching the table
      for the columns of glyph d finds d. */
  lemma TableRowsDistinct(d: nat)
    requires d < GlyphCount
    ensures FindGlyph(FontData(d), 0) == d
  {
    if d < 4 {
      FoundFirstQuarter(d);
    } else if d < 8 {
      FoundSecondQuarter(d);
    } else if d < 12 {
      FoundThirdQuarter(d);
    } else {
      FoundLastQuarter(d);
    }
  }

  lemma FoundFirstQuarter(d: nat)
    requires 0 <= d < 4
    ensures FindGlyph(FontData(d), 0) == d
  {
    if d == 0 {
    } else if d == 1 {
    } else if d == 2 {
    } else {
    }
  }

  lemma FoundSecondQuarter(d: nat)
    requires 4 <= d < 8
    ensures FindGlyph(FontData(d), 0) == d
  {
    if d == 4 {
      assert FindGlyph(FontData(4), 4) == 4;
    } else if d == 5 {
      assert FindGlyph(FontData(5), 4) == 5;
    } else if d == 6 {
      assert FindGlyph(FontData(6), 4) == 6;
    } else {
      assert FindGlyph(FontData(7), 4) == 7;
    }
  }

  lemma FoundThirdQuarter(d: nat)
    requires 8 <= d < 12
    ensures FindGlyph(FontData(d), 0) == d
  {
    if d == 8 {
      assert FindGlyph(FontData(8), 8) == 8;
    } else if d == 9 {
      assert FindGlyph(FontData(9), 8) == 9;
    } else if d == 10 {
      assert FindGlyph(FontData(10), 8) == 10;
    } else {
      assert FindGlyph(FontData(11), 8) == 11;
    }
  }

  lemma FoundLastQuarter(d: nat)
    requires 12 <= d < 16
    ensures FindGlyph(FontData(d), 0) == d
  {
    if d == 12 {
      assert FindGlyph(FontData(12), 12) == 12;
    } else if d == 13 {
      assert FindGlyph(FontData(13), 12) == 13;
    } else if d == 14 {
      assert FindGlyph(FontData(14), 12) == 14;
    } else {
      assert FindGlyph(FontData(15), 12) == 15;
    }
  }

  /** Row k of column c of a drawn glyph is lit exactly when bit k of the
      column's table byte is set. */
  lemma GlyphColumnBits(x: int, y: int, digit: nat, c: nat)
    requires digit < GlyphCount && c < FontWidth
    ensures forall k: nat :: k < FontHeight ==>
              (Pixel(x + c, y + k) in Glyph(x, y, digit) <==> Bit(FontData(digit).At(c), k))
  {
    forall k: nat | k < FontHeight
      ensures Pixel(x + c, y + k) in Glyph(x, y, digit) <==> Bit(FontData(digit).At(c), k)
    {
      GlyphMembership(x, y, digit, Pixel(x + c, y + k));
    }
  }

  /** Column c of a drawn glyph reads back as the table byte.  The proof is
      direct; automatic induction on the `nat` parameters only adds
      hypotheses the solver then chases, so it is switched off. */
  lemma {:induction false} ColumnOfGlyph(x: int, y: int, digit: nat, c: nat)
    requires digit < GlyphCount && c < FontWidth
    ensures ColumnValue(Glyph(x, y, digit), x + c, y, FontHeight) == FontData(digit).At(c)
  {
    GlyphColumnBits(x, y, digit, c);
    Pow2Rows();
    ColumnValueOfBits(Glyph(x, y, digit), x + c, y, FontHeight, FontData(digit).At(c));
  }

  lemma ColumnsExtensional(a: Columns, b: Columns)
    requires forall c :: 0 <= c < FontWidth ==> a.At(c) == b.At(c)
    ensures a == b
  {
    assert a.At(0) == b.At(0) && a.At(1) == b.At(1) && a.At(2) == b.At(2) && a.At(3) == b.At(3);
  }

  lemma ColumnsOfGlyph(x: int, y: int, digit: nat)
    requires digit < GlyphCount
    ensures ReadColumns(Glyph(x, y, digit), x, y) == FontData(digit)
  {
    var cols := ReadColumns(Glyph(x, y, digit), x, y);
    forall c | 0 <= c < FontWidth
      ensures cols.At(c) == FontData(digit).At(c)
    {
      ColumnOfGlyph(x, y, digit, c);
    }
    ColumnsExtensional(cols, FontData(digit));
  }

  /** Every glyph reads back as its own index: what `render` draws
      identifies the digit. */
  lemma ReadGlyphRoundTrip(x: int, y: int, digit: nat)
    requires digit < GlyphCount
    ensures ReadGlyph(Glyph(x, y, digit), x, y) == digit
  {
    ColumnsOfGlyph(x, y, digit);
    TableRowsDistinct(digit);
  }

  /** The sixteen glyphs light pairwise different pixel sets. */
  lemma GlyphsDistinct(x: int, y: int, d1: nat, d2: nat)
    requires d1 < GlyphCount && d2 < GlyphCount && d1 != d2
    ensures Glyph(x, y, d1) != Glyph(x, y, d2)
  {
    ReadGlyphRoundTrip(x, y, d1);
    ReadGlyphRoundTrip(x, y, d2);
  }
}
