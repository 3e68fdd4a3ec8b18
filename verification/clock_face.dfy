/**
 The clock's main loop around the RTC: the volume buttons that step the
 timezone and shift the RTC by an hour, and the choice of glyphs each frame
 passes to the numeric font, either "UTC" with a signed offset for a few
 frames after a button press, or the time as hours, minutes and seconds.
 */
module ClockFace {

  import opened MachineInts
  import opened ClockTime
  import opened NtpWire
  import Calendar
  import NumericFont

  const MinTimezone: int := -12
  const MaxTimezone: int := 14

  /** Frames the timezone stays on screen after a press. */
  const AdjustFrames: nat := 4

  /** Top row of every glyph on the display. */
  const GlyphRow: int := 2

  predicate ValidTimezone(tz: int) {
    MinTimezone <= tz <= MaxTimezone
  }

  /** The part of `main`'s state the buttons and the display use: the
      timezone, the RTC contents, the frames left on the timezone screen,
      and whether the separators are lit this frame. */
  datatype Panel = Panel(timezone: int8, rtc: DateTime, adjusting: nat, blink: bool)

  /** The date-time `main` writes to the RTC at boot. */
  const BootTime: DateTime := DateTime(2023, 1, 1, 0, 0, 0, 0)

  const BootPanel: Panel := Panel(0, BootTime, 0, true)

  /** Volume-up: one hour east, up to +14, moving the RTC one hour on. */
  function VolumeUp(p: Panel): Panel {
    if p.timezone < MaxTimezone then
      p.(timezone := p.timezone + 1, rtc := AddHours(p.rtc, 1), adjusting := AdjustFrames)
    else p
  }

  /** Volume-down: one hour west, down to -12, moving the RTC one hour back. */
  function VolumeDown(p: Panel): Panel {
    if p.timezone > MinTimezone then
      p.(timezone := p.timezone - 1, rtc := AddHours(p.rtc, -1), adjusting := AdjustFrames)
    else p
  }

  /** The button handling of one pass of the main loop: volume-up is looked
      at first, then volume-down. */
  function Buttons(p: Panel, up: bool, down: bool): (r: Panel)
    ensures ValidTimezone(p.timezone) ==> ValidTimezone(r.timezone)
    ensures -1 <= r.timezone - p.timezone <= 1
    ensures Instant(r.rtc) - Calendar.SecondsPerHour * r.timezone
            == Instant(p.rtc) - Calendar.SecondsPerHour * p.timezone
    ensures r.rtc != p.rtc ==> Canonical(r.rtc) && r.adjusting == AdjustFrames
    ensures !up && !down ==> r == p
    ensures up && !down ==> r.timezone == (if p.timezone < MaxTimezone then p.timezone + 1 else p.timezone)
    ensures down && !up ==> r.timezone == (if p.timezone > MinTimezone then p.timezone - 1 else p.timezone)
    ensures up && down && ValidTimezone(p.timezone) ==>
              && r.timezone == (if p.timezone == MaxTimezone then MaxTimezone - 1 else p.timezone)
              && r.adjusting == AdjustFrames
    ensures r.timezone != p.timezone ==> r.adjusting == AdjustFrames
    ensures r.timezone == p.timezone && (!up || !down) ==> r == p
    ensures r.blink == p.blink
  {
    var p1 := if up then VolumeUp(p) else p;
    if down then VolumeDown(p1) else p1
  }

  /** After a commit with timezone `tz`, any button presses leave the RTC at
      what committing with the new timezone would have given. */
  lemma ButtonsAfterCommit(ntp: uint32, p: Panel, up: bool, down: bool)
    requires p.rtc == ApplyTimezone(ntp, p.timezone)
    ensures var r := Buttons(p, up, down);
            r.rtc == ApplyTimezone(ntp, r.timezone)
  {
    var r := Buttons(p, up, down);
    ApplyTimezoneUnique(ntp, r.timezone, r.rtc);
  }

  // ---------------------------------------------------------------------
  // Glyph indices

  /** One call of the font's `render`: top-left corner and glyph index. */
  datatype Glyph = Glyph(x: int, y: int, index: int)

  function Abs(v: int): nat {
    if v < 0 then -v else v
  }

  /** The sign glyph of a timezone: '+', '-' or '='. */
  function SignGlyph(tz: int): nat {
    if tz > 0 then NumericFont.GlyphPlus
    else if tz < 0 then NumericFont.GlyphMinus
    else NumericFont.GlyphEquals
  }

  /** The timezone screen: "UTC", the sign, and the two digits of |tz|. */
  function TimezoneGlyphs(tz: int8): (gs: seq<Glyph>)
    ensures |gs| == 6
    ensures forall i :: 0 <= i < |gs| ==> gs[i].y == GlyphRow && gs[i].x == 10 + 5 * i
    ensures ValidTimezone(tz) ==> forall i :: 0 <= i < |gs| ==> 0 <= gs[i].index < NumericFont.GlyphCount
    ensures ValidTimezone(tz) ==> gs[4].index <= 1
  {
    [Glyph(10, GlyphRow, NumericFont.DigitU), Glyph(15, GlyphRow, NumericFont.DigitT),
     Glyph(20, GlyphRow, NumericFont.DigitC), Glyph(25, GlyphRow, SignGlyph(tz)),
     Glyph(30, GlyphRow, Abs(tz) / 10), Glyph(35, GlyphRow, Abs(tz) % 10)]
  }

  /** The timezone a timezone screen shows, read back from its glyph indices;
      None when the glyphs do not spell "UTC" and a sign. */
  function ReadTimezone(gs: seq<Glyph>): Option<int> {
    if |gs| != 6 || gs[0].index != NumericFont.DigitU || gs[1].index != NumericFont.DigitT
       || gs[2].index != NumericFont.DigitC then None
    else
      var magnitude := 10 * gs[4].index + gs[5].index;
      if gs[3].index == NumericFont.GlyphPlus then Some(magnitude)
      else if gs[3].index == NumericFont.GlyphMinus then Some(-magnitude)
      else if gs[3].index == NumericFont.GlyphEquals && magnitude == 0 then Some(0)
      else None
  }

  /** The timezone screen shows the timezone. */
  lemma TimezoneGlyphsRoundTrip(tz: int8)
    ensures ReadTimezone(TimezoneGlyphs(tz)) == Some(tz as int)
  {
  }

  /** C's `/` on `int`: the quotient truncated toward zero. */
  function TruncDiv(a: int, b: int): int
    requires b > 0
  {
    if a >= 0 then a / b else -((-a) / b)
  }

  /** C's `%` on `int`: the remainder takes the sign of the dividend. */
  function TruncRem(a: int, b: int): int
    requires b > 0
  {
    if a >= 0 then a % b else -((-a) % b)
  }

  /** Quotient and remainder recompose the dividend, and the remainder is
      smaller than the divisor in magnitude. */
  lemma TruncDivRem(a: int, b: int)
    requires b > 0
    ensures b * TruncDiv(a, b) + TruncRem(a, b) == a
    ensures Abs(TruncRem(a, b)) < b
    ensures a >= 0 ==> TruncDiv(a, b) == a / b && TruncRem(a, b) == a % b
  {
  }

  /** The clock screen: tens and units of the hour, minute and second. */
  function ClockGlyphs(dt: DateTime): (gs: seq<Glyph>)
    ensures |gs| == 6
    ensures forall i :: 0 <= i < |gs| ==> gs[i].y == GlyphRow
    ensures 0 <= dt.hour < 24 && 0 <= dt.min < 60 && 0 <= dt.sec < 60 ==>
              forall i :: 0 <= i < |gs| ==> 0 <= gs[i].index <= 9
    ensures 0 <= dt.hour < 24 ==> gs[0].index <= 2
    ensures 0 <= dt.min < 60 && 0 <= dt.sec < 60 ==> gs[2].index <= 5 && gs[4].index <= 5
  {
    [Glyph(10, GlyphRow, TruncDiv(dt.hour, 10)), Glyph(15, GlyphRow, TruncRem(dt.hour, 10)),
     Glyph(22, GlyphRow, TruncDiv(dt.min, 10)), Glyph(27, GlyphRow, TruncRem(dt.min, 10)),
     Glyph(34, GlyphRow, TruncDiv(dt.sec, 10)), Glyph(39, GlyphRow, TruncRem(dt.sec, 10))]
  }

  /** The hours, minutes and seconds a clock screen shows. */
  function ReadClock(gs: seq<Glyph>): (hms: (int, int, int))
    requires |gs| == 6
  {
    (10 * gs[0].index + gs[1].index, 10 * gs[2].index + gs[3].index, 10 * gs[4].index + gs[5].index)
  }

  /** The clock screen shows the RTC's hour, minute and second fields,
      whatever their values. */
  lemma ClockGlyphsRoundTrip(dt: DateTime)
    ensures ReadClock(ClockGlyphs(dt)) == (dt.hour, dt.min, dt.sec)
  {
    TruncDivRem(dt.hour, 10);
    TruncDivRem(dt.min, 10);
    TruncDivRem(dt.sec, 10);
  }

  // ---------------------------------------------------------------------
  // Frames

  datatype Screen = TimezoneScreen(glyphs: seq<Glyph>) | ClockScreen(glyphs: seq<Glyph>, separators: bool)

  /** The display part of one pass of the main loop: the screen drawn and
      the panel the next pass starts from. */
  datatype Frame = Frame(screen: Screen, next: Panel)

  function ShowFrame(p: Panel): (f: Frame)
    ensures f.next.timezone == p.timezone && f.next.rtc == p.rtc
  {
    if p.adjusting > 0 then
      Frame(TimezoneScreen(TimezoneGlyphs(p.timezone)), p.(adjusting := p.adjusting - 1))
    else
      Frame(ClockScreen(ClockGlyphs(p.rtc), p.blink), p.(blink := !p.blink))
  }

  /** The screen of the k-th frame from p on, with no buttons pressed. */
  function ScreenAfter(p: Panel, k: nat): Screen
    decreases k
  {
    var f := ShowFrame(p);
    if k == 0 then f.screen else ScreenAfter(f.next, k - 1)
  }

  /** A frame with no press counts down the timezone screen by one. */
  lemma {:induction false} FramesCountDown(p: Panel, k: nat)
    ensures ScreenAfter(p, k) == (if k < p.adjusting then TimezoneScreen(TimezoneGlyphs(p.timezone))
                                  else ScreenAfter(p.(adjusting := 0), k - p.adjusting))
    decreases k
  {
    if k > 0 && p.adjusting > 0 {
      FramesCountDown(ShowFrame(p).next, k - 1);
    }
  }

  /** After an accepted press the new timezone is shown for four frames and
      then the clock comes back, showing the shifted RTC. */
  lemma PressShowsTimezone(p: Panel, up: bool, down: bool, k: nat)
    requires Buttons(p, up, down).adjusting == AdjustFrames
    ensures var r := Buttons(p, up, down);
            && (k < AdjustFrames ==> ScreenAfter(r, k) == TimezoneScreen(TimezoneGlyphs(r.timezone)))
            && (k == AdjustFrames ==> ScreenAfter(r, k).ClockScreen?
                                      && ScreenAfter(r, k).glyphs == ClockGlyphs(r.rtc))
  {
    FramesCountDown(Buttons(p, up, down), k);
  }

  /** A date-time whose date fields are those of the boot value lies on
      3923-02-01, day 713349 after 1970-01-01, in a February of 28 days. */
  lemma BootDay(dt: DateTime)
    requires dt.year == BootTime.year && dt.month == BootTime.month && dt.day == BootTime.day
    ensures Calendar.DayNumber(ToTm(dt)) == 713349
    ensures Calendar.DaysInMonth(dt.year + Calendar.TmYearBase, dt.month + 1) == 28
  {
    assert dt.month / 12 == 0 && dt.month % 12 == 1;
    assert (dt.year + Calendar.TmYearBase - 1) / 400 == 9;
    assert (dt.year + Calendar.TmYearBase - 1) % 400 == 322;
    assert Calendar.YearStart(322) == 117607;
    assert !Calendar.IsLeapYear(dt.year + Calendar.TmYearBase);
  }

  /** k o'clock on the boot date, with its true day of the week. */
  function BootDayAt(k: int): DateTime {
    DateTime(2023, 1, 1, 4, k, 0, 0)
  }

  /** The boot date at any hour of the day, with day of the week 4, is a
      normalised date-time: 3923 is not a leap year, and day 713349 is a
      Thursday. */
  lemma BootDayCanonical(dt: DateTime)
    requires dt.year == BootTime.year && dt.month == BootTime.month && dt.day == BootTime.day
    requires dt.dotw == 4 && 0 <= dt.hour < 24 && dt.min == 0 && dt.sec == 0
    ensures Canonical(dt)
  {
    BootDay(dt);
  }

  /** Two date-times on the same date are apart by the difference of their
      times of day. */
  lemma SameDateInstants(a: DateTime, b: DateTime)
    requires a.year == b.year && a.month == b.month && a.day == b.day
    ensures Instant(a) - Instant(b)
            == Calendar.SecondsPerHour * (a.hour - b.hour) + Calendar.SecondsPerMinute * (a.min - b.min)
               + (a.sec - b.sec)
  {
  }

  /** The boot value is read by `rtc_add_hours` as a `struct tm`: year
      field 2023 is the year 3923 and month field 1 is February, and
      3923-02-01 is a Thursday; so `k` hours after boot (k < 24) the RTC holds
      k o'clock on that date with day of the week 4, not 0. */
  lemma BootTimeIsYear3923(k: int8)
    requires 0 <= k < 24
    ensures AddHours(BootTime, k) == DateTime(2023, 1, 1, 4, k, 0, 0)
  {
    BootDayCanonical(BootDayAt(k));
    SameDateInstants(BootDayAt(k), BootTime);
    AddHoursUnique(BootTime, k, BootDayAt(k));
  }
}
