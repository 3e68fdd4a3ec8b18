/**
 Facts about Euclidean division and remainder that the calendar and bit
 arithmetic rely on.  Dafny's `/` and `%` on `int` are Euclidean: for a
 positive divisor they round towards minus infinity and the remainder is
 never negative, which is what `gmtime` and `mktime` need for instants before
 1970 and for out-of-range fields.
 */
module Arith {

  lemma MulPositive(m: int, x: int)
    requires m > 0 && x > 0
    ensures m * x >= m
  {
    if x > 1 {
      MulPositive(m, x - 1);
      assert m * x == m * (x - 1) + m;
    }
  }

  /** Quotient and remainder are unique. */
  lemma DivModUnique(a: int, m: int, q: int, r: int)
    requires m > 0 && 0 <= r < m && a == m * q + r
    ensures a / m == q && a % m == r
  {
    var q' := a / m;
    var r' := a % m;
    assert a == m * q' + r';
    var d := q - q';
    assert m * q - m * q' == m * d;
    assert m * d == r' - r;
    if d > 0 {
      MulPositive(m, d);
    } else if d < 0 {
      MulPositive(m, -d);
    }
  }

  /** Adding a multiple of the divisor does not change the remainder. */
  lemma ModShift(t: int, k: int, m: int)
    requires m > 0
    ensures (m * t + k) % m == k % m
    ensures (m * t + k) / m == t + k / m
  {
    var q := k / m;
    var r := k % m;
    assert k == m * q + r;
    assert m * t + k == m * (t + q) + r;
    DivModUnique(m * t + k, m, t + q, r);
  }
}
