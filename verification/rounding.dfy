/** Rounding to two decimal places as `Math.round(x * 100) / 100`, on exact
    reals. `Math.round(y)` is the integer nearest to `y`, halves going
    toward plus infinity, which is `floor(y + 1/2)`. */
module Rounding {

  /** `c` is a whole number of hundredths. */
  predicate IsCents(c: real)
  {
    (100.0 * c).Floor as real == 100.0 * c
  }

  /** `x` rounded to two decimal places: a whole number of hundredths within
      half a hundredth of `x` (a tie rounds up), never negative for a
      non-negative `x`. */
  function Round2(x: real): (r: real)
    ensures IsCents(r)
    ensures x - 0.005 < r <= x + 0.005
    ensures x >= 0.0 ==> r >= 0.0
  {
    (100.0 * x + 0.5).Floor as real / 100.0
  }

  /** A value that already has two decimal places is left as it is. */
  lemma Round2OfCents(c: real)
    requires IsCents(c)
    ensures Round2(c) == c
  {
    var k := (100.0 * c).Floor;
    assert 100.0 * c + 0.5 == k as real + 0.5;
    assert (100.0 * c + 0.5).Floor == k;
  }

  lemma Round2Idempotent(x: real)
    ensures Round2(Round2(x)) == Round2(x)
  {
    Round2OfCents(Round2(x));
  }

  /** `Round2(x)` is the only whole number of hundredths in the interval
      (x - 0.005, x + 0.005]. */
  lemma Round2Unique(x: real, c: real)
    requires IsCents(c)
    requires x - 0.005 < c <= x + 0.005
    ensures c == Round2(x)
  {
    var r := Round2(x);
    var k, m := (100.0 * c).Floor, (100.0 * r).Floor;
    assert k as real == 100.0 * c && m as real == 100.0 * r;
    assert -1 < k - m < 1;
  }

  /** Rounding never reverses the order of two values. */
  lemma Round2Monotone(x: real, y: real)
    requires x <= y
    ensures Round2(x) <= Round2(y)
  {
    var a, b := 100.0 * x + 0.5, 100.0 * y + 0.5;
    assert a.Floor as real <= a <= b < b.Floor as real + 1.0;
  }
}
