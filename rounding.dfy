/**
 * Exact integer stand-ins for PHP's round() on the ratios the quiz engine
 * computes.  round() rounds half away from zero; on the non-negative ratios
 * used here that is round-half-up.
 */
module Rounding {

  /** n / d rounded to the nearest integer, halves rounded up. */
  function RoundDiv(n: nat, d: nat): (r: nat)
    requires d > 0
    ensures 2 * d * r <= 2 * n + d < 2 * d * r + 2 * d
  {
    var q := (2 * n + d) / (2 * d);
    assert 2 * n + d == (2 * d) * q + (2 * n + d) % (2 * d);
    q
  }

  /** round(a / b * 100): the percentage a of b, to the nearest whole percent. */
  function Percent(a: nat, b: nat): (r: nat)
    requires b > 0
    ensures 2 * b * r <= 200 * a + b < 2 * b * r + 2 * b
    ensures a <= b ==> r <= 100
    ensures a == b ==> r == 100
    ensures a == 0 ==> r == 0
  {
    var r := RoundDiv(100 * a, b);
    PercentBounds(a, b, r);
    r
  }

  lemma PercentBounds(a: nat, b: nat, r: nat)
    requires b > 0
    requires 2 * b * r <= 200 * a + b < 2 * b * r + 2 * b
    ensures a <= b ==> r <= 100
    ensures a == b ==> r == 100
    ensures a == 0 ==> r == 0
  {
    if a <= b && r > 100 {
      MulMonotone(2 * b, 101, r);
      assert false;
    }
    if a == b && r < 100 {
      MulMonotone(2 * b, r, 99);
      assert false;
    }
    if a == 0 && r > 0 {
      MulMonotone(2 * b, 1, r);
      assert false;
    }
  }

  lemma MulMonotone(k: nat, x: nat, y: nat)
    requires x <= y
    ensures k * x <= k * y
  {
  }
}
