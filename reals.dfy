/** Small facts about products and quotients of reals that the solver does
    not find on its own. */
module Reals {

  lemma MulNonneg(x: real, y: real)
    requires x >= 0.0 && y >= 0.0
    ensures x * y >= 0.0
  {
  }

  /** Multiplying by a non-negative factor keeps the order. */
  lemma MulMono(k: real, a: real, b: real)
    requires k >= 0.0 && a <= b
    ensures k * a <= k * b
  {
    MulNonneg(k, b - a);
    assert k * (b - a) == k * b - k * a;
  }

  lemma MulSign(x: real, y: real)
    requires y > 0.0
    ensures x > 0.0 ==> x * y > 0.0
    ensures x >= 0.0 ==> x * y >= 0.0
  {
  }

  /** A part over a positive whole lies in [0, 1]. */
  lemma DivUnit(a: real, b: real)
    requires 0.0 <= a <= b && b > 0.0
    ensures 0.0 <= a / b <= 1.0
  {
    var r := a / b;
    assert r * b == a;
    MulSign(r - 1.0, b);
    assert (r - 1.0) * b == r * b - b;
    MulSign(r, b);
  }

  /** ... so as a percentage it lies in [0, 100]. */
  lemma PercentRange(a: real, b: real)
    requires 0.0 <= a <= b && b > 0.0
    ensures 0.0 <= a / b * 100.0 <= 100.0
  {
    DivUnit(a, b);
  }

  /** A part over a positive whole, as a percentage: positive exactly when
      the part is. */
  lemma PercentPositive(a: real, b: real)
    requires 0.0 <= a <= b && b > 0.0
    ensures a / b * 100.0 > 0.0 <==> a > 0.0
  {
    var r := a / b;
    assert r * b == a;
    MulSign(r, b);
    MulSign(-r, b);
  }

  /** `(1 - a/b) * 100`: between 0 and 100, and 100 exactly when a is 0. */
  lemma ComplementPercent(a: real, b: real)
    requires 0.0 <= a <= b && b > 0.0
    ensures 0.0 <= (1.0 - a / b) * 100.0 <= 100.0
    ensures (1.0 - a / b) * 100.0 == 100.0 <==> a == 0.0
  {
    DivUnit(a, b);
    var r := a / b;
    assert r * b == a;
  }

  /** `m / n * 100` for a count m out of n > 0. */
  function Percent(m: nat, n: nat): (p: real)
    requires m <= n && n > 0
    ensures 0.0 <= p <= 100.0
    ensures p > 0.0 <==> m > 0
  {
    PercentRange(m as real, n as real);
    PercentPositive(m as real, n as real);
    m as real / n as real * 100.0
  }
}
