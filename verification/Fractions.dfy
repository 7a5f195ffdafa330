/** Products and quotients of reals under names of their own, so that a proof can hide them. */
module Fractions {

  function Mul(a: real, b: real): real {
    a * b
  }

  function Ratio(a: real, b: real): real
    requires b > 0.0
  {
    a / b
  }

  lemma MulSign(d: real, k: real)
    requires k > 0.0
    ensures d > 0.0 ==> Mul(d, k) > 0.0
    ensures d < 0.0 ==> Mul(d, k) < 0.0
    ensures d == 0.0 ==> Mul(d, k) == 0.0
  {
    if d < 0.0 { assert (-d) * k > 0.0; }
  }

  lemma MulSplits(a: real, b: real, k: real)
    ensures Mul(b - a, k) == Mul(b, k) - Mul(a, k)
  {
  }

  lemma MulOrder(a: real, b: real, k: real)
    requires k > 0.0
    ensures a <= b <==> Mul(a, k) <= Mul(b, k)
    ensures a < b <==> Mul(a, k) < Mul(b, k)
  {
    MulSplits(a, b, k);
    MulSign(b - a, k);
    hide Mul;
  }

  lemma MulCommutes(a: real, b: real)
    ensures Mul(a, b) == Mul(b, a)
  {
  }

  lemma MulAssociates(a: real, b: real, c: real)
    ensures Mul(Mul(a, b), c) == Mul(Mul(a, c), b)
  {
  }

  lemma TimesOne(a: real)
    ensures Mul(1.0, a) == a == Mul(a, 1.0)
  {
  }

  lemma MulGrows(a: real, b: real, k: real)
    requires a <= b && k >= 0.0
    ensures Mul(a, k) <= Mul(b, k) && (a >= 0.0 ==> Mul(a, k) >= 0.0)
  {
    if k > 0.0 { MulOrder(a, b, k); }
  }

  lemma RatioTimes(a: real, b: real)
    requires b > 0.0
    ensures Mul(Ratio(a, b), b) == a
  {
  }

  /** A quotient against a number is a comparison of products. */
  lemma RatioAgainst(a: real, b: real, t: real)
    requires b > 0.0
    ensures Ratio(a, b) >= t <==> a >= Mul(t, b)
    ensures Ratio(a, b) > t <==> a > Mul(t, b)
  {
    hide Mul, Ratio;
    RatioTimes(a, b);
    MulOrder(Ratio(a, b), t, b);
    MulOrder(t, Ratio(a, b), b);
  }

  /** Over one denominator, quotients are ordered and subtracted as their numerators are. */
  lemma SameDenominator(a: real, c: real, b: real)
    requires b > 0.0
    ensures a <= c ==> Ratio(a, b) <= Ratio(c, b)
    ensures Ratio(c, b) - Ratio(a, b) == Ratio(c - a, b)
  {
    hide Ratio, Mul;
    RatioTimes(a, b);
    RatioTimes(c, b);
    RatioTimes(c - a, b);
    MulOrder(Ratio(a, b), Ratio(c, b), b);
    MulSplits(Ratio(a, b), Ratio(c, b), b);
    MulOrder(Ratio(c, b) - Ratio(a, b), Ratio(c - a, b), b);
    MulOrder(Ratio(c - a, b), Ratio(c, b) - Ratio(a, b), b);
  }

  /** Two quotients compare as their cross products do. */
  lemma RatioOrder(a: real, b: real, c: real, d: real)
    requires b > 0.0 && d > 0.0
    ensures Ratio(a, b) <= Ratio(c, d) <==> Mul(a, d) <= Mul(c, b)
    ensures Ratio(a, b) < Ratio(c, d) <==> Mul(a, d) < Mul(c, b)
  {
    hide Mul, Ratio;
    var q := Ratio(c, d);
    RatioTimes(c, d);
    RatioAgainst(a, b, q);
    MulOrder(a, Mul(q, b), d);
    MulOrder(Mul(q, b), a, d);
    MulAssociates(q, b, d);
  }
}
