/**
 The exact two-sided binomial p-value of `benchmarks/analyze.py`, against the mass of the
 outcomes that are at least as far from the centre as the observed one.
 */
module Binomial {
  import opened Fractions

  function Abs(x: int): nat {
    if x < 0 then -x else x
  }

  function Min(a: int, b: int): int {
    if a < b then a else b
  }

  function Pow2(n: nat): (p: nat)
    ensures p >= 1
  {
    if n == 0 then 1 else 2 * Pow2(n - 1)
  }

  function Factorial(n: nat): (f: nat)
    ensures f >= 1
  {
    if n == 0 then 1 else n * Factorial(n - 1)
  }

  /** `math.comb`, by Pascal's rule. CombIsFactorialQuotient ties it to the factorials. */
  function Comb(n: nat, k: int): nat {
    if k < 0 || k > n then 0
    else if n == 0 then 1
    else Comb(n - 1, k - 1) + Comb(n - 1, k)
  }

  lemma {:induction false} CombIsFactorialQuotient(n: nat, k: nat)
    requires k <= n
    ensures Comb(n, k) * (Factorial(k) * Factorial(n - k)) == Factorial(n)
  {
    if n != 0 {
      var f := Factorial(n - 1);
      var left := Comb(n - 1, k - 1) * (Factorial(k) * Factorial(n - k));
      var right := Comb(n - 1, k) * (Factorial(k) * Factorial(n - k));
      if k > 0 {
        CombIsFactorialQuotient(n - 1, k - 1);
        Scale(Comb(n - 1, k - 1), k, Factorial(k - 1), Factorial(n - k));
        assert left == k * f;
      }
      if k < n {
        CombIsFactorialQuotient(n - 1, k);
        Scale(Comb(n - 1, k), n - k, Factorial(k), Factorial(n - k - 1));
        assert right == (n - k) * f;
      }
      assert left == k * f && right == (n - k) * f;
      Distribute(Comb(n - 1, k - 1), Comb(n - 1, k), Factorial(k) * Factorial(n - k));
      assert k * f + (n - k) * f == n * f by { Distribute(k, n - k, f); }
    }
  }

  lemma Scale(c: int, k: int, a: int, b: int)
    ensures c * ((k * a) * b) == k * (c * (a * b)) == c * (a * (k * b))
  {
    assert (k * a) * b == k * (a * b) == a * (k * b);
    assert c * (k * (a * b)) == k * (c * (a * b));
  }

  lemma Distribute(a: int, b: int, m: int)
    ensures a * m + b * m == (a + b) * m
  {
  }

  lemma {:induction false} CombSymmetric(n: nat, k: int)
    ensures Comb(n, k) == Comb(n, n - k)
  {
    if n != 0 && 0 <= k <= n {
      CombSymmetric(n - 1, k - 1);
      CombSymmetric(n - 1, k);
    }
  }

  lemma {:induction false} CombPositive(n: nat, k: int)
    requires 0 <= k <= n
    ensures Comb(n, k) >= 1
  {
    if n != 0 {
      if k == 0 { CombPositive(n - 1, 0); } else { CombPositive(n - 1, k - 1); }
    }
  }

  /** The mass of the outcomes `lo <= i < hi`. */
  function MassBetween(n: nat, lo: int, hi: int): nat
    decreases hi - lo
  {
    if hi <= lo then 0 else MassBetween(n, lo, hi - 1) + Comb(n, hi - 1)
  }

  lemma {:induction false} MassSplits(n: nat, lo: int, mid: int, hi: int)
    requires lo <= mid <= hi
    ensures MassBetween(n, lo, hi) == MassBetween(n, lo, mid) + MassBetween(n, mid, hi)
    decreases hi - mid
  {
    if mid < hi { MassSplits(n, lo, mid, hi - 1); }
  }

  lemma {:induction false} MassPascal(n: nat, lo: int, hi: int)
    requires n > 0 && 0 <= lo && hi <= n + 1
    ensures MassBetween(n, lo, hi) == MassBetween(n - 1, lo - 1, hi - 1) + MassBetween(n - 1, lo, hi)
    decreases hi - lo
  {
    if lo < hi { MassPascal(n, lo, hi - 1); }
  }

  /** The mass is the same read from either end of the row. */
  lemma {:induction false} MassReflects(n: nat, lo: int, hi: int)
    requires lo <= hi
    ensures MassBetween(n, lo, hi) == MassBetween(n, n + 1 - hi, n + 1 - lo)
    decreases hi - lo
  {
    if lo < hi {
      MassReflects(n, lo, hi - 1);
      CombSymmetric(n, hi - 1);
      MassSplits(n, n + 1 - hi, n + 2 - hi, n + 1 - lo);
      assert MassBetween(n, n + 1 - hi, n + 2 - hi) == MassBetween(n, n + 1 - hi, n + 1 - hi) + Comb(n, n + 1 - hi);
    }
  }

  lemma {:induction false} RowMass(n: nat)
    ensures MassBetween(n, 0, n + 1) == Pow2(n)
  {
    if n == 0 {
      assert MassBetween(0, 0, 1) == MassBetween(0, 0, 0) + Comb(0, 0);
    } else {
      MassPascal(n, 0, n + 1);
      RowMass(n - 1);
      MassSplits(n - 1, -1, 0, n);
      assert MassBetween(n - 1, -1, 0) == MassBetween(n - 1, -1, -1) + Comb(n - 1, -1);
    }
  }

  /** `sum(math.comb(n, i) for i in range(tail + 1))`. */
  function Cumulative(n: nat, tail: int): nat {
    MassBetween(n, 0, tail + 1)
  }

  /** `exact_binomial_two_sided(successes, n)` in exact arithmetic. */
  function TwoSided(successes: int, n: int): real {
    if n <= 0 then 1.0
    else
      var tail := Min(successes, n - successes);
      var doubled := (2 * Cumulative(n, tail)) as real / Pow2(n) as real;
      if doubled < 1.0 then doubled else 1.0
  }

  /**
   The reference: the mass of every outcome i with |2i - n| >= d among the first `upto`,
   counted without tails, doubling or a clamp.
   */
  function ExtremeMass(n: nat, d: nat, upto: nat): nat {
    if upto == 0 then 0
    else ExtremeMass(n, d, upto - 1) + if Abs(2 * (upto - 1) - n) >= d then Comb(n, upto - 1) else 0
  }

  /** Over the first `u` outcomes the extreme ones are those up to t or from n - t on. */
  lemma {:induction false} ExtremeMassIsTwoTails(n: nat, t: nat, u: nat)
    requires 2 * t < n && u <= n + 1
    ensures ExtremeMass(n, n - 2 * t, u) ==
            MassBetween(n, 0, Min(u, t + 1)) + MassBetween(n, n - t, u)
  {
    if u > 0 { ExtremeMassIsTwoTails(n, t, u - 1); }
  }

  lemma {:induction false} ExtremeMassOfZero(n: nat, u: nat)
    ensures ExtremeMass(n, 0, u) == MassBetween(n, 0, u)
  {
    if u > 0 { ExtremeMassOfZero(n, u - 1); }
  }

  lemma DoubledTailIsExtremeMass(n: nat, t: nat)
    requires 2 * t < n
    ensures 2 * Cumulative(n, t) == ExtremeMass(n, n - 2 * t, n + 1) <= Pow2(n)
    ensures 2 * Cumulative(n, t) < Pow2(n) || 2 * t + 1 == n
  {
    hide Comb, Pow2, MassBetween, ExtremeMass;
    ExtremeMassIsTwoTails(n, t, n + 1);
    MassReflects(n, 0, t + 1);
    RowMass(n);
    MassSplits(n, 0, t + 1, n + 1);
    MassSplits(n, t + 1, n - t, n + 1);
    if 2 * t + 1 < n {
      MassSplits(n, t + 1, t + 2, n - t);
      OneOutcome(n, t + 1);
    }
  }

  lemma OneOutcome(n: nat, k: nat)
    requires k <= n
    ensures MassBetween(n, k, k + 1) == Comb(n, k) >= 1
  {
    assert MassBetween(n, k, k + 1) == MassBetween(n, k, k) + Comb(n, k);
    CombPositive(n, k);
  }

  /**
   Main result: for a sample of n >= 1 the clamped, doubled tail is the probability, under a
   fair coin, of an outcome at least as far from the centre as the one seen.
   */
  lemma TwoSidedIsExtremeProbability(s: nat, n: nat)
    requires 1 <= n && s <= n
    ensures TwoSided(s, n) == ExtremeMass(n, Abs(2 * s - n), n + 1) as real / Pow2(n) as real
  {
    var tail := Min(s, n - s);
    var mass := ExtremeMass(n, Abs(2 * s - n), n + 1);
    assert Abs(2 * s - n) == n - 2 * tail;
    if 2 * tail < n {
      DoubledTailIsExtremeMass(n, tail);
    } else {
      ExtremeMassOfZero(n, n + 1);
      RowMass(n);
      ClampNeededAtCentre(s, n);
    }
    assert mass == Min(2 * Cumulative(n, tail), Pow2(n));
    ClampIsMin(2 * Cumulative(n, tail), Pow2(n));
  }

  lemma ClampIsMin(a: nat, b: nat)
    requires b >= 1
    ensures var q := a as real / b as real;
      Min(a, b) as real / b as real == if q < 1.0 then q else 1.0
  {
    QuotientBelowOne(a, b);
  }

  lemma QuotientBelowOne(a: nat, b: nat)
    requires b >= 1
    ensures a < b <==> a as real / b as real < 1.0
    ensures a > b <==> a as real / b as real > 1.0
  {
    var x, y := a as real, b as real;
    assert x / y == Ratio(x, y);
    hide Ratio, Mul;
    RatioAgainst(x, y, 1.0);
    TimesOne(y);
  }

  lemma ClampNeededAtCentre(s: nat, n: nat)
    requires 1 <= n && 2 * s == n
    ensures 2 * Cumulative(n, s) == Pow2(n) + Comb(n, s) > Pow2(n)
  {
    RowMass(n);
    MassSplits(n, 0, s + 1, n + 1);
    MassReflects(n, 0, s);
    assert MassBetween(n, 0, s + 1) == MassBetween(n, 0, s) + Comb(n, s);
    CombPositive(n, s);
  }

  /** Doubling overshoots 1 exactly in the tied case, so that is the only case the clamp serves. */
  lemma ClampOnlyAtCentre(s: nat, n: nat)
    requires 1 <= n && s <= n
    ensures (2 * Cumulative(n, Min(s, n - s))) as real / Pow2(n) as real > 1.0 <==> 2 * s == n
  {
    var tail := Min(s, n - s);
    if 2 * s == n {
      ClampNeededAtCentre(s, n);
    } else {
      DoubledTailIsExtremeMass(n, tail);
    }
    QuotientBelowOne(2 * Cumulative(n, tail), Pow2(n));
  }

  lemma {:induction false} ExtremeMassShrinks(n: nat, d: nat, e: nat, u: nat)
    requires d <= e
    ensures ExtremeMass(n, e, u) <= ExtremeMass(n, d, u)
  {
    if u > 0 { ExtremeMassShrinks(n, d, e, u - 1); }
  }

  lemma ExtremeMassPositive(n: nat, d: nat)
    requires d <= n
    ensures ExtremeMass(n, d, n + 1) >= 1
  {
    CombPositive(n, n);
  }

  /** A more lopsided outcome never gets a larger p-value, and every p-value lies in (0, 1]. */
  lemma TwoSidedShrinksWithDistance(s: nat, r: nat, n: nat)
    requires 1 <= n && s <= n && r <= n && Abs(2 * s - n) <= Abs(2 * r - n)
    ensures 0.0 < TwoSided(r, n) <= TwoSided(s, n) <= 1.0
  {
    TwoSidedIsExtremeProbability(s, n);
    TwoSidedIsExtremeProbability(r, n);
    ExtremeMassShrinks(n, Abs(2 * s - n), Abs(2 * r - n), n + 1);
    ExtremeMassPositive(n, Abs(2 * r - n));
    DivideMonotone(ExtremeMass(n, Abs(2 * r - n), n + 1), ExtremeMass(n, Abs(2 * s - n), n + 1), Pow2(n));
  }

  lemma DivideMonotone(a: nat, b: nat, m: nat)
    requires 1 <= a <= b && m >= 1
    ensures 0.0 < a as real / m as real <= b as real / m as real
  {
    var x, y, k := a as real, b as real, m as real;
    assert x / k == Ratio(x, k) && y / k == Ratio(y, k);
    assert Mul(0.0, k) == 0.0;
    hide Ratio, Mul;
    RatioAgainst(x, k, 0.0);
    SameDenominator(x, y, k);
  }

  /** Which side of the centre the outcome fell on does not matter. */
  lemma TwoSidedSymmetric(s: int, n: int)
    ensures TwoSided(s, n) == TwoSided(n - s, n)
  {
  }
}
