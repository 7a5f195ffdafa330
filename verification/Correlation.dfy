/** `_spearman` of `benchmarks/calibration_drift.py`: Pearson's quotient over averaged ranks. */
module Correlation {
  import opened Fractions
  import opened Ordering
  import opened Ranking

  /**
   The square root stays symbolic: a coefficient is `numerator` over the non-negative root of
   `squared`. The source returns nan where there is nothing to order, and raises where the two
   lists have different lengths.
   */
  datatype Coefficient = NotANumber | Raises | Quotient(numerator: real, squared: real)

  function Dot(a: seq<real>, b: seq<real>): real
    requires |a| == |b|
  {
    if a == [] then 0.0 else Dot(a[..|a| - 1], b[..|b| - 1]) + Mul(a[|a| - 1], b[|b| - 1])
  }

  ghost function Mean(r: seq<real>): real
    requires r != []
  {
    Sum(r) / |r| as real
  }

  ghost function Deviations(r: seq<real>): (d: seq<real>)
    requires r != []
    ensures |d| == |r|
  {
    seq(|r|, i requires 0 <= i < |r| => r[i] - Mean(r))
  }

  /** `num / den if den else nan`. */
  function Assess(num: real, sx: real, sy: real): Coefficient {
    if Mul(sx, sy) == 0.0 then NotANumber else Quotient(num, Mul(sx, sy))
  }

  ghost function SpearmanOf(xs: seq<real>, ys: seq<real>): Coefficient {
    if |xs| < 3 then NotANumber
    else if |ys| != |xs| then Raises
    else
      var dx, dy := Deviations(RanksOf(xs)), Deviations(RanksOf(ys));
      Assess(Dot(dx, dy), Dot(dx, dx), Dot(dy, dy))
  }

  method MeanOf(r: seq<real>) returns (mean: real)
    requires r != []
    ensures mean == Mean(r)
  {
    var total := 0.0;
    for i := 0 to |r|
      invariant total == Sum(r[..i])
    {
      assert r[..i + 1][..i] == r[..i];
      total := total + r[i];
    }
    assert r[..|r|] == r;
    mean := total / |r| as real;
  }

  method Spearman(xs: seq<real>, ys: seq<real>) returns (c: Coefficient)
    ensures c == SpearmanOf(xs, ys)
  {
    hide Mul;
    if |xs| < 3 { return NotANumber; }
    var rx := Ranks(xs);
    var ry := Ranks(ys);
    if |ry| != |rx| { return Raises; }
    var mx := MeanOf(rx);
    var my := MeanOf(ry);
    var num, sx, sy := SumsOfProducts(rx, ry, mx, my);
    c := Assess(num, sx, sy);
  }

  method SumsOfProducts(rx: seq<real>, ry: seq<real>, mx: real, my: real) returns (num: real, sx: real, sy: real)
    requires |rx| == |ry| > 0 && mx == Mean(rx) && my == Mean(ry)
    ensures num == Dot(Deviations(rx), Deviations(ry))
    ensures sx == Dot(Deviations(rx), Deviations(rx)) && sy == Dot(Deviations(ry), Deviations(ry))
  {
    hide Mul;
    ghost var dx, dy := Deviations(rx), Deviations(ry);
    num, sx, sy := 0.0, 0.0, 0.0;
    for i := 0 to |rx|
      invariant num == Dot(dx[..i], dy[..i])
      invariant sx == Dot(dx[..i], dx[..i]) && sy == Dot(dy[..i], dy[..i])
    {
      assert dx[..i + 1][..i] == dx[..i] && dy[..i + 1][..i] == dy[..i];
      var a, b := rx[i] - mx, ry[i] - my;
      assert dx[i] == a && dy[i] == b;
      num := num + Mul(a, b);
      sx := sx + Mul(a, a);
      sy := sy + Mul(b, b);
    }
    assert dx[..|rx|] == dx && dy[..|rx|] == dy;
  }

  // ---------------------------------------------------------------- arithmetic of products

  lemma NoZeroDivisors(a: real, b: real)
    ensures Mul(a, b) == 0.0 <==> a == 0.0 || b == 0.0
  {
  }

  lemma Square(x: real)
    ensures Mul(x, x) >= 0.0 && (Mul(x, x) == 0.0 <==> x == 0.0)
  {
    NoZeroDivisors(x, x);
  }

  lemma SquareOrder(a: real, b: real)
    requires 0.0 <= a < b
    ensures Mul(a, a) < Mul(b, b)
  {
    MulSign(b - a, b + a);
    assert b * b - a * a == (b - a) * (b + a);
  }

  lemma EqualSquares(a: real, b: real)
    requires a >= 0.0 && b >= 0.0 && Mul(a, a) == Mul(b, b)
    ensures a == b
  {
    hide Mul;
    if a < b { SquareOrder(a, b); } else if b < a { SquareOrder(b, a); }
  }

  lemma NegatedProducts(a: real, b: real)
    ensures Mul(-a, -b) == Mul(a, b) && Mul(a, -b) == -Mul(a, b) == Mul(-a, b)
  {
  }

  lemma QuotientWithinOne(num: real, root: real)
    requires root > 0.0 && Mul(num, num) <= Mul(root, root)
    ensures -1.0 <= num / root <= 1.0
  {
    assert -root <= num <= root by {
      hide Mul;
      NegatedProducts(num, num);
      if num > root { SquareOrder(root, num); } else if num < -root { SquareOrder(root, -num); }
    }
    assert num / root == Ratio(num, root);
    hide Mul, Ratio;
    RatioAgainst(num, root, 1.0);
    RatioAgainst(num, root, -1.0);
    TimesOne(root);
    NegatedProducts(1.0, root);
  }

  /** One more coordinate keeps the Cauchy-Schwarz inequality. */
  lemma CauchySchwarzStep(p: real, a: real, b: real, x: real, y: real)
    requires a >= 0.0 && b >= 0.0 && Mul(p, p) <= Mul(a, b)
    ensures var q := p + Mul(x, y); Mul(q, q) <= Mul(a + Mul(x, x), b + Mul(y, y))
  {
    var cross := Mul(a, Mul(y, y)) + Mul(b, Mul(x, x)) - 2.0 * Mul(p, Mul(x, y));
    assert cross >= 0.0 by {
      hide Mul;
      CrossTerms(p, a, b, x, y, cross);
    }
    Expanded(p, a, b, x, y);
  }

  lemma Expanded(p: real, a: real, b: real, x: real, y: real)
    ensures var z, u, v := Mul(x, y), Mul(x, x), Mul(y, y);
      && Mul(p + z, p + z) == Mul(p, p) + 2.0 * Mul(p, z) + Mul(z, z)
      && Mul(a + u, b + v) == Mul(a, b) + Mul(a, v) + Mul(b, u) + Mul(u, v)
      && Mul(z, z) == Mul(u, v)
  {
  }

  lemma CrossTerms(p: real, a: real, b: real, x: real, y: real, cross: real)
    requires a >= 0.0 && b >= 0.0 && Mul(p, p) <= Mul(a, b)
    requires cross == Mul(a, Mul(y, y)) + Mul(b, Mul(x, x)) - 2.0 * Mul(p, Mul(x, y))
    ensures cross >= 0.0
  {
    hide Mul;
    Square(x);
    if a == 0.0 {
      NoZeroDivisors(a, b);
      NoZeroDivisors(a, Mul(y, y));
      Square(p);
      NoZeroDivisors(p, Mul(x, y));
      MulGrows(b, b, Mul(x, x));
    } else {
      Square(Mul(a, y) - Mul(p, x));
      MulGrows(Mul(a, b) - Mul(p, p), Mul(a, b) - Mul(p, p), Mul(x, x));
      ScaledCross(p, a, b, x, y);
      if cross < 0.0 {
        MulSign(a, -cross);
        NegatedProducts(a, cross);
      }
    }
  }

  lemma ScaledCross(p: real, a: real, b: real, x: real, y: real)
    ensures Mul(a, Mul(a, Mul(y, y)) + Mul(b, Mul(x, x)) - 2.0 * Mul(p, Mul(x, y)))
         == Mul(Mul(a, y) - Mul(p, x), Mul(a, y) - Mul(p, x)) + Mul(Mul(a, b) - Mul(p, p), Mul(x, x))
  {
  }

  // ---------------------------------------------------------------- the bound

  lemma {:induction false} DotSelfNonNegative(a: seq<real>)
    ensures Dot(a, a) >= 0.0
    ensures Dot(a, a) == 0.0 <==> forall i :: 0 <= i < |a| ==> a[i] == 0.0
  {
    hide Mul;
    if a != [] {
      var b, x := a[..|a| - 1], a[|a| - 1];
      DotSelfNonNegative(b);
      Square(x);
      if Dot(b, b) != 0.0 {
        var i :| 0 <= i < |b| && b[i] != 0.0;
        assert a[i] != 0.0;
      }
    }
  }

  lemma {:induction false} CauchySchwarz(a: seq<real>, b: seq<real>)
    requires |a| == |b|
    ensures Mul(Dot(a, b), Dot(a, b)) <= Mul(Dot(a, a), Dot(b, b))
  {
    hide Mul;
    if a == [] {
      NoZeroDivisors(0.0, 0.0);
    } else {
      var a0, b0 := a[..|a| - 1], b[..|b| - 1];
      CauchySchwarz(a0, b0);
      DotSelfNonNegative(a0);
      DotSelfNonNegative(b0);
      CauchySchwarzStep(Dot(a0, b0), Dot(a0, a0), Dot(b0, b0), a[|a| - 1], b[|b| - 1]);
    }
  }

  /** Whenever a coefficient is returned it lies between -1 and 1. */
  lemma SpearmanIsBounded(xs: seq<real>, ys: seq<real>, root: real)
    requires SpearmanOf(xs, ys).Quotient?
    requires root >= 0.0 && Mul(root, root) == SpearmanOf(xs, ys).squared
    ensures root > 0.0 && -1.0 <= SpearmanOf(xs, ys).numerator / root <= 1.0
  {
    hide Mul;
    CauchySchwarz(Deviations(RanksOf(xs)), Deviations(RanksOf(ys)));
    NoZeroDivisors(root, root);
    QuotientWithinOne(SpearmanOf(xs, ys).numerator, root);
  }

  // ---------------------------------------------------------------- when it is nan, 1 and -1

  ghost predicate AllTied(values: seq<real>) {
    forall i, j :: 0 <= i < |values| && 0 <= j < |values| ==> values[i] == values[j]
  }

  lemma MeanRank(values: seq<real>)
    requires values != []
    ensures Mean(RanksOf(values)) == (|values| as real + 1.0) / 2.0
  {
    RanksSum(values);
    MeanOfTriangle(|values|);
  }

  lemma MeanOfTriangle(n: nat)
    requires n >= 1
    ensures (n * (n + 1)) as real / 2.0 / n as real == (n as real + 1.0) / 2.0
  {
    var x, h := n as real, (n as real + 1.0) / 2.0;
    assert (n * (n + 1)) as real == x * (n as real + 1.0);
    assert (n * (n + 1)) as real / 2.0 == x * h by { Halved(x, n as real + 1.0); }
    Halved(x, h);
  }

  lemma Halved(x: real, y: real)
    requires x != 0.0
    ensures x * y / 2.0 == x * (y / 2.0) && x * y / x == y
  {
  }

  /** The sum over the first n places of the products of how far the two ranks are from the middle rank. */
  ghost function RankProducts(xs: seq<real>, ys: seq<real>, n: nat): real
    requires n <= |xs| == |ys|
  {
    if n == 0 then 0.0
    else
      var middle := (|xs| as real + 1.0) / 2.0;
      RankProducts(xs, ys, n - 1) + (RankOf(xs, xs[n - 1]) - middle) * (RankOf(ys, ys[n - 1]) - middle)
  }

  lemma DeviationAt(xs: seq<real>, i: nat)
    requires i < |xs|
    ensures Deviations(RanksOf(xs))[i] == RankOf(xs, xs[i]) - (|xs| as real + 1.0) / 2.0
  {
    MeanRank(xs);
    hide Mean, RankOf;
  }

  lemma DotStep(a: seq<real>, b: seq<real>, n: nat)
    requires 1 <= n <= |a| == |b|
    ensures Dot(a[..n], b[..n]) == Dot(a[..n - 1], b[..n - 1]) + a[n - 1] * b[n - 1]
  {
    assert a[..n][..n - 1] == a[..n - 1] && b[..n][..n - 1] == b[..n - 1];
  }

  lemma {:induction false} DotIsRankProducts(xs: seq<real>, ys: seq<real>, n: nat)
    requires n <= |xs| == |ys| && xs != []
    ensures var dx, dy := Deviations(RanksOf(xs)), Deviations(RanksOf(ys));
      Dot(dx[..n], dy[..n]) == RankProducts(xs, ys, n)
  {
    hide Deviations, RankOf;
    if n > 0 {
      DotIsRankProducts(xs, ys, n - 1);
      DotStep(Deviations(RanksOf(xs)), Deviations(RanksOf(ys)), n);
      DeviationAt(xs, n - 1);
      DeviationAt(ys, n - 1);
      hide Dot;
    }
  }

  /** The coefficient by the ranks alone. */
  lemma SpearmanExactly(xs: seq<real>, ys: seq<real>)
    requires |xs| == |ys| >= 3
    ensures var n := |xs|;
      var squared := RankProducts(xs, xs, n) * RankProducts(ys, ys, n);
      SpearmanOf(xs, ys) == if squared == 0.0 then NotANumber else Quotient(RankProducts(xs, ys, n), squared)
  {
    hide RankProducts, Deviations, Dot;
    var n, dx, dy := |xs|, Deviations(RanksOf(xs)), Deviations(RanksOf(ys));
    assert dx[..n] == dx && dy[..n] == dy;
    DotIsRankProducts(xs, ys, n);
    DotIsRankProducts(xs, xs, n);
    DotIsRankProducts(ys, ys, n);
  }

  lemma NoSpreadIffAllTied(values: seq<real>)
    requires values != []
    ensures var d := Deviations(RanksOf(values)); Dot(d, d) == 0.0 <==> AllTied(values)
  {
    hide Mul;
    var d := Deviations(RanksOf(values));
    DotSelfNonNegative(d);
    if Dot(d, d) == 0.0 {
      forall i, j | 0 <= i < |values| && 0 <= j < |values| ensures values[i] == values[j] {
        assert d[i] == 0.0 && d[j] == 0.0;
        RankIsMonotone(values, i, j);
        RankIsMonotone(values, j, i);
      }
    }
    if AllTied(values) {
      MeanRank(values);
      forall i | 0 <= i < |d| ensures d[i] == 0.0 {
        assert Below(values, values[i]) == {};
        assert Above(values, values[i]) == {};
        CountsPartition(values, values[i]);
      }
    }
  }

  /** On lists of one length, nan means fewer than three points or one list with no spread at all. */
  lemma NotANumberExactly(xs: seq<real>, ys: seq<real>)
    requires |xs| == |ys|
    ensures SpearmanOf(xs, ys).NotANumber? <==> |xs| < 3 || AllTied(xs) || AllTied(ys)
  {
    hide Mul;
    if |xs| >= 3 {
      NoSpreadIffAllTied(xs);
      NoSpreadIffAllTied(ys);
      var dx, dy := Deviations(RanksOf(xs)), Deviations(RanksOf(ys));
      NoZeroDivisors(Dot(dx, dx), Dot(dy, dy));
    }
  }

  /** Only the order of each list matters, so strictly increasing maps of either change nothing. */
  lemma SpearmanIgnoresScale(xs: seq<real>, ys: seq<real>, us: seq<real>, vs: seq<real>)
    requires SameOrder(xs, us) && SameOrder(ys, vs)
    ensures SpearmanOf(xs, ys) == SpearmanOf(us, vs)
  {
    hide Mul;
    RanksIgnoreScale(xs, us);
    RanksIgnoreScale(ys, vs);
  }

  lemma {:induction false} DotNegates(a: seq<real>, b: seq<real>)
    requires |a| == |b| && forall i :: 0 <= i < |a| ==> b[i] == -a[i]
    ensures Dot(a, b) == -Dot(a, a) && Dot(b, b) == Dot(a, a)
  {
    hide Mul;
    if a != [] {
      DotNegates(a[..|a| - 1], b[..|b| - 1]);
      NegatedProducts(a[|a| - 1], a[|a| - 1]);
    }
  }

  /** Two lists in the same order correlate at 1, in opposite orders at -1. */
  lemma SpearmanExtremes(xs: seq<real>, ys: seq<real>, root: real)
    requires SpearmanOf(xs, ys).Quotient?
    requires root >= 0.0 && Mul(root, root) == SpearmanOf(xs, ys).squared
    ensures SameOrder(xs, ys) ==> SpearmanOf(xs, ys).numerator == root
    ensures OppositeOrder(xs, ys) ==> SpearmanOf(xs, ys).numerator == -root
  {
    hide Mul;
    var dx, dy := Deviations(RanksOf(xs)), Deviations(RanksOf(ys));
    DotSelfNonNegative(dx);
    if SameOrder(xs, ys) {
      RanksIgnoreScale(xs, ys);
      EqualSquares(root, Dot(dx, dx));
    }
    if OppositeOrder(xs, ys) {
      OppositeDeviations(xs, ys);
      DotNegates(dx, dy);
      EqualSquares(root, Dot(dx, dx));
    }
  }

  lemma OppositeDeviations(xs: seq<real>, ys: seq<real>)
    requires xs != [] && OppositeOrder(xs, ys)
    ensures var dx, dy := Deviations(RanksOf(xs)), Deviations(RanksOf(ys));
      forall i :: 0 <= i < |dx| ==> dy[i] == -dx[i]
  {
    RanksReverse(xs, ys);
    MeanRank(xs);
    MeanRank(ys);
  }
}
