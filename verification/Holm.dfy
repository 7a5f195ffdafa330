/** `holm` of `benchmarks/h2h_artifact.py`: step-down adjusted p-values, in exact arithmetic. */
module Holm {
  import opened Fractions
  import opened Ordering
  import opened Ranking

  function Max(a: real, b: real): real {
    if a < b then b else a
  }

  function CapAtOne(a: real): real {
    if a < 1.0 then a else 1.0
  }

  /** What a rank offers to `running`. */
  function Offer(m: nat, rank: nat, v: real): real
    requires rank <= m
  {
    Mul((m - rank) as real, v)
  }

  /** The offers in the order the loop meets them. */
  ghost function Offers(p: seq<real>, order: seq<nat>): (w: seq<real>)
    requires IsOrder(order, p)
    ensures |w| == |p|
  {
    seq(|p|, r requires 0 <= r < |p| => Offer(|p|, r, p[order[r]]))
  }

  /** `running` after the ranks 0..r. */
  ghost function Running(w: seq<real>, r: nat): real
    requires r < |w|
  {
    Max(if r == 0 then 0.0 else Running(w, r - 1), w[r])
  }

  /**
   The reference, with no sorting and no ranks: p-value j counts against the hypotheses that are
   not strictly below it, and i takes the largest such product among the values up to its own.
   */
  ghost function Weight(p: seq<real>, v: real): real {
    CountsPartition(p, v);
    Offer(|p|, |Below(p, v)|, v)
  }

  ghost function Weights(p: seq<real>): (u: seq<real>)
    ensures |u| == |p|
  {
    seq(|p|, j requires 0 <= j < |p| => Weight(p, p[j]))
  }

  ghost function Largest(u: seq<real>, p: seq<real>, v: real, n: nat): real
    requires n <= |p| == |u|
  {
    if n == 0 then 0.0
    else if p[n - 1] <= v then Max(Largest(u, p, v, n - 1), u[n - 1])
    else Largest(u, p, v, n - 1)
  }

  ghost function HolmOf(p: seq<real>): (adjusted: seq<real>)
    ensures |adjusted| == |p|
  {
    seq(|p|, i requires 0 <= i < |p| => CapAtOne(Largest(Weights(p), p, p[i], |p|)))
  }

  /** p-value j times the number of hypotheses whose p-value is not below it. */
  ghost function Step(p: seq<real>, j: nat): real
    requires j < |p|
  {
    (|p| - |set k: nat | k < |p| && p[k] < p[j]|) as real * p[j]
  }

  /** x is the largest of the products up to p-value i, kept between 0 and 1. */
  ghost predicate IsAdjusted(p: seq<real>, i: nat, x: real)
    requires i < |p|
  {
    && 0.0 <= x <= 1.0
    && (forall j :: 0 <= j < |p| && p[j] <= p[i] ==> Step(p, j) <= x || x == 1.0)
    && (x > 0.0 ==> exists j :: 0 <= j < |p| && p[j] <= p[i] && x <= Step(p, j))
  }

  method HolmAdjust(p: seq<real>) returns (adjusted: seq<real>)
    ensures adjusted == HolmOf(p)
    ensures |adjusted| == |p| && forall i :: 0 <= i < |p| ==> IsAdjusted(p, i, adjusted[i])
  {
    forall i: nat | i < |p| ensures IsAdjusted(p, i, HolmOf(p)[i]) { HolmExactly(p, i); }
    hide IsAdjusted;
    hide Offer, IsOrder, Filled, Stable;
    var order := SortIndices(p);
    ghost var w := Offers(p, order);
    adjusted := seq(|p|, _ => 0.0);
    NoneFilled(p, order, adjusted);
    var running := 0.0;
    for rank := 0 to |p|
      invariant running == if rank == 0 then 0.0 else Running(w, rank - 1)
      invariant |adjusted| == |p| && Filled(p, order, adjusted, rank)
    {
      OneMoreFilled(p, order, adjusted, rank);
      running := Max(running, Offer(|p|, rank, p[order[rank]]));
      adjusted := adjusted[order[rank] := CapAtOne(running)];
    }
    AllFilled(p, order, adjusted);
  }

  /** The first n ranks have their running maximum written at their own index. */
  ghost predicate Filled(p: seq<real>, order: seq<nat>, out: seq<real>, n: nat)
    requires IsOrder(order, p) && |out| == |p|
  {
    n <= |p| && forall k :: 0 <= k < n ==> out[order[k]] == CapAtOne(Running(Offers(p, order), k))
  }

  lemma NoneFilled(p: seq<real>, order: seq<nat>, out: seq<real>)
    requires IsOrder(order, p) && |out| == |p|
    ensures Filled(p, order, out, 0)
  {
  }

  lemma OneMoreFilled(p: seq<real>, order: seq<nat>, out: seq<real>, n: nat)
    requires IsOrder(order, p) && |out| == |p| && n < |p| && Filled(p, order, out, n)
    ensures |order| == |p| && order[n] < |p|
    ensures var w := Offers(p, order);
      && w[n] == Offer(|p|, n, p[order[n]])
      && Filled(p, order, out[order[n] := CapAtOne(Running(w, n))], n + 1)
  {
    hide Offer, CapAtOne, Running;
    forall k | 0 <= k < n ensures order[k] != order[n] {}
  }

  lemma AllFilled(p: seq<real>, order: seq<nat>, out: seq<real>)
    requires IsOrder(order, p) && |out| == |p| && Filled(p, order, out, |p|)
    ensures out == HolmOf(p)
  {
    forall i: nat | i < |p| ensures out[i] == HolmOf(p)[i] {
      assert i in order;
      var k :| 0 <= k < |order| && order[k] == i;
      RunningIsLargest(p, order, k);
    }
  }

  // ---------------------------------------------------------------- running is the reference

  lemma {:induction false} LargestBounds(u: seq<real>, p: seq<real>, v: real, n: nat, j: nat)
    requires j < n <= |p| == |u| && p[j] <= v
    ensures u[j] <= Largest(u, p, v, n)
  {
    if j < n - 1 { LargestBounds(u, p, v, n - 1, j); }
  }

  lemma {:induction false} LargestAttained(u: seq<real>, p: seq<real>, v: real, n: nat) returns (j: nat)
    requires n <= |p| == |u|
    ensures var most := Largest(u, p, v, n); most == 0.0 || (most > 0.0 && j < n && p[j] <= v && most == u[j])
  {
    j := 0;
    if n > 0 {
      j := LargestAttained(u, p, v, n - 1);
      if p[n - 1] <= v && Largest(u, p, v, n - 1) < u[n - 1] { j := n - 1; }
    }
  }

  lemma {:induction false} RunningBounds(w: seq<real>, r: nat, k: nat)
    requires k <= r < |w|
    ensures w[k] <= Running(w, r) && 0.0 <= Running(w, r)
  {
    if k < r { RunningBounds(w, r - 1, k); } else if r > 0 { RunningBounds(w, r - 1, 0); }
  }

  lemma {:induction false} RunningAttained(w: seq<real>, r: nat) returns (k: nat)
    requires r < |w|
    ensures k <= r && (Running(w, r) == 0.0 || Running(w, r) == w[k])
  {
    k := 0;
    if r > 0 {
      k := RunningAttained(w, r - 1);
      if Running(w, r - 1) < w[r] { k := r; }
    }
  }

  /** The first place of the tie group that place k belongs to. */
  lemma {:induction false} FirstOfTies(p: seq<real>, order: seq<nat>, k: nat) returns (f: nat)
    requires IsOrder(order, p) && k < |p|
    ensures f <= k && p[order[f]] == p[order[k]] && f == |Below(p, p[order[k]])|
  {
    if k == 0 || p[order[k - 1]] < p[order[k]] {
      f := k;
      BelowIsPrefix(p, order, k);
    } else {
      assert p[order[k - 1]] <= p[order[k]];
      f := FirstOfTies(p, order, k - 1);
    }
  }

  lemma FactorOrder(f: nat, k: nat, m: nat, v: real)
    requires f <= k <= m
    ensures Offer(m, k, v) <= Max(0.0, Offer(m, f, v))
  {
    hide Mul;
    var a, b := (m - k) as real, (m - f) as real;
    if v >= 0.0 {
      MulGrows(a, b, v);
    } else if a > 0.0 {
      MulCommutes(a, v);
      MulSign(v, a);
    } else {
      MulSplits(a, a, v);
    }
  }

  /** A rank never offers more than its tie group's first rank, which offers the weight. */
  lemma OfferAgainstWeight(p: seq<real>, order: seq<nat>, k: nat) returns (f: nat)
    requires IsOrder(order, p) && k < |p|
    ensures f <= k && p[order[f]] == p[order[k]] && f == |Below(p, p[order[k]])|
    ensures Offers(p, order)[f] == Weights(p)[order[k]]
    ensures Offers(p, order)[k] <= Max(0.0, Weights(p)[order[k]])
  {
    f := FirstOfTies(p, order, k);
    FactorOrder(f, k, |p|, p[order[k]]);
  }

  lemma RunningIsLargest(p: seq<real>, order: seq<nat>, r: nat)
    requires IsOrder(order, p) && r < |p|
    ensures Running(Offers(p, order), r) == Largest(Weights(p), p, p[order[r]], |p|)
  {
    hide Offer;
    RunningAtMostLargest(p, order, r);
    var w, u, v, n := Offers(p, order), Weights(p), p[order[r]], |p|;
    var j := LargestAttained(u, p, v, n);
    RunningBounds(w, r, 0);
    if Largest(u, p, v, n) > 0.0 {
      assert j in order;
      var q :| 0 <= q < |order| && order[q] == j;
      var g := OfferAgainstWeight(p, order, q);
      var f := FirstOfTies(p, order, r);
      assert p[order[q]] == v ==> g == f;
      RunningBounds(w, r, g);
    }
  }

  lemma RunningAtMostLargest(p: seq<real>, order: seq<nat>, r: nat)
    requires IsOrder(order, p) && r < |p|
    ensures Running(Offers(p, order), r) <= Largest(Weights(p), p, p[order[r]], |p|)
  {
    hide Offer;
    var w, u, v, n := Offers(p, order), Weights(p), p[order[r]], |p|;
    var k := RunningAttained(w, r);
    var f := OfferAgainstWeight(p, order, k);
    assert k == r || p[order[k]] <= v;
    LargestBounds(u, p, v, n, order[k]);
    var j := LargestAttained(u, p, v, n);
  }

  // ---------------------------------------------------------------- the sequential test

  /** How many hypotheses the step-down test rejects before its first failure. */
  ghost function RejectedFrom(p: seq<real>, order: seq<nat>, alpha: real, rank: nat): nat
    requires IsOrder(order, p) && rank <= |p|
    decreases |p| - rank
  {
    if rank < |p| && Offer(|p|, rank, p[order[rank]]) <= alpha
    then RejectedFrom(p, order, alpha, rank + 1)
    else rank
  }

  lemma {:induction false} RejectedFromRunning(p: seq<real>, order: seq<nat>, alpha: real, rank: nat, r: nat)
    requires IsOrder(order, p) && rank <= r < |p| && 0.0 <= alpha
    requires rank > 0 ==> Running(Offers(p, order), rank - 1) <= alpha
    ensures Running(Offers(p, order), r) <= alpha <==> r < RejectedFrom(p, order, alpha, rank)
    decreases r - rank
  {
    hide Offer;
    var w := Offers(p, order);
    if w[rank] <= alpha {
      assert Running(w, rank) <= alpha;
      if rank < r {
        RejectedFromRunning(p, order, alpha, rank + 1, r);
      } else {
        RejectedGrows(p, order, alpha, rank + 1);
      }
    } else {
      RunningBounds(w, r, rank);
    }
  }

  lemma {:induction false} RejectedGrows(p: seq<real>, order: seq<nat>, alpha: real, rank: nat)
    requires IsOrder(order, p) && rank <= |p|
    ensures rank <= RejectedFrom(p, order, alpha, rank)
    decreases |p| - rank
  {
    if rank < |p| && Offer(|p|, rank, p[order[rank]]) <= alpha { RejectedGrows(p, order, alpha, rank + 1); }
  }

  lemma {:induction false} RejectedExactly(p: seq<real>, order: seq<nat>, alpha: real, rank: nat, r: nat)
    requires IsOrder(order, p) && rank <= r < |p|
    ensures r < RejectedFrom(p, order, alpha, rank) <==>
      forall k :: rank <= k <= r ==> (|p| - k) as real * p[order[k]] <= alpha
    decreases r - rank
  {
    if Offer(|p|, rank, p[order[rank]]) <= alpha {
      if rank < r { RejectedExactly(p, order, alpha, rank + 1, r); } else { RejectedGrows(p, order, alpha, rank + 1); }
    }
  }

  /**
   Main result: comparing the adjusted value with a level below 1 is the step-down test, however
   the sort broke ties.
   */
  lemma AdjustedDecidesStepDown(p: seq<real>, order: seq<nat>, alpha: real, r: nat)
    requires IsOrder(order, p) && r < |p| && 0.0 <= alpha < 1.0
    ensures HolmOf(p)[order[r]] <= alpha <==> forall k :: 0 <= k <= r ==> (|p| - k) as real * p[order[k]] <= alpha
  {
    RejectedExactly(p, order, alpha, 0, r);
    hide Offer, HolmOf;
    RunningIsLargest(p, order, r);
    RejectedFromRunning(p, order, alpha, 0, r);
  }

  // ---------------------------------------------------------------- properties of the adjustment

  lemma WeightIsStep(p: seq<real>, j: nat)
    requires j < |p|
    ensures Weights(p)[j] == Step(p, j)
  {
    CountsPartition(p, p[j]);
    assert Below(p, p[j]) == set k: nat | k < |p| && p[k] < p[j];
  }

  /** The adjusted value by its products alone. */
  lemma HolmExactly(p: seq<real>, i: nat)
    requires i < |p|
    ensures IsAdjusted(p, i, HolmOf(p)[i])
  {
    hide Step, Weights;
    forall j: nat | j < |p| ensures Weights(p)[j] == Step(p, j) { WeightIsStep(p, j); }
    var u, v, n := Weights(p), p[i], |p|;
    var most := LargestAttained(u, p, v, n);
    forall j | 0 <= j < n && p[j] <= v ensures Step(p, j) <= Largest(u, p, v, n) { LargestBounds(u, p, v, n, j); }
    hide Largest;
  }

  /** At most one value is adjusted. */
  lemma AdjustedIsUnique(p: seq<real>, i: nat, x: real)
    requires i < |p| && IsAdjusted(p, i, x)
    ensures x == HolmOf(p)[i]
  {
    hide HolmOf, Step;
    HolmExactly(p, i);
  }

  /** Between the raw value and the Bonferroni one. */
  lemma AdjustedBetween(p: seq<real>, i: nat)
    requires i < |p| && forall j :: 0 <= j < |p| ==> 0.0 <= p[j] <= 1.0
    ensures p[i] <= HolmOf(p)[i] <= 1.0 && HolmOf(p)[i] <= |p| as real * p[i]
  {
    assert Offer(|p|, 0, p[i]) == |p| as real * p[i];
    hide Offer;
    var u, n := Weights(p), |p|;
    LargestBounds(u, p, p[i], n, i);
    WeightBetween(p, i, p[i]);
    var j := LargestAttained(u, p, p[i], n);
    if Largest(u, p, p[i], n) > 0.0 { WeightBetween(p, j, p[i]); }
  }

  lemma WeightBetween(p: seq<real>, i: nat, top: real)
    requires i < |p| && 0.0 <= p[i] <= top
    ensures p[i] <= Weights(p)[i] <= Offer(|p|, 0, top)
  {
    hide Offer;
    CountsPartition(p, p[i]);
    assert i in Tied(p, p[i]);
    OfferBetween(|p|, |Below(p, p[i])|, p[i], top);
  }

  lemma OfferBetween(m: nat, below: nat, v: real, top: real)
    requires below < m && 0.0 <= v <= top
    ensures v <= Offer(m, below, v) <= Offer(m, 0, top)
  {
    hide Mul;
    var a, b := (m - below) as real, m as real;
    TimesOne(v);
    MulGrows(1.0, a, v);
    MulGrows(a, b, v);
    MulCommutes(b, v);
    MulCommutes(b, top);
    MulGrows(v, top, b);
  }

  /** Adjusting keeps the order of the p-values, and in particular gives ties one value. */
  lemma AdjustedKeepsOrder(p: seq<real>, i: nat, j: nat)
    requires i < |p| && j < |p| && p[i] <= p[j]
    ensures HolmOf(p)[i] <= HolmOf(p)[j]
    ensures p[i] == p[j] ==> HolmOf(p)[i] == HolmOf(p)[j]
  {
    hide Offer;
    var u := Weights(p);
    var k := LargestAttained(u, p, p[i], |p|);
    var l := LargestAttained(u, p, p[j], |p|);
    if Largest(u, p, p[i], |p|) > 0.0 { LargestBounds(u, p, p[j], |p|, k); }
  }

  /** Listing the p-values in another order lists the adjusted ones in that order. */
  lemma AdjustedPermutes(p: seq<real>, perm: seq<nat>, i: nat)
    requires Lists(perm, |p|) && i < |p|
    ensures HolmOf(Shuffled(p, perm))[i] == HolmOf(p)[perm[i]]
  {
    hide Offer;
    var q, v, n := Shuffled(p, perm), p[perm[i]], |p|;
    var u, uq := Weights(p), Weights(q);
    forall l | 0 <= l < n ensures uq[l] == u[perm[l]] {
      BijectionSize(perm, n, Below(q, q[l]), Below(p, q[l]));
    }
    var j := LargestAttained(uq, q, v, n);
    var k := LargestAttained(u, p, v, n);
    if Largest(uq, q, v, n) > 0.0 { LargestBounds(u, p, v, n, perm[j]); }
    if Largest(u, p, v, n) > 0.0 {
      assert k in perm;
      var l :| 0 <= l < n && perm[l] == k;
      LargestBounds(uq, q, v, n, l);
    }
  }
}
