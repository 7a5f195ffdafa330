/** The averaged ranks inside `_spearman` of `benchmarks/calibration_drift.py`. */
module Ranking {
  import opened Sets
  import opened Ordering

  // ---------------------------------------------------------------- ranks, ties averaged

  /** The indices holding a value smaller than v, equal to v, and larger than v. */
  ghost function Below(values: seq<real>, v: real): set<nat> {
    set i: nat | i < |values| && values[i] < v
  }

  ghost function Tied(values: seq<real>, v: real): set<nat> {
    set i: nat | i < |values| && values[i] == v
  }

  ghost function Above(values: seq<real>, v: real): set<nat> {
    set i: nat | i < |values| && values[i] > v
  }

  /** The average of the places a value takes in the sorted list: smaller + (equal + 1) / 2. */
  ghost function RankOf(values: seq<real>, v: real): real {
    |Below(values, v)| as real + (|Tied(values, v)| as real + 1.0) / 2.0
  }

  ghost function RanksOf(values: seq<real>): (r: seq<real>)
    ensures |r| == |values|
  {
    seq(|values|, i requires 0 <= i < |values| => RankOf(values, values[i]))
  }

  /** Where a run of equal keys starts, everything before it is smaller. */
  lemma BelowIsPrefix(values: seq<real>, order: seq<nat>, p: nat)
    requires IsOrder(order, values) && p < |order|
    requires p == 0 || values[order[p - 1]] < values[order[p]]
    ensures |Below(values, values[order[p]])| == p
  {
    var v, before := values[order[p]], set k | 0 <= k < p :: order[k];
    forall i: nat | i < |values| ensures i in Below(values, v) <==> i in before {
      assert i in order;
      var k :| 0 <= k < |order| && order[k] == i;
      if k < p { assert k == p - 1 || values[order[k]] <= values[order[p - 1]]; }
      assert forall j :: 0 <= j < |order| && order[j] == i ==> j == k;
    }
    assert Below(values, v) == before;
    ImageSize(order, 0, p);
  }

  /** A maximal run of equal keys, places p to e, is what the averaging loop finds. */
  lemma RunCounts(values: seq<real>, order: seq<nat>, p: nat, e: nat)
    requires IsOrder(order, values) && p <= e < |order|
    requires values[order[e]] == values[order[p]]
    requires p == 0 || values[order[p - 1]] < values[order[p]]
    requires e + 1 == |order| || values[order[p]] < values[order[e + 1]]
    ensures |Below(values, values[order[p]])| == p
    ensures |Tied(values, values[order[p]])| == e + 1 - p
  {
    BelowIsPrefix(values, order, p);
    var v, run := values[order[p]], set k | p <= k < e + 1 :: order[k];
    forall i: nat | i < |values| ensures i in Tied(values, v) <==> i in run {
      assert i in order;
      var k :| 0 <= k < |order| && order[k] == i;
      PlaceInRun(values, order, p, e, k);
      assert forall j :: 0 <= j < |order| && order[j] == i ==> j == k;
    }
    assert Tied(values, v) == run;
    ImageSize(order, p, e + 1);
  }

  lemma PlaceInRun(values: seq<real>, order: seq<nat>, p: nat, e: nat, k: nat)
    requires IsOrder(order, values) && p <= e < |order| && k < |order|
    requires values[order[e]] == values[order[p]]
    requires p == 0 || values[order[p - 1]] < values[order[p]]
    requires e + 1 == |order| || values[order[p]] < values[order[e + 1]]
    ensures values[order[k]] == values[order[p]] <==> p <= k <= e
  {
    if k < p { assert k == p - 1 || values[order[k]] <= values[order[p - 1]]; }
    if p < k <= e { assert k == e || values[order[k]] <= values[order[e]]; }
    if k > e { assert k == e + 1 || values[order[e + 1]] <= values[order[k]]; }
  }

  lemma RunRank(values: seq<real>, order: seq<nat>, p: nat, e: nat)
    requires IsOrder(order, values) && p <= e < |order|
    requires values[order[e]] == values[order[p]]
    requires p == 0 || values[order[p - 1]] < values[order[p]]
    requires e + 1 == |order| || values[order[p]] < values[order[e + 1]]
    ensures RankOf(values, values[order[p]]) == (p + e) as real / 2.0 + 1.0
  {
    RunCounts(values, order, p, e);
    hide IsOrder, Below, Tied;
  }

  method Ranks(values: seq<real>) returns (ranks: seq<real>)
    ensures ranks == RanksOf(values)
  {
    hide Stable, RankOf;
    var order := SortIndices(values);
    var n := |values|;
    var out := new real[n](_ => 0.0);
    var position := 0;
    while position < n
      invariant 0 <= position <= n
      invariant 0 < position < n ==> values[order[position - 1]] < values[order[position]]
      invariant forall k :: 0 <= k < position ==> out[order[k]] == RankOf(values, values[order[k]])
    {
      var end := position;
      while end + 1 < n && values[order[end + 1]] == values[order[position]]
        invariant position <= end < n
        invariant values[order[end]] == values[order[position]]
      {
        end := end + 1;
      }
      if end + 1 < n { assert values[order[end]] <= values[order[end + 1]]; }
      var average := (position + end) as real / 2.0 + 1.0;
      RunRank(values, order, position, end);
      for index := position to end + 1
        invariant forall k :: 0 <= k < position ==> out[order[k]] == RankOf(values, values[order[k]])
        invariant forall k :: position <= k < index ==> out[order[k]] == average
      {
        out[order[index]] := average;
      }
      forall k | position <= k <= end ensures out[order[k]] == RankOf(values, values[order[k]]) {
        assert values[order[position]] <= values[order[k]] <= values[order[end]];
      }
      position := end + 1;
    }
    forall i: nat | i < n ensures out[i] == RankOf(values, values[i]) {
      assert i in order;
    }
    ranks := out[..];
  }

  // ---------------------------------------------------------------- the sum of the ranks

  ghost function Sum(s: seq<real>): real {
    if s == [] then 0.0 else Sum(s[..|s| - 1]) + s[|s| - 1]
  }

  ghost function CountBelow(s: seq<real>, v: real): nat {
    if s == [] then 0 else CountBelow(s[..|s| - 1], v) + if s[|s| - 1] < v then 1 else 0
  }

  ghost function CountAbove(s: seq<real>, v: real): nat {
    if s == [] then 0 else CountAbove(s[..|s| - 1], v) + if s[|s| - 1] > v then 1 else 0
  }

  lemma {:induction false} CountBelowIsSize(s: seq<real>, v: real)
    ensures CountBelow(s, v) == |Below(s, v)|
  {
    if s == [] {
      assert Below(s, v) == {};
    } else {
      var t, n := s[..|s| - 1], |s| - 1;
      CountBelowIsSize(t, v);
      assert Below(s, v) == if s[n] < v then Below(t, v) + {n} else Below(t, v);
    }
  }

  lemma {:induction false} CountAboveIsSize(s: seq<real>, v: real)
    ensures CountAbove(s, v) == |Above(s, v)|
  {
    if s == [] {
      assert Above(s, v) == {};
    } else {
      var t, n := s[..|s| - 1], |s| - 1;
      CountAboveIsSize(t, v);
      assert Above(s, v) == if s[n] > v then Above(t, v) + {n} else Above(t, v);
    }
  }

  ghost function Indices(n: nat): (r: set<nat>)
    ensures |r| == n && forall i: nat :: i in r <==> i < n
  {
    if n == 0 then {} else Indices(n - 1) + {n - 1}
  }

  lemma CountsPartition(s: seq<real>, v: real)
    ensures |Below(s, v)| + |Tied(s, v)| + |Above(s, v)| == |s|
  {
    assert Below(s, v) + Tied(s, v) + Above(s, v) == Indices(|s|);
    assert |Below(s, v) + Tied(s, v)| == |Below(s, v)| + |Tied(s, v)|;
  }

  /** Pairs (x in s, y in t) with y < x, and with y > x. */
  ghost function PairsBelow(s: seq<real>, t: seq<real>): nat {
    if s == [] then 0 else PairsBelow(s[..|s| - 1], t) + CountBelow(t, s[|s| - 1])
  }

  ghost function PairsAbove(s: seq<real>, t: seq<real>): nat {
    if s == [] then 0 else PairsAbove(s[..|s| - 1], t) + CountAbove(t, s[|s| - 1])
  }

  lemma {:induction false} PairsAboveGrows(s: seq<real>, t: seq<real>)
    requires t != []
    ensures PairsAbove(s, t) == PairsAbove(s, t[..|t| - 1]) + CountBelow(s, t[|t| - 1])
  {
    if s != [] { PairsAboveGrows(s[..|s| - 1], t); }
  }

  /** Counting the pairs from either side. */
  lemma {:induction false} PairsSwap(s: seq<real>, t: seq<real>)
    ensures PairsBelow(s, t) == PairsAbove(t, s)
  {
    if s == [] {
      PairsAboveEmpty(t);
    } else {
      PairsSwap(s[..|s| - 1], t);
      PairsAboveGrows(t, s);
    }
  }

  lemma {:induction false} PairsAboveEmpty(t: seq<real>)
    ensures PairsAbove(t, []) == 0
  {
    if t != [] { PairsAboveEmpty(t[..|t| - 1]); }
  }

  ghost function RanksWithin(s: seq<real>, values: seq<real>): (r: seq<real>)
    ensures |r| == |s|
  {
    seq(|s|, i requires 0 <= i < |s| => RankOf(values, s[i]))
  }

  ghost function DoubledRank(values: seq<real>, v: real): int {
    CountBelow(values, v) - CountAbove(values, v) + |values| + 1
  }

  lemma RankIsHalf(values: seq<real>, v: real)
    ensures RankOf(values, v) == DoubledRank(values, v) as real / 2.0
  {
    CountBelowIsSize(values, v);
    CountAboveIsSize(values, v);
    CountsPartition(values, v);
  }

  ghost function DoubledSum(s: seq<real>, values: seq<real>): int {
    if s == [] then 0 else DoubledSum(s[..|s| - 1], values) + DoubledRank(values, s[|s| - 1])
  }

  lemma {:induction false} SumIsHalf(s: seq<real>, values: seq<real>)
    ensures Sum(RanksWithin(s, values)) == DoubledSum(s, values) as real / 2.0
  {
    if s != [] {
      var t, v := s[..|s| - 1], s[|s| - 1];
      SumIsHalf(t, values);
      RankIsHalf(values, v);
      var r := RanksWithin(s, values);
      assert r[..|s| - 1] == RanksWithin(t, values) && r[|s| - 1] == RankOf(values, v);
    }
  }

  lemma {:induction false} DoubledSumByPairs(s: seq<real>, values: seq<real>)
    ensures DoubledSum(s, values) == PairsBelow(s, values) - PairsAbove(s, values) + |s| * (|values| + 1)
  {
    if s != [] {
      var t := s[..|s| - 1];
      DoubledSumByPairs(t, values);
      assert |s| * (|values| + 1) == |t| * (|values| + 1) + (|values| + 1);
    }
  }

  /** The ranks of n values sum to n(n + 1)/2, whatever the ties. */
  lemma RanksSum(values: seq<real>)
    ensures Sum(RanksOf(values)) == (|values| * (|values| + 1)) as real / 2.0
  {
    SumIsHalf(values, values);
    DoubledSumByPairs(values, values);
    PairsSwap(values, values);
    assert RanksWithin(values, values) == RanksOf(values);
  }

  // ---------------------------------------------------------------- what ranks depend on

  /** The two lists order their indices the same way; strictly increasing maps do this. */
  ghost predicate SameOrder(s: seq<real>, t: seq<real>) {
    && |s| == |t|
    && forall i, j :: 0 <= i < |s| && 0 <= j < |s| ==> (s[i] < s[j] <==> t[i] < t[j])
  }

  ghost predicate OppositeOrder(s: seq<real>, t: seq<real>) {
    && |s| == |t|
    && forall i, j :: 0 <= i < |s| && 0 <= j < |s| ==> (s[i] < s[j] <==> t[i] > t[j])
  }

  lemma RanksIgnoreScale(s: seq<real>, t: seq<real>)
    requires SameOrder(s, t)
    ensures RanksOf(s) == RanksOf(t)
  {
    forall i | 0 <= i < |s| ensures RankOf(s, s[i]) == RankOf(t, t[i]) {
      assert Below(s, s[i]) == Below(t, t[i]);
      assert forall j :: 0 <= j < |s| ==> (s[j] == s[i] <==> !(s[j] < s[i]) && !(s[i] < s[j]));
      assert Tied(s, s[i]) == Tied(t, t[i]);
    }
  }

  lemma RanksReverse(s: seq<real>, t: seq<real>)
    requires OppositeOrder(s, t)
    ensures forall i :: 0 <= i < |s| ==> RanksOf(s)[i] + RanksOf(t)[i] == |s| as real + 1.0
  {
    forall i | 0 <= i < |s| ensures RankOf(s, s[i]) + RankOf(t, t[i]) == |s| as real + 1.0 {
      CountsPartition(t, t[i]);
      assert Below(s, s[i]) == Above(t, t[i]);
      assert forall j :: 0 <= j < |s| ==> (s[j] == s[i] <==> !(s[j] < s[i]) && !(s[i] < s[j]));
      assert Tied(s, s[i]) == Tied(t, t[i]);
    }
  }

  ghost function Shuffled(values: seq<real>, perm: seq<nat>): (r: seq<real>)
    requires Lists(perm, |values|)
    ensures |r| == |values|
  {
    seq(|values|, i requires 0 <= i < |values| => values[perm[i]])
  }

  /** Shuffling the values shuffles the ranks the same way. */
  lemma RanksPermute(values: seq<real>, perm: seq<nat>, i: nat)
    requires Lists(perm, |values|) && i < |values|
    ensures RanksOf(Shuffled(values, perm))[i] == RanksOf(values)[perm[i]]
  {
    var shuffled, v := Shuffled(values, perm), values[perm[i]];
    BijectionSize(perm, |values|, Below(shuffled, v), Below(values, v));
    BijectionSize(perm, |values|, Tied(shuffled, v), Tied(values, v));
  }

  lemma {:induction false} BijectionSize(perm: seq<nat>, n: nat, from: set<nat>, to: set<nat>)
    requires |perm| == n && forall i :: i in from ==> i < n
    requires forall j, k :: 0 <= j < k < n ==> perm[j] != perm[k]
    requires forall v: nat :: v in to ==> v in perm
    requires forall i: nat :: i < n ==> (i in from <==> perm[i] in to)
    ensures |from| == |to|
    decreases from
  {
    if from == {} {
      assert forall v: nat :: v in to ==> exists k :: 0 <= k < n && perm[k] == v;
      assert to == {};
    } else {
      var i :| i in from;
      BijectionSize(perm, n, from - {i}, to - {perm[i]});
    }
  }

  lemma RankIsMonotone(values: seq<real>, i: nat, j: nat)
    requires i < |values| && j < |values|
    ensures RanksOf(values)[i] < RanksOf(values)[j] <==> values[i] < values[j]
  {
    if values[i] < values[j] {
      RankJumps(values, i, j);
    } else if values[j] < values[i] {
      RankJumps(values, j, i);
    }
  }

  lemma RankJumps(values: seq<real>, i: nat, j: nat)
    requires i < |values| && j < |values| && values[i] < values[j]
    ensures RankOf(values, values[i]) < RankOf(values, values[j])
  {
    var low, tied, high := Below(values, values[i]), Tied(values, values[i]), Below(values, values[j]);
    assert i in tied && j in Tied(values, values[j]);
    assert low !! tied && low + tied <= high;
    assert |low + tied| == |low| + |tied|;
    SubsetSize(low + tied, high);
    assert |Tied(values, values[j])| >= 1 && |tied| >= 1;
  }
}
