/**
 `_evenly_spaced` of `benchmarks/calibration_drift.py` and the snapshots cut with it, with the
 step taken as an exact fraction.
 */
module Spacing {

  datatype Selection<T> = IndexError | Items(items: seq<T>)

  /** Python's `round` on the fraction num/den: to nearest, halves to the even neighbour. */
  function RoundHalfEven(num: nat, den: nat): (q: nat)
    requires den > 0
  {
    var q, twice := num / den, 2 * (num % den);
    if twice < den || (twice == den && q % 2 == 0) then q else q + 1
  }

  /** q is the whole number nearest to num / den, of two the even one. */
  ghost predicate IsNearest(num: nat, den: nat, q: nat) {
    var gap := 2 * (num - q * den);
    && -(den as int) <= gap <= den
    && (gap == den || gap == -(den as int) ==> q % 2 == 0)
  }

  lemma RoundsToNearest(num: nat, den: nat)
    requires den > 0
    ensures IsNearest(num, den, RoundHalfEven(num, den))
  {
    var q := num / den;
    assert num == q * den + num % den;
    assert (q + 1) * den == q * den + den;
    assert q % 2 == 0 || (q + 1) % 2 == 0;
  }

  /** `round(index * step)` with `step = (length - 1) / (count - 1)`. */
  function Position(length: nat, count: nat, index: nat): nat
    requires 2 <= count < length
  {
    RoundHalfEven(index * (length - 1), count - 1)
  }

  /** `sorted` of a set of positions below `bound`. */
  function Sorted(s: set<nat>, bound: nat): seq<nat> {
    if bound == 0 then []
    else Sorted(s, bound - 1) + if bound - 1 in s then [bound - 1] else []
  }

  function Positions(length: nat, count: nat): seq<nat>
    requires 2 <= count < length
  {
    Sorted(set index: nat | index < count :: Position(length, count, index), length)
  }

  function EvenlySpaced<T>(items: seq<T>, count: int): Selection<T> {
    if count >= |items| then Items(items)
    else if count < 2 then
      if items == [] then IndexError else Items([items[|items| - 1]])
    else
      var chosen := Positions(|items|, count);
      PositionsAreExact(|items|, count);
      Items(seq(|chosen|, i requires 0 <= i < |chosen| => items[chosen[i]]))
  }

  /** With count < length the step exceeds one, so neighbouring positions never round together. */
  lemma PositionsClimb(length: nat, count: nat, i: nat)
    requires 2 <= count < length && i + 1 < count
    ensures Position(length, count, i) < Position(length, count, i + 1)
  {
    assert (i + 1) * (length - 1) == i * (length - 1) + (length - 1);
    RoundingClimbs(i * (length - 1), length - 1, count - 1);
  }

  lemma RoundingClimbs(num: nat, step: nat, den: nat)
    requires 0 < den < step
    ensures RoundHalfEven(num, den) < RoundHalfEven(num + step, den)
  {
    RoundsToNearest(num, den);
    RoundsToNearest(num + step, den);
    var a, b := RoundHalfEven(num, den), RoundHalfEven(num + step, den);
    if b < a { ProductGap(b, a, den); }
  }

  lemma ProductGap(a: nat, b: nat, m: nat)
    requires a < b
    ensures a * m + m <= b * m
  {
    var k := b - a - 1;
    assert k * m >= 0;
    assert (a + 1 + k) * m == a * m + m + k * m;
  }

  lemma {:induction false} PositionsClimbFar(length: nat, count: nat, i: nat, j: nat)
    requires 2 <= count < length && i < j < count
    ensures Position(length, count, i) < Position(length, count, j)
    decreases j
  {
    hide Position;
    PositionsClimb(length, count, j - 1);
    if i < j - 1 { PositionsClimbFar(length, count, i, j - 1); }
  }

  lemma PositionEnds(length: nat, count: nat)
    requires 2 <= count < length
    ensures Position(length, count, 0) == 0
    ensures Position(length, count, count - 1) == length - 1
  {
    ExactQuotient(0, count - 1, 0 * (length - 1));
    ExactQuotient(length - 1, count - 1, (count - 1) * (length - 1));
  }

  lemma ExactQuotient(q: nat, den: nat, num: nat)
    requires den > 0 && num == q * den
    ensures RoundHalfEven(num, den) == q
  {
    var r := RoundHalfEven(num, den);
    RoundsToNearest(num, den);
    if r < q { ProductGap(r, q, den); } else if r > q { ProductGap(q, r, den); }
  }

  ghost predicate Climbing(p: seq<nat>) {
    forall i, j :: 0 <= i < j < |p| ==> p[i] < p[j]
  }

  lemma {:induction false} SortedOfClimbing(s: set<nat>, p: seq<nat>, bound: nat)
    requires Climbing(p) && (p == [] || p[|p| - 1] < bound)
    requires forall v: nat :: v < bound ==> (v in s <==> v in p)
    ensures Sorted(s, bound) == p
    decreases bound
  {
    if bound > 0 {
      var n := |p| - 1;
      assert forall i :: 0 <= i < n ==> p[i] < p[n];
      if p != [] && p[n] == bound - 1 {
        assert p == p[..n] + [bound - 1];
        assert bound - 1 in p;
        SortedOfClimbing(s, p[..n], bound - 1);
      } else {
        assert bound - 1 !in p;
        SortedOfClimbing(s, p, bound - 1);
      }
    }
  }

  /**
   Main result: the set never merges two positions. Exactly `count` of them come back, in
   order, each the rounded multiple of the step, running from the first item to the last.
   */
  lemma PositionsAreExact(length: nat, count: nat)
    requires 2 <= count < length
    ensures var p := Positions(length, count);
      && |p| == count && Climbing(p) && p[0] == 0 && p[count - 1] == length - 1
      && forall i :: 0 <= i < count ==> p[i] == Position(length, count, i)
  {
    hide Position;
    var p := seq(count, i requires 0 <= i < count => Position(length, count, i));
    PositionEnds(length, count);
    assert Climbing(p) by {
      forall i, j | 0 <= i < j < count ensures p[i] < p[j] { PositionsClimbFar(length, count, i, j); }
    }
    assert p[count - 1] == length - 1;
    forall i | 0 <= i < count ensures p[i] < length {
      assert i == count - 1 || p[i] < p[count - 1];
    }
    PositionsAreSet(length, count, p);
  }

  lemma PositionsAreSet(length: nat, count: nat, p: seq<nat>)
    requires 2 <= count < length && |p| == count && Climbing(p)
    requires forall i :: 0 <= i < count ==> p[i] == Position(length, count, i) < length
    ensures Positions(length, count) == p
  {
    hide Position;
    var s := set index: nat | index < count :: Position(length, count, index);
    forall v: nat ensures v in s <==> v in p {
      if v in s {
        var i: nat :| i < count && v == Position(length, count, i);
        assert p[i] == v;
      }
    }
    SortedOfClimbing(s, p, length);
  }

  /** x stands at the place nearest to i steps of (length - 1) / (count - 1). */
  ghost predicate IsStep<T>(items: seq<T>, count: nat, i: nat, x: T)
    requires 2 <= count < |items|
  {
    exists p: nat :: p < |items| && x == items[p] && IsNearest(i * (|items| - 1), count - 1, p)
  }

  /** The items of the selection, each by the place it is taken from. */
  lemma SelectionExactly<T>(items: seq<T>, count: int)
    requires 2 <= count < |items|
    ensures var chosen := EvenlySpaced(items, count);
      && chosen.Items? && |chosen.items| == count
      && forall i: nat :: i < count ==> IsStep(items, count, i, chosen.items[i])
  {
    hide Positions, IsStep, Position;
    PositionsAreExact(|items|, count);
    var p := Positions(|items|, count);
    forall i: nat | i < count ensures IsStep(items, count, i, items[p[i]]) {
      assert i == count - 1 || p[i] < p[count - 1];
      PlaceIsStep(items, count, i);
    }
  }

  lemma PlaceIsStep<T>(items: seq<T>, count: nat, i: nat)
    requires 2 <= count < |items| && Position(|items|, count, i) < |items|
    ensures IsStep(items, count, i, items[Position(|items|, count, i)])
  {
    hide IsNearest, RoundHalfEven;
    RoundsToNearest(i * (|items| - 1), count - 1);
  }

  /**
   How many items come back. The first item is dropped exactly when fewer than two are asked
   for out of more than one, so "first and last always included" needs count >= 2.
   */
  lemma SelectionSize<T>(items: seq<T>, count: int)
    requires items != []
    ensures var chosen := EvenlySpaced(items, count);
      && chosen.Items?
      && |chosen.items| == (if count >= |items| then |items| else if count < 2 then 1 else count)
      && chosen.items[|chosen.items| - 1] == items[|items| - 1]
      && (count >= 2 || |items| == 1 ==> chosen.items[0] == items[0])
      && (count < 2 && |items| > 1 ==> chosen.items == [items[|items| - 1]])
  {
    hide Position, Positions;
    if 2 <= count < |items| { PositionsAreExact(|items|, count); }
  }

  /** `MtimeGrowth.snapshots`: the cuts over 1..n, and the files visible at each. */
  function Cuts(n: nat, count: int): (cuts: Selection<nat>)
  {
    EvenlySpaced<nat>(seq(n, (i: nat) => (i + 1) as nat), count)
  }

  function Snapshots<T>(files: seq<T>, count: int): seq<seq<T>> {
    var cuts := Cuts(|files|, count);
    if files == [] || cuts.IndexError? then []
    else
      seq(|cuts.items|, i requires 0 <= i < |cuts.items| =>
        if cuts.items[i] <= |files| then files[..cuts.items[i]] else files)
  }

  /** `shown` files out of n, the nearest to i even steps on the way from 1 to n. */
  ghost predicate IsCut(n: nat, count: nat, i: nat, shown: nat)
    requires 2 <= count < n
  {
    1 <= shown <= n && IsNearest(i * (n - 1), count - 1, shown - 1)
  }

  /** Every snapshot is the files up to its cut. */
  lemma SnapshotsAreCuts<T>(files: seq<T>, count: int)
    requires files != []
    ensures var shown, n := Snapshots(files, count), |files|;
      && (count >= n ==> |shown| == n && forall i :: 0 <= i < n ==> shown[i] == files[..i + 1])
      && (count < 2 && n > 1 ==> shown == [files])
      && (2 <= count < n ==> |shown| == count)
      && (2 <= count < n ==>
        forall i: nat :: i < count ==> IsCut(n, count, i, |shown[i]|) && shown[i] == files[..|shown[i]|])
  {
    hide IsCut, Positions, Position;
    var n := |files|;
    if 2 <= count < n {
      PositionsAreExact(n, count);
      var p := Positions(n, count);
      forall i: nat | i < count ensures p[i] < n && IsCut(n, count, i, p[i] + 1) {
        assert i == count - 1 || p[i] < p[count - 1];
        PlaceIsCut(n, count, i);
      }
    } else if count < 2 && n > 1 {
      assert files[..n] == files;
    }
  }

  lemma PlaceIsCut(n: nat, count: nat, i: nat)
    requires 2 <= count < n && Position(n, count, i) < n
    ensures IsCut(n, count, i, Position(n, count, i) + 1)
  {
    hide IsNearest, RoundHalfEven;
    RoundsToNearest(i * (n - 1), count - 1);
  }

  /** Each snapshot is a strict prefix of the next, and the last one shows every file. */
  lemma SnapshotsOnlyGrow<T>(files: seq<T>, count: int)
    requires files != []
    ensures var shown := Snapshots(files, count);
      && shown != [] && shown[|shown| - 1] == files
      && forall i :: 0 <= i < |shown| - 1 ==> shown[i] < shown[i + 1]
  {
    hide Position, Positions;
    SelectionSize(seq(|files|, (i: nat) => i + 1), count);
    if 2 <= count < |files| { PositionsAreExact(|files|, count); }
  }
}
