/**
 The recalibration trigger of `benchmarks/calibration_drift.py`: the highest cut on corpus drift
 that still catches enough of the points whose error is over the bound.
 */
module TriggerCut {
  import opened Fractions
  import Sets

  datatype Point = Point(delta: real, over: bool)

  datatype Best = NoCut | Cut(at: real, recall: real, precision: real, fired: nat, caught: nat)

  function Fired(ps: seq<Point>, cut: real): nat {
    if ps == [] then 0 else Fired(ps[..|ps| - 1], cut) + if ps[|ps| - 1].delta >= cut then 1 else 0
  }

  function Caught(ps: seq<Point>, cut: real): nat {
    if ps == [] then 0
    else Caught(ps[..|ps| - 1], cut) + if ps[|ps| - 1].delta >= cut && ps[|ps| - 1].over then 1 else 0
  }

  function Positives(ps: seq<Point>): nat {
    if ps == [] then 0 else Positives(ps[..|ps| - 1]) + if ps[|ps| - 1].over then 1 else 0
  }

  /** The baseline compared with itself has drift 0 and is left out. */
  function Scored(ps: seq<Point>): seq<Point> {
    if ps == [] then []
    else Scored(ps[..|ps| - 1]) + if ps[|ps| - 1].delta > 0.0 then [ps[|ps| - 1]] else []
  }

  function Deltas(ps: seq<Point>): set<real> {
    set p | p in ps :: p.delta
  }

  predicate Clears(ps: seq<Point>, cut: real, target: real) {
    Positives(ps) > 0 && Ratio(Caught(ps, cut) as real, Positives(ps) as real) >= target
  }

  // ---------------------------------------------------------------- how the counts move

  lemma {:induction false} LowerCutsCatchMore(ps: seq<Point>, low: real, high: real)
    requires low <= high
    ensures Caught(ps, high) <= Caught(ps, low) && Fired(ps, high) <= Fired(ps, low)
    ensures Caught(ps, low) - Caught(ps, high) <= Fired(ps, low) - Fired(ps, high)
    ensures Caught(ps, low) <= Positives(ps) && Caught(ps, low) <= Fired(ps, low)
  {
    if ps != [] { LowerCutsCatchMore(ps[..|ps| - 1], low, high); }
  }

  lemma {:induction false} FiredAt(ps: seq<Point>, cut: real)
    requires cut in Deltas(ps)
    ensures Fired(ps, cut) > 0
  {
    var n := |ps| - 1;
    if ps[n].delta < cut {
      var p :| p in ps && p.delta == cut;
      assert p in ps[..n];
      FiredAt(ps[..n], cut);
    }
  }

  lemma {:induction false} LowestCatchesAll(ps: seq<Point>, low: real)
    requires forall p :: p in ps ==> p.delta >= low
    ensures Caught(ps, low) == Positives(ps)
  {
    if ps != [] {
      var n := |ps| - 1;
      assert forall p :: p in ps[..n] ==> p in ps;
      LowestCatchesAll(ps[..n], low);
      assert ps[n] in ps;
    }
  }

  /** Clearing the target, without the quotient. */
  lemma ClearsExactly(ps: seq<Point>, cut: real, target: real)
    ensures Clears(ps, cut, target) <==>
      Positives(ps) > 0 && Caught(ps, cut) as real >= Mul(target, Positives(ps) as real)
  {
    hide Ratio, Mul, Caught, Positives;
    if Positives(ps) > 0 { RatioAgainst(Caught(ps, cut) as real, Positives(ps) as real, target); }
  }

  /** Raising a cut never gains recall, so the cuts that clear the target are the low ones. */
  lemma ClearingIsDownward(ps: seq<Point>, low: real, high: real, target: real)
    requires low <= high && Clears(ps, high, target)
    ensures Clears(ps, low, target)
  {
    hide Clears, Mul, Caught, Positives, Fired;
    LowerCutsCatchMore(ps, low, high);
    ClearsExactly(ps, low, target);
    ClearsExactly(ps, high, target);
  }

  // ---------------------------------------------------------------- the search

  predicate IsBest(ps: seq<Point>, seen: set<real>, target: real, best: Best) {
    match best
    case NoCut => forall c :: c in seen ==> !Clears(ps, c, target)
    case Cut(at, recall, precision, fired, caught) =>
      && at in seen && Clears(ps, at, target)
      && (forall c :: c in seen && Clears(ps, c, target) ==> c <= at)
      && fired == Fired(ps, at) > 0 && caught == Caught(ps, at)
      && recall == Ratio(caught as real, Positives(ps) as real) && precision == Ratio(caught as real, fired as real)
  }

  /** `trigger_analysis`: the cut it reports, and that it finds one unless nothing could. */
  method TriggerAnalysis(points: seq<Point>, target: real) returns (best: Best)
    ensures IsBest(Scored(points), Deltas(Scored(points)), target, best)
    ensures IsTrigger(points, target, best)
    ensures best == NoCut <==> Positives(Scored(points)) == 0 || target > 1.0
  {
    hide Fired, Caught, Positives, Scored, Ratio, IsTrigger;
    var ps := Scored(points);
    best := NoCut;
    ghost var seen: set<real> := {};
    var todo := Deltas(ps);
    while todo != {}
      invariant seen + todo == Deltas(ps) && IsBest(ps, seen, target, best)
      decreases todo
    {
      var cut :| cut in todo;
      var fired, caught := Fired(ps, cut), Caught(ps, cut);
      FiredAt(ps, cut);
      if Clears(ps, cut, target) && (best.NoCut? || cut > best.at) {
        best := Cut(cut, Ratio(caught as real, Positives(ps) as real), Ratio(caught as real, fired as real),
                    fired, caught);
      }
      seen, todo := seen + {cut}, todo - {cut};
    }
    assert seen == Deltas(ps);
    FoundExactly(ps, target, best);
    BestIsTrigger(points, target, best);
  }

  // ---------------------------------------------------------------- the counts, off the points

  /** The points that drifted at all and reach a cut: those over the bound, or all of them. */
  ghost function Reaching(points: seq<Point>, cut: real, overOnly: bool): set<nat> {
    set i: nat | i < |points| && points[i].delta > 0.0 && points[i].delta >= cut && (points[i].over || !overOnly)
  }

  lemma ReachingGrows(points: seq<Point>, cut: real, overOnly: bool)
    requires points != []
    ensures var n := |points| - 1;
      var counts := points[n].delta > 0.0 && points[n].delta >= cut && (points[n].over || !overOnly);
      |Reaching(points, cut, overOnly)| == |Reaching(points[..n], cut, overOnly)| + if counts then 1 else 0
  {
    var n := |points| - 1;
    var counts := points[n].delta > 0.0 && points[n].delta >= cut && (points[n].over || !overOnly);
    Sets.OneMore(Reaching(points[..n], cut, overOnly), Reaching(points, cut, overOnly), n, counts);
  }

  ghost function Drifts(points: seq<Point>): set<real> {
    set p | p in points && p.delta > 0.0 :: p.delta
  }

  lemma DriftsGrow(points: seq<Point>, p: Point)
    ensures Drifts(points + [p]) == Drifts(points) + if p.delta > 0.0 then {p.delta} else {}
  {
    assert forall x :: x in points + [p] <==> x in points || x == p;
  }

  lemma {:induction false} CountsExactly(points: seq<Point>, cut: real)
    ensures var ps := Scored(points);
      && Positives(ps) == |Reaching(points, 0.0, true)|
      && Fired(ps, cut) == |Reaching(points, cut, false)|
      && Caught(ps, cut) == |Reaching(points, cut, true)|
      && Deltas(ps) == Drifts(points)
  {
    hide Fired, Caught, Positives, Scored, Deltas, Reaching, Drifts;
    if points == [] {
      NoneReaching(cut);
    } else {
      var n := |points| - 1;
      CountsExactly(points[..n], cut);
      ReachingGrows(points, 0.0, true);
      ReachingGrows(points, cut, true);
      ReachingGrows(points, cut, false);
      assert points == points[..n] + [points[n]];
      OneMore(points[..n], points[n], cut);
      var before := Scored(points[..n]);
      OneMore(before, points[n], cut);
      assert before + [] == before;
      assert points[n].delta > 0.0 || Scored(points) == before;
      DriftsGrow(points[..n], points[n]);
    }
  }

  lemma NoneReaching(cut: real)
    ensures Reaching([], 0.0, true) == Reaching([], cut, true) == Reaching([], cut, false) == {}
    ensures Scored([]) == [] && Positives([]) == 0 && Fired([], cut) == 0 && Caught([], cut) == 0
    ensures Deltas([]) == Drifts([])
  {
  }

  /**
   The cut reported, by the points alone: a drift that some point shows, which keeps enough of
   those over the bound, where no higher one does.
   */
  ghost predicate IsTrigger(points: seq<Point>, target: real, best: Best) {
    var positives := |Reaching(points, 0.0, true)|;
    && (best == NoCut <==> positives == 0 || target > 1.0)
    && (best.Cut? ==>
      && (exists p :: p in points && p.delta == best.at > 0.0)
      && best.fired == |Reaching(points, best.at, false)| > 0 && best.caught == |Reaching(points, best.at, true)|
      && best.recall * positives as real == best.caught as real >= target * positives as real
      && best.precision * best.fired as real == best.caught as real
      && forall p :: p in points && p.delta > best.at ==>
           |Reaching(points, p.delta, true)| as real < target * positives as real)
  }

  lemma BestIsTrigger(points: seq<Point>, target: real, best: Best)
    requires IsBest(Scored(points), Deltas(Scored(points)), target, best)
    ensures IsTrigger(points, target, best)
  {
    hide Fired, Caught, Positives, Scored, Clears, Ratio, Mul, Reaching;
    var ps := Scored(points);
    FoundExactly(ps, target, best);
    CountsExactly(points, 0.0);
    if best.Cut? {
      CountsExactly(points, best.at);
      ClearsExactly(ps, best.at, target);
      RatioTimes(best.caught as real, Positives(ps) as real);
      RatioTimes(best.caught as real, best.fired as real);
      MulIsProduct();
      forall p | p in points && p.delta > best.at
        ensures |Reaching(points, p.delta, true)| as real < target * Positives(ps) as real {
        CountsExactly(points, p.delta);
        ClearsExactly(ps, p.delta, target);
      }
    }
  }

  lemma MulIsProduct()
    ensures forall a, b :: Mul(a, b) == a * b
  {
  }

  lemma FoundExactly(ps: seq<Point>, target: real, best: Best)
    requires IsBest(ps, Deltas(ps), target, best)
    ensures best == NoCut <==> Positives(ps) == 0 || target > 1.0
  {
    hide Fired, Caught, Positives;
    if Positives(ps) > 0 && target > 1.0 {
      forall c ensures !Clears(ps, c, target) { NothingClears(ps, c, target); }
    } else if Positives(ps) > 0 {
      SomethingClears(ps, target);
    }
  }

  lemma NothingClears(ps: seq<Point>, c: real, target: real)
    requires target > 1.0
    ensures !Clears(ps, c, target)
  {
    LowerCutsCatchMore(ps, c, c);
    ClearsExactly(ps, c, target);
    if Positives(ps) > 0 {
      MulOrder(1.0, target, Positives(ps) as real);
      TimesOne(Positives(ps) as real);
    }
    hide Clears, Mul, Caught, Positives, Fired;
  }

  lemma SomethingClears(ps: seq<Point>, target: real)
    requires Positives(ps) > 0 && target <= 1.0
    ensures exists c :: c in Deltas(ps) && Clears(ps, c, target)
  {
    OneMore([], Point(0.0, false), 0.0);
    var low := Lowest(ps);
    LowestCatchesAll(ps, low);
    MulOrder(target, 1.0, Positives(ps) as real);
    TimesOne(Positives(ps) as real);
    ClearsExactly(ps, low, target);
    hide Clears, Mul, Caught, Positives;
    assert Clears(ps, low, target);
  }

  ghost function Lowest(ps: seq<Point>): (low: real)
    requires ps != []
    ensures low in Deltas(ps) && forall p :: p in ps ==> p.delta >= low
  {
    var n := |ps| - 1;
    assert ps == ps[..n] + [ps[n]] && ps[n] in ps;
    if n == 0 then ps[0].delta
    else
      var low := Lowest(ps[..n]);
      if ps[n].delta < low then ps[n].delta else low
  }

  // ---------------------------------------------------------------- how precise the cut is

  function Precision(ps: seq<Point>, cut: real): real
    requires Fired(ps, cut) > 0
  {
    Ratio(Caught(ps, cut) as real, Fired(ps, cut) as real)
  }

  /** A cut that loses no positive is at least as precise as every lower one. */
  lemma LosslessCutIsMostPrecise(ps: seq<Point>, low: real, high: real)
    requires low <= high && Fired(ps, high) > 0 && Caught(ps, high) == Positives(ps)
    ensures Fired(ps, low) > 0 && Precision(ps, low) <= Precision(ps, high)
  {
    hide Fired, Caught, Positives, Ratio, Mul;
    LowerCutsCatchMore(ps, low, high);
    var a, f, g := Caught(ps, high) as real, Fired(ps, high) as real, Fired(ps, low) as real;
    RatioOrder(a, g, a, f);
    MulCommutes(a, f);
    MulCommutes(a, g);
    MulGrows(f, g, a);
  }

  /** At full recall nothing is lost, so a cut that clears it keeps every positive. */
  lemma FullRecallLosesNothing(ps: seq<Point>, cut: real, target: real)
    requires target >= 1.0 && Clears(ps, cut, target)
    ensures Caught(ps, cut) == Positives(ps)
  {
    LowerCutsCatchMore(ps, cut, cut);
    ClearsExactly(ps, cut, target);
    MulOrder(1.0, target, Positives(ps) as real);
    TimesOne(Positives(ps) as real);
    hide Clears, Mul, Caught, Positives, Fired;
  }

  /** The cut reported is at least as precise as every observed cut that clears the target. */
  ghost predicate MostPrecise(points: seq<Point>, target: real) {
    var ps := Scored(points);
    forall best, c :: IsBest(ps, Deltas(ps), target, best) && c in Deltas(ps) && Clears(ps, c, target) ==>
      Fired(ps, c) > 0 && best.Cut? && Precision(ps, c) <= best.precision
  }

  /**
   "The most precise trigger that does not give up on the cases it exists to catch": over every
   list of points this holds of the cut that is reported if and only if full recall is asked for.
   */
  lemma MostPreciseExactly(target: real)
    ensures (forall points :: MostPrecise(points, target)) <==> target >= 1.0
  {
    if target >= 1.0 {
      forall points ensures MostPrecise(points, target) { FullRecallIsMostPrecise(points, target); }
    } else {
      var points := LessPrecise(target);
      assert !MostPrecise(points, target);
    }
  }

  lemma FullRecallIsMostPrecise(points: seq<Point>, target: real)
    requires target >= 1.0
    ensures MostPrecise(points, target)
  {
    hide Scored, Fired, Caught, Positives, Clears, Ratio;
    var ps := Scored(points);
    forall best, c | IsBest(ps, Deltas(ps), target, best) && c in Deltas(ps) && Clears(ps, c, target)
      ensures Fired(ps, c) > 0 && best.Cut? && Precision(ps, c) <= best.precision {
      FullRecallLosesNothing(ps, best.at, target);
      LosslessCutIsMostPrecise(ps, c, best.at);
    }
  }

  // ---------------------------------------------------------------- the points that defeat it

  /** One positive at drift 1, then k positives at drift 2. */
  function Hard(k: nat): seq<Point> {
    if k == 0 then [Point(1.0, true)] else Hard(k - 1) + [Point(2.0, true)]
  }

  /** The same, and a false alarm at drift 2. */
  function Harder(k: nat): seq<Point> {
    Hard(k) + [Point(2.0, false)]
  }

  lemma OneMore(ps: seq<Point>, p: Point, cut: real)
    ensures Positives(ps + [p]) == Positives(ps) + if p.over then 1 else 0
    ensures Fired(ps + [p], cut) == Fired(ps, cut) + if p.delta >= cut then 1 else 0
    ensures Caught(ps + [p], cut) == Caught(ps, cut) + if p.delta >= cut && p.over then 1 else 0
    ensures Scored(ps + [p]) == Scored(ps) + if p.delta > 0.0 then [p] else []
    ensures Deltas(ps + [p]) == Deltas(ps) + {p.delta}
    ensures Positives([]) == 0 && Fired([], cut) == 0 && Caught([], cut) == 0 && Scored([]) == [] && Deltas([]) == {}
  {
    var more := ps + [p];
    assert more[..|ps|] == ps && more[|ps|] == p;
    assert forall x :: x in more <==> x in ps || x == p;
  }

  lemma {:induction false} HardCounts(k: nat, cut: real)
    requires cut == 1.0 || cut == 2.0
    ensures var n := if cut == 1.0 then k + 1 else k;
      Positives(Hard(k)) == k + 1 && Fired(Hard(k), cut) == Caught(Hard(k), cut) == n
    ensures Scored(Hard(k)) == Hard(k) && Deltas(Hard(k)) <= {1.0, 2.0} && 1.0 in Deltas(Hard(k))
  {
    hide Fired, Caught, Positives, Scored, Deltas;
    if k == 0 {
      assert [] + [Point(1.0, true)] == [Point(1.0, true)];
      OneMore([], Point(1.0, true), cut);
    } else {
      HardCounts(k - 1, cut);
      OneMore(Hard(k - 1), Point(2.0, true), cut);
    }
  }

  lemma HarderCounts(k: nat)
    ensures var ps := Harder(k);
      && Scored(ps) == ps && Deltas(ps) == {1.0, 2.0} && Positives(ps) == k + 1
      && Fired(ps, 1.0) == k + 2 && Caught(ps, 1.0) == k + 1
      && Fired(ps, 2.0) == k + 1 && Caught(ps, 2.0) == k
  {
    hide Fired, Caught, Positives, Scored, Deltas, Hard;
    HardCounts(k, 1.0);
    HardCounts(k, 2.0);
    OneMore(Hard(k), Point(2.0, false), 1.0);
    OneMore(Hard(k), Point(2.0, false), 2.0);
  }

  /** With enough positives at the higher drift, leaving one out still clears any target below 1. */
  lemma EnoughPositives(target: real) returns (k: nat)
    requires target < 1.0
    ensures k as real >= Mul(target, (k + 1) as real)
  {
    var rest := 1.0 - target;
    var q := Ratio(if target < 0.0 then 0.0 else target, rest);
    RatioTimes(if target < 0.0 then 0.0 else target, rest);
    MulSign(rest, 1.0);
    RatioAgainst(if target < 0.0 then 0.0 else target, rest, 0.0);
    MulSplits(1.0, 1.0, rest);
    k := q.Floor + 1;
    MulOrder(q, k as real, rest);
    Rearranged(target, k as real);
    hide Mul, Ratio;
  }

  lemma Rearranged(target: real, k: real)
    ensures k - Mul(target, k + 1.0) == Mul(k, 1.0 - target) - target
    ensures Mul(k, k + 2.0) + 1.0 == Mul(k + 1.0, k + 1.0)
  {
  }

  /** For any target below 1, points for which a lower cut also clears it and is more precise. */
  lemma LessPrecise(target: real) returns (points: seq<Point>)
    requires target < 1.0
    ensures !MostPrecise(points, target)
  {
    var k := EnoughPositives(target);
    points := Harder(k);
    HarderCounts(k);
    hide Harder, Fired, Caught, Positives, Scored, Deltas, Mul, Ratio;
    var n, m := k as real, (k + 1) as real;
    ClearsExactly(points, 1.0, target);
    ClearsExactly(points, 2.0, target);
    MulOrder(target, 1.0, m);
    TimesOne(m);
    RatioOrder(n, m, m, (k + 2) as real);
    Rearranged(target, n);
    hide Clears;
    var best := Cut(2.0, Ratio(n, m), Ratio(n, m), k + 1, k);
    assert IsBest(points, {1.0, 2.0}, target, best);
    assert Precision(points, 1.0) > best.precision;
  }
}
