/**
 The spend ceiling of `benchmarks/capped_run.py`. The check and the charge are two separate
 critical sections with the request between them, so calls of different threads interleave.
 */
module SpendCap {
  import opened Sets

  /** `inflight` holds the threads between their check and their charge. */
  datatype State = State(spent: real, inflight: set<nat>)

  datatype Event = Check(thread: nat) | Charge(thread: nat, cost: real)

  const Start := State(0.0, {})

  /** Threads 0..threads-1, each with one call at a time; an event that does not fit changes nothing. */
  function Step(cap: real, threads: nat, s: State, e: Event): State {
    match e
    case Check(t) =>
      if t >= threads || t in s.inflight || s.spent >= cap then s else s.(inflight := s.inflight + {t})
    case Charge(t, cost) =>
      if t in s.inflight then State(s.spent + cost, s.inflight - {t}) else s
  }

  function Run(cap: real, threads: nat, events: seq<Event>): State {
    if events == [] then Start
    else Step(cap, threads, Run(cap, threads, events[..|events| - 1]), events[|events| - 1])
  }

  /** Every charge lies between nothing and c. */
  ghost predicate CostsWithin(events: seq<Event>, c: real) {
    forall i :: 0 <= i < |events| && events[i].Charge? ==> 0.0 <= events[i].cost <= c
  }

  // ---------------------------------------------------------------- the bound

  function Times(n: nat, c: real): (r: real)
    ensures c >= 0.0 ==> r >= 0.0
  {
    if n == 0 then 0.0 else Times(n - 1, c) + c
  }

  lemma {:induction false} TimesOrder(m: nat, n: nat, c: real)
    requires m <= n && c >= 0.0
    ensures Times(m, c) <= Times(n, c)
  {
    if m < n { TimesOrder(m, n - 1, c); }
  }

  ghost function Threads(n: nat): (s: set<nat>)
    ensures |s| == n && forall t: nat :: t in s <==> t < n
  {
    if n == 0 then {} else Threads(n - 1) + {n - 1}
  }

  lemma Idle(threads: nat, inflight: set<nat>, t: nat)
    requires inflight <= Threads(threads) && t < threads && t !in inflight
    ensures |inflight| < threads && |inflight + {t}| == |inflight| + 1
  {
    SubsetSize(inflight, Threads(threads) - {t});
    assert |Threads(threads) - {t}| == threads - 1;
  }

  ghost predicate Bounded(cap: real, threads: nat, c: real, s: State) {
    && s.inflight <= Threads(threads) && |s.inflight| <= threads
    && 0.0 <= s.spent < cap + Times(threads - |s.inflight|, c)
  }

  lemma CheckKeepsBound(cap: real, threads: nat, c: real, s: State, t: nat)
    requires cap > 0.0 && c >= 0.0 && Bounded(cap, threads, c, s)
    ensures Bounded(cap, threads, c, Step(cap, threads, s, Check(t)))
  {
    hide Times;
    if t < threads && t !in s.inflight && s.spent < cap { Idle(threads, s.inflight, t); }
  }

  lemma ChargeKeepsBound(cap: real, threads: nat, c: real, s: State, t: nat, cost: real)
    requires cap > 0.0 && 0.0 <= cost <= c && Bounded(cap, threads, c, s)
    ensures Bounded(cap, threads, c, Step(cap, threads, s, Charge(t, cost)))
  {
    hide Threads;
    if t in s.inflight { assert |s.inflight - {t}| == |s.inflight| - 1; }
  }

  /**
   Over every interleaving: what is spent stays below the ceiling by one call's cost for each
   thread not in flight, and so below cap + threads * c at all times.
   */
  lemma {:induction false} SpendIsBounded(cap: real, threads: nat, c: real, events: seq<Event>)
    requires cap > 0.0 && c >= 0.0 && CostsWithin(events, c)
    ensures var s := Run(cap, threads, events);
      Bounded(cap, threads, c, s) && s.spent < cap + Times(threads, c)
  {
    hide Step, Bounded, Times, Threads;
    if events == [] {
      InitialBound(cap, threads, c);
    } else {
      var before, e := events[..|events| - 1], events[|events| - 1];
      assert CostsWithin(before, c) by { assert forall i :: 0 <= i < |before| ==> before[i] == events[i]; }
      SpendIsBounded(cap, threads, c, before);
      match e
      case Check(t) => CheckKeepsBound(cap, threads, c, Run(cap, threads, before), t);
      case Charge(t, cost) => ChargeKeepsBound(cap, threads, c, Run(cap, threads, before), t, cost);
    }
    BoundAtAnyTime(cap, threads, c, Run(cap, threads, events));
  }

  lemma InitialBound(cap: real, threads: nat, c: real)
    requires cap > 0.0 && c >= 0.0
    ensures Bounded(cap, threads, c, Start)
  {
    TimesOrder(0, threads, c);
  }

  lemma BoundAtAnyTime(cap: real, threads: nat, c: real, s: State)
    requires c >= 0.0 && Bounded(cap, threads, c, s)
    ensures s.spent < cap + Times(threads, c)
  {
    hide Times, Threads;
    TimesOrder(threads - |s.inflight|, threads, c);
  }

  /** The check at place i of `later` lets its request through. */
  ghost predicate LetThrough(cap: real, threads: nat, events: seq<Event>, later: seq<Event>, i: nat)
    requires i < |later|
  {
    var s := Run(cap, threads, events + later[..i]);
    later[i].Check? && later[i].thread !in s.inflight && later[i].thread in Step(cap, threads, s, later[i]).inflight
  }

  /** Once the ceiling is spent no later check lets a request through, whatever else happens. */
  lemma CapIsFinal(cap: real, threads: nat, c: real, events: seq<Event>, later: seq<Event>)
    requires CostsWithin(later, c) && Run(cap, threads, events).spent >= cap
    ensures var s, t := Run(cap, threads, events), Run(cap, threads, events + later);
      t.spent >= s.spent && t.inflight <= s.inflight
    ensures forall i :: 0 <= i < |later| ==> !LetThrough(cap, threads, events, later, i)
  {
    hide Run;
    SpendNeverFalls(cap, threads, c, events, later);
    forall i | 0 <= i < |later| ensures !LetThrough(cap, threads, events, later, i) {
      var part := later[..i];
      assert CostsWithin(part, c) by { assert forall j :: 0 <= j < |part| ==> part[j] == later[j]; }
      SpendNeverFalls(cap, threads, c, events, part);
    }
  }

  lemma {:induction false} SpendNeverFalls(cap: real, threads: nat, c: real, events: seq<Event>, later: seq<Event>)
    requires CostsWithin(later, c)
    ensures var s, t := Run(cap, threads, events), Run(cap, threads, events + later);
      t.spent >= s.spent && (s.spent >= cap ==> t.inflight <= s.inflight)
  {
    if later == [] {
      assert events + later == events;
    } else {
      var fewer := later[..|later| - 1];
      assert CostsWithin(fewer, c) by { assert forall i :: 0 <= i < |fewer| ==> fewer[i] == later[i]; }
      SpendNeverFalls(cap, threads, c, events, fewer);
      assert (events + later)[..|events + later| - 1] == events + fewer;
    }
  }

  // ---------------------------------------------------------------- the bound is reached

  lemma RunExtends(cap: real, threads: nat, c: real, events: seq<Event>, e: Event)
    ensures Run(cap, threads, events + [e]) == Step(cap, threads, Run(cap, threads, events), e)
    ensures CostsWithin(events, c) && (e.Charge? ==> 0.0 <= e.cost <= c) ==> CostsWithin(events + [e], c)
  {
    assert (events + [e])[..|events|] == events;
  }

  /** One thread, one call after another, can bring the meter to any amount below the ceiling. */
  lemma {:induction false} SpendUpTo(cap: real, threads: nat, c: real, x: real, n: nat) returns (events: seq<Event>)
    requires threads >= 1 && c >= 0.0 && 0.0 <= x < cap && x <= Times(n, c)
    ensures CostsWithin(events, c) && Run(cap, threads, events) == State(x, {})
    decreases n
  {
    if n == 0 {
      events := [];
    } else {
      var y := if x <= c then 0.0 else x - c;
      TimesOrder(0, n - 1, c);
      events := SpendUpTo(cap, threads, c, y, n - 1);
      hide Times;
      events := OneCall(cap, threads, c, events, y, x - y);
    }
  }

  lemma OneCall(cap: real, threads: nat, c: real, start: seq<Event>, y: real, cost: real) returns (events: seq<Event>)
    requires threads >= 1 && y < cap && 0.0 <= cost <= c
    requires CostsWithin(start, c) && Run(cap, threads, start) == State(y, {})
    ensures CostsWithin(events, c) && Run(cap, threads, events) == State(y + cost, {})
  {
    RunExtends(cap, threads, c, start, Check(0));
    var checked := start + [Check(0)];
    RunExtends(cap, threads, c, checked, Charge(0, cost));
    events := checked + [Charge(0, cost)];
    hide Run, CostsWithin;
    assert {} + {0} - {0} == {};
  }

  /** From there k threads pass their checks before any of them is charged. */
  lemma {:induction false} AllPassCheck(cap: real, threads: nat, c: real, x: real, start: seq<Event>, k: nat)
    returns (events: seq<Event>)
    requires k <= threads && x < cap && CostsWithin(start, c) && Run(cap, threads, start) == State(x, {})
    ensures CostsWithin(events, c) && Run(cap, threads, events) == State(x, Threads(k))
  {
    if k == 0 {
      events := start;
    } else {
      events := AllPassCheck(cap, threads, c, x, start, k - 1);
      RunExtends(cap, threads, c, events, Check(k - 1));
      events := events + [Check(k - 1)];
    }
  }

  lemma {:induction false} AllCharge(cap: real, threads: nat, c: real, start: seq<Event>, k: nat, x: real)
    returns (events: seq<Event>)
    requires c >= 0.0 && CostsWithin(start, c) && Run(cap, threads, start) == State(x, Threads(k))
    ensures CostsWithin(events, c) && Run(cap, threads, events).spent == x + Times(k, c)
    decreases k
  {
    if k == 0 {
      events := start;
    } else {
      RunExtends(cap, threads, c, start, Charge(k - 1, c));
      assert Threads(k) - {k - 1} == Threads(k - 1);
      events := AllCharge(cap, threads, c, start + [Charge(k - 1, c)], k - 1, x + c);
    }
  }

  lemma {:induction false} EnoughCalls(x: real, c: real, n: nat)
    requires c > 0.0 && x <= n as real * c
    ensures x <= Times(n, c)
  {
    TimesIsProduct(n, c);
  }

  lemma {:induction false} TimesIsProduct(n: nat, c: real)
    ensures Times(n, c) == n as real * c
  {
    if n > 0 { TimesIsProduct(n - 1, c); }
  }

  lemma CallsFor(x: real, c: real) returns (n: nat)
    requires c > 0.0 && x >= 0.0
    ensures x <= Times(n, c)
  {
    var q := x / c;
    n := q.Floor + 1;
    assert q <= n as real;
    assert x == q * c <= n as real * c;
    EnoughCalls(x, c, n);
  }

  /** The bound is tight: every amount below cap + threads * c is exceeded by some interleaving. */
  lemma BoundIsReached(cap: real, threads: nat, c: real, amount: real) returns (events: seq<Event>)
    requires cap > 0.0 && c > 0.0 && threads >= 1 && amount < cap + Times(threads, c)
    ensures CostsWithin(events, c) && Run(cap, threads, events).spent > amount
  {
    var low := amount - Times(threads, c);
    var x := if low < 0.0 then 0.0 else (low + cap) / 2.0;
    var n := CallsFor(x, c);
    events := SpendUpTo(cap, threads, c, x, n);
    events := AllPassCheck(cap, threads, c, x, events, threads);
    events := AllCharge(cap, threads, c, events, threads, x);
  }

  /** "Overshoot is bounded by one call", over every run with costs up to c. */
  ghost predicate OneCallOvershoot(cap: real, threads: nat, c: real) {
    forall events :: CostsWithin(events, c) ==> Run(cap, threads, events).spent < cap + c
  }

  /** The documented one-call overshoot holds if and only if there is at most one thread. */
  lemma OneCallOvershootExactly(cap: real, threads: nat, c: real)
    requires cap > 0.0 && c > 0.0
    ensures OneCallOvershoot(cap, threads, c) <==> threads <= 1
  {
    if threads <= 1 {
      forall events | CostsWithin(events, c) ensures Run(cap, threads, events).spent < cap + c {
        SpendIsBounded(cap, threads, c, events);
        assert Times(1, c) == c;
      }
    } else {
      TimesOrder(2, threads, c);
      assert Times(2, c) == Times(1, c) + c == c + c;
      var events := BoundIsReached(cap, threads, c, cap + c);
    }
  }

  // ---------------------------------------------------------------- the object

  datatype Usage = NotReported | Tokens(prompt: int, completion: int)

  class Meter {
    const maxUsd: real
    const perIn: real
    const perOut: real
    const threads: nat
    var spentUsd: real

    ghost var history: seq<Event>

    ghost predicate Valid()
      reads this
    {
      maxUsd > 0.0 && perIn >= 0.0 && perOut >= 0.0 && spentUsd == Run(maxUsd, threads, history).spent
    }

    constructor (max: real, usdPerMillionIn: real, usdPerMillionOut: real, workers: nat)
      requires max > 0.0 && usdPerMillionIn >= 0.0 && usdPerMillionOut >= 0.0
      ensures Valid() && spentUsd == 0.0 && history == [] && maxUsd == max && threads == workers
      ensures perIn == usdPerMillionIn / 1000000.0 && perOut == usdPerMillionOut / 1000000.0
    {
      maxUsd, threads, spentUsd, history := max, workers, 0.0, [];
      perIn, perOut := usdPerMillionIn / 1000000.0, usdPerMillionOut / 1000000.0;
    }

    /** The first critical section: refuse, or let thread t's request go out. */
    method Admit(ghost t: nat) returns (admitted: bool)
      requires Valid() && t < threads && t !in Run(maxUsd, threads, history).inflight
      modifies this`history
      ensures Valid() && history == old(history) + [Check(t)]
      ensures admitted == (spentUsd < maxUsd) == (t in Run(maxUsd, threads, history).inflight)
    {
      RunExtends(maxUsd, threads, 0.0, history, Check(t));
      admitted := !(spentUsd >= maxUsd);
      history := history + [Check(t)];
    }

    /** The second critical section, skipped when the response carries no usage. */
    method Settle(ghost t: nat, usage: Usage)
      requires Valid() && t in Run(maxUsd, threads, history).inflight
      modifies this
      ensures Valid() && history == old(history) + [Charge(t, spentUsd - old(spentUsd))]
      ensures usage.NotReported? ==> spentUsd == old(spentUsd)
      ensures usage.Tokens? ==>
        spentUsd == old(spentUsd) + usage.prompt as real * perIn + usage.completion as real * perOut
    {
      var cost := if usage.Tokens? then usage.prompt as real * perIn + usage.completion as real * perOut else 0.0;
      RunExtends(maxUsd, threads, 0.0, history, Charge(t, cost));
      if usage.Tokens? { spentUsd := spentUsd + cost; }
      history := history + [Charge(t, cost)];
    }
  }

  /** `SpendCap.__init__` raises on a ceiling that is not positive or a negative price. */
  method Make(max: real, usdPerMillionIn: real, usdPerMillionOut: real, workers: nat) returns (meter: Meter?)
    ensures meter == null <==> max <= 0.0 || usdPerMillionIn < 0.0 || usdPerMillionOut < 0.0
    ensures meter != null ==> fresh(meter) && meter.Valid() && meter.history == [] && meter.maxUsd == max
    ensures meter != null ==> meter.spentUsd == 0.0 && meter.threads == workers
    ensures meter != null ==>
      meter.perIn == usdPerMillionIn / 1000000.0 && meter.perOut == usdPerMillionOut / 1000000.0
  {
    if max <= 0.0 || usdPerMillionIn < 0.0 || usdPerMillionOut < 0.0 { return null; }
    meter := new Meter(max, usdPerMillionIn, usdPerMillionOut, workers);
  }

  lemma PerMillion(p: real, c: real, usdIn: real, usdOut: real)
    ensures p * (usdIn / 1000000.0) + c * (usdOut / 1000000.0) == (p * usdIn + c * usdOut) / 1000000.0
  {
  }

  /**
   What the first call through a new ceiling costs, in the prices the caller gave: a request goes
   out whatever it will cost, since nothing is spent yet, and its tokens are charged per million.
   */
  method FirstCall(max: real, usdPerMillionIn: real, usdPerMillionOut: real, prompt: int, completion: int)
    returns (meter: Meter?)
    ensures meter == null <==> max <= 0.0 || usdPerMillionIn < 0.0 || usdPerMillionOut < 0.0
    ensures meter != null ==>
      meter.Valid() && meter.spentUsd ==
        (prompt as real * usdPerMillionIn + completion as real * usdPerMillionOut) / 1000000.0
  {
    meter := Make(max, usdPerMillionIn, usdPerMillionOut, 1);
    if meter != null {
      var admitted := meter.Admit(0);
      meter.Settle(0, Tokens(prompt, completion));
      PerMillion(prompt as real, completion as real, usdPerMillionIn, usdPerMillionOut);
    }
  }
}
