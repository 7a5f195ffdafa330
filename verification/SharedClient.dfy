/**
 The shared state of `OpenRouterLLM` in `benchmarks/llm.py`: threads build one client under a
 lock, read it without the lock, and charge each response to a meter under a second lock, one
 load and one store at a time.
 */
module SharedClient {
  import opened Completion
  import opened Options

  // ---------------------------------------------------------------- what a response costs

  /** A field of an unvalidated body: `NotAPrice` and `NotACount` make `float` or `int` raise. */
  datatype Entry = NoKey | Usd(usd: real) | NotAPrice

  datatype Amount = Absent | Plain(entry: Entry) | Object(usdKey: Entry, totalUsdKey: Entry)

  /** An absent or empty count is zero. */
  datatype Count = Tokens(n: int) | NotACount

  datatype Usage = Usage(prompt: Count, completion: Count, cost: Amount, totalCost: Amount, totalCostUsd: Amount)

  /** `model` is empty when the response names none. */
  datatype Response = Response(latency: nat, model: string, usage: Option<Usage>, body: Body)

  function FirstOf(a: Entry, b: Entry): Entry {
    if a.NoKey? then b else a
  }

  function PlainEntry(a: Amount): Entry {
    if a.Plain? then a.entry else NoKey
  }

  /** The first plain value is taken, if it converts or not; only then is `cost` read as an object. */
  function CostOf(usage: Option<Usage>): Entry {
    if usage.None? then NoKey
    else
      var u := usage.value;
      var plain := FirstOf(PlainEntry(u.cost), FirstOf(PlainEntry(u.totalCost), PlainEntry(u.totalCostUsd)));
      if plain.NoKey? && u.cost.Object? then FirstOf(u.cost.usdKey, u.cost.totalUsdKey) else plain
  }

  // ---------------------------------------------------------------- the meter

  datatype Meter = Meter(latency: nat, revision: string, cost: Option<real>, calls: nat, prompt: int, completion: int)

  const Zero := Meter(0, "", None, 0, 0, 0)

  const Stores := 6

  /** The conversion before store k raises: of the price, of the prompt or of the completion count. */
  predicate Raises(r: Response, k: nat) {
    || (k == 2 && CostOf(r.usage).NotAPrice?)
    || (k == 4 && r.usage.Some? && r.usage.value.prompt.NotACount?)
    || (k == 5 && r.usage.Some? && r.usage.value.completion.NotACount?)
  }

  /** How many stores are made for r. */
  function Reach(r: Response): nat {
    if Raises(r, 2) then 2 else if Raises(r, 4) then 4 else if Raises(r, 5) then 5 else Stores
  }

  /** The price and both counts convert. */
  predicate Converts(r: Response) {
    !CostOf(r.usage).NotAPrice? && (r.usage.Some? ==> r.usage.value.prompt.Tokens? && r.usage.value.completion.Tokens?)
  }

  /** Store number k for response r: the field's new value comes from `seen`, the rest of `m` stays. */
  function Put(seen: Meter, m: Meter, r: Response, k: nat): Meter {
    match k
    case 0 => m.(latency := seen.latency + r.latency)
    case 1 => if r.model != "" then m.(revision := r.model) else m
    case 2 =>
      var cost := CostOf(r.usage);
      if cost.Usd? then m.(cost := Some((if seen.cost.Some? then seen.cost.value else 0.0) + cost.usd)) else m
    case 3 => if r.usage.Some? then m.(calls := seen.calls + 1) else m
    case 4 =>
      if r.usage.Some? && r.usage.value.prompt.Tokens?
      then m.(prompt := seen.prompt + r.usage.value.prompt.n) else m
    case 5 =>
      if r.usage.Some? && r.usage.value.completion.Tokens?
      then m.(completion := seen.completion + r.usage.value.completion.n) else m
    case _ => m
  }

  /** The meter after the first k stores for r, undisturbed. */
  function Charged(m: Meter, r: Response, k: nat): Meter {
    if k == 0 then m else Put(Charged(m, r, k - 1), Charged(m, r, k - 1), r, k - 1)
  }

  /** A response whose charge has ended, after `done` stores. */
  datatype Charge = Charge(reply: Response, done: nat)

  function Total(cs: seq<Charge>): Meter {
    if cs == [] then Zero else Charged(Total(cs[..|cs| - 1]), cs[|cs| - 1].reply, cs[|cs| - 1].done)
  }

  /** Each charge went as far as its response lets it. */
  ghost predicate Landed(cs: seq<Charge>) {
    forall i :: 0 <= i < |cs| ==> cs[i].done == Reach(cs[i].reply)
  }

  function Replies(cs: seq<Charge>): seq<Response> {
    seq(|cs|, i requires 0 <= i < |cs| => cs[i].reply)
  }

  // Which responses each field counts.

  function CallsOf(r: Response): int {
    if r.usage.Some? && !CostOf(r.usage).NotAPrice? then 1 else 0
  }

  function PromptOf(r: Response): int {
    if r.usage.Some? && !CostOf(r.usage).NotAPrice? && r.usage.value.prompt.Tokens? then r.usage.value.prompt.n else 0
  }

  function CompletionOf(r: Response): int {
    if r.usage.Some? && Converts(r) then r.usage.value.completion.n else 0
  }

  function LatencyOf(r: Response): int {
    r.latency
  }

  function CarriesUsage(r: Response): int {
    if r.usage.Some? then 1 else 0
  }

  function Sum(rs: seq<Response>, f: Response -> int): int {
    if rs == [] then 0 else Sum(rs[..|rs| - 1], f) + f(rs[|rs| - 1])
  }

  function Dollars(rs: seq<Response>): real {
    if rs == [] then 0.0
    else
      var cost := CostOf(rs[|rs| - 1].usage);
      Dollars(rs[..|rs| - 1]) + if cost.Usd? then cost.usd else 0.0
  }

  lemma ReachConverts(r: Response)
    ensures Reach(r) == Stores <==> Converts(r)
    ensures Reach(r) <= Stores && (Reach(r) < Stores ==> Raises(r, Reach(r)))
    ensures forall k :: 0 <= k < Reach(r) ==> !Raises(r, k)
  {
    hide CostOf;
  }

  lemma OneStore(m: Meter, r: Response, k: nat)
    ensures Charged(m, r, k + 1) == Put(Charged(m, r, k), Charged(m, r, k), r, k)
  {
  }

  lemma TwoStores(m: Meter, r: Response)
    ensures Charged(m, r, 2) ==
      m.(latency := m.latency + r.latency, revision := if r.model != "" then r.model else m.revision)
  {
    OneStore(m, r, 0);
    OneStore(m, r, 1);
    assert Charged(m, r, 0) == m;
    hide Charged, CostOf;
  }

  function CostAfter(cost: Option<real>, r: Response): Option<real> {
    var entry := CostOf(r.usage);
    if entry.Usd? then Some((if cost.Some? then cost.value else 0.0) + entry.usd) else cost
  }

  lemma FourStores(m: Meter, r: Response)
    ensures Charged(m, r, 4) ==
      Charged(m, r, 2).(cost := CostAfter(m.cost, r), calls := m.calls + if r.usage.Some? then 1 else 0)
  {
    TwoStores(m, r);
    OneStore(m, r, 2);
    OneStore(m, r, 3);
    hide Charged, CostOf;
  }

  /** One response's charge, field by field. */
  function Plus(m: Meter, r: Response): Meter {
    Meter(m.latency + r.latency, if r.model != "" then r.model else m.revision, CostAfter(m.cost, r),
          m.calls + CallsOf(r), m.prompt + PromptOf(r), m.completion + CompletionOf(r))
  }

  lemma ChargeOnce(m: Meter, r: Response)
    ensures Charged(m, r, Reach(r)) == Plus(m, r)
  {
    TwoStores(m, r);
    FourStores(m, r);
    OneStore(m, r, 4);
    OneStore(m, r, 5);
    hide Charged, CostOf;
  }

  /** The five places a price may stand at, in the order of preference. */
  ghost function Stated(u: Usage): seq<Entry> {
    [if u.cost.Plain? then u.cost.entry else NoKey, if u.totalCost.Plain? then u.totalCost.entry else NoKey,
     if u.totalCostUsd.Plain? then u.totalCostUsd.entry else NoKey,
     if u.cost.Object? then u.cost.usdKey else NoKey, if u.cost.Object? then u.cost.totalUsdKey else NoKey]
  }

  /** The first entry there is, or none. */
  ghost predicate IsFirstEntry(entries: seq<Entry>, e: Entry) {
    || (e.NoKey? && forall k :: 0 <= k < |entries| ==> entries[k].NoKey?)
    || (!e.NoKey? && exists k :: 0 <= k < |entries| && entries[k] == e && forall j :: 0 <= j < k ==> entries[j].NoKey?)
  }

  lemma CostIsFirst(usage: Option<Usage>)
    ensures if usage.None? then CostOf(usage).NoKey? else IsFirstEntry(Stated(usage.value), CostOf(usage))
  {
    if usage.Some? {
      var five, e := Stated(usage.value), CostOf(usage);
      var k := if !five[0].NoKey? then 0 else if !five[1].NoKey? then 1 else if !five[2].NoKey? then 2
               else if !five[3].NoKey? then 3 else 4;
      assert five[k] == e && forall j :: 0 <= j < k ==> five[j].NoKey?;
    }
  }

  /** Every field after one response's charge, from the response and the meter alone. */
  lemma ChargeExactly(m: Meter, r: Response)
    ensures var after, cost := Charged(m, r, Reach(r)), CostOf(r.usage);
      var priced := r.usage.Some? && !cost.NotAPrice?;
      && (if r.usage.None? then cost.NoKey? else IsFirstEntry(Stated(r.usage.value), cost))
      && after.latency == m.latency + r.latency
      && after.revision == (if r.model != "" then r.model else m.revision)
      && after.cost == (if !cost.Usd? then m.cost else
                        Some(if m.cost.Some? then m.cost.value + cost.usd else cost.usd))
      && after.calls == m.calls + (if priced then 1 else 0)
      && after.prompt == m.prompt +
           (if priced && r.usage.value.prompt.Tokens? then r.usage.value.prompt.n else 0)
      && after.completion == m.completion +
           (if priced && r.usage.value.prompt.Tokens? && r.usage.value.completion.Tokens?
            then r.usage.value.completion.n else 0)
  {
    hide Charged, CostOf, Stated, IsFirstEntry, Reach;
    ChargeOnce(m, r);
    CostIsFirst(r.usage);
  }

  /** The last model named, or none. */
  ghost predicate IsLastModel(rs: seq<Response>, model: string) {
    || (model == "" && forall k :: 0 <= k < |rs| ==> rs[k].model == "")
    || (model != "" &&
        exists k :: 0 <= k < |rs| && rs[k].model == model && forall j :: k < j < |rs| ==> rs[j].model == "")
  }

  lemma {:induction false} RevisionIsLast(cs: seq<Charge>)
    requires Landed(cs)
    ensures IsLastModel(Replies(cs), Total(cs).revision)
  {
    if cs != [] {
      var n := |cs| - 1;
      var rest, r := cs[..n], cs[n].reply;
      assert cs == rest + [cs[n]];
      TotalGrows(rest, cs[n]);
      RevisionIsLast(rest);
      hide Total, Landed, Replies, CostAfter, CallsOf, PromptOf, CompletionOf;
      LastModelMoves(Replies(rest), r, Total(rest).revision);
    }
  }

  lemma LastModelMoves(rs: seq<Response>, r: Response, model: string)
    requires IsLastModel(rs, model)
    ensures IsLastModel(rs + [r], if r.model != "" then r.model else model)
  {
    var more := rs + [r];
    if r.model != "" {
      assert more[|rs|].model == r.model;
    } else if model != "" {
      var k :| 0 <= k < |rs| && rs[k].model == model && forall j :: k < j < |rs| ==> rs[j].model == "";
      assert more[k].model == model && forall j :: k < j < |more| ==> more[j].model == "";
    }
  }

  lemma ChargesGrow(cs: seq<Charge>, r: Response)
    requires Landed(cs)
    ensures var more := cs + [Charge(r, Reach(r))];
      Landed(more) && Total(more) == Charged(Total(cs), r, Reach(r))
  {
    hide Charged, Reach;
    assert (cs + [Charge(r, Reach(r))])[..|cs|] == cs;
  }

  lemma TotalGrows(cs: seq<Charge>, c: Charge)
    requires Landed(cs + [c])
    ensures Landed(cs) && Replies(cs + [c]) == Replies(cs) + [c.reply] && Total(cs + [c]) == Plus(Total(cs), c.reply)
  {
    var more := cs + [c];
    assert more[..|cs|] == cs && more[|cs|] == c;
    forall i | 0 <= i < |cs| ensures cs[i].done == Reach(cs[i].reply) { assert more[i] == cs[i]; }
    ChargeOnce(Total(cs), c.reply);
    hide Charged, Plus;
  }

  lemma SumGrows(rs: seq<Response>, r: Response, f: Response -> int)
    ensures Sum(rs + [r], f) == Sum(rs, f) + f(r)
  {
    assert (rs + [r])[..|rs|] == rs;
  }

  lemma {:induction false} CountsAreSums(cs: seq<Charge>)
    requires Landed(cs)
    ensures var m, rs := Total(cs), Replies(cs);
      && m.latency == Sum(rs, LatencyOf) && m.calls == Sum(rs, CallsOf)
      && m.prompt == Sum(rs, PromptOf) && m.completion == Sum(rs, CompletionOf)
  {
    if cs != [] {
      var rest, r := cs[..|cs| - 1], cs[|cs| - 1].reply;
      assert cs == rest + [cs[|cs| - 1]];
      TotalGrows(rest, cs[|cs| - 1]);
      CountsAreSums(rest);
      SumGrows(Replies(rest), r, LatencyOf);
      SumGrows(Replies(rest), r, CallsOf);
      SumGrows(Replies(rest), r, PromptOf);
      SumGrows(Replies(rest), r, CompletionOf);
      hide Total, Landed, Replies, CostAfter;
    }
  }

  lemma {:induction false} CostIsTheSum(cs: seq<Charge>)
    requires Landed(cs)
    ensures var m, rs := Total(cs), Replies(cs);
      && (m.cost.Some? <==> exists r :: r in rs && CostOf(r.usage).Usd?)
      && (m.cost.Some? ==> m.cost.value == Dollars(rs)) && (m.cost.None? ==> Dollars(rs) == 0.0)
  {
    hide CostOf, CallsOf, PromptOf, CompletionOf;
    if cs != [] {
      var rest, r := cs[..|cs| - 1], cs[|cs| - 1].reply;
      assert cs == rest + [cs[|cs| - 1]];
      TotalGrows(rest, cs[|cs| - 1]);
      CostIsTheSum(rest);
      hide Total, Landed;
      assert (Replies(rest) + [r])[..|rest|] == Replies(rest);
      assert forall x :: x in Replies(cs) <==> x in Replies(rest) || x == r;
      hide Replies;
    }
  }

  /**
   Which responses each field counts: latency all of them; calls those whose price converts;
   prompt tokens those whose prompt count converts as well; completion tokens those whose price
   and counts all convert. The cost is known once any response states a price that converts. None
   of these reads the body, so a response that ends in an error counts as one that answers.
   */
  lemma TotalIsTheSum(cs: seq<Charge>)
    requires Landed(cs)
    ensures var m, rs := Total(cs), Replies(cs);
      && m.latency == Sum(rs, LatencyOf) && m.calls == Sum(rs, CallsOf)
      && m.prompt == Sum(rs, PromptOf) && m.completion == Sum(rs, CompletionOf)
      && (m.cost.Some? <==> exists r :: r in rs && CostOf(r.usage).Usd?)
      && (m.cost.Some? ==> m.cost.value == Dollars(rs)) && (m.cost.None? ==> Dollars(rs) == 0.0)
  {
    hide Total, Sum, Dollars, CostOf;
    CountsAreSums(cs);
    CostIsTheSum(cs);
  }

  /** The calls counted are the responses that carry usage, if and only if no price fails to convert. */
  lemma {:induction false} CallsAreExact(rs: seq<Response>)
    ensures Sum(rs, CallsOf) <= Sum(rs, CarriesUsage)
    ensures Sum(rs, CallsOf) == Sum(rs, CarriesUsage) <==> forall r :: r in rs ==> !CostOf(r.usage).NotAPrice?
  {
    if rs != [] {
      var n := |rs| - 1;
      CallsAreExact(rs[..n]);
      assert rs[n].usage.None? ==> CostOf(rs[n].usage).NoKey?;
      hide CostOf;
      assert forall r :: r in rs <==> r in rs[..n] || r == rs[n];
    }
  }

  // ---------------------------------------------------------------- the threads

  /** `Looking` and `Leaving` hold the client lock; `Metering` holds the meter lock. */
  datatype Thread =
    | Idle
    | Looking
    | Building
    | Leaving
    | Ready
    | InFlight(client: Option<nat>)
    | Got(reply: Response)
    | Metering(reply: Response, done: nat, seen: Option<Meter>)

  datatype Report = Report(meter: Meter, after: nat)

  /** Clients are numbered as they are built; `received` and `recorded` are histories. */
  datatype State = State(
    threads: seq<Thread>,
    clientLock: Option<nat>, slot: Option<nat>, built: nat,
    meterLock: Option<nat>, meter: Meter,
    received: multiset<Response>, recorded: seq<Charge>, reports: seq<Report>)

  /**
   `Advance` takes a thread's next step, a conversion that raises among them; `Reply` ends its
   request with a response, `Fail` ends it, or the building of the client, with an error. `Ask` is
   a call of `usage` or `provider_metadata`.
   */
  datatype Event = Advance(t: nat) | Reply(t: nat, reply: Response) | Fail(t: nat) | Ask

  function Start(n: nat): State {
    State(seq(n, _ => Idle), None, None, 0, None, Zero, multiset{}, [], [])
  }

  function Move(s: State, t: nat, to: Thread): State
    requires t < |s.threads|
  {
    s.(threads := s.threads[t := to])
  }

  function StepThread(s: State, t: nat): State
    requires t < |s.threads|
  {
    match s.threads[t]
    case Idle => if s.clientLock.None? then Move(s, t, Looking).(clientLock := Some(t)) else s
    case Looking => Move(s, t, if s.slot.None? then Building else Leaving)
    case Building => Move(s, t, Leaving).(slot := Some(s.built), built := s.built + 1)
    case Leaving => Move(s, t, Ready).(clientLock := None)
    case Ready => Move(s, t, InFlight(s.slot))
    case InFlight(_) => s
    case Got(reply) =>
      if s.meterLock.None? then Move(s, t, Metering(reply, 0, None)).(meterLock := Some(t)) else s
    case Metering(reply, done, seen) =>
      if done >= Stores || Raises(reply, done)
      then Move(s, t, Idle).(meterLock := None, recorded := s.recorded + [Charge(reply, done)])
      else if seen.None? then Move(s, t, Metering(reply, done, Some(s.meter)))
      else Move(s, t, Metering(reply, done + 1, None)).(meter := Put(seen.value, s.meter, reply, done))
  }

  function Step(s: State, e: Event): State {
    match e
    case Advance(t) => if t < |s.threads| then StepThread(s, t) else s
    case Reply(t, reply) =>
      if t < |s.threads| && s.threads[t].InFlight?
      then Move(s, t, Got(reply)).(received := s.received + multiset{reply}) else s
    case Fail(t) =>
      if t < |s.threads| && s.threads[t].InFlight? then Move(s, t, Idle)
      else if t < |s.threads| && s.threads[t].Building? then Move(s, t, Idle).(clientLock := None)
      else s
    case Ask => if s.meterLock.None? then s.(reports := s.reports + [Report(s.meter, |s.recorded|)]) else s
  }

  function Run(n: nat, events: seq<Event>): State {
    if events == [] then Start(n) else Step(Run(n, events[..|events| - 1]), events[|events| - 1])
  }

  // ---------------------------------------------------------------- one client

  predicate HoldsClient(th: Thread) {
    th.Looking? || th.Building? || th.Leaving?
  }

  /** What thread t may assume about the client. */
  predicate ClientFits(s: State, t: nat)
    requires t < |s.threads|
  {
    var th := s.threads[t];
    && (s.clientLock == Some(t) <==> HoldsClient(th))
    && (th.Building? ==> s.slot.None?)
    && (th.Leaving? || th.Ready? || th.InFlight? ==> s.slot == Some(0))
    && (th.InFlight? ==> th.client == Some(0))
  }

  ghost predicate ClientInv(s: State) {
    && (s.slot == if s.built == 0 then None else Some(0))
    && s.built <= 1
    && forall t :: 0 <= t < |s.threads| ==> ClientFits(s, t)
  }

  lemma StepKeepsClient(s: State, e: Event)
    requires ClientInv(s)
    ensures ClientInv(Step(s, e)) && |Step(s, e).threads| == |s.threads|
  {
    hide StepThread;
    if e.Ask? || e.t >= |s.threads| {
      forall t | 0 <= t < |s.threads| ensures ClientFits(Step(s, e), t) { assert ClientFits(s, t); }
    } else {
      EventKeepsClient(s, e);
    }
  }

  lemma EventKeepsClient(s: State, e: Event)
    requires ClientInv(s) && !e.Ask? && e.t < |s.threads|
    ensures ClientInv(Step(s, e)) && |Step(s, e).threads| == |s.threads|
  {
    var next := Step(s, e);
    assert ClientFits(s, e.t);
    OwnThread(s, e);
    forall t | 0 <= t < |s.threads| && t != e.t ensures ClientFits(next, t) {
      assert ClientFits(s, t);
      hide Step;
    }
    hide Step, ClientFits;
  }

  lemma OwnThread(s: State, e: Event)
    requires ClientInv(s) && !e.Ask? && e.t < |s.threads|
    ensures var next := Step(s, e);
      && |next.threads| == |s.threads|
      && (forall t :: 0 <= t < |s.threads| && t != e.t ==> next.threads[t] == s.threads[t])
      && ClientFits(next, e.t) && next.built <= 1 && (next.slot == if next.built == 0 then None else Some(0))
      && (next.slot != s.slot ==> s.slot.None? && s.clientLock == Some(e.t))
      && (next.clientLock != s.clientLock ==>
           (s.clientLock.None? && next.clientLock == Some(e.t)) || (s.clientLock == Some(e.t) && next.clientLock.None?))
  {
    hide Put, Raises;
    assert ClientFits(s, e.t);
  }

  lemma {:induction false} RunKeepsClient(n: nat, events: seq<Event>)
    ensures ClientInv(Run(n, events)) && |Run(n, events).threads| == n
  {
    if events != [] {
      RunKeepsClient(n, events[..|events| - 1]);
      StepKeepsClient(Run(n, events[..|events| - 1]), events[|events| - 1]);
    }
  }

  /** Any number of threads, any interleaving: at most one client, and every request goes out on it. */
  lemma OneClient(n: nat, events: seq<Event>, t: nat)
    requires t < n
    ensures var s := Run(n, events);
      && s.built <= 1 && |s.threads| == n
      && (s.threads[t].InFlight? ==> s.built == 1 && s.threads[t].client == s.slot == Some(0))
  {
    RunKeepsClient(n, events);
    assert ClientFits(Run(n, events), t);
  }

  // ---------------------------------------------------------------- the meter under its lock

  /** r arrived in this thread and is not yet fully on the meter. */
  predicate Holds(th: Thread, r: Response) {
    (th.Got? || th.Metering?) && th.reply == r
  }

  function One(th: Thread, r: Response): nat {
    if Holds(th, r) then 1 else 0
  }

  function Pending(threads: seq<Thread>, r: Response): nat {
    if threads == [] then 0
    else Pending(threads[..|threads| - 1], r) + One(threads[|threads| - 1], r)
  }

  predicate Accounted(s: State, r: Response) {
    s.received[r] == multiset(Replies(s.recorded))[r] + Pending(s.threads, r)
  }

  predicate MeterFits(s: State, t: nat)
    requires t < |s.threads|
  {
    var th := s.threads[t];
    && (s.meterLock == Some(t) <==> th.Metering?)
    && (th.Metering? ==>
          th.done <= Reach(th.reply) && s.meter == Charged(Total(s.recorded), th.reply, th.done) &&
          (th.seen.Some? ==> th.seen.value == s.meter))
  }

  predicate Faithful(recorded: seq<Charge>, report: Report) {
    report.after <= |recorded| && report.meter == Total(recorded[..report.after])
  }

  ghost predicate MeterInv(s: State) {
    && (s.meterLock.Some? ==> s.meterLock.value < |s.threads|)
    && (s.meterLock.None? ==> s.meter == Total(s.recorded))
    && (forall t :: 0 <= t < |s.threads| ==> MeterFits(s, t))
    && Landed(s.recorded)
    && (forall r :: Accounted(s, r))
    && (forall k :: 0 <= k < |s.reports| ==> Faithful(s.recorded, s.reports[k]))
  }

  lemma {:induction false} PendingMoves(threads: seq<Thread>, t: nat, to: Thread, r: Response)
    requires t < |threads|
    ensures Pending(threads[t := to], r) + One(threads[t], r) ==
            Pending(threads, r) + One(to, r)
  {
    hide One;
    var n := |threads| - 1;
    var moved := threads[t := to];
    if t == n {
      assert moved[..n] == threads[..n];
    } else {
      assert moved[..n] == threads[..n][t := to];
      PendingMoves(threads[..n], t, to, r);
    }
  }

  /** The parts of the state that a step's own thread decides. */
  lemma StepKeepsFits(s: State, e: Event, t: nat)
    requires MeterInv(s) && t < |s.threads|
    ensures |Step(s, e).threads| == |s.threads| && MeterFits(Step(s, e), t)
  {
    hide Put, Total, Accounted, Faithful, Raises, Reach, Landed;
    assert MeterFits(s, t);
    if !e.Ask? && e.t < |s.threads| {
      assert MeterFits(s, e.t);
      if s.threads[e.t].Metering? { ReachConverts(s.threads[e.t].reply); }
    }
  }

  lemma StepKeepsTotal(s: State, e: Event)
    requires MeterInv(s)
    ensures var next := Step(s, e);
      && (next.meterLock.Some? ==> next.meterLock.value < |next.threads|)
      && (next.meterLock.None? ==> next.meter == Total(next.recorded))
      && Landed(next.recorded)
  {
    hide Put, Charged, Accounted, Faithful, Raises, Reach, Total, Landed;
    if !e.Ask? && e.t < |s.threads| {
      assert MeterFits(s, e.t);
      if e.Advance? && s.threads[e.t].Metering? {
        var th := s.threads[e.t];
        ReachConverts(th.reply);
        ChargesGrow(s.recorded, th.reply);
      }
    }
  }

  lemma StepMovesOne(s: State, e: Event)
    requires !e.Ask? && e.t < |s.threads|
    ensures |Step(s, e).threads| == |s.threads|
    ensures Step(s, e).threads == s.threads[e.t := Step(s, e).threads[e.t]]
  {
    hide Put;
  }

  /** What a step adds to the two histories is what its thread took up or put down. */
  lemma StepAccounts(s: State, e: Event, r: Response)
    requires !e.Ask? && e.t < |s.threads| && |Step(s, e).threads| == |s.threads|
    ensures Step(s, e).received[r] + multiset(Replies(s.recorded))[r] + One(s.threads[e.t], r) ==
            s.received[r] + multiset(Replies(Step(s, e).recorded))[r] + One(Step(s, e).threads[e.t], r)
  {
    hide Put;
    if e.Advance? {
      AdvanceAccounts(s, e.t, r);
      hide StepThread;
    }
  }

  lemma AdvanceAccounts(s: State, t: nat, r: Response)
    requires t < |s.threads|
    ensures var next := StepThread(s, t);
      && |next.threads| == |s.threads| && next.received == s.received
      && multiset(Replies(s.recorded))[r] + One(s.threads[t], r) ==
         multiset(Replies(next.recorded))[r] + One(next.threads[t], r)
  {
    hide Put, Raises, Replies;
    var th, next := s.threads[t], StepThread(s, t);
    if next.recorded == s.recorded {
      assert One(th, r) == One(next.threads[t], r);
    } else {
      assert next.recorded == s.recorded + [Charge(th.reply, th.done)];
      hide StepThread;
      OneReplyMore(s.recorded, Charge(th.reply, th.done), r);
    }
  }

  lemma OneReplyMore(cs: seq<Charge>, c: Charge, r: Response)
    ensures multiset(Replies(cs + [c]))[r] == multiset(Replies(cs))[r] + if c.reply == r then 1 else 0
  {
    assert Replies(cs + [c]) == Replies(cs) + [c.reply];
  }

  lemma StepKeepsReceived(s: State, e: Event, r: Response)
    requires Accounted(s, r)
    ensures Accounted(Step(s, e), r)
  {
    if !e.Ask? && e.t < |s.threads| {
      StepMovesOne(s, e);
      StepAccounts(s, e, r);
      PendingMoves(s.threads, e.t, Step(s, e).threads[e.t], r);
      hide Step, One, Pending;
    }
  }

  lemma StepKeepsReports(s: State, e: Event)
    requires MeterInv(s)
    ensures forall k :: 0 <= k < |Step(s, e).reports| ==> Faithful(Step(s, e).recorded, Step(s, e).reports[k])
  {
    hide Put, Charged, Accounted, Total, Landed, Raises;
    var next := Step(s, e);
    forall k | 0 <= k < |next.reports| ensures Faithful(next.recorded, next.reports[k]) {
      if k < |s.reports| {
        assert Faithful(s.recorded, s.reports[k]);
        var after := s.reports[k].after;
        assert next.recorded[..after] == s.recorded[..after];
      } else {
        assert s.recorded[..|s.recorded|] == s.recorded;
      }
    }
  }

  lemma StepKeepsMeter(s: State, e: Event)
    requires MeterInv(s)
    ensures MeterInv(Step(s, e))
  {
    assert |Step(s, e).threads| == |s.threads|;
    hide Step, Faithful, Accounted, Total, MeterFits, Landed;
    StepKeepsTotal(s, e);
    forall r ensures Accounted(Step(s, e), r) { StepKeepsReceived(s, e, r); }
    StepKeepsReports(s, e);
    forall t | 0 <= t < |Step(s, e).threads| ensures MeterFits(Step(s, e), t) {
      StepKeepsFits(s, e, t);
    }
  }

  /** No response is between its arrival and the end of its charge. */
  predicate Settled(threads: seq<Thread>) {
    forall t :: 0 <= t < |threads| ==> !threads[t].Got? && !threads[t].Metering?
  }

  lemma {:induction false} NothingPending(threads: seq<Thread>, r: Response)
    requires Settled(threads)
    ensures Pending(threads, r) == 0
  {
    if threads != [] { NothingPending(threads[..|threads| - 1], r); }
  }

  lemma {:induction false} RunKeepsMeter(n: nat, events: seq<Event>)
    ensures MeterInv(Run(n, events))
  {
    if events == [] {
      forall r ensures Accounted(Start(n), r) { NothingPending(Start(n).threads, r); }
    } else {
      RunKeepsMeter(n, events[..|events| - 1]);
      StepKeepsMeter(Run(n, events[..|events| - 1]), events[|events| - 1]);
    }
  }

  /** All six stores were made for each of these charges. */
  ghost predicate Whole(cs: seq<Charge>) {
    forall i :: 0 <= i < |cs| ==> cs[i].done == Stores
  }

  lemma WholeExactly(cs: seq<Charge>)
    requires Landed(cs)
    ensures Whole(cs) <==> forall r :: r in Replies(cs) ==> Converts(r)
  {
    hide Converts, Reach;
    forall i | 0 <= i < |cs| ensures cs[i].done == Stores <==> Converts(cs[i].reply) { ReachConverts(cs[i].reply); }
    assert forall i :: 0 <= i < |cs| ==> Replies(cs)[i] == cs[i].reply;
    if forall r :: r in Replies(cs) ==> Converts(r) {
      forall i | 0 <= i < |cs| ensures cs[i].done == Stores { assert Replies(cs)[i] in Replies(cs); }
    }
  }

  /**
   Any number of threads, any interleaving: whenever no response is under way, the meter is the
   total of the charges of exactly the responses received, each charged once and as far as it
   converts, whatever it ended in.
   */
  lemma MeterCountsEveryResponse(n: nat, events: seq<Event>)
    ensures var s := Run(n, events);
      Settled(s.threads) ==>
        s.meter == Total(s.recorded) && Landed(s.recorded) && multiset(Replies(s.recorded)) == s.received
  {
    hide Run, Landed, Total;
    RunKeepsMeter(n, events);
    var s := Run(n, events);
    if Settled(s.threads) {
      forall r ensures multiset(Replies(s.recorded))[r] == s.received[r] {
        assert Accounted(s, r);
        NothingPending(s.threads, r);
      }
      SettledIsUnlocked(s);
    }
  }

  lemma SettledIsUnlocked(s: State)
    requires MeterInv(s) && Settled(s.threads)
    ensures s.meterLock.None?
  {
    assert s.meterLock.Some? ==> MeterFits(s, s.meterLock.value);
  }

  /**
   At rest every charge and every report is whole if and only if the price and the counts of
   every response received convert; and calls alone are exact if and only if every price does.
   */
  lemma NothingIsLostExactly(n: nat, events: seq<Event>)
    requires Settled(Run(n, events).threads)
    ensures var s := Run(n, events);
      && (Whole(s.recorded) && AllReportsWhole(s) <==> forall r :: r in s.received ==> Converts(r))
      && (s.meter.calls == Sum(Replies(s.recorded), CarriesUsage) <==>
            forall r :: r in s.received ==> !CostOf(r.usage).NotAPrice?)
  {
    hide Run, Landed, Total, Converts, CostOf, CallsOf, Whole;
    MeterCountsEveryResponse(n, events);
    var s := Run(n, events);
    assert forall r :: r in Replies(s.recorded) <==> r in multiset(Replies(s.recorded));
    WholeExactly(s.recorded);
    RunKeepsMeter(n, events);
    WholeReports(s);
    TotalIsTheSum(s.recorded);
    CallsAreExact(Replies(s.recorded));
  }

  /** Every report was made after whole charges only. */
  ghost predicate AllReportsWhole(s: State) {
    forall k :: 0 <= k < |s.reports| ==>
      s.reports[k].after <= |s.recorded| && Whole(s.recorded[..s.reports[k].after])
  }

  lemma WholeReports(s: State)
    requires MeterInv(s)
    ensures Whole(s.recorded) ==> AllReportsWhole(s)
  {
    hide Total, Landed;
    forall k | 0 <= k < |s.reports| && Whole(s.recorded)
      ensures s.reports[k].after <= |s.recorded| && Whole(s.recorded[..s.reports[k].after]) {
      assert Faithful(s.recorded, s.reports[k]);
    }
  }

  /**
   A report is the total of the charges that had ended, and it is whole if and only if each of
   those responses converts.
   */
  lemma ReportsAreWholeExactly(n: nat, events: seq<Event>, k: nat)
    requires k < |Run(n, events).reports|
    ensures var s := Run(n, events);
      && Faithful(s.recorded, s.reports[k])
      && var before := s.recorded[..s.reports[k].after];
         Whole(before) <==> forall r :: r in Replies(before) ==> Converts(r)
  {
    hide Run;
    RunKeepsMeter(n, events);
    var s := Run(n, events);
    hide Converts, Total, Reach;
    assert Faithful(s.recorded, s.reports[k]);
    var after := s.reports[k].after;
    assert Landed(s.recorded[..after]) by {
      assert forall i :: 0 <= i < after ==> s.recorded[..after][i] == s.recorded[i];
    }
    WholeExactly(s.recorded[..after]);
  }

  // ---------------------------------------------------------------- the run that loses something

  lemma RunExtends(n: nat, events: seq<Event>, e: Event)
    ensures Run(n, events + [e]) == Step(Run(n, events), e)
  {
    assert (events + [e])[..|events|] == events;
  }

  /** One thread in a state that only its own place and the meter distinguish. */
  function Alone(th: Thread, locked: bool, m: Meter, received: multiset<Response>, recorded: seq<Charge>,
                 reports: seq<Report>): State {
    State([th], None, Some(0), 1, if locked then Some(0) else None, m, received, recorded, reports)
  }

  lemma Advanced(events: seq<Event>, to: State) returns (longer: seq<Event>)
    requires |Run(1, events).threads| == 1 && StepThread(Run(1, events), 0) == to
    ensures longer == events + [Advance(0)] && Run(1, longer) == to
  {
    RunExtends(1, events, Advance(0));
    longer := events + [Advance(0)];
    hide Run, StepThread;
  }

  lemma FirstRequest() returns (events: seq<Event>)
    ensures Run(1, events) == Alone(InFlight(Some(0)), false, Zero, multiset{}, [], [])
  {
    var start := State([Idle], None, None, 0, None, Zero, multiset{}, [], []);
    assert Start(1).threads == [Idle];
    assert Run(1, []) == start;
    hide Run;
    var looking := start.(threads := [Looking], clientLock := Some(0));
    var leaving := Alone(Leaving, false, Zero, multiset{}, [], []).(clientLock := Some(0));
    events := Advanced([], looking);
    events := Advanced(events, looking.(threads := [Building]));
    events := Advanced(events, leaving);
    events := Advanced(events, Alone(Ready, false, Zero, multiset{}, [], []));
    events := Advanced(events, Alone(InFlight(Some(0)), false, Zero, multiset{}, [], []));
  }

  /** k stores for r, each a load and a store. */
  lemma {:induction false} StoresMade(r: Response, start: seq<Event>, k: nat) returns (events: seq<Event>)
    requires k <= Reach(r)
    requires Run(1, start) == Alone(Metering(r, 0, None), true, Zero, multiset{r}, [], [])
    ensures Run(1, events) == Alone(Metering(r, k, None), true, Charged(Zero, r, k), multiset{r}, [], [])
  {
    hide Run, Put;
    if k == 0 {
      events := start;
    } else {
      events := StoresMade(r, start, k - 1);
      ReachConverts(r);
      RunExtends(1, events, Advance(0));
      RunExtends(1, events + [Advance(0)], Advance(0));
      events := events + [Advance(0)] + [Advance(0)];
      hide Raises, Reach;
    }
  }

  /**
   Every response that does not convert shows the loss: one thread, one call, and then a report
   of a meter in which only its first stores were made.
   */
  lemma HalfChargedReport(r: Response) returns (events: seq<Event>)
    requires !Converts(r)
    ensures var s := Run(1, events);
      && Reach(r) < Stores && Settled(s.threads) && s.received == multiset{r}
      && s.recorded == [Charge(r, Reach(r))]
      && s.reports == [Report(Charged(Zero, r, Reach(r)), 1)]
  {
    hide Run, Put, Charged;
    ReachConverts(r);
    hide Raises, Reach, Converts;
    events := FirstRequest();
    RunExtends(1, events, Reply(0, r));
    events := events + [Reply(0, r)];
    RunExtends(1, events, Advance(0));
    events := events + [Advance(0)];
    events := StoresMade(r, events, Reach(r));
    RunExtends(1, events, Advance(0));
    events := events + [Advance(0)];
    RunExtends(1, events, Ask);
    events := events + [Ask];
  }

  /** A prompt count that does not convert: the call is counted, and seven completion tokens are not. */
  lemma CompletionIsLost(body: Body)
    ensures var r := Response(0, "", Some(Usage(NotACount, Tokens(7), Absent, Absent, Absent)), body);
      !Converts(r) && Charged(Zero, r, Reach(r)) == Zero.(calls := 1)
  {
    ChargeOnce(Zero, Response(0, "", Some(Usage(NotACount, Tokens(7), Absent, Absent, Absent)), body));
  }

  /** A price that does not convert: neither the call nor its tokens are counted. */
  lemma CallIsLost(body: Body)
    ensures var r := Response(0, "", Some(Usage(Tokens(5), Tokens(7), Plain(NotAPrice), Absent, Absent)), body);
      !Converts(r) && Charged(Zero, r, Reach(r)) == Zero
  {
    ChargeOnce(Zero, Response(0, "", Some(Usage(Tokens(5), Tokens(7), Plain(NotAPrice), Absent, Absent)), body));
  }

  // ---------------------------------------------------------------- the object

  datatype Metadata = Metadata(model: string, revision: string, prompt: int, completion: int, total: int,
                               latency: nat, cost: Option<real>)

  /** How a call ends: no response came, its charge raised, or the response was read. */
  datatype Ending = NoResponse | ChargeRaised | Read(outcome: Outcome)

  /** `OpenRouterLLM` as one thread drives it. */
  class Client {
    const model: string
    var slot: Option<nat>
    var built: nat
    var meter: Meter
    ghost var charges: seq<Charge>

    ghost predicate Valid()
      reads this
    {
      built <= 1 && (slot.None? <==> built == 0) && meter == Total(charges) && Landed(charges)
    }

    constructor (model: string)
      ensures Valid() && charges == [] && built == 0 && this.model == model
    {
      this.model := model;
      slot, built, meter, charges := None, 0, Zero, [];
    }

    /** `_complete_once`; a request that raises leaves no response. */
    method CompleteOnce(reply: Option<Response>) returns (ending: Ending)
      requires Valid()
      modifies this
      ensures Valid() && built == 1
      ensures charges == old(charges) + if reply.Some? then [Charge(reply.value, Reach(reply.value))] else []
      ensures ending == if reply.None? then NoResponse
                        else if !Converts(reply.value) then ChargeRaised
                        else Read(OutcomeOf(reply.value.body))
    {
      hide Charged, OutcomeOf, Reach, Converts, Total, Landed;
      if slot.None? { slot, built := Some(built), built + 1; }
      if reply.None? { return NoResponse; }
      var r := reply.value;
      var ok := Record(r);
      ChargesGrow(charges, r);
      charges := charges + [Charge(r, Reach(r))];
      if !ok { return ChargeRaised; }
      var outcome := ReadBody(r.body);
      return Read(outcome);
    }

    /** The block under the meter lock; false when a conversion in it raises. */
    method Record(r: Response) returns (ok: bool)
      modifies this`meter
      ensures meter == Charged(old(meter), r, Reach(r)) && ok == Converts(r)
    {
      ChargeOnce(meter, r);
      hide Charged;
      var cost := CostOf(r.usage);
      hide CostOf;
      meter := meter.(latency := meter.latency + r.latency);
      if r.model != "" { meter := meter.(revision := r.model); }
      if cost.NotAPrice? { return false; }
      if cost.Usd? {
        meter := meter.(cost := Some((if meter.cost.Some? then meter.cost.value else 0.0) + cost.usd));
      }
      if r.usage.None? { return true; }
      meter := meter.(calls := meter.calls + 1);
      if r.usage.value.prompt.NotACount? { return false; }
      meter := meter.(prompt := meter.prompt + r.usage.value.prompt.n);
      if r.usage.value.completion.NotACount? { return false; }
      meter := meter.(completion := meter.completion + r.usage.value.completion.n);
      return true;
    }

    /** `usage` and `provider_metadata`: the sums over what each response contributed. */
    method ProviderMetadata() returns (m: Metadata)
      requires Valid()
      ensures m.prompt == Sum(Replies(charges), PromptOf) && m.completion == Sum(Replies(charges), CompletionOf)
      ensures m.total == m.prompt + m.completion && m.model == model
      ensures m.cost.Some? <==> exists r :: r in Replies(charges) && CostOf(r.usage).Usd?
      ensures m.cost.Some? ==> m.cost.value == Dollars(Replies(charges))
      ensures m.latency == Sum(Replies(charges), LatencyOf) && IsLastModel(Replies(charges), m.revision)
    {
      RevisionIsLast(charges);
      hide IsLastModel;
      TotalIsTheSum(charges);
      m := Metadata(model, meter.revision, meter.prompt, meter.completion, meter.prompt + meter.completion,
                    meter.latency, meter.cost);
    }
  }
}
