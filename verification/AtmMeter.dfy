/** The usage meter and the loaders of the answer run, field by field. */
module AtmMeter {
  import opened WhiteSpace
  import opened Sets
  import opened AtmProtocol
  import opened AtmSafety
  import opened AtmTheorems
  import opened AtmCheckpoint

  /** The sum of f over the records at positions 1..n. */
  ghost function SumOver(records: map<nat, Record>, n: nat, f: Record -> int): int {
    if n == 0 then 0 else SumOver(records, n - 1, f) + if n in records then f(records[n]) else 0
  }

  ghost function Retried(records: map<nat, Record>, n: nat): set<nat> {
    set p | p in records && 1 <= p <= n && records[p].payload.retried
  }

  /** Each field of t is the sum of that field over the records, and retries counts the retried ones. */
  ghost predicate Sums(records: map<nat, Record>, n: nat, t: Totals) {
    && t.calls == SumOver(records, n, (r: Record) => r.payload.calls)
    && t.prompt == SumOver(records, n, (r: Record) => r.payload.usage.prompt)
    && t.completion == SumOver(records, n, (r: Record) => r.payload.usage.completion)
    && t.total == SumOver(records, n, (r: Record) => r.payload.usage.total)
    && t.retries == |Retried(records, n)|
  }

  lemma {:induction false} FieldSum(records: map<nat, Record>, n: nat, f: Record -> int, g: Totals -> int)
    requires g(NoTotals) == 0
    requires forall t, r: Record :: g(Add(t, r.payload)) == g(t) + f(r)
    ensures g(TotalUpTo(records, n)) == SumOver(records, n, f)
  {
    hide Add;
    if n > 0 { FieldSum(records, n - 1, f, g); }
  }

  lemma {:induction false} RetriesCounted(records: map<nat, Record>, n: nat)
    ensures TotalUpTo(records, n).retries == |Retried(records, n)|
  {
    if n == 0 {
      assert Retried(records, 0) == {};
    } else {
      RetriesCounted(records, n - 1);
      OneMore(Retried(records, n - 1), Retried(records, n), n, n in records && records[n].payload.retried);
    }
  }

  lemma TotalSums(records: map<nat, Record>, n: nat)
    ensures Sums(records, n, TotalUpTo(records, n))
  {
    FieldSum(records, n, (r: Record) => r.payload.calls, (t: Totals) => t.calls);
    FieldSum(records, n, (r: Record) => r.payload.usage.prompt, (t: Totals) => t.prompt);
    FieldSum(records, n, (r: Record) => r.payload.usage.completion, (t: Totals) => t.completion);
    FieldSum(records, n, (r: Record) => r.payload.usage.total, (t: Totals) => t.total);
    RetriesCounted(records, n);
  }

  /** Over every history, between acceptances the meter holds the sums over the records on disk. */
  lemma MeterIsTheSums(qs: seq<string>, events: seq<Event>)
    requires Distinct(qs) && Named(qs) && Answered(events)
    ensures var s := Run(qs, events);
      s.phase.Planning? || s.phase.Serving? || s.phase.Logged? || s.phase.Finished? ==>
        Sums(s.disk.records, |qs|, s.memory.totals)
  {
    hide Run, Sums, TotalUpTo;
    AcceptanceConserves(qs, events);
    TotalSums(Run(qs, events).disk.records, |qs|);
  }

  /** And so does every checkpoint that is not owed: the count and the sums of the records on disk. */
  lemma CheckpointIsTheSums(qs: seq<string>, events: seq<Event>)
    requires Distinct(qs) && Named(qs) && Answered(events) && Run(qs, events).disk.records != map[]
    ensures var d := Run(qs, events).disk;
      !Owed(qs, events) ==>
        d.checkpoint.Written? && d.checkpoint.answerCount == |d.records| && Sums(d.records, |qs|, d.checkpoint.totals)
  {
    hide Run, Sums, TotalUpTo, Owed;
    CheckpointIsExact(qs, events);
    TotalSums(Run(qs, events).disk.records, |qs|);
  }

  // ---------------------------------------------------------------- what the loaders accept

  /** The log loads if and only if every row names its id, and then gives the last answer of each id. */
  lemma {:induction false} LogLoadsExactly(log: seq<Row>, n: nat)
    requires n <= |log|
    ensures LoadLog(log, n).Ok? <==> forall i :: 0 <= i < n ==> log[i].id != ""
    ensures LoadLog(log, n).Fail? ==> LoadLog(log, n).why == InvalidRow
    ensures LoadLog(log, n).Ok? ==> forall id, answer ::
      id in LoadLog(log, n).value && LoadLog(log, n).value[id] == answer <==>
      exists i :: 0 <= i < n && log[i] == Row(id, answer) && forall j :: i < j < n ==> log[j].id != id
  {
    if n > 0 {
      LogLoadsExactly(log, n - 1);
      if LoadLog(log, n).Ok? {
        forall id, answer
          ensures id in LoadLog(log, n).value && LoadLog(log, n).value[id] == answer <==>
            exists i :: 0 <= i < n && log[i] == Row(id, answer) && forall j :: i < j < n ==> log[j].id != id
        {
          if log[n - 1].id == id {
            assert log[n - 1] == Row(id, log[n - 1].answer);
          }
        }
      }
    }
  }

  /** What `_load_answer_records` demands of one record. */
  ghost predicate Loadable(r: Record) {
    && r.id != "" && r.payload.usage.prompt >= 0 && r.payload.usage.completion >= 0 && r.payload.usage.total >= 0
    && exists i :: 0 <= i < |r.payload.answer| && !PythonSpace(r.payload.answer[i])
  }

  lemma LoadableExactly(r: Record)
    ensures Loadable(r) <==> r.id != "" && UsageLoads(r.payload.usage) && !PythonBlank(r.payload.answer)
  {
    hide PythonSpace;
  }

  /** Some of the first n records listed has this id. */
  ghost predicate IdAmong(records: map<nat, Record>, listing: seq<nat>, n: nat, id: string)
    requires n <= |listing| && forall k :: 0 <= k < |listing| ==> listing[k] in records
  {
    exists k :: 0 <= k < n && records[listing[k]].id == id
  }

  /** `byId` holds the first n records listed, each under its id. */
  ghost predicate HoldsFirst(records: map<nat, Record>, listing: seq<nat>, n: nat, byId: map<string, Record>)
    requires n <= |listing| && forall k :: 0 <= k < |listing| ==> listing[k] in records
  {
    && (forall k :: 0 <= k < n ==>
         var r := records[listing[k]]; r.id in byId && byId[r.id] == r)
    && (forall id :: id in byId <==> IdAmong(records, listing, n, id))
  }

  /** Each of the first n records is sound and none repeats an id before it. */
  ghost predicate FirstsLoad(records: map<nat, Record>, listing: seq<nat>, n: nat)
    requires n <= |listing| && forall k :: 0 <= k < |listing| ==> listing[k] in records
  {
    forall k :: 0 <= k < n ==>
      Loadable(records[listing[k]]) && !IdAmong(records, listing, k, records[listing[k]].id)
  }

  /** Record m is the first that does not load, and this is why. */
  ghost predicate FirstRefused(records: map<nat, Record>, listing: seq<nat>, m: nat, why: Refusal)
    requires m < |listing| && forall k :: 0 <= k < |listing| ==> listing[k] in records
  {
    var id := records[listing[m]].id;
    && FirstsLoad(records, listing, m) && !FirstsLoad(records, listing, m + 1)
    && why == if id != "" && IdAmong(records, listing, m, id) then DuplicateRecord else InvalidRecord
  }

  lemma HoldsGrows(records: map<nat, Record>, listing: seq<nat>, n: nat, byId: map<string, Record>)
    requires 1 <= n <= |listing| && forall k :: 0 <= k < |listing| ==> listing[k] in records
    requires HoldsFirst(records, listing, n - 1, byId) && records[listing[n - 1]].id !in byId
    ensures HoldsFirst(records, listing, n, byId[records[listing[n - 1]].id := records[listing[n - 1]]])
  {
    var last := records[listing[n - 1]];
    forall id ensures IdAmong(records, listing, n, id) <==> IdAmong(records, listing, n - 1, id) || id == last.id {
      if id == last.id { assert records[listing[n - 1]].id == id; }
    }
  }

  /**
   The records load if and only if each is sound and no two share an id, and then each is found by
   its id. Otherwise the first that does not load decides: a repeated id, or anything else wrong.
   */
  lemma {:induction false} RecordsLoadExactly(records: map<nat, Record>, listing: seq<nat>, n: nat)
    requires n <= |listing| && forall k :: 0 <= k < |listing| ==> listing[k] in records
    ensures var r := LoadRecords(records, listing, n);
      && (r.Ok? <==> FirstsLoad(records, listing, n))
      && (r.Ok? ==> HoldsFirst(records, listing, n, r.value))
      && (r.Fail? ==> exists m: nat :: m < n && FirstRefused(records, listing, m, r.why))
  {
    hide Loadable, PythonBlank, UsageLoads, HoldsFirst, IdAmong;
    if n == 0 {
      assert HoldsFirst(records, listing, 0, map[]) by { NoneHeld(records, listing); }
    } else {
      RecordsLoadExactly(records, listing, n - 1);
      var before, last := LoadRecords(records, listing, n - 1), records[listing[n - 1]];
      LoadableExactly(last);
      assert LoadRecords(records, listing, n) == if before.Fail? then before else LoadRecord(before.value, last);
      hide LoadRecords;
      if before.Ok? {
        IdsHeld(records, listing, n - 1, before.value);
        if last.id !in before.value { HoldsGrows(records, listing, n, before.value); }
        assert LoadRecords(records, listing, n).Fail? ==>
          FirstRefused(records, listing, n - 1, LoadRecords(records, listing, n).why);
      }
    }
  }

  lemma NoneHeld(records: map<nat, Record>, listing: seq<nat>)
    requires forall k :: 0 <= k < |listing| ==> listing[k] in records
    ensures HoldsFirst(records, listing, 0, map[])
  {
  }

  lemma IdsHeld(records: map<nat, Record>, listing: seq<nat>, n: nat, byId: map<string, Record>)
    requires n <= |listing| && forall k :: 0 <= k < |listing| ==> listing[k] in records
    requires HoldsFirst(records, listing, n, byId)
    ensures forall id :: id in byId <==> IdAmong(records, listing, n, id)
  {
  }

  /** Every question that waits for an answer has its evidence on file. */
  lemma PendingIsRetrieved(qs: seq<string>, events: seq<Event>, p: nat)
    requires Distinct(qs) && Named(qs) && Answered(events)
    requires Run(qs, events).phase.Serving? && p in Run(qs, events).memory.pending
    ensures 1 <= p <= |qs| && qs[p - 1] in Run(qs, events).disk.retrieval
  {
    hide Run, DiskInv, ByIdMirrors, AnswersMirror, Balanced;
    RunKeeps(qs, events);
  }
}
