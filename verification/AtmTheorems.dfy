/** The results about the ATM checkpoint protocol that a caller would rely on. */
module AtmTheorems {
  import opened WhiteSpace
  import opened AtmProtocol
  import opened AtmSafety
  import opened Sets

  ghost predicate HasRecord(records: map<nat, Record>, row: Row) {
    exists p :: p in records && records[p].id == row.id && records[p].payload.answer == row.answer
  }

  /**
   Resume safety. After any history of starts, healing, retrieval, acceptances in any order and
   crashes, each row of the answers log has a record with the same answer, no id is logged or
   retrieved twice, and none of the refusals of damaged or mismatched files has fired.
   */
  lemma ResumeSafety(qs: seq<string>, events: seq<Event>)
    requires Distinct(qs) && Named(qs) && Answered(events)
    ensures var s := Run(qs, events);
      && (forall i :: 0 <= i < |s.disk.log| ==> HasRecord(s.disk.records, s.disk.log[i]))
      && LogOnce(s.disk.log) && Distinct(s.disk.retrieval)
      && (s.phase.Refused? ==> s.phase.why == InvalidRecord)
  {
    hide Run;
    RunKeeps(qs, events);
    var d := Run(qs, events).disk;
    forall i | 0 <= i < |d.log| ensures HasRecord(d.records, d.log[i]) {
      var p := PositionOf(qs, d.log[i].id);
      assert Backed(qs, d.records, d.log[i]);
      assert PositionOf(qs, d.records[p].id) == p;
    }
  }

  /**
   When a restart works: over a directory the program left behind, loading goes on to heal the
   log if and only if no record holds a negative token count.
   */
  lemma RestartHealsExactly(qs: seq<string>, events: seq<Event>, listing: seq<nat>)
    requires Distinct(qs) && Named(qs) && Answered(events)
    requires Run(qs, events).phase.Down? && IsListing(listing, Run(qs, events).disk.records)
    ensures var s := Run(qs, events);
      Step(qs, s, Start(listing)).phase.Healing? <==> AllUsageLoads(s.disk.records)
  {
    hide Run;
    RunKeeps(qs, events);
    LoadKeeps(qs, Run(qs, events).disk, listing);
  }

  /** A provider that reports a negative count leaves a record no restart will read, whatever else is there. */
  lemma NegativeUsageBlocksRestart(d: Disk, listing: seq<nat>, p: nat)
    requires IsListing(listing, d.records) && p in d.records && !UsageLoads(d.records[p].payload.usage)
    ensures Load(d, listing).phase.Refused?
  {
    if LoadRecords(d.records, listing, |listing|).Ok? {
      var k := PlaceOf(listing, |listing|, p);
      LoadedUsage(d.records, listing, |listing|, k);
    }
  }

  /**
   How such a directory comes about: one question, an answer whose provider reports a negative
   count, and a crash after its record.
   */
  lemma NegativeUsageIsReached(q: string, payload: Payload) returns (events: seq<Event>)
    requires q != "" && !PythonBlank(payload.answer) && !UsageLoads(payload.usage)
    ensures Distinct([q]) && Named([q]) && Answered(events)
    ensures Run([q], events) == State(Disk(map[1 := Record(q, payload)], [], [q], Missing), Down, NoMemory)
  {
    hide Run, PythonBlank, UsageLoads, Load, IsListing;
    var qs := [q];
    assert Run(qs, []) == Fresh by { NoEvents(qs); }
    events := [];
    events := Then(qs, events, Start([]));
    FreshLoads();
    events := Then(qs, events, HealOne);
    events := Then(qs, events, PlanOne);
    events := Then(qs, events, PlanOne);
    events := Then(qs, events, WriteRecord(1, payload));
    events := Then(qs, events, Crash);
  }

  lemma FreshLoads()
    ensures IsListing([], Fresh.disk.records) && Load(Fresh.disk, []) == State(Fresh.disk, Healing([]), NoMemory)
  {
    assert Listed([], 0) == {};
    IdCount(Fresh.disk.retrieval);
    assert Ids(Fresh.disk.retrieval) == {};
    assert Todo(Fresh.disk, []) == [];
  }

  lemma NoEvents(qs: seq<string>)
    ensures Run(qs, []) == Fresh
  {
  }

  lemma Then(qs: seq<string>, before: seq<Event>, e: Event) returns (events: seq<Event>)
    ensures events == before + [e] && Run(qs, events) == Step(qs, Run(qs, before), e)
    ensures Answered(before) && (e.WriteRecord? ==> !PythonBlank(e.payload.answer)) ==> Answered(events)
  {
    hide Step, PythonBlank;
    RunExtends(qs, before, e);
    events := before + [e];
  }

  lemma {:induction false} LoadedUsage(records: map<nat, Record>, listing: seq<nat>, n: nat, k: nat)
    requires k < n <= |listing| && forall i :: 0 <= i < |listing| ==> listing[i] in records
    requires LoadRecords(records, listing, n).Ok?
    ensures UsageLoads(records[listing[k]].payload.usage)
  {
    hide PythonBlank, UsageLoads;
    if k < n - 1 { LoadedUsage(records, listing, n - 1, k); }
  }

  // ---------------------------------------------------------------- conservation

  lemma {:induction false} SizeByPosition(qs: seq<string>, records: map<nat, Record>, byId: map<string, Record>)
    requires RecordsFit(qs, records) && ByIdMirrors(qs, records, byId)
    ensures |byId| == |records|
    decreases |records|
  {
    if |records| == 0 {
      assert byId == map[] by { assert forall id :: id !in byId; }
    } else {
      hide RecordsFit, ByIdMirrors;
      var p :| p in records;
      var id := records[p].id;
      WithoutOne(qs, records, byId, p);
      OneLess(records, p);
      OneLess(byId, id);
      SizeByPosition(qs, records - {p}, byId - {id});
    }
  }

  lemma WithoutOne(qs: seq<string>, records: map<nat, Record>, byId: map<string, Record>, p: nat)
    requires RecordsFit(qs, records) && ByIdMirrors(qs, records, byId) && p in records
    ensures records[p].id in byId
    ensures RecordsFit(qs, records - {p}) && ByIdMirrors(qs, records - {p}, byId - {records[p].id})
  {
    var id := records[p].id;
    assert PositionOf(qs, id) == p;
    forall other ensures PositionOf(qs, other) == p ==> other == id {
      if PositionOf(qs, other) == p { assert qs[p - 1] == other && qs[p - 1] == id; }
    }
    hide PositionOf, PythonBlank;
  }

  /**
   Conservation. Between acceptances the meter and the retry count are the sums over the records
   on disk, log and records are equally many, and the checkpoint written next says exactly this.
   */
  lemma AcceptanceConserves(qs: seq<string>, events: seq<Event>)
    requires Distinct(qs) && Named(qs) && Answered(events)
    ensures var s := Run(qs, events);
      && (s.phase.Planning? || s.phase.Serving? || s.phase.Logged? || s.phase.Finished? ==>
           s.memory.totals == TotalUpTo(s.disk.records, |qs|))
      && (s.phase.Serving? || s.phase.Logged? ==>
           |s.memory.answers| == |s.memory.byId| == |s.disk.records| == |s.disk.log|)
      && (s.phase.Logged? ==>
           Step(qs, s, WriteCheckpoint).disk.checkpoint == Written(|s.disk.log|, TotalUpTo(s.disk.records, |qs|)))
  {
    hide Run;
    RunKeeps(qs, events);
    var s := Run(qs, events);
    if s.phase.Serving? || s.phase.Logged? {
      hide TotalUpTo, Covered, LogBacked, LogOnce, AnswersMirror, PositionOf;
      SizeByPosition(qs, s.disk.records, s.memory.byId);
      LogSize(s.disk.log, s.memory.answers);
      assert |s.memory.answers.Keys| == |s.memory.byId.Keys|;
    }
  }

  lemma LogSize(log: seq<Row>, answers: map<string, string>)
    requires AnswersMirror(log, answers) && LogOnce(log)
    ensures |log| == |answers|
  {
    var ids := seq(|log|, i requires 0 <= i < |log| => log[i].id);
    assert Distinct(ids);
    IdCount(ids);
    forall x ensures x in LogIds(log) <==> x in Ids(ids) {
      if x in LogIds(log) {
        var i :| 0 <= i < |log| && log[i].id == x;
        assert ids[i] == x;
      }
    }
    assert answers.Keys == Ids(ids);
  }

  /** A finished run holds one record and one log row for each question, in question order. */
  lemma FinishedIsComplete(qs: seq<string>, events: seq<Event>)
    requires Distinct(qs) && Named(qs) && Answered(events) && Run(qs, events).phase.Finished?
    ensures var d := Run(qs, events).disk;
      && Completed(qs, d.records, d.log)
      && (forall p :: p in d.records <==> 1 <= p <= |qs|)
      && (forall p :: p in d.records ==> d.records[p].id == qs[p - 1])
  {
    hide Run;
    RunKeeps(qs, events);
    hide DiskInv, Completed;
    RecordsAreQuestions(qs, Run(qs, events).disk);
  }

  lemma RecordsAreQuestions(qs: seq<string>, d: Disk)
    requires DiskInv(qs, d) && Completed(qs, d.records, d.log)
    ensures forall p :: p in d.records <==> 1 <= p <= |qs|
    ensures forall p :: p in d.records ==> d.records[p].id == qs[p - 1]
  {
    hide PositionOf, PythonBlank, LogBacked, LogOnce, Distinct;
    forall p | p in d.records ensures 1 <= p <= |qs| && d.records[p].id == qs[p - 1] {
      assert PositionOf(qs, d.records[p].id) == p;
    }
    forall p | 1 <= p <= |qs| ensures p in d.records {
      assert AnsweredAt(qs, d.records, d.log, p - 1);
    }
  }

  // ---------------------------------------------------------------- repeated question ids

  /** What holds without assuming the ids distinct. */
  ghost predicate LooseInv(qs: seq<string>, s: State) {
    && (forall p :: p in s.disk.records ==> 1 <= p <= |qs| && s.disk.records[p].id == qs[p - 1])
    && match s.phase
       case Down | Refused(_) => true
       case Healing(_) => s.memory.byId.Keys <= Ids(qs)
       case Planning(next) => s.memory.byId.Keys <= Ids(qs) && Reached(qs, s.memory, next)
       case Serving | Recorded(_) | Logged => s.memory.byId.Keys <= Ids(qs) && Reached(qs, s.memory, |qs|)
       case Finished => Distinct(qs)
  }

  ghost predicate Reached(qs: seq<string>, m: Memory, next: nat) {
    next <= |qs| && forall k :: 0 <= k < next ==> qs[k] in m.byId || k + 1 in m.pending
  }

  lemma {:induction false} LoadedIds(records: map<nat, Record>, listing: seq<nat>, n: nat)
    requires n <= |listing| && forall k :: 0 <= k < |listing| ==> listing[k] in records
    requires LoadRecords(records, listing, n).Ok?
    ensures var byId := LoadRecords(records, listing, n).value;
      && (forall id :: id in byId ==> exists k :: 0 <= k < n && records[listing[k]].id == id)
      && (forall k :: 0 <= k < n ==> records[listing[k]].id in byId)
      && (forall j, k :: 0 <= j < k < n ==> records[listing[j]].id != records[listing[k]].id)
  {
    if n > 0 {
      var before, r := LoadRecords(records, listing, n - 1), records[listing[n - 1]];
      assert before.Ok? && LoadRecords(records, listing, n) == LoadRecord(before.value, r);
      LoadedIds(records, listing, n - 1);
      LoadedOne(before.value, r);
      var after := LoadRecords(records, listing, n).value;
      hide LoadRecord, LoadRecords;
      assert after == before.value[r.id := r];
      forall j, k | 0 <= j < k < n ensures records[listing[j]].id != records[listing[k]].id {
        assert k == n - 1 ==> records[listing[j]].id in before.value;
      }
    }
  }

  lemma LoadedOne(byId: map<string, Record>, r: Record)
    requires LoadRecord(byId, r).Ok?
    ensures r.id !in byId && LoadRecord(byId, r).value == byId[r.id := r]
  {
  }

  /** With nothing pending, the count check passes if and only if the question ids are distinct. */
  lemma CountCheckExact(qs: seq<string>, s: State)
    requires LooseInv(qs, s) && s.phase.Serving? && s.memory.pending == {}
    ensures Complete(qs, s).phase.Finished? <==> Distinct(qs)
  {
    IdCount(qs);
    assert s.memory.byId.Keys == Ids(qs);
    hide Distinct, Ids;
  }

  lemma LooseLoad(qs: seq<string>, d: Disk, listing: seq<nat>)
    requires IsListing(listing, d.records)
    requires forall p :: p in d.records ==> 1 <= p <= |qs| && d.records[p].id == qs[p - 1]
    ensures LooseInv(qs, Load(d, listing))
  {
    if LoadRecords(d.records, listing, |listing|).Ok? {
      LoadedIds(d.records, listing, |listing|);
      hide LoadRecords, Listed, LoadLog, Todo, Retotal;
      var byId := LoadRecords(d.records, listing, |listing|).value;
      forall id | id in byId ensures id in Ids(qs) {
        var k :| 0 <= k < |listing| && d.records[listing[k]].id == id;
        assert qs[listing[k] - 1] == id;
      }
    }
  }

  lemma LooseStep(qs: seq<string>, s: State, e: Event)
    requires LooseInv(qs, s)
    ensures LooseInv(qs, Step(qs, s, e))
  {
    hide Load, Ids, Distinct, IsListing, Add, FinalLog;
    match e
    case Start(listing) =>
      if s.phase.Down? && IsListing(listing, s.disk.records) { LooseLoad(qs, s.disk, listing); }
    case Finish =>
      if s.phase.Serving? && s.memory.pending == {} { CountCheckExact(qs, s); }
    case WriteRecord(position, payload) =>
      if s.phase.Serving? && position in s.memory.pending && 1 <= position <= |qs| {
        LooseAccept(qs, s, position, payload);
      }
    case _ =>
  }

  lemma LooseAccept(qs: seq<string>, s: State, position: nat, payload: Payload)
    requires LooseInv(qs, s) && s.phase.Serving? && position in s.memory.pending && 1 <= position <= |qs|
    ensures LooseInv(qs, Accept(qs, s, position, payload))
  {
    assert qs[position - 1] in Ids(qs);
    hide Ids, Distinct;
  }

  /**
   `load_questions` does not refuse a repeated id, and a run over such a file can never finish:
   every history stops short, at the latest at the count check.
   */
  lemma {:induction false} RepeatedIdsNeverFinish(qs: seq<string>, events: seq<Event>)
    ensures LooseInv(qs, Run(qs, events))
    ensures !Distinct(qs) ==> !Run(qs, events).phase.Finished?
  {
    if events != [] {
      hide Step, Distinct;
      RepeatedIdsNeverFinish(qs, events[..|events| - 1]);
      LooseStep(qs, Run(qs, events[..|events| - 1]), events[|events| - 1]);
    }
  }

  /** At the end of any history that leaves nothing pending, `run` completes exactly over distinct ids. */
  lemma FinishesExactlyWhenDistinct(qs: seq<string>, events: seq<Event>)
    requires Run(qs, events).phase.Serving? && Run(qs, events).memory.pending == {}
    ensures Run(qs, events + [Finish]).phase.Finished? <==> Distinct(qs)
  {
    RepeatedIdsNeverFinish(qs, events);
    CountCheckExact(qs, Run(qs, events));
    RunExtends(qs, events, Finish);
  }

  lemma RunExtends(qs: seq<string>, events: seq<Event>, e: Event)
    ensures Run(qs, events + [e]) == Step(qs, Run(qs, events), e)
  {
    hide Step;
    assert (events + [e])[..|events|] == events;
  }

  /** Nor can it be resumed once both records of a repeated id are on disk. */
  lemma RepeatedRecordsRefuseRestart(d: Disk, listing: seq<nat>, p: nat, q: nat)
    requires IsListing(listing, d.records) && p in d.records && q in d.records && p != q
    requires d.records[p].id == d.records[q].id
    ensures Load(d, listing).phase.Refused?
  {
    if LoadRecords(d.records, listing, |listing|).Ok? {
      LoadedIds(d.records, listing, |listing|);
      hide LoadRecords;
      var j := PlaceOf(listing, |listing|, p);
      var k := PlaceOf(listing, |listing|, q);
    }
  }
}
