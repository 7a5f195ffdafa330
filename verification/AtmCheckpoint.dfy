/** What the usage checkpoint of a finished run says, and when it is stale or missing. */
module AtmCheckpoint {
  import opened WhiteSpace
  import opened Sets
  import opened AtmProtocol
  import opened AtmSafety
  import opened AtmTheorems

  /** The step puts a record on disk. */
  ghost predicate Records(qs: seq<string>, s: State, e: Event) {
    e.WriteRecord? && s.phase.Serving? && e.position in s.memory.pending && 1 <= e.position <= |qs|
  }

  /** The last record written has not been followed by its checkpoint. */
  ghost predicate Owed(qs: seq<string>, events: seq<Event>) {
    events != [] &&
    var before, e := events[..|events| - 1], events[|events| - 1];
    var s := Run(qs, before);
    Records(qs, s, e) || (Owed(qs, before) && !(e.WriteCheckpoint? && s.phase.Logged?))
  }

  /** With a checkpoint owed the one on disk counts too few records; otherwise it says what is there. */
  ghost predicate CheckpointFits(qs: seq<string>, d: Disk, owed: bool) {
    if owed then d.records != map[] && (d.checkpoint.Written? ==> d.checkpoint.answerCount < |d.records|)
    else if d.records == map[] then d.checkpoint.Missing?
    else d.checkpoint == Written(|d.records|, TotalUpTo(d.records, |qs|))
  }

  lemma RecordFits(qs: seq<string>, d: Disk, owed: bool, p: nat, r: Record)
    requires CheckpointFits(qs, d, owed) && p !in d.records
    ensures CheckpointFits(qs, d.(records := d.records[p := r]), true)
  {
    assert d.records[p := r] - {p} == d.records;
    OneLess(d.records[p := r], p);
    hide TotalUpTo;
  }

  /** A position that waits has no record yet. */
  lemma PendingIsFresh(qs: seq<string>, s: State, p: nat)
    requires Distinct(qs) && Inv(qs, s) && s.phase.Serving? && p in s.memory.pending
    ensures 1 <= p <= |qs| && p !in s.disk.records
  {
    hide PositionOf, TotalUpTo, LogBacked, AnswersMirror, LogOnce;
    FreshPosition(qs, s.disk.records, s.memory, p);
  }

  /** Only a record and a checkpoint change what the checkpoint has to say. */
  lemma OtherStepsKeepBoth(qs: seq<string>, s: State, e: Event)
    requires !Records(qs, s, e) && !(e.WriteCheckpoint? && s.phase.Logged?)
    ensures Step(qs, s, e).disk.records == s.disk.records && Step(qs, s, e).disk.checkpoint == s.disk.checkpoint
    ensures Step(qs, s, e).phase.Recorded? ==> s.phase.Recorded?
    ensures Step(qs, s, e).phase.Logged? ==> s.phase.Recorded? || s.phase.Logged?
  {
    hide LoadLog, LoadRecords, Todo, Retotal, FinalLog, Add, IsListing;
  }

  ghost predicate CheckpointInv(qs: seq<string>, s: State, owed: bool) {
    CheckpointFits(qs, s.disk, owed) && (s.phase.Recorded? || s.phase.Logged? ==> owed)
  }

  lemma StepKeepsCheckpoint(qs: seq<string>, s: State, e: Event, owed: bool)
    requires Distinct(qs) && Inv(qs, s) && CheckpointInv(qs, s, owed)
    ensures CheckpointInv(qs, Step(qs, s, e), Records(qs, s, e) || (owed && !(e.WriteCheckpoint? && s.phase.Logged?)))
  {
    hide Inv, CheckpointFits, Distinct;
    if Records(qs, s, e) {
      PendingIsFresh(qs, s, e.position);
      RecordFits(qs, s.disk, owed, e.position, Record(qs[e.position - 1], e.payload));
    } else if e.WriteCheckpoint? && s.phase.Logged? {
      LoggedSizes(qs, s);
      LoggedFits(qs, s);
    } else {
      OtherStepsKeepBoth(qs, s, e);
      SameFits(qs, s.disk, Step(qs, s, e).disk, owed);
      hide Step, Records;
    }
  }

  lemma LoggedSizes(qs: seq<string>, s: State)
    requires Distinct(qs) && Inv(qs, s) && s.phase.Logged?
    ensures |s.memory.answers| == |s.disk.records| && s.memory.totals == TotalUpTo(s.disk.records, |qs|)
  {
    hide TotalUpTo, Covered, LogBacked, LogOnce, AnswersMirror, PositionOf, Distinct;
    SizeByPosition(qs, s.disk.records, s.memory.byId);
    assert |s.memory.answers.Keys| == |s.memory.byId.Keys|;
  }

  /** Over every history, the checkpoint on disk is exact unless one is owed. */
  lemma {:induction false} CheckpointIsExact(qs: seq<string>, events: seq<Event>)
    requires Distinct(qs) && Named(qs) && Answered(events)
    ensures CheckpointInv(qs, Run(qs, events), Owed(qs, events))
  {
    if events == [] {
      hide Step;
    } else {
      hide CheckpointInv, Step, Records, Inv;
      var before, e := events[..|events| - 1], events[|events| - 1];
      assert Answered(before) by { assert forall i :: 0 <= i < |before| ==> before[i] == events[i]; }
      CheckpointIsExact(qs, before);
      RunKeeps(qs, before);
      StepKeepsCheckpoint(qs, Run(qs, before), e, Owed(qs, before));
    }
  }

  lemma SameFits(qs: seq<string>, d: Disk, after: Disk, owed: bool)
    requires CheckpointFits(qs, d, owed) && after.records == d.records && after.checkpoint == d.checkpoint
    ensures CheckpointFits(qs, after, owed)
  {
  }

  lemma LoggedFits(qs: seq<string>, s: State)
    requires CheckpointInv(qs, s, true) && s.phase.Logged? && |s.memory.answers| == |s.disk.records|
    requires s.memory.totals == TotalUpTo(s.disk.records, |qs|)
    ensures CheckpointFits(qs, Step(qs, s, WriteCheckpoint).disk, false)
  {
    hide TotalUpTo;
  }

  lemma {:induction false} RecordCount(records: map<nat, Record>, n: nat)
    requires forall p :: p in records <==> 1 <= p <= n
    ensures |records| == n
  {
    if n == 0 {
      assert records == map[];
    } else {
      OneLess(records, n);
      RecordCount(records - {n}, n - 1);
    }
  }

  /**
   The checkpoint a finished run leaves says the final count and totals if and only if the last
   record written was followed by its checkpoint: a run that died in between and was resumed with
   nothing left to answer finishes with a stale checkpoint or none.
   */
  lemma FinishedCheckpointExactly(qs: seq<string>, events: seq<Event>)
    requires Distinct(qs) && Named(qs) && Answered(events) && Run(qs, events).phase.Finished? && qs != []
    ensures var d := Run(qs, events).disk;
      d.checkpoint == Written(|qs|, TotalUpTo(d.records, |qs|)) <==> !Owed(qs, events)
  {
    hide Run, TotalUpTo, Owed, Completed;
    CheckpointIsExact(qs, events);
    FinishedIsComplete(qs, events);
    RecordCount(Run(qs, events).disk.records, |qs|);
  }

  lemma DiesBeforeCheckpoint(q: string, payload: Payload) returns (events: seq<Event>)
    requires q != "" && !PythonBlank(payload.answer)
    ensures Answered(events)
    ensures Run([q], events) ==
      State(Disk(map[1 := Record(q, payload)], [Row(q, payload.answer)], [q], Missing), Down, NoMemory)
  {
    hide Run, PythonBlank, UsageLoads, Load, IsListing;
    var qs := [q];
    NoEvents(qs);
    FreshLoads();
    events := Then(qs, [], Start([]));
    events := Then(qs, events, HealOne);
    events := Then(qs, events, PlanOne);
    events := Then(qs, events, PlanOne);
    events := Then(qs, events, WriteRecord(1, payload));
    events := Then(qs, events, AppendAnswer);
    events := Then(qs, events, Crash);
  }

  /** One question: the process dies between the log row and the checkpoint, and the next one finishes. */
  lemma FinishedWithoutCheckpoint(q: string, payload: Payload) returns (events: seq<Event>)
    requires q != "" && !PythonBlank(payload.answer) && UsageLoads(payload.usage)
    ensures Distinct([q]) && Named([q]) && Answered(events)
    ensures Run([q], events).phase.Finished? && Run([q], events).disk.checkpoint == Missing
  {
    hide Run, PythonBlank, UsageLoads, Load, IsListing, FinalLog;
    var qs, r := [q], Record(q, payload);
    events := DiesBeforeCheckpoint(q, payload);
    var m := OneLoads(Disk(map[1 := r], [Row(q, payload.answer)], [q], Missing), r);
    events := Then(qs, events, Start([1]));
    events := Then(qs, events, HealOne);
    events := Then(qs, events, HealOne);
    events := Then(qs, events, PlanOne);
    events := Then(qs, events, PlanOne);
    events := Then(qs, events, Finish);
  }

  lemma OneLoads(d: Disk, r: Record) returns (m: Memory)
    requires d.records == map[1 := r] && d.log == [Row(r.id, r.payload.answer)]
    requires r.id != "" && !PythonBlank(r.payload.answer) && UsageLoads(r.payload.usage)
    ensures IsListing([1], d.records) && Load(d, [1]) == State(d, Healing([r.id]), m)
    ensures m.answers == map[r.id := r.payload.answer] && m.byId == map[r.id := r] && m.pending == {}
  {
    assert Listed([1], 1) == Listed([1], 0) + {1} == d.records.Keys;
    assert LoadLog(d.log, 0) == Ok(map[]);
    assert LoadRecords(d.records, [1], 0) == Ok(map[]);
    assert LoadLog(d.log, 1) == Ok(map[r.id := r.payload.answer]);
    assert LoadRecords(d.records, [1], 1) == Ok(map[r.id := r]);
    assert Todo(d, [1]) == [r.id];
    m := Load(d, [1]).memory;
  }
}
