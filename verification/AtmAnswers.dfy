/** What becomes of an accepted answer: it is never lost and never changed. */
module AtmAnswers {
  import opened AtmProtocol
  import opened AtmSafety
  import opened AtmTheorems

  ghost predicate Keeps(before: map<nat, Record>, after: map<nat, Record>) {
    forall p :: p in before ==> p in after && after[p] == before[p]
  }

  /** The question at this position waits for its answer. */
  ghost predicate Waits(qs: seq<string>, s: State, position: nat) {
    s.phase.Serving? && position in s.memory.pending && 1 <= position <= |qs|
  }

  /** Only accepting an answer changes the records, and it writes that answer under that question. */
  lemma StepRecords(qs: seq<string>, s: State, e: Event)
    ensures Step(qs, s, e).disk.records ==
      if e.WriteRecord? && Waits(qs, s, e.position)
      then s.disk.records[e.position := Record(qs[e.position - 1], e.payload)] else s.disk.records
  {
    hide LoadLog, LoadRecords, Retotal, Todo, FinalLog, IsListing;
  }

  lemma StepKeepsRecords(qs: seq<string>, s: State, e: Event)
    requires Distinct(qs) && Inv(qs, s)
    ensures Keeps(s.disk.records, Step(qs, s, e).disk.records)
  {
    hide Step, RecordsFit, LogBacked, LogOnce, Balanced, AnswersMirror, RefusalInv;
    StepRecords(qs, s, e);
    if e.WriteRecord? && Waits(qs, s, e.position) {
      FreshPosition(qs, s.disk.records, s.memory, e.position);
    }
  }

  /** A record on disk is there unchanged after any further history of steps, crashes and restarts. */
  lemma {:induction false} RecordsStay(qs: seq<string>, events: seq<Event>, later: seq<Event>)
    requires Distinct(qs) && Named(qs) && Answered(events + later)
    ensures Keeps(Run(qs, events).disk.records, Run(qs, events + later).disk.records)
  {
    hide Step, Inv;
    if later == [] {
      assert events + later == events;
    } else {
      var n := |later| - 1;
      var before := events + later[..n];
      assert events + later == before + [later[n]];
      assert forall i :: 0 <= i < |before| ==> before[i] == (events + later)[i];
      RecordsStay(qs, events, later[..n]);
      RunKeeps(qs, before);
      RunExtends(qs, before, later[n]);
      StepKeepsRecords(qs, Run(qs, before), later[n]);
      hide Run;
    }
  }

  /**
   Durability. Once the record of an answer is written, after any further history the record on
   disk holds that answer, every row of the log for its question does, and so does the published
   log of a finished run, at the question's own place.
   */
  lemma AcceptedIsPublished(qs: seq<string>, events: seq<Event>, position: nat, payload: Payload, later: seq<Event>)
    requires Distinct(qs) && Named(qs) && Answered(events + [WriteRecord(position, payload)] + later)
    requires Waits(qs, Run(qs, events), position)
    ensures var s := Run(qs, events + [WriteRecord(position, payload)] + later);
      && position in s.disk.records && s.disk.records[position] == Record(qs[position - 1], payload)
      && (forall i :: 0 <= i < |s.disk.log| && s.disk.log[i].id == qs[position - 1] ==>
           s.disk.log[i].answer == payload.answer)
      && (s.phase.Finished? ==>
           |s.disk.log| == |qs| && s.disk.log[position - 1] == Row(qs[position - 1], payload.answer))
  {
    hide Run, Step, DiskInv, UpInv, RefusalInv;
    var accepted := events + [WriteRecord(position, payload)];
    var all := accepted + later;
    assert Answered(events) by { assert forall i :: 0 <= i < |events| ==> events[i] == all[i]; }
    RunKeeps(qs, events);
    RunExtends(qs, events, WriteRecord(position, payload));
    StepRecords(qs, Run(qs, events), WriteRecord(position, payload));
    RecordsStay(qs, accepted, later);
    RunKeeps(qs, all);
    hide Answered;
    LogSaysRecord(qs, Run(qs, all), position);
  }

  lemma LogSaysRecord(qs: seq<string>, s: State, position: nat)
    requires Distinct(qs) && Inv(qs, s) && 1 <= position <= |qs| && position in s.disk.records
    ensures var answer := s.disk.records[position].payload.answer;
      && (forall i :: 0 <= i < |s.disk.log| && s.disk.log[i].id == qs[position - 1] ==> s.disk.log[i].answer == answer)
      && (s.phase.Finished? ==> |s.disk.log| == |qs| && s.disk.log[position - 1] == Row(qs[position - 1], answer))
  {
    hide PositionOf, Balanced, ByIdMirrors, AnswersMirror, RefusalInv, RecordsFit, LogOnce;
    PositionOfQuestion(qs, position - 1);
    assert LogBacked(qs, s.disk.records, s.disk.log);
    if s.phase.Finished? { assert AnsweredAt(qs, s.disk.records, s.disk.log, position - 1); }
  }

  /** And no record came about otherwise: each was accepted, as it is, while its question waited. */
  lemma {:induction false} RecordsWereAccepted(qs: seq<string>, events: seq<Event>, p: nat) returns (n: nat)
    requires Distinct(qs) && Named(qs) && Answered(events) && p in Run(qs, events).disk.records
    ensures n < |events| && Waits(qs, Run(qs, events[..n]), p)
    ensures events[n] == WriteRecord(p, Run(qs, events).disk.records[p].payload)
    ensures Run(qs, events).disk.records[p].id == qs[p - 1]
  {
    hide Inv, Step;
    n := |events| - 1;
    var before := events[..n];
    assert forall i :: 0 <= i < n ==> before[i] == events[i];
    RunKeeps(qs, before);
    StepRecords(qs, Run(qs, before), events[n]);
    if p in Run(qs, before).disk.records {
      StepKeepsRecords(qs, Run(qs, before), events[n]);
      n := RecordsWereAccepted(qs, before, p);
      assert before[..n] == events[..n];
    }
  }
}
