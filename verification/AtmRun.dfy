/** `run` of `benchmarks/atm_full_run.py`, step by step, as an execution of the protocol. */
module AtmRun {
  import opened WhiteSpace
  import opened AtmProtocol
  import opened AtmSafety
  import opened AtmTheorems

  class Runner {
    const questions: seq<string>

    // what survives a crash
    var records: map<nat, Record>
    var log: seq<Row>
    var retrieval: seq<string>
    var checkpoint: Checkpoint

    // what does not
    var answers: map<string, string>
    var byId: map<string, Record>
    var retrieved: set<string>
    var totals: Totals
    var pending: set<nat>
    var phase: Phase

    /** Every step taken over this directory, across restarts. */
    ghost var history: seq<Event>

    function Now(): State
      reads this
    {
      State(Disk(records, log, retrieval, checkpoint), phase, Memory(answers, byId, retrieved, totals, pending))
    }

    /** The object is where its history puts the protocol, so each theorem about Run is about it. */
    ghost predicate Valid()
      reads this
    {
      Now() == Run(questions, history)
    }

    constructor (qs: seq<string>)
      ensures Valid() && questions == qs && history == [] && phase == Down
    {
      questions := qs;
      records, log, retrieval, checkpoint := map[], [], [], Missing;
      answers, byId, retrieved, totals, pending, phase := map[], map[], {}, NoTotals, {}, Down;
      history := [];
    }

    /** Since `before`, only this kind of step was taken. */
    ghost predicate OnlyTook(before: seq<Event>, e: Event)
      reads this`history
    {
      before <= history && forall i :: |before| <= i < |history| ==> history[i] == e
    }

    ghost method Took(e: Event)
      requires Now() == Step(questions, Run(questions, history), e)
      modifies this`history
      ensures Valid() && history == old(history) + [e]
    {
      RunExtends(questions, history, e);
      history := history + [e];
    }

    /** `_load_jsonl(answers_path)`. */
    method ReadLog() returns (r: Loaded<map<string, string>>)
      ensures r == LoadLog(log, |log|)
    {
      var rows: map<string, string> := map[];
      for i := 0 to |log|
        invariant LoadLog(log, i) == Ok(rows)
      {
        if log[i].id == "" {
          FailsForGood(log, i + 1);
          return Fail(InvalidRow);
        }
        rows := rows[log[i].id := log[i].answer];
      }
      return Ok(rows);
    }

    /** `_load_answer_records(answer_records_path)`, over the directory listing. */
    method ReadRecords(listing: seq<nat>) returns (r: Loaded<map<string, Record>>)
      requires forall k :: 0 <= k < |listing| ==> listing[k] in records
      ensures r == LoadRecords(records, listing, |listing|)
    {
      var found: map<string, Record> := map[];
      for i := 0 to |listing|
        invariant LoadRecords(records, listing, i) == Ok(found)
      {
        var next := LoadRecord(found, records[listing[i]]);
        if next.Fail? {
          RecordFailsForGood(records, listing, i + 1);
          return next;
        }
        found := next.value;
      }
      return Ok(found);
    }

    method SumRecords(listing: seq<nat>) returns (t: Totals)
      requires forall k :: 0 <= k < |listing| ==> listing[k] in records
      ensures t == Retotal(records, listing, |listing|)
    {
      t := NoTotals;
      for i := 0 to |listing|
        invariant t == Retotal(records, listing, i)
      {
        t := Add(t, records[listing[i]].payload);
      }
    }

    method Refuse(why: Refusal)
      modifies this
      ensures Now() == State(old(Now()).disk, Refused(why), NoMemory) && history == old(history)
    {
      answers, byId, retrieved, totals, pending, phase := map[], map[], {}, NoTotals, {}, Refused(why);
    }

    /** Lines 379-387: load both stores and refuse answers without a record. */
    method Start(listing: seq<nat>)
      requires Valid() && phase.Down? && IsListing(listing, records)
      modifies this
      ensures Valid() && history == old(history) + [Event.Start(listing)]
      ensures phase.Healing? || phase.Refused?
    {
      hide Run, LoadLog, LoadRecords, Retotal, Todo, Listed;
      var rows := ReadLog();
      if rows.Fail? {
        Refuse(rows.why);
      } else {
        var found := ReadRecords(listing);
        if found.Fail? {
          Refuse(found.why);
        } else if !(rows.value.Keys <= found.value.Keys) {
          Refuse(OrphanAnswer);
        } else {
          answers, byId, pending := rows.value, found.value, {};
          retrieved := set i | 0 <= i < |retrieval| :: retrieval[i];
          totals := SumRecords(listing);
          phase := Healing(Todo(Now().disk, listing));
        }
      }
      Took(Event.Start(listing));
    }

    /** Lines 388-395: append the rows a crash cut off. */
    method HealLog()
      requires Valid() && phase.Healing? && forall k :: 0 <= k < |phase.todo| ==> phase.todo[k] in byId
      modifies this
      ensures Valid() && OnlyTook(old(history), HealOne) && (phase == Planning(0) || phase == Refused(Disagreement))
    {
      hide Run;
      while phase.Healing? && phase.todo != []
        invariant Valid() && OnlyTook(old(history), HealOne) && (phase.Healing? || phase == Refused(Disagreement))
        invariant phase.Healing? ==> forall k :: 0 <= k < |phase.todo| ==> phase.todo[k] in byId
        decreases if phase.Healing? then |phase.todo| else 0
      {
        HealFirst();
      }
      if phase.Healing? {
        phase := Planning(0);
        Took(HealOne);
      }
    }

    method HealFirst()
      requires Valid() && phase.Healing? && phase.todo != [] && phase.todo[0] in byId
      modifies this
      ensures Valid() && history == old(history) + [HealOne]
      ensures (phase == Healing(old(phase.todo)[1..]) && byId == old(byId)) || phase == Refused(Disagreement)
    {
      hide Run;
      var id := phase.todo[0];
      var answer := byId[id].payload.answer;
      if id in answers && answers[id] != answer {
        Refuse(Disagreement);
      } else {
        if id !in answers { log := log + [Row(id, answer)]; }
        answers := answers[id := answer];
        phase := Healing(phase.todo[1..]);
      }
      Took(HealOne);
    }

    /** Lines 422-452: list what is left to answer, retrieving evidence not on file yet. */
    method PlanQuestions()
      requires Valid() && phase == Planning(0)
      modifies this
      ensures Valid() && OnlyTook(old(history), PlanOne) && phase.Serving?
    {
      hide Run, Plan;
      while phase.Planning?
        invariant Valid() && OnlyTook(old(history), PlanOne) && (phase.Planning? || phase.Serving?)
        decreases if phase.Planning? then 1 + (if phase.next < |questions| then |questions| - phase.next else 0) else 0
      {
        LookAt(phase.next);
      }
    }

    method LookAt(next: nat)
      requires Valid() && phase == Planning(next)
      modifies this
      ensures Valid() && history == old(history) + [PlanOne]
      ensures phase == if next >= |questions| then Serving else Planning(next + 1)
    {
      hide Run;
      if next >= |questions| {
        phase := Serving;
      } else {
        var id := questions[next];
        if id !in byId {
          if id !in retrieved { retrieval := retrieval + [id]; }
          retrieved := retrieved + {id};
          pending := pending + {next + 1};
        }
        phase := Planning(next + 1);
      }
      Took(PlanOne);
    }

    method PutRecord(position: nat, payload: Payload)
      requires Valid() && phase.Serving? && position in pending && 1 <= position <= |questions|
      modifies this
      ensures Valid() && pending == old(pending) - {position}
      ensures phase == Recorded(Record(questions[position - 1], payload))
      ensures history == old(history) + [WriteRecord(position, payload)]
    {
      hide Run;
      var record := Record(questions[position - 1], payload);
      records := records[position := record];
      byId, pending, phase := byId[record.id := record], pending - {position}, Recorded(record);
      Took(WriteRecord(position, payload));
    }

    method PutAnswer()
      requires Valid() && phase.Recorded?
      modifies this
      ensures Valid() && phase.Logged? && pending == old(pending) && history == old(history) + [AppendAnswer]
    {
      hide Run;
      var id, payload := phase.record.id, phase.record.payload;
      log := log + [Row(id, payload.answer)];
      answers, totals, phase := answers[id := payload.answer], Add(totals, payload), Logged;
      Took(AppendAnswer);
    }

    method PutCheckpoint()
      requires Valid() && phase.Logged?
      modifies this
      ensures Valid() && phase.Serving? && pending == old(pending) && history == old(history) + [WriteCheckpoint]
    {
      hide Run;
      checkpoint, phase := Written(|answers|, totals), Serving;
      Took(WriteCheckpoint);
    }

    /** `accept_answer`: the record, then the log row, then the checkpoint, each a write of its own. */
    method AcceptAnswer(position: nat, payload: Payload)
      requires Valid() && phase.Serving? && position in pending && 1 <= position <= |questions|
      modifies this
      ensures Valid() && phase.Serving? && pending == old(pending) - {position}
      ensures history == old(history) + [WriteRecord(position, payload), AppendAnswer, WriteCheckpoint]
    {
      PutRecord(position, payload);
      PutAnswer();
      PutCheckpoint();
    }

    /** Lines 582-593: the count check and the log rewritten in question order. */
    method FinishRun()
      requires Valid() && phase.Serving? && pending == {}
      modifies this
      ensures Valid() && history == old(history) + [Finish] && (phase.Finished? || phase == Refused(CountMismatch))
    {
      if |byId| != |questions| {
        Refuse(CountMismatch);
      } else {
        var rows: seq<Row> := [];
        for k := 0 to |questions|
          invariant rows == FinalLog(questions, byId, k)
          invariant Now() == old(Now()) && history == old(history)
        {
          if questions[k] in byId { rows := rows + [Row(questions[k], byId[questions[k]].payload.answer)]; }
        }
        log, phase := rows, Finished;
      }
      Took(Finish);
    }

    /**
     `run` over a directory an earlier run left, when every question can be answered: from any
     state the files can be in, it loads, heals, plans, answers what is pending and completes.
     `answer` stands for `generate_answer`, which raises rather than give a blank answer.
     */
    method RunToEnd(listing: seq<nat>, answer: nat -> Payload)
      requires Valid() && phase.Down? && IsListing(listing, records)
      requires Distinct(questions) && Named(questions) && Answered(history) && AllUsageLoads(records)
      requires forall p :: !PythonBlank(answer(p).answer)
      modifies this
      ensures Valid() && old(history) <= history && Answered(history)
      ensures phase.Finished? && Completed(questions, records, log)
    {
      hide Run, AllUsageLoads, PythonBlank, IsListing, Distinct, Named, Completed;
      StartHeals(questions, history, listing);
      Start(listing);
      WhatIsMet(questions, history);
      ghost var started := history;
      HealLog();
      OnlyThese(started, history, HealOne);
      WhatIsMet(questions, history);
      ghost var healed := history;
      PlanQuestions();
      OnlyThese(healed, history, PlanOne);
      while pending != {}
        invariant Valid() && phase.Serving? && old(history) <= history && Answered(history)
        decreases pending
      {
        var p :| p in pending;
        WhatIsMet(questions, history);
        AcceptAnswer(p, answer(p));
      }
      CountIsRight(questions, history);
      FinishRun();
      FinishedIsComplete(questions, history);
    }

    /** The process dies: only the files are left. */
    method Die()
      requires Valid()
      modifies this
      ensures Valid() && history == old(history) + [Crash] && phase.Down?
      ensures Now().disk == old(Now()).disk
    {
      answers, byId, retrieved, totals, pending, phase := map[], map[], {}, NoTotals, {}, Down;
      Took(Crash);
    }
  }

  // ---------------------------------------------------------------- what a run meets on its way

  lemma StartHeals(qs: seq<string>, history: seq<Event>, listing: seq<nat>)
    requires Distinct(qs) && Named(qs) && Answered(history) && Run(qs, history).phase.Down?
    requires IsListing(listing, Run(qs, history).disk.records) && AllUsageLoads(Run(qs, history).disk.records)
    ensures Run(qs, history + [Event.Start(listing)]).phase.Healing? && Answered(history + [Event.Start(listing)])
  {
    hide Run, Step, IsListing, AllUsageLoads;
    RestartHealsExactly(qs, history, listing);
    RunExtends(qs, history, Event.Start(listing));
  }

  /** Healing meets listed records and no disagreement; what is pending is a question's position. */
  lemma WhatIsMet(qs: seq<string>, history: seq<Event>)
    requires Distinct(qs) && Named(qs) && Answered(history)
    ensures var s := Run(qs, history);
      && (s.phase.Healing? ==> forall k :: 0 <= k < |s.phase.todo| ==> s.phase.todo[k] in s.memory.byId)
      && s.phase != Refused(Disagreement)
      && (s.phase.Serving? ==> forall p :: p in s.memory.pending ==> 1 <= p <= |qs|)
  {
    hide Run, DiskInv, Mirrors, Balanced;
    RunKeeps(qs, history);
  }

  lemma CountIsRight(qs: seq<string>, history: seq<Event>)
    requires Distinct(qs) && Named(qs) && Answered(history)
    ensures Run(qs, history + [Finish]).phase != Refused(CountMismatch) && Answered(history + [Finish])
  {
    hide Run, DiskInv, UpInv;
    RunKeeps(qs, history + [Finish]);
  }

  lemma OnlyThese(before: seq<Event>, after: seq<Event>, e: Event)
    requires Answered(before) && before <= after && !e.WriteRecord?
    requires forall i :: |before| <= i < |after| ==> after[i] == e
    ensures Answered(after)
  {
    forall i | 0 <= i < |after| && after[i].WriteRecord? ensures !PythonBlank(after[i].payload.answer) {
      assert after[i] == if i < |before| then before[i] else e;
    }
  }

  lemma {:induction false} FailsForGood(log: seq<Row>, n: nat)
    requires n <= |log| && LoadLog(log, n).Fail?
    ensures LoadLog(log, |log|) == LoadLog(log, n)
    decreases |log| - n
  {
    if n < |log| { FailsForGood(log, n + 1); }
  }

  lemma {:induction false} RecordFailsForGood(records: map<nat, Record>, listing: seq<nat>, n: nat)
    requires n <= |listing| && forall k :: 0 <= k < |listing| ==> listing[k] in records
    requires LoadRecords(records, listing, n).Fail?
    ensures LoadRecords(records, listing, |listing|) == LoadRecords(records, listing, n)
    decreases |listing| - n
  {
    if n < |listing| { RecordFailsForGood(records, listing, n + 1); }
  }
}
