/**
 The checkpoint and resume protocol of `benchmarks/atm_full_run.py` as a state machine. Every
 step performs at most one durable write, and a crash may come between any two steps.
 */
module AtmProtocol {
  import opened WhiteSpace

  datatype Usage = Usage(prompt: int, completion: int, total: int)

  /** What one answer costs and says; `calls` is `provider_call_count`. */
  datatype Payload = Payload(answer: string, usage: Usage, calls: int, retried: bool)

  datatype Record = Record(id: string, payload: Payload)

  datatype Row = Row(id: string, answer: string)

  datatype Totals = Totals(calls: int, prompt: int, completion: int, total: int, retries: int)

  datatype Checkpoint = Missing | Written(answerCount: nat, totals: Totals)

  /** `answer_records/`, keyed by the position in the file name, and the three other files. */
  datatype Disk = Disk(records: map<nat, Record>, log: seq<Row>, retrieval: seq<string>, checkpoint: Checkpoint)

  /** `answers`, `answer_records`, the retrieval rows, the usage meter and the positions not yet accepted. */
  datatype Memory = Memory(answers: map<string, string>, byId: map<string, Record>, retrieved: set<string>,
                           totals: Totals, pending: set<nat>)

  datatype Refusal = InvalidRow | InvalidRecord | DuplicateRecord | OrphanAnswer | Disagreement | CountMismatch

  /** Where the process stands between two steps. `Recorded` is the gap inside `accept_answer`. */
  datatype Phase =
    | Down
    | Refused(why: Refusal)
    | Healing(todo: seq<string>)
    | Planning(next: nat)
    | Serving
    | Recorded(record: Record)
    | Logged
    | Finished

  datatype State = State(disk: Disk, phase: Phase, memory: Memory)

  datatype Event =
    | Start(listing: seq<nat>)
    | HealOne
    | PlanOne
    | WriteRecord(position: nat, payload: Payload)
    | AppendAnswer
    | WriteCheckpoint
    | Finish
    | Crash

  const NoTotals := Totals(0, 0, 0, 0, 0)
  const NoMemory := Memory(map[], map[], {}, NoTotals, {})
  const Fresh := State(Disk(map[], [], [], Missing), Down, NoMemory)

  function Add(t: Totals, p: Payload): Totals {
    Totals(t.calls + p.calls, t.prompt + p.usage.prompt, t.completion + p.usage.completion,
           t.total + p.usage.total, t.retries + if p.retried then 1 else 0)
  }

  // ---------------------------------------------------------------- loading

  predicate UsageLoads(u: Usage) {
    u.prompt >= 0 && u.completion >= 0 && u.total >= 0
  }

  datatype Loaded<T> = Fail(why: Refusal) | Ok(value: T)

  /** The answers of the first n rows of the log; a later row for an id replaces an earlier one. */
  function LoadLog(log: seq<Row>, n: nat): Loaded<map<string, string>>
    requires n <= |log|
  {
    if n == 0 then Ok(map[])
    else
      match LoadLog(log, n - 1)
      case Fail(why) => Fail(why)
      case Ok(answers) =>
        if log[n - 1].id == "" then Fail(InvalidRow) else Ok(answers[log[n - 1].id := log[n - 1].answer])
  }

  /** The records in the first n files of a directory listing, by id. */
  function LoadRecords(records: map<nat, Record>, listing: seq<nat>, n: nat): Loaded<map<string, Record>>
    requires n <= |listing| && forall k :: 0 <= k < |listing| ==> listing[k] in records
  {
    if n == 0 then Ok(map[])
    else
      match LoadRecords(records, listing, n - 1)
      case Fail(why) => Fail(why)
      case Ok(byId) => LoadRecord(byId, records[listing[n - 1]])
  }

  function LoadRecord(byId: map<string, Record>, r: Record): Loaded<map<string, Record>> {
    if r.id == "" then Fail(InvalidRecord)
    else if r.id in byId then Fail(DuplicateRecord)
    else if !UsageLoads(r.payload.usage) || PythonBlank(r.payload.answer) then Fail(InvalidRecord)
    else Ok(byId[r.id := r])
  }

  /** The usage meter after the first n records, as a restarted process rebuilds it. */
  function Retotal(records: map<nat, Record>, listing: seq<nat>, n: nat): Totals
    requires n <= |listing| && forall k :: 0 <= k < |listing| ==> listing[k] in records
  {
    if n == 0 then NoTotals else Add(Retotal(records, listing, n - 1), records[listing[n - 1]].payload)
  }

  ghost function Listed(listing: seq<nat>, n: nat): set<nat>
    requires n <= |listing|
  {
    if n == 0 then {} else Listed(listing, n - 1) + {listing[n - 1]}
  }

  /** `answer_records.glob`: every record file once, in any order. */
  ghost predicate IsListing(listing: seq<nat>, records: map<nat, Record>) {
    && (forall k :: 0 <= k < |listing| ==> listing[k] in records)
    && (forall j, k :: 0 <= j < k < |listing| ==> listing[j] != listing[k])
    && Listed(listing, |listing|) == records.Keys
  }

  /** The ids in the order the healing loop visits them. */
  function Todo(d: Disk, listing: seq<nat>): seq<string>
    requires forall k :: 0 <= k < |listing| ==> listing[k] in d.records
  {
    seq(|listing|, k requires 0 <= k < |listing| => d.records[listing[k]].id)
  }

  ghost function Load(d: Disk, listing: seq<nat>): State
    requires IsListing(listing, d.records)
  {
    match LoadLog(d.log, |d.log|)
    case Fail(why) => State(d, Refused(why), NoMemory)
    case Ok(answers) =>
      match LoadRecords(d.records, listing, |listing|)
      case Fail(why) => State(d, Refused(why), NoMemory)
      case Ok(byId) =>
        if answers.Keys <= byId.Keys then
          State(d, Healing(Todo(d, listing)),
                Memory(answers, byId, set i | 0 <= i < |d.retrieval| :: d.retrieval[i],
                       Retotal(d.records, listing, |listing|), {}))
        else State(d, Refused(OrphanAnswer), NoMemory)
  }

  // ---------------------------------------------------------------- the steps

  function Heal(s: State): State
    requires s.phase.Healing?
  {
    var todo, m := s.phase.todo, s.memory;
    if todo == [] then s.(phase := Planning(0))
    else if todo[0] !in m.byId then s
    else
      var id, answer := todo[0], m.byId[todo[0]].payload.answer;
      if id in m.answers && m.answers[id] != answer then State(s.disk, Refused(Disagreement), NoMemory)
      else
        State(if id in m.answers then s.disk else s.disk.(log := s.disk.log + [Row(id, answer)]),
              Healing(todo[1..]), m.(answers := m.answers[id := answer]))
  }

  function Plan(qs: seq<string>, s: State): State
    requires s.phase.Planning?
  {
    var next, m := s.phase.next, s.memory;
    if next >= |qs| then s.(phase := Serving)
    else if qs[next] in m.byId then s.(phase := Planning(next + 1))
    else
      State(if qs[next] in m.retrieved then s.disk else s.disk.(retrieval := s.disk.retrieval + [qs[next]]),
            Planning(next + 1),
            m.(retrieved := m.retrieved + {qs[next]}, pending := m.pending + {next + 1}))
  }

  function Accept(qs: seq<string>, s: State, position: nat, payload: Payload): State
    requires 1 <= position <= |qs|
  {
    var r := Record(qs[position - 1], payload);
    State(s.disk.(records := s.disk.records[position := r]), Recorded(r),
          s.memory.(byId := s.memory.byId[r.id := r], pending := s.memory.pending - {position}))
  }

  function Append(s: State): State
    requires s.phase.Recorded?
  {
    var r, m := s.phase.record, s.memory;
    State(s.disk.(log := s.disk.log + [Row(r.id, r.payload.answer)]), Logged,
          m.(answers := m.answers[r.id := r.payload.answer], totals := Add(m.totals, r.payload)))
  }

  /** The count check, then the log rewritten in question order; None where the lookup has no record. */
  ghost function Complete(qs: seq<string>, s: State): State {
    if |s.memory.byId| != |qs| then State(s.disk, Refused(CountMismatch), NoMemory)
    else
      s.(phase := Finished, disk := s.disk.(log := FinalLog(qs, s.memory.byId, |qs|)))
  }

  function FinalLog(qs: seq<string>, byId: map<string, Record>, n: nat): seq<Row>
    requires n <= |qs|
  {
    if n == 0 then []
    else
      FinalLog(qs, byId, n - 1) + if qs[n - 1] in byId then [Row(qs[n - 1], byId[qs[n - 1]].payload.answer)] else []
  }

  /** One step. An event that does not fit the phase changes nothing. */
  ghost function Step(qs: seq<string>, s: State, e: Event): State {
    match e
    case Start(listing) => if s.phase.Down? && IsListing(listing, s.disk.records) then Load(s.disk, listing) else s
    case HealOne => if s.phase.Healing? then Heal(s) else s
    case PlanOne => if s.phase.Planning? then Plan(qs, s) else s
    case WriteRecord(position, payload) =>
      if s.phase.Serving? && position in s.memory.pending && 1 <= position <= |qs|
      then Accept(qs, s, position, payload) else s
    case AppendAnswer => if s.phase.Recorded? then Append(s) else s
    case WriteCheckpoint =>
      if s.phase.Logged?
      then s.(phase := Serving, disk := s.disk.(checkpoint := Written(|s.memory.answers|, s.memory.totals)))
      else s
    case Finish => if s.phase.Serving? && s.memory.pending == {} then Complete(qs, s) else s
    case Crash => State(s.disk, Down, NoMemory)
  }

  /** Any history of starts, steps and crashes, over a directory that began empty. */
  ghost function Run(qs: seq<string>, events: seq<Event>): State {
    if events == [] then Fresh else Step(qs, Run(qs, events[..|events| - 1]), events[|events| - 1])
  }
}
