/** What every state of the ATM checkpoint protocol keeps, over any history of steps and crashes. */
module AtmSafety {
  import opened WhiteSpace
  import opened AtmProtocol

  // ---------------------------------------------------------------- the question file

  ghost predicate Distinct(qs: seq<string>) {
    forall i, j :: 0 <= i < j < |qs| ==> qs[i] != qs[j]
  }

  ghost predicate Named(qs: seq<string>) {
    forall i :: 0 <= i < |qs| ==> qs[i] != ""
  }

  /** The last position among the first n asking question `id`, or 0. */
  ghost function Position(qs: seq<string>, id: string, n: nat): (p: nat)
    requires n <= |qs|
    ensures p <= n && (p > 0 ==> qs[p - 1] == id)
    ensures p == 0 ==> forall k :: 0 <= k < n ==> qs[k] != id
  {
    if n == 0 then 0 else if qs[n - 1] == id then n else Position(qs, id, n - 1)
  }

  ghost function PositionOf(qs: seq<string>, id: string): (p: nat)
    ensures p <= |qs| && (p > 0 ==> qs[p - 1] == id)
  {
    Position(qs, id, |qs|)
  }

  lemma PositionOfQuestion(qs: seq<string>, k: nat)
    requires Distinct(qs) && k < |qs|
    ensures PositionOf(qs, qs[k]) == k + 1
  {
  }

  /** `generate_answer` raises rather than hand back an empty answer. */
  ghost predicate Answered(events: seq<Event>) {
    forall i :: 0 <= i < |events| && events[i].WriteRecord? ==> !PythonBlank(events[i].payload.answer)
  }

  // ---------------------------------------------------------------- the durable invariant

  ghost predicate RecordsFit(qs: seq<string>, records: map<nat, Record>) {
    forall p :: p in records ==>
      1 <= p <= |qs| && PositionOf(qs, records[p].id) == p && !PythonBlank(records[p].payload.answer)
  }

  /** The row says what the record of its question says. */
  ghost predicate Backed(qs: seq<string>, records: map<nat, Record>, row: Row) {
    var p := PositionOf(qs, row.id);
    p in records && records[p].payload.answer == row.answer
  }

  ghost predicate LogBacked(qs: seq<string>, records: map<nat, Record>, log: seq<Row>) {
    forall i :: 0 <= i < |log| ==> Backed(qs, records, log[i])
  }

  ghost predicate LogOnce(log: seq<Row>) {
    forall i, j :: 0 <= i < j < |log| ==> log[i].id != log[j].id
  }

  ghost predicate DiskInv(qs: seq<string>, d: Disk) {
    RecordsFit(qs, d.records) && LogBacked(qs, d.records, d.log) && LogOnce(d.log) && Distinct(d.retrieval)
  }

  /** The usage of the records at positions 1..n. */
  ghost function TotalUpTo(records: map<nat, Record>, n: nat): Totals {
    if n == 0 then NoTotals
    else if n in records then Add(TotalUpTo(records, n - 1), records[n].payload)
    else TotalUpTo(records, n - 1)
  }

  // ---------------------------------------------------------------- the volatile invariant

  /** `answer_records` is the directory, read by id. */
  ghost predicate ByIdMirrors(qs: seq<string>, records: map<nat, Record>, byId: map<string, Record>) {
    forall id ::
      (id in byId <==> PositionOf(qs, id) in records) && (id in byId ==> byId[id] == records[PositionOf(qs, id)])
  }

  ghost function LogIds(log: seq<Row>): set<string> {
    set i | 0 <= i < |log| :: log[i].id
  }

  /** `answers` is the log, read by id. */
  ghost predicate AnswersMirror(log: seq<Row>, answers: map<string, string>) {
    answers.Keys == LogIds(log) && forall i :: 0 <= i < |log| ==>
      log[i].id in answers && answers[log[i].id] == log[i].answer
  }

  ghost predicate Mirrors(qs: seq<string>, d: Disk, m: Memory) {
    && ByIdMirrors(qs, d.records, m.byId) && AnswersMirror(d.log, m.answers)
    && m.retrieved == set i | 0 <= i < |d.retrieval| :: d.retrieval[i]
  }

  /** Every question looked at so far has a record or waits for one with its evidence on file, and none does both. */
  ghost predicate Covered(qs: seq<string>, m: Memory, next: nat) {
    && next <= |qs|
    && (forall k :: 0 <= k < next ==> qs[k] in m.byId || k + 1 in m.pending)
    && (forall p :: p in m.pending ==> 1 <= p <= next && qs[p - 1] !in m.byId && qs[p - 1] in m.retrieved)
  }

  ghost predicate Balanced(qs: seq<string>, s: State) {
    s.memory.totals == TotalUpTo(s.disk.records, |qs|)
  }

  ghost predicate UpInv(qs: seq<string>, s: State) {
    var d, m := s.disk, s.memory;
    match s.phase
    case Down | Refused(_) => true
    case Healing(todo) =>
      && Mirrors(qs, d, m) && Balanced(qs, s) && m.pending == {}
      && (forall k :: 0 <= k < |todo| ==> todo[k] in m.byId)
      && (forall id :: id in m.byId ==> id in todo || id in m.answers)
    case Planning(next) =>
      Mirrors(qs, d, m) && Balanced(qs, s) && m.answers.Keys == m.byId.Keys && Covered(qs, m, next)
    case Serving | Logged =>
      Mirrors(qs, d, m) && Balanced(qs, s) && m.answers.Keys == m.byId.Keys && Covered(qs, m, |qs|)
    case Recorded(r) =>
      && Mirrors(qs, d, m) && Add(m.totals, r.payload) == TotalUpTo(d.records, |qs|) && Covered(qs, m, |qs|)
      && r.id in m.byId && m.byId[r.id] == r && m.answers.Keys == m.byId.Keys - {r.id}
    case Finished =>
      Balanced(qs, s) && Completed(qs, d.records, d.log)
  }

  /** One record and one log row for each question, in question order. */
  ghost predicate Completed(qs: seq<string>, records: map<nat, Record>, log: seq<Row>) {
    |log| == |qs| && forall k :: 0 <= k < |qs| ==> AnsweredAt(qs, records, log, k)
  }

  ghost predicate AnsweredAt(qs: seq<string>, records: map<nat, Record>, log: seq<Row>, k: nat)
    requires k < |log| == |qs|
  {
    k + 1 in records && log[k] == Row(qs[k], records[k + 1].payload.answer)
  }

  ghost predicate AllUsageLoads(records: map<nat, Record>) {
    forall p :: p in records ==> UsageLoads(records[p].payload.usage)
  }

  /** The only refusal the program's own state can provoke is of a record with a negative count. */
  ghost predicate RefusalInv(s: State) {
    s.phase.Refused? ==> s.phase.why == InvalidRecord && !AllUsageLoads(s.disk.records)
  }

  ghost predicate Inv(qs: seq<string>, s: State) {
    DiskInv(qs, s.disk) && UpInv(qs, s) && RefusalInv(s)
  }

  // ---------------------------------------------------------------- loading

  lemma {:induction false} LoadLogMirrors(log: seq<Row>, n: nat)
    requires n <= |log| && LogOnce(log)
    requires forall i :: 0 <= i < |log| ==> log[i].id != ""
    ensures LoadLog(log, n).Ok? && AnswersMirror(log[..n], LoadLog(log, n).value)
  {
    if n > 0 {
      hide AnswersMirror;
      LoadLogMirrors(log, n - 1);
      assert log[..n] == log[..n - 1] + [log[n - 1]];
      PrefixOnce(log, n);
      hide LogOnce;
      AppendMirrors(log[..n - 1], log[n - 1], LoadLog(log, n - 1).value);
    } else {
      assert log[..0] == [];
      assert LogIds([]) == {};
    }
  }

  lemma PrefixOnce(log: seq<Row>, n: nat)
    requires n <= |log| && LogOnce(log)
    ensures LogOnce(log[..n])
  {
  }

  lemma AppendMirrors(log: seq<Row>, row: Row, answers: map<string, string>)
    requires AnswersMirror(log, answers) && LogOnce(log + [row])
    ensures AnswersMirror(log + [row], answers[row.id := row.answer])
  {
    var longer := log + [row];
    assert LogIds(longer) == LogIds(log) + {row.id} by {
      forall x ensures x in LogIds(longer) <==> x in LogIds(log) + {row.id} {
        if x in LogIds(log) {
          var i :| 0 <= i < |log| && log[i].id == x;
          assert longer[i].id == x;
        }
        assert longer[|log|] == row;
      }
    }
    forall i | 0 <= i < |log| ensures log[i].id != row.id {
      assert longer[i].id != longer[|log|].id;
    }
  }

  /** `byId` holds the first n files of the listing and nothing else. */
  ghost predicate ListingMirrors(qs: seq<string>, records: map<nat, Record>, listed: set<nat>,
                                 byId: map<string, Record>) {
    && listed <= records.Keys
    && forall id ::
        (id in byId <==> PositionOf(qs, id) in listed) && (id in byId ==> byId[id] == records[PositionOf(qs, id)])
  }

  ghost predicate ListedUsageLoads(records: map<nat, Record>, listed: set<nat>) {
    forall p :: p in listed && p in records ==> UsageLoads(records[p].payload.usage)
  }

  lemma {:induction false} LoadRecordsMirrors(qs: seq<string>, records: map<nat, Record>, listing: seq<nat>, n: nat)
    requires Named(qs) && RecordsFit(qs, records) && IsListing(listing, records) && n <= |listing|
    ensures var r, listed := LoadRecords(records, listing, n), Listed(listing, n);
      if ListedUsageLoads(records, listed) then r.Ok? && ListingMirrors(qs, records, listed, r.value)
      else r == Fail(InvalidRecord)
  {
    hide PositionOf, PythonBlank, UsageLoads;
    if n > 0 {
      LoadRecordsMirrors(qs, records, listing, n - 1);
      ListedBefore(listing, n - 1, n - 1);
      var before, listed, p := LoadRecords(records, listing, n - 1), Listed(listing, n - 1), listing[n - 1];
      hide LoadRecords, Listed;
      if ListedUsageLoads(records, listed) { LoadRecordMirrors(qs, records, listed, before.value, p); }
      assert ListedUsageLoads(records, listed + {p}) <==>
        ListedUsageLoads(records, listed) && UsageLoads(records[p].payload.usage);
    }
  }

  lemma LoadRecordMirrors(qs: seq<string>, records: map<nat, Record>, listed: set<nat>, byId: map<string, Record>,
                          p: nat)
    requires Named(qs) && RecordsFit(qs, records) && ListingMirrors(qs, records, listed, byId)
    requires p in records && p !in listed
    ensures var r := LoadRecord(byId, records[p]);
      if UsageLoads(records[p].payload.usage) then r.Ok? && ListingMirrors(qs, records, listed + {p}, r.value)
      else r == Fail(InvalidRecord)
  {
    hide PythonBlank, UsageLoads;
    assert PositionOf(qs, records[p].id) == p;
    assert qs[p - 1] != "";
  }

  lemma {:induction false} ListedBefore(listing: seq<nat>, n: nat, k: nat)
    requires n <= k < |listing|
    requires forall i, j :: 0 <= i < j < |listing| ==> listing[i] != listing[j]
    ensures listing[k] !in Listed(listing, n)
  {
    if n > 0 { ListedBefore(listing, n - 1, k); }
  }

  lemma LogNamed(qs: seq<string>, d: Disk)
    requires Named(qs) && RecordsFit(qs, d.records) && LogBacked(qs, d.records, d.log)
    ensures forall i :: 0 <= i < |d.log| ==> d.log[i].id != ""
  {
    forall i | 0 <= i < |d.log| ensures d.log[i].id != "" {
      assert Backed(qs, d.records, d.log[i]);
      assert qs[PositionOf(qs, d.log[i].id) - 1] != "";
    }
  }

  // ---------------------------------------------------------------- the meter

  lemma {:induction false} TotalOfRest(records: map<nat, Record>, n: nat, p: nat)
    requires p in records && p >= 1
    ensures TotalUpTo(records, n) ==
            if p <= n then Add(TotalUpTo(records - {p}, n), records[p].payload) else TotalUpTo(records - {p}, n)
  {
    if n > 0 { TotalOfRest(records, n - 1, p); }
  }

  lemma {:induction false} TotalOfNone(n: nat)
    ensures TotalUpTo(map[], n) == NoTotals
  {
    if n > 0 { TotalOfNone(n - 1); }
  }

  ghost function Part(records: map<nat, Record>, listed: set<nat>): map<nat, Record> {
    map p | p in records && p in listed :: records[p]
  }

  /** Rebuilding the meter in directory order gives the sum over the positions. */
  lemma {:induction false} RetotalIsTotal(records: map<nat, Record>, listing: seq<nat>, n: nat, bound: nat)
    requires n <= |listing| && forall k :: 0 <= k < |listing| ==> listing[k] in records && 1 <= listing[k] <= bound
    requires forall i, j :: 0 <= i < j < |listing| ==> listing[i] != listing[j]
    ensures Retotal(records, listing, n) == TotalUpTo(Part(records, Listed(listing, n)), bound)
  {
    hide Add;
    var part := Part(records, Listed(listing, n));
    if n == 0 {
      assert part == map[];
      TotalOfNone(bound);
    } else {
      var p, before := listing[n - 1], Part(records, Listed(listing, n - 1));
      RetotalIsTotal(records, listing, n - 1, bound);
      ListedBefore(listing, n - 1, n - 1);
      TotalOfRest(part, bound, p);
      assert part - {p} == before;
    }
  }

  // ---------------------------------------------------------------- a restart

  lemma LoadHeals(qs: seq<string>, d: Disk, listing: seq<nat>)
    requires Named(qs) && DiskInv(qs, d) && IsListing(listing, d.records) && AllUsageLoads(d.records)
    ensures Load(d, listing).phase.Healing? && UpInv(qs, Load(d, listing)) && Load(d, listing).disk == d
  {
    hide LogBacked, RecordsFit, ByIdMirrors, AnswersMirror, TotalUpTo, Retotal, LoadLog, LoadRecords, Todo, UpInv;
    hide Load, Listed;
    LoadedPieces(qs, d, listing);
    var answers, byId := LoadLog(d.log, |d.log|).value, LoadRecords(d.records, listing, |listing|).value;
    NoOrphans(qs, d, answers, byId);
    TodoIsEveryRecord(qs, d, listing, byId);
    var m := Memory(answers, byId, set i | 0 <= i < |d.retrieval| :: d.retrieval[i],
                    Retotal(d.records, listing, |listing|), {});
    LoadIs(d, listing, m);
    HealingFits(qs, d, m, Todo(d, listing));
  }

  lemma LoadIs(d: Disk, listing: seq<nat>, m: Memory)
    requires IsListing(listing, d.records)
    requires LoadLog(d.log, |d.log|) == Ok(m.answers) && LoadRecords(d.records, listing, |listing|) == Ok(m.byId)
    requires m.answers.Keys <= m.byId.Keys && m.retrieved == set i | 0 <= i < |d.retrieval| :: d.retrieval[i]
    requires m.totals == Retotal(d.records, listing, |listing|) && m.pending == {}
    ensures Load(d, listing) == State(d, Healing(Todo(d, listing)), m)
  {
    hide IsListing, LoadLog, LoadRecords, Retotal, Todo;
  }

  lemma HealingFits(qs: seq<string>, d: Disk, m: Memory, todo: seq<string>)
    requires ByIdMirrors(qs, d.records, m.byId) && AnswersMirror(d.log, m.answers)
    requires m.retrieved == set i | 0 <= i < |d.retrieval| :: d.retrieval[i]
    requires m.totals == TotalUpTo(d.records, |qs|) && m.pending == {}
    requires (forall k :: 0 <= k < |todo| ==> todo[k] in m.byId) && forall id :: id in m.byId ==> id in todo
    ensures UpInv(qs, State(d, Healing(todo), m))
  {
    hide ByIdMirrors, AnswersMirror, TotalUpTo;
  }

  lemma LoadedPieces(qs: seq<string>, d: Disk, listing: seq<nat>)
    requires Named(qs) && DiskInv(qs, d) && IsListing(listing, d.records) && AllUsageLoads(d.records)
    ensures LogBacked(qs, d.records, d.log) && RecordsFit(qs, d.records)
    ensures LoadLog(d.log, |d.log|).Ok? && AnswersMirror(d.log, LoadLog(d.log, |d.log|).value)
    ensures LoadRecords(d.records, listing, |listing|).Ok?
    ensures ByIdMirrors(qs, d.records, LoadRecords(d.records, listing, |listing|).value)
    ensures Retotal(d.records, listing, |listing|) == TotalUpTo(d.records, |qs|)
  {
    hide Add, PositionOf, UsageLoads, TotalUpTo, Retotal, PythonBlank;
    assert LoadLog(d.log, |d.log|).Ok? && AnswersMirror(d.log, LoadLog(d.log, |d.log|).value) by {
      LogNamed(qs, d);
      LoadLogMirrors(d.log, |d.log|);
      assert d.log[..|d.log|] == d.log;
    }
    LoadedTotals(d, listing, |qs|);
    LoadedRecords(qs, d, listing);
  }

  lemma LoadedTotals(d: Disk, listing: seq<nat>, bound: nat)
    requires IsListing(listing, d.records) && forall p :: p in d.records ==> 1 <= p <= bound
    ensures Retotal(d.records, listing, |listing|) == TotalUpTo(d.records, bound)
  {
    hide Add, TotalUpTo, Retotal;
    RetotalIsTotal(d.records, listing, |listing|, bound);
    assert d.records == Part(d.records, Listed(listing, |listing|));
  }

  lemma LoadedRecords(qs: seq<string>, d: Disk, listing: seq<nat>)
    requires Named(qs) && RecordsFit(qs, d.records) && IsListing(listing, d.records) && AllUsageLoads(d.records)
    ensures LoadRecords(d.records, listing, |listing|).Ok?
    ensures ByIdMirrors(qs, d.records, LoadRecords(d.records, listing, |listing|).value)
  {
    hide PositionOf, UsageLoads, PythonBlank, LoadRecords, Listed;
    LoadRecordsMirrors(qs, d.records, listing, |listing|);
  }

  lemma NoOrphans(qs: seq<string>, d: Disk, answers: map<string, string>, byId: map<string, Record>)
    requires LogBacked(qs, d.records, d.log) && AnswersMirror(d.log, answers) && ByIdMirrors(qs, d.records, byId)
    ensures answers.Keys <= byId.Keys
    ensures forall id :: id in answers ==> answers[id] == byId[id].payload.answer
  {
    forall id | id in answers ensures id in byId && answers[id] == byId[id].payload.answer {
      var i :| 0 <= i < |d.log| && d.log[i].id == id;
      assert Backed(qs, d.records, d.log[i]);
    }
  }

  lemma TodoIsEveryRecord(qs: seq<string>, d: Disk, listing: seq<nat>, byId: map<string, Record>)
    requires RecordsFit(qs, d.records) && IsListing(listing, d.records) && ByIdMirrors(qs, d.records, byId)
    ensures forall k :: 0 <= k < |Todo(d, listing)| ==> Todo(d, listing)[k] in byId
    ensures forall id :: id in byId ==> id in Todo(d, listing)
  {
    forall id | id in byId ensures id in Todo(d, listing) {
      var k := PlaceOf(listing, |listing|, PositionOf(qs, id));
      assert Todo(d, listing)[k] == id;
    }
  }

  lemma {:induction false} PlaceOf(listing: seq<nat>, n: nat, p: nat) returns (k: nat)
    requires n <= |listing| && p in Listed(listing, n)
    ensures k < n && listing[k] == p
  {
    if listing[n - 1] == p { k := n - 1; } else { k := PlaceOf(listing, n - 1, p); }
  }

  /** A restart over a sound directory heals, unless a record holds a negative count. */
  lemma LoadKeeps(qs: seq<string>, d: Disk, listing: seq<nat>)
    requires Named(qs) && DiskInv(qs, d) && IsListing(listing, d.records)
    ensures Inv(qs, Load(d, listing))
    ensures if AllUsageLoads(d.records) then Load(d, listing).phase.Healing?
            else Load(d, listing).phase == Refused(InvalidRecord)
  {
    if AllUsageLoads(d.records) {
      LoadHeals(qs, d, listing);
    } else {
      LogNamed(qs, d);
      LoadLogMirrors(d.log, |d.log|);
      LoadRecordsMirrors(qs, d.records, listing, |listing|);
    }
  }

  // ---------------------------------------------------------------- the other steps

  lemma HealKeeps(qs: seq<string>, s: State)
    requires Inv(qs, s) && s.phase.Healing?
    ensures Inv(qs, Heal(s)) && !Heal(s).phase.Refused?
  {
    hide Add, PositionOf, TotalUpTo, RecordsFit;
    var d, m, todo := s.disk, s.memory, s.phase.todo;
    NoOrphans(qs, d, m.answers, m.byId);
    if todo != [] {
      var id := todo[0];
      if id !in m.answers { AppendRowKeeps(qs, d, m, id); }
    }
  }

  /** Appending the row of a record that has none yet. */
  lemma AppendRowKeeps(qs: seq<string>, d: Disk, m: Memory, id: string)
    requires LogBacked(qs, d.records, d.log) && LogOnce(d.log) && AnswersMirror(d.log, m.answers)
    requires ByIdMirrors(qs, d.records, m.byId) && id in m.byId && id !in m.answers
    ensures var row := Row(id, m.byId[id].payload.answer); var log := d.log + [row];
      LogBacked(qs, d.records, log) && LogOnce(log) && AnswersMirror(log, m.answers[id := row.answer])
  {
    hide PositionOf;
    var row := Row(id, m.byId[id].payload.answer);
    assert Backed(qs, d.records, row);
    assert forall i :: 0 <= i < |d.log| ==> d.log[i].id in m.answers;
    AppendMirrors(d.log, row, m.answers);
  }

  lemma PlanKeeps(qs: seq<string>, s: State)
    requires Distinct(qs) && Inv(qs, s) && s.phase.Planning?
    ensures Inv(qs, Plan(qs, s))
  {
    hide Add, PositionOf, TotalUpTo, RecordsFit, LogBacked, ByIdMirrors, AnswersMirror;
    var d, m, next := s.disk, s.memory, s.phase.next;
    if next < |qs| && qs[next] !in m.retrieved {
      assert forall i :: 0 <= i < |d.retrieval| ==> d.retrieval[i] in m.retrieved;
      OneRetrieved(d.retrieval, qs[next]);
    }
  }

  lemma OneRetrieved(ids: seq<string>, id: string)
    ensures (set i | 0 <= i < |ids + [id]| :: (ids + [id])[i]) == (set i | 0 <= i < |ids| :: ids[i]) + {id}
  {
    var more := ids + [id];
    assert more[|ids|] == id && forall i :: 0 <= i < |ids| ==> more[i] == ids[i];
  }

  lemma AcceptKeeps(qs: seq<string>, s: State, position: nat, payload: Payload)
    requires Distinct(qs) && Inv(qs, s) && s.phase.Serving? && position in s.memory.pending
    requires !PythonBlank(payload.answer)
    ensures 1 <= position <= |qs| && Inv(qs, Accept(qs, s, position, payload))
  {
    hide Add, TotalUpTo, PythonBlank, Distinct, RecordsFit, LogBacked, ByIdMirrors, AnswersMirror, LogOnce, Covered;
    hide PositionOf;
    var d, m := s.disk, s.memory;
    FreshPosition(qs, d.records, m, position);
    var r := Record(qs[position - 1], payload);
    RecordAddKeeps(qs, d, m, position, r);
    RecordAddTotals(d.records, position, r, |qs|);
    CoverShrinks(qs, m, position, r);
  }

  lemma FreshPosition(qs: seq<string>, records: map<nat, Record>, m: Memory, p: nat)
    requires Distinct(qs) && ByIdMirrors(qs, records, m.byId) && Covered(qs, m, |qs|) && p in m.pending
    ensures 1 <= p <= |qs| && PositionOf(qs, qs[p - 1]) == p && p !in records && qs[p - 1] !in m.byId
  {
    assert 1 <= p <= |qs|;
    PositionOfQuestion(qs, p - 1);
    hide PositionOf;
  }

  lemma RecordAddTotals(records: map<nat, Record>, p: nat, r: Record, bound: nat)
    requires 1 <= p <= bound && p !in records
    ensures TotalUpTo(records[p := r], bound) == Add(TotalUpTo(records, bound), r.payload)
  {
    TotalOfRest(records[p := r], bound, p);
    assert records[p := r] - {p} == records;
  }

  lemma CoverShrinks(qs: seq<string>, m: Memory, p: nat, r: Record)
    requires Distinct(qs) && Covered(qs, m, |qs|) && p in m.pending && 1 <= p <= |qs| && r.id == qs[p - 1]
    ensures Covered(qs, m.(byId := m.byId[r.id := r], pending := m.pending - {p}), |qs|)
  {
  }

  lemma RecordAddKeeps(qs: seq<string>, d: Disk, m: Memory, p: nat, r: Record)
    requires Distinct(qs) && RecordsFit(qs, d.records) && LogBacked(qs, d.records, d.log)
    requires ByIdMirrors(qs, d.records, m.byId)
    requires 1 <= p <= |qs| && p !in d.records && PositionOf(qs, r.id) == p && !PythonBlank(r.payload.answer)
    ensures var records := d.records[p := r];
      && RecordsFit(qs, records) && LogBacked(qs, records, d.log)
      && ByIdMirrors(qs, records, m.byId[r.id := r])
  {
    hide PythonBlank, PositionOf;
    forall i | 0 <= i < |d.log| ensures Backed(qs, d.records[p := r], d.log[i]) {
      assert Backed(qs, d.records, d.log[i]);
    }
    assert forall id :: PositionOf(qs, id) == p ==> id == r.id;
  }

  lemma AppendKeeps(qs: seq<string>, s: State)
    requires Inv(qs, s) && s.phase.Recorded?
    ensures Inv(qs, Append(s))
  {
    hide Add, PositionOf, TotalUpTo, RecordsFit;
    var r := s.phase.record;
    AppendRowKeeps(qs, s.disk, s.memory, r.id);
  }

  lemma {:induction false} FinalLogRows(qs: seq<string>, byId: map<string, Record>, n: nat)
    requires n <= |qs| && forall k :: 0 <= k < n ==> qs[k] in byId
    ensures |FinalLog(qs, byId, n)| == n
    ensures forall k :: 0 <= k < n ==> FinalLog(qs, byId, n)[k] == Row(qs[k], byId[qs[k]].payload.answer)
  {
    if n > 0 { FinalLogRows(qs, byId, n - 1); }
  }

  /** With nothing pending every question has a record, so the count check passes. */
  lemma FinishKeeps(qs: seq<string>, s: State)
    requires Distinct(qs) && Inv(qs, s) && s.phase.Serving? && s.memory.pending == {}
    ensures Complete(qs, s).phase.Finished? && Inv(qs, Complete(qs, s))
  {
    hide Add, TotalUpTo, PositionOf, RecordsFit, ByIdMirrors, AnswersMirror, FinalLog, Ids, Covered, LogBacked, Backed,
         Distinct, LogOnce, AllUsageLoads, Completed, EachRecorded;
    var m := s.memory;
    EveryQuestionRecorded(qs, s.disk.records, m);
    IdCount(qs);
    FinalLogSound(qs, s.disk, m.byId);
  }

  lemma FinalLogSound(qs: seq<string>, d: Disk, byId: map<string, Record>)
    requires Distinct(qs) && EachRecorded(qs, d.records, byId)
    ensures var log := FinalLog(qs, byId, |qs|);
      LogBacked(qs, d.records, log) && LogOnce(log) && Completed(qs, d.records, log)
  {
    hide PositionOf;
    forall k | 0 <= k < |qs| ensures qs[k] in byId {
      assert RecordedAt(qs, d.records, byId, k);
    }
    FinalLogRows(qs, byId, |qs|);
    hide FinalLog;
    var log := FinalLog(qs, byId, |qs|);
    forall i | 0 <= i < |log|
      ensures Backed(qs, d.records, log[i]) && AnsweredAt(qs, d.records, log, i)
    {
      assert RecordedAt(qs, d.records, byId, i);
      assert log[i] == Row(qs[i], byId[qs[i]].payload.answer);
    }
  }

  ghost predicate EachRecorded(qs: seq<string>, records: map<nat, Record>, byId: map<string, Record>) {
    forall k :: 0 <= k < |qs| ==> RecordedAt(qs, records, byId, k)
  }

  ghost predicate RecordedAt(qs: seq<string>, records: map<nat, Record>, byId: map<string, Record>, k: nat)
    requires k < |qs|
  {
    PositionOf(qs, qs[k]) == k + 1 && k + 1 in records && qs[k] in byId && byId[qs[k]] == records[k + 1]
  }

  /** Superset plus equal size: with nothing pending the record ids are exactly the question ids. */
  lemma EveryQuestionRecorded(qs: seq<string>, records: map<nat, Record>, m: Memory)
    requires Distinct(qs) && ByIdMirrors(qs, records, m.byId) && Covered(qs, m, |qs|) && m.pending == {}
    requires RecordsFit(qs, records)
    ensures m.byId.Keys == Ids(qs)
    ensures EachRecorded(qs, records, m.byId)
  {
    hide PositionOf, RecordsFit, Distinct;
    forall k | 0 <= k < |qs| ensures RecordedAt(qs, records, m.byId, k) {
      PositionOfQuestion(qs, k);
    }
    assert forall k :: 0 <= k < |qs| ==> qs[k] in m.byId;
    RecordedIsAsked(qs, records, m.byId);
  }

  lemma RecordedIsAsked(qs: seq<string>, records: map<nat, Record>, byId: map<string, Record>)
    requires RecordsFit(qs, records) && ByIdMirrors(qs, records, byId)
    ensures byId.Keys <= Ids(qs)
  {
    hide PositionOf, PythonBlank;
    forall id | id in byId ensures id in Ids(qs) {
      assert qs[PositionOf(qs, id) - 1] == id;
    }
  }

  ghost function Ids(qs: seq<string>): set<string> {
    set i | 0 <= i < |qs| :: qs[i]
  }

  lemma IdsGrow(rest: seq<string>, last: string)
    ensures Ids(rest + [last]) == Ids(rest) + {last}
    ensures Distinct(rest + [last]) <==> Distinct(rest) && last !in Ids(rest)
  {
    var qs := rest + [last];
    forall x ensures x in Ids(qs) <==> x in Ids(rest) + {last} {
      if x in Ids(rest) {
        var i :| 0 <= i < |rest| && rest[i] == x;
        assert qs[i] == x;
      }
      assert qs[|rest|] == last;
    }
    if Distinct(qs) {
      assert forall i :: 0 <= i < |rest| ==> rest[i] == qs[i] && qs[i] != qs[|rest|];
    }
    if Distinct(rest) && last !in Ids(rest) {
      assert forall i :: 0 <= i < |rest| ==> rest[i] in Ids(rest);
    }
  }

  lemma {:induction false} IdCount(qs: seq<string>)
    ensures |Ids(qs)| <= |qs| && (|Ids(qs)| == |qs| <==> Distinct(qs))
  {
    if qs == [] {
      assert Ids(qs) == {};
    } else {
      var rest, last := qs[..|qs| - 1], qs[|qs| - 1];
      IdCount(rest);
      IdsGrow(rest, last);
      assert qs == rest + [last];
      hide Ids, Distinct;
    }
  }

  lemma StepKeeps(qs: seq<string>, s: State, e: Event)
    requires Distinct(qs) && Named(qs) && Inv(qs, s)
    requires e.WriteRecord? ==> !PythonBlank(e.payload.answer)
    ensures Inv(qs, Step(qs, s, e))
  {
    hide DiskInv, UpInv, RefusalInv, Load, Heal, Plan, Accept, Append, Complete;
    hide PythonBlank, Distinct, Named, IsListing;
    match e
    case Start(listing) =>
      if s.phase.Down? && IsListing(listing, s.disk.records) { LoadKeeps(qs, s.disk, listing); }
    case HealOne => if s.phase.Healing? { HealKeeps(qs, s); }
    case PlanOne => if s.phase.Planning? { PlanKeeps(qs, s); }
    case WriteRecord(position, payload) =>
      if s.phase.Serving? && position in s.memory.pending { AcceptKeeps(qs, s, position, payload); }
    case AppendAnswer => if s.phase.Recorded? { AppendKeeps(qs, s); }
    case WriteCheckpoint => if s.phase.Logged? { CheckpointKeeps(qs, s); }
    case Finish => if s.phase.Serving? && s.memory.pending == {} { FinishKeeps(qs, s); }
    case Crash => CrashKeeps(qs, s);
  }

  lemma CheckpointKeeps(qs: seq<string>, s: State)
    requires Inv(qs, s) && s.phase.Logged?
    ensures Inv(qs, s.(phase := Serving, disk := s.disk.(checkpoint := Written(|s.memory.answers|, s.memory.totals))))
  {
    hide TotalUpTo, RecordsFit, Covered;
  }

  lemma CrashKeeps(qs: seq<string>, s: State)
    requires Inv(qs, s)
    ensures Inv(qs, State(s.disk, Down, NoMemory))
  {
  }

  /** Main result, the invariant: every history over distinct question ids keeps it. */
  lemma {:induction false} RunKeeps(qs: seq<string>, events: seq<Event>)
    requires Distinct(qs) && Named(qs) && Answered(events)
    ensures Inv(qs, Run(qs, events))
  {
    if events != [] {
      var before := events[..|events| - 1];
      assert Answered(before) by { assert forall i :: 0 <= i < |before| ==> before[i] == events[i]; }
      RunKeeps(qs, before);
      StepKeeps(qs, Run(qs, before), events[|events| - 1]);
    }
  }
}
