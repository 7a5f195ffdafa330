/**
 `corpus_turns` of `benchmarks/check_utterance_postdating.py`: each turn gets a date or is
 reported, and what exit code 0 then says about the corpus itself.
 */
module UtteranceDates {
  import opened Options
  import opened Postdating

  datatype DiaId = Absent | NotText | Text(chars: string)

  datatype RawTurn = NotAnObject | Object(dia: DiaId)

  datatype RawSession = NotAList | Listed(turns: seq<RawTurn>)

  /** `items` are the conversation's keys and values; `dates` is what `session_dates` reads in it. */
  datatype RawEntry = NotAnEntry | NoConversation
    | Conversation(items: seq<(string, RawSession)>, dates: map<string, int>)

  datatype Why = EntryNotObject | ConversationMissing | SessionNotList | NoIndex
               | TurnNotObject | NoDate | DiaNotString | DiaEmpty | PrefixDisagrees

  datatype Where = Named(name: string) | Position(prefix: string, pos: nat)

  datatype Unresolved = Unresolved(conv: nat, place: Where, why: Why)

  datatype Reading = Dated(turn: Turn) | Problem(unresolved: Unresolved)

  // ---------------------------------------------------------------- keys and ids

  predicate StartsWith(s: string, prefix: string) {
    |prefix| <= |s| && s[..|prefix|] == prefix
  }

  predicate EndsWith(s: string, suffix: string) {
    |suffix| <= |s| && s[|s| - |suffix|..] == suffix
  }

  /** Keys that hold no turns. */
  predicate Passed(key: string) {
    EndsWith(key, "date_time") || !StartsWith(key, "session_")
  }

  predicate Indexed(key: string) {
    StartsWith(key, "session_") && |key| > 8 && forall c :: c in key[8..] ==> '0' <= c <= '9'
  }

  function Prefix(key: string): string
    requires Indexed(key)
  {
    "D" + key[8..]
  }

  function UpToColon(s: string): string {
    if s == "" || s[0] == ':' then "" else [s[0]] + UpToColon(s[1..])
  }

  // ---------------------------------------------------------------- one turn

  /** A turn that is said under `prefix`, and when. */
  predicate IsDated(dates: map<string, int>, prefix: string, raw: RawTurn) {
    prefix in dates && raw.Object? && raw.dia.Text? && raw.dia.chars != "" && UpToColon(raw.dia.chars) == prefix
  }

  function Place(prefix: string, pos: nat, dia: DiaId): Where {
    if dia.Text? && dia.chars != "" then Named(dia.chars) else Position(prefix, pos)
  }

  /** The tests in the order the loop makes them. */
  function ReadTurn(conv: nat, prefix: string, dates: map<string, int>, pos: nat, raw: RawTurn): (r: Reading)
    ensures r.Dated? <==> IsDated(dates, prefix, raw)
    ensures r.Dated? ==> r.turn == Turn(conv, raw.dia.chars, dates[prefix])
  {
    if raw.NotAnObject? then Problem(Unresolved(conv, Position(prefix, pos), TurnNotObject))
    else
      var place := Place(prefix, pos, raw.dia);
      if prefix !in dates then Problem(Unresolved(conv, place, NoDate))
      else if raw.dia.NotText? then Problem(Unresolved(conv, place, DiaNotString))
      else if raw.dia.Absent? || raw.dia.chars == "" then Problem(Unresolved(conv, place, DiaEmpty))
      else if UpToColon(raw.dia.chars) != prefix then Problem(Unresolved(conv, Named(raw.dia.chars), PrefixDisagrees))
      else Dated(Turn(conv, raw.dia.chars, dates[prefix]))
  }

  // ---------------------------------------------------------------- the whole corpus

  function ReadTurns(conv: nat, prefix: string, dates: map<string, int>, raws: seq<RawTurn>): seq<Reading> {
    seq(|raws|, i requires 0 <= i < |raws| => ReadTurn(conv, prefix, dates, i + 1, raws[i]))
  }

  function ReadItem(conv: nat, dates: map<string, int>, key: string, value: RawSession): seq<Reading> {
    if Passed(key) then []
    else if value.NotAList? then [Problem(Unresolved(conv, Named(key), SessionNotList))]
    else if !Indexed(key) then [Problem(Unresolved(conv, Named(key), NoIndex))]
    else ReadTurns(conv, Prefix(key), dates, value.turns)
  }

  function ReadItems(conv: nat, dates: map<string, int>, items: seq<(string, RawSession)>): seq<Reading> {
    if items == [] then []
    else
      var n := |items| - 1;
      ReadItems(conv, dates, items[..n]) + ReadItem(conv, dates, items[n].0, items[n].1)
  }

  function ReadEntry(conv: nat, entry: RawEntry): seq<Reading> {
    match entry
    case NotAnEntry => [Problem(Unresolved(conv, Named(""), EntryNotObject))]
    case NoConversation => [Problem(Unresolved(conv, Named(""), ConversationMissing))]
    case Conversation(items, dates) => ReadItems(conv, dates, items)
  }

  function ReadCorpus(corpus: seq<RawEntry>): seq<Reading> {
    if corpus == [] then []
    else
      var n := |corpus| - 1;
      ReadCorpus(corpus[..n]) + ReadEntry(n, corpus[n])
  }

  /** The loop's two lists are the two kinds of reading, each in order. */
  function Turns(rs: seq<Reading>): seq<Turn> {
    if rs == [] then []
    else Turns(rs[..|rs| - 1]) + if rs[|rs| - 1].Dated? then [rs[|rs| - 1].turn] else []
  }

  function Problems(rs: seq<Reading>): seq<Unresolved> {
    if rs == [] then []
    else Problems(rs[..|rs| - 1]) + if rs[|rs| - 1].Problem? then [rs[|rs| - 1].unresolved] else []
  }

  lemma Extend(rs: seq<Reading>, r: Reading)
    ensures Turns(rs + [r]) == Turns(rs) + if r.Dated? then [r.turn] else []
    ensures Problems(rs + [r]) == Problems(rs) + if r.Problem? then [r.unresolved] else []
    ensures Turns([]) == [] && Problems([]) == []
  {
    assert (rs + [r])[..|rs|] == rs;
  }

  method CorpusTurns(corpus: seq<RawEntry>) returns (turns: seq<Turn>, unresolved: seq<Unresolved>)
    ensures turns == Turns(ReadCorpus(corpus)) && unresolved == Problems(ReadCorpus(corpus))
  {
    hide Turns, Problems, Passed, Indexed, Prefix, ReadTurn;
    turns, unresolved := [], [];
    ghost var seen := [];
    Extend([], Problem(Unresolved(0, Named(""), EntryNotObject)));
    for idx := 0 to |corpus|
      invariant seen == ReadCorpus(corpus[..idx])
      invariant turns == Turns(seen) && unresolved == Problems(seen)
    {
      assert corpus[..idx + 1][..idx] == corpus[..idx];
      ghost var before := seen;
      match corpus[idx] {
        case NotAnEntry =>
          var u := Unresolved(idx, Named(""), EntryNotObject);
          Extend(seen, Problem(u));
          unresolved, seen := unresolved + [u], seen + [Problem(u)];
        case NoConversation =>
          var u := Unresolved(idx, Named(""), ConversationMissing);
          Extend(seen, Problem(u));
          unresolved, seen := unresolved + [u], seen + [Problem(u)];
        case Conversation(items, dates) =>
          turns, unresolved := ConversationTurns(idx, items, dates, turns, unresolved, seen);
          seen := seen + ReadItems(idx, dates, items);
      }
      assert seen == before + ReadEntry(idx, corpus[idx]);
    }
    assert corpus[..|corpus|] == corpus;
  }

  /** The loop over one conversation's items. */
  method ConversationTurns(conv: nat, items: seq<(string, RawSession)>, dates: map<string, int>,
      turns0: seq<Turn>, unresolved0: seq<Unresolved>, ghost seen0: seq<Reading>)
    returns (turns: seq<Turn>, unresolved: seq<Unresolved>)
    requires turns0 == Turns(seen0) && unresolved0 == Problems(seen0)
    ensures var seen := seen0 + ReadItems(conv, dates, items);
      turns == Turns(seen) && unresolved == Problems(seen)
  {
    hide Turns, Problems, Passed, Indexed, Prefix, ReadTurns, ReadItem, ReadItems;
    turns, unresolved := turns0, unresolved0;
    ghost var seen := seen0;
    NoItems(conv, dates, items);
    for j := 0 to |items|
      invariant seen == seen0 + ReadItems(conv, dates, items[..j])
      invariant turns == Turns(seen) && unresolved == Problems(seen)
    {
      var key, value := items[j].0, items[j].1;
      ghost var before := seen;
      ItemStep(conv, dates, items, j);
      if !Passed(key) {
        if value.NotAList? || !Indexed(key) {
          var u := Unresolved(conv, Named(key), if value.NotAList? then SessionNotList else NoIndex);
          Extend(seen, Problem(u));
          unresolved, seen := unresolved + [u], seen + [Problem(u)];
        } else {
          turns, unresolved := SessionTurns(conv, Prefix(key), dates, value.turns, turns, unresolved, seen);
          seen := seen + ReadTurns(conv, Prefix(key), dates, value.turns);
        }
      }
      assert seen == before + ReadItem(conv, dates, key, value);
    }
    assert items[..|items|] == items;
  }

  lemma NoItems(conv: nat, dates: map<string, int>, items: seq<(string, RawSession)>)
    ensures ReadItems(conv, dates, items[..0]) == []
  {
  }

  lemma ItemStep(conv: nat, dates: map<string, int>, items: seq<(string, RawSession)>, j: nat)
    requires j < |items|
    ensures ReadItems(conv, dates, items[..j + 1]) ==
      ReadItems(conv, dates, items[..j]) + ReadItem(conv, dates, items[j].0, items[j].1)
    ensures ReadItem(conv, dates, items[j].0, items[j].1) == (
      if Passed(items[j].0) then []
      else if items[j].1.NotAList? || !Indexed(items[j].0)
        then [Problem(Unresolved(conv, Named(items[j].0), if items[j].1.NotAList? then SessionNotList else NoIndex))]
      else ReadTurns(conv, Prefix(items[j].0), dates, items[j].1.turns))
  {
    assert items[..j + 1][..j] == items[..j];
  }

  /** The loop over one session's turns. */
  method SessionTurns(conv: nat, prefix: string, dates: map<string, int>, raws: seq<RawTurn>,
      turns0: seq<Turn>, unresolved0: seq<Unresolved>, ghost seen0: seq<Reading>)
    returns (turns: seq<Turn>, unresolved: seq<Unresolved>)
    requires turns0 == Turns(seen0) && unresolved0 == Problems(seen0)
    ensures var seen := seen0 + ReadTurns(conv, prefix, dates, raws);
      turns == Turns(seen) && unresolved == Problems(seen)
  {
    hide Turns, Problems, ReadTurn;
    turns, unresolved := turns0, unresolved0;
    ghost var seen := seen0;
    ghost var all := ReadTurns(conv, prefix, dates, raws);
    for i := 0 to |raws|
      invariant seen == seen0 + all[..i]
      invariant turns == Turns(seen) && unresolved == Problems(seen)
    {
      var r := ReadTurn(conv, prefix, dates, i + 1, raws[i]);
      Extend(seen, r);
      match r {
        case Dated(t) => turns := turns + [t];
        case Problem(u) => unresolved := unresolved + [u];
      }
      seen := seen + [r];
      assert all[..i + 1] == all[..i] + [r];
    }
    assert all[..|raws|] == all;
  }

  // ---------------------------------------------------------------- keys and ids, by their parts

  /** The key ends in `date_time` or does not begin with `session_`. */
  ghost predicate Skipped(key: string) {
    (exists front :: key == front + "date_time") || (forall rest :: key != "session_" + rest)
  }

  ghost predicate Numbered(key: string, digits: string) {
    key == "session_" + digits && digits != "" && forall i :: 0 <= i < |digits| ==> '0' <= digits[i] <= '9'
  }

  ghost predicate IsUnder(chars: string, prefix: string) {
    chars == prefix || exists rest :: chars == prefix + ":" + rest
  }

  /** The id stands alone or before a colon, and its session has a date. */
  ghost predicate DatedUnder(dates: map<string, int>, prefix: string, raw: RawTurn) {
    prefix in dates && raw.Object? && raw.dia.Text? && raw.dia.chars != "" && IsUnder(raw.dia.chars, prefix)
  }

  lemma KeysExactly(key: string)
    ensures Passed(key) <==> Skipped(key)
    ensures Indexed(key) <==> exists digits :: Numbered(key, digits)
    ensures Indexed(key) ==> ':' !in Prefix(key)
    ensures Indexed(key) ==> forall digits :: Numbered(key, digits) ==> Prefix(key) == "D" + digits
  {
    if EndsWith(key, "date_time") { assert key == key[..|key| - 9] + "date_time"; }
    if front :| key == front + "date_time" { assert key[|key| - 9..] == "date_time"; }
    if StartsWith(key, "session_") { assert key == "session_" + key[8..]; }
    if rest :| key == "session_" + rest { assert key[..8] == "session_"; }
    forall digits | Numbered(key, digits) ensures Indexed(key) && Prefix(key) == "D" + digits && ':' !in Prefix(key) {
      assert key[..8] == "session_" && key[8..] == digits;
    }
    if Indexed(key) {
      var digits := key[8..];
      assert forall i :: 0 <= i < |digits| ==> digits[i] in digits;
      assert Numbered(key, digits);
    }
  }

  lemma {:induction false} UpToColonExactly(s: string, prefix: string)
    requires ':' !in prefix
    ensures UpToColon(s) == prefix <==> IsUnder(s, prefix)
    decreases |s|
  {
    if s != "" && s[0] != ':' && prefix != "" {
      var s', p := s[1..], prefix[1..];
      UpToColonExactly(s', p);
      assert s == [s[0]] + s' && prefix == [prefix[0]] + p;
      if IsUnder(s, prefix) && s != prefix {
        var rest :| s == prefix + ":" + rest;
        assert s' == p + ":" + rest;
      }
      if s[0] == prefix[0] && IsUnder(s', p) && s' != p {
        var rest :| s' == p + ":" + rest;
        assert s == prefix + ":" + rest;
      }
    } else if prefix == "" && s != "" && s[0] == ':' {
      assert s == prefix + ":" + s[1..];
    }
  }

  /** What a turn gives: its date, or where it stands and the first thing wrong with it. */
  ghost predicate TurnGives(conv: nat, prefix: string, dates: map<string, int>, pos: nat, raw: RawTurn, r: Reading) {
    match r
    case Dated(t) => DatedUnder(dates, prefix, raw) && t == Turn(conv, raw.dia.chars, dates[prefix])
    case Problem(u) =>
      && u.conv == conv
      && u.place == (if raw.Object? && raw.dia.Text? && raw.dia.chars != "" then Named(raw.dia.chars)
                     else Position(prefix, pos))
      && (u.why == TurnNotObject || (raw.Object? && (u.why == NoDate || prefix in dates)))
      && match u.why
         case TurnNotObject => raw == NotAnObject
         case NoDate => prefix !in dates
         case DiaNotString => raw.dia == NotText
         case DiaEmpty => raw.dia == Absent || raw.dia == Text("")
         case PrefixDisagrees => raw.dia.Text? && raw.dia.chars != "" && !IsUnder(raw.dia.chars, prefix)
         case _ => false
  }

  lemma ReadTurnExactly(conv: nat, prefix: string, dates: map<string, int>, pos: nat, raw: RawTurn, r: Reading)
    requires ':' !in prefix
    ensures ReadTurn(conv, prefix, dates, pos, raw) == r <==> TurnGives(conv, prefix, dates, pos, raw, r)
    ensures IsDated(dates, prefix, raw) <==> DatedUnder(dates, prefix, raw)
  {
    hide IsUnder, UpToColon;
    if raw.Object? && raw.dia.Text? { UpToColonExactly(raw.dia.chars, prefix); }
  }

  // ---------------------------------------------------------------- what a clean reading means

  /** The key holds no turns, or is that of a numbered session whose turns are all dated. */
  ghost predicate CleanItem(item: (string, RawSession), dates: map<string, int>) {
    Skipped(item.0) ||
    (item.1.Listed? && exists digits :: Numbered(item.0, digits) && AllUnder(dates, "D" + digits, item.1.turns))
  }

  ghost predicate AllUnder(dates: map<string, int>, prefix: string, raws: seq<RawTurn>) {
    forall i :: 0 <= i < |raws| ==> DatedUnder(dates, prefix, raws[i])
  }

  ghost predicate CleanEntry(entry: RawEntry) {
    entry.Conversation? && forall j :: 0 <= j < |entry.items| ==> CleanItem(entry.items[j], entry.dates)
  }

  ghost predicate Clean(corpus: seq<RawEntry>) {
    forall e :: 0 <= e < |corpus| ==> CleanEntry(corpus[e])
  }

  predicate AllDated(rs: seq<Reading>) {
    forall k :: 0 <= k < |rs| ==> rs[k].Dated?
  }

  lemma AllDatedJoins(a: seq<Reading>, b: seq<Reading>)
    ensures AllDated([]) && (AllDated(a + b) <==> AllDated(a) && AllDated(b))
  {
    forall k | 0 <= k < |a| + |b| ensures (a + b)[k] == if k < |a| then a[k] else b[k - |a|] {}
    if AllDated(a + b) {
      assert forall k :: 0 <= k < |a| ==> (a + b)[k] == a[k];
      forall k | 0 <= k < |b| ensures b[k].Dated? { assert (a + b)[k + |a|] == b[k]; }
    }
  }

  lemma {:induction false} TurnsAndProblems(rs: seq<Reading>)
    ensures |Turns(rs)| + |Problems(rs)| == |rs|
    ensures Problems(rs) == [] <==> AllDated(rs)
    ensures forall t :: t in Turns(rs) <==> Dated(t) in rs
    ensures forall u :: u in Problems(rs) <==> Problem(u) in rs
  {
    if rs != [] {
      var n := |rs| - 1;
      var rest, last := rs[..n], rs[n];
      TurnsAndProblems(rest);
      assert rs == rest + [last];
      AllDatedJoins(rest, [last]);
      assert AllDated([last]) <==> last.Dated?;
    }
  }

  lemma ReadItemClean(conv: nat, dates: map<string, int>, key: string, value: RawSession)
    ensures AllDated(ReadItem(conv, dates, key, value)) <==> CleanItem((key, value), dates)
  {
    hide Passed, Indexed, Prefix, Skipped, Numbered, ReadTurn, DatedUnder, IsDated;
    KeysExactly(key);
    var rs := ReadItem(conv, dates, key, value);
    if !Passed(key) {
      if value.NotAList? || !Indexed(key) {
        assert !rs[0].Dated?;
      } else {
        assert |rs| == |value.turns|;
        forall i | 0 <= i < |value.turns| ensures rs[i].Dated? <==> DatedUnder(dates, Prefix(key), value.turns[i]) {
          ReadTurnExactly(conv, Prefix(key), dates, i + 1, value.turns[i], rs[i]);
        }
      }
    }
  }

  lemma {:induction false} ReadItemsClean(conv: nat, dates: map<string, int>, items: seq<(string, RawSession)>)
    ensures AllDated(ReadItems(conv, dates, items)) <==> forall j :: 0 <= j < |items| ==> CleanItem(items[j], dates)
  {
    hide CleanItem, AllDated, ReadItem;
    if items == [] {
      AllDatedJoins([], []);
    } else {
      var n := |items| - 1;
      ReadItemsClean(conv, dates, items[..n]);
      ReadItemClean(conv, dates, items[n].0, items[n].1);
      AllDatedJoins(ReadItems(conv, dates, items[..n]), ReadItem(conv, dates, items[n].0, items[n].1));
    }
  }

  lemma ReadEntryClean(conv: nat, entry: RawEntry)
    ensures AllDated(ReadEntry(conv, entry)) <==> CleanEntry(entry)
  {
    if entry.Conversation? {
      ReadItemsClean(conv, entry.dates, entry.items);
    } else {
      assert !ReadEntry(conv, entry)[0].Dated?;
    }
  }

  lemma {:induction false} ReadCorpusClean(corpus: seq<RawEntry>)
    ensures AllDated(ReadCorpus(corpus)) <==> Clean(corpus)
  {
    hide CleanEntry, AllDated, ReadEntry;
    if corpus == [] {
      AllDatedJoins([], []);
    } else {
      var n := |corpus| - 1;
      ReadCorpusClean(corpus[..n]);
      ReadEntryClean(n, corpus[n]);
      AllDatedJoins(ReadCorpus(corpus[..n]), ReadEntry(n, corpus[n]));
    }
  }

  // ---------------------------------------------------------------- where each reading comes from

  /** What item gives at place i of its list, or once if it has none that can be read. */
  ghost predicate ItemGives(conv: nat, dates: map<string, int>, item: (string, RawSession), i: nat, r: Reading) {
    && !Skipped(item.0)
    && if item.1.NotAList? then i == 0 && r == Problem(Unresolved(conv, Named(item.0), SessionNotList))
       else if !IsNumbered(item.0) then i == 0 && r == Problem(Unresolved(conv, Named(item.0), NoIndex))
       else i < |item.1.turns| && exists digits ::
              Numbered(item.0, digits) && TurnGives(conv, "D" + digits, dates, i + 1, item.1.turns[i], r)
  }

  ghost predicate IsNumbered(key: string) {
    exists digits :: Numbered(key, digits)
  }

  lemma ReadItemGives(conv: nat, dates: map<string, int>, item: (string, RawSession), r: Reading)
    ensures r in ReadItem(conv, dates, item.0, item.1) <==> exists i: nat :: ItemGives(conv, dates, item, i, r)
  {
    hide Passed, Indexed, Prefix, Skipped, Numbered, ReadTurn, TurnGives;
    KeysExactly(item.0);
    var rs := ReadItem(conv, dates, item.0, item.1);
    if !Passed(item.0) {
      if item.1.NotAList? || !Indexed(item.0) {
        assert r in rs <==> r == rs[0];
        assert r == rs[0] <==> ItemGives(conv, dates, item, 0, r);
      } else {
        var prefix := Prefix(item.0);
        assert rs == ReadTurns(conv, prefix, dates, item.1.turns);
        forall i: nat | i < |rs| ensures rs[i] == r <==> ItemGives(conv, dates, item, i, r) {
          ReadTurnExactly(conv, prefix, dates, i + 1, item.1.turns[i], r);
        }
      }
    }
  }

  ghost predicate ItemsGive(conv: nat, dates: map<string, int>, items: seq<(string, RawSession)>, j: nat, i: nat,
                            r: Reading) {
    j < |items| && ItemGives(conv, dates, items[j], i, r)
  }

  lemma {:induction false} ReadItemsGive(conv: nat, dates: map<string, int>, items: seq<(string, RawSession)>,
                                         r: Reading)
    ensures r in ReadItems(conv, dates, items) <==> exists j: nat, i: nat :: ItemsGive(conv, dates, items, j, i, r)
  {
    hide ItemGives, ReadItem;
    if items != [] {
      var n := |items| - 1;
      ReadItemsGive(conv, dates, items[..n], r);
      ReadItemGives(conv, dates, items[n], r);
      if j: nat, i: nat :| ItemsGive(conv, dates, items, j, i, r) {
        assert j < n ==> ItemsGive(conv, dates, items[..n], j, i, r);
      }
      if j: nat, i: nat :| ItemsGive(conv, dates, items[..n], j, i, r) {
        assert ItemsGive(conv, dates, items, j, i, r);
      }
      if i: nat :| ItemGives(conv, dates, items[n], i, r) {
        assert ItemsGive(conv, dates, items, n, i, r);
      }
    }
  }

  /** The turn at position i of item j of entry e. */
  datatype Spot = Spot(e: nat, j: nat, i: nat)

  /** What the corpus gives at a spot; an entry without a conversation gives one problem. */
  ghost predicate Gives(corpus: seq<RawEntry>, s: Spot, r: Reading) {
    s.e < |corpus| &&
    match corpus[s.e]
    case NotAnEntry => s.j == s.i == 0 && r == Problem(Unresolved(s.e, Named(""), EntryNotObject))
    case NoConversation => s.j == s.i == 0 && r == Problem(Unresolved(s.e, Named(""), ConversationMissing))
    case Conversation(items, dates) => ItemsGive(s.e, dates, items, s.j, s.i, r)
  }

  /** `t` is the turn at a spot, with its own id and its session's date. */
  ghost predicate Says(corpus: seq<RawEntry>, s: Spot, t: Turn) {
    Gives(corpus, s, Dated(t))
  }

  lemma ReadEntryGives(corpus: seq<RawEntry>, e: nat, r: Reading)
    requires e < |corpus|
    ensures r in ReadEntry(e, corpus[e]) <==> exists s: Spot :: s.e == e && Gives(corpus, s, r)
  {
    hide ItemsGive, ReadItems;
    match corpus[e]
    case Conversation(items, dates) =>
      ReadItemsGive(e, dates, items, r);
      if j: nat, i: nat :| ItemsGive(e, dates, items, j, i, r) {
        assert Gives(corpus, Spot(e, j, i), r);
      }
    case _ =>
      assert r in ReadEntry(e, corpus[e]) <==> Gives(corpus, Spot(e, 0, 0), r);
  }

  lemma {:induction false} ReadCorpusGives(corpus: seq<RawEntry>, r: Reading)
    ensures r in ReadCorpus(corpus) <==> exists s :: Gives(corpus, s, r)
  {
    hide ItemsGive, ReadEntry;
    if corpus != [] {
      var n := |corpus| - 1;
      ReadCorpusGives(corpus[..n], r);
      ReadEntryGives(corpus, n, r);
      if s :| Gives(corpus, s, r) {
        assert s.e < n ==> Gives(corpus[..n], s, r);
      }
      if s :| Gives(corpus[..n], s, r) {
        assert Gives(corpus, s, r);
      }
    }
  }

  /** Every reading is kept as a turn or reported, and both lists hold exactly what the corpus gives. */
  lemma NothingIsDropped(corpus: seq<RawEntry>)
    ensures |Turns(ReadCorpus(corpus))| + |Problems(ReadCorpus(corpus))| == |ReadCorpus(corpus)|
    ensures Problems(ReadCorpus(corpus)) == [] <==> Clean(corpus)
    ensures forall t :: t in Turns(ReadCorpus(corpus)) <==> exists s :: Says(corpus, s, t)
    ensures forall u :: u in Problems(ReadCorpus(corpus)) <==> exists s :: Gives(corpus, s, Problem(u))
  {
    hide Clean, Gives, Turns, Problems, AllDated, ReadCorpus;
    var rs := ReadCorpus(corpus);
    TurnsAndProblems(rs);
    ReadCorpusClean(corpus);
    forall t ensures t in Turns(rs) <==> exists s :: Says(corpus, s, t) {
      ReadCorpusGives(corpus, Dated(t));
      assert forall s :: Gives(corpus, s, Dated(t)) <==> Says(corpus, s, t);
    }
    forall u ensures u in Problems(rs) <==> exists s :: Gives(corpus, s, Problem(u)) {
      ReadCorpusGives(corpus, Problem(u));
    }
  }

  /** Everything listed has a date, something is listed, and nothing is said after `day`. */
  ghost predicate ClosedBy(corpus: seq<RawEntry>, day: int) {
    && Clean(corpus)
    && (exists s, t :: Says(corpus, s, t))
    && (forall s, t :: Says(corpus, s, t) ==> t.said <= day)
  }

  lemma PassesExactly(corpus: seq<RawEntry>, day: int)
    ensures Passes(Turns(ReadCorpus(corpus)), |Problems(ReadCorpus(corpus))|, Some(day)) <==> ClosedBy(corpus, day)
  {
    hide Clean, Says, Turns, Problems, ReadCorpus, Spread;
    NothingIsDropped(corpus);
    var turns := Turns(ReadCorpus(corpus));
    if turns != [] {
      assert turns[0] in turns;
      var s :| Says(corpus, s, turns[0]);
    }
    if s, t :| Says(corpus, s, t) {
      assert t in turns;
      assert turns != [];
    }
    if forall t :: t in turns ==> t.said <= day {
      forall s, t | Says(corpus, s, t) ensures t.said <= day { assert t in turns; }
    }
    if forall s, t :: Says(corpus, s, t) ==> t.said <= day {
      forall t | t in turns ensures t.said <= day { var s :| Says(corpus, s, t); }
    }
  }

  /** Everything the corpus says in conversation c is said before `day`. */
  ghost predicate SaidBefore(corpus: seq<RawEntry>, c: nat, day: int) {
    forall s, v :: Says(corpus, s, v) && v.conv == c ==> v.said < day
  }

  /** Some conversation ended before a turn of another was said. */
  ghost predicate SpreadOut(corpus: seq<RawEntry>) {
    exists s, t, r, u :: Says(corpus, s, t) && Says(corpus, r, u) && SaidBefore(corpus, u.conv, t.said)
  }

  lemma SaidBeforeExactly(corpus: seq<RawEntry>, c: nat, day: int)
    ensures AllBefore(Turns(ReadCorpus(corpus)), c, day) <==> SaidBefore(corpus, c, day)
  {
    hide Clean, Says, Turns, Problems, ReadCorpus;
    NothingIsDropped(corpus);
    var turns := Turns(ReadCorpus(corpus));
    if SaidBefore(corpus, c, day) {
      forall v | v in turns && v.conv == c ensures v.said < day { var s :| Says(corpus, s, v); }
    }
    if AllBefore(turns, c, day) {
      forall s, v | Says(corpus, s, v) && v.conv == c ensures v.said < day { assert v in turns; }
    }
  }

  lemma SpreadExactly(corpus: seq<RawEntry>)
    ensures Passes(Turns(ReadCorpus(corpus)), |Problems(ReadCorpus(corpus))|, None) <==>
      Clean(corpus) && SpreadOut(corpus)
  {
    hide Clean, Says, Turns, Problems, ReadCorpus, AllBefore, SaidBefore;
    NothingIsDropped(corpus);
    var turns := Turns(ReadCorpus(corpus));
    if Spread(turns) {
      var t, u :| t in turns && u in turns && AllBefore(turns, u.conv, t.said);
      var s :| Says(corpus, s, t);
      var r :| Says(corpus, r, u);
      SaidBeforeExactly(corpus, u.conv, t.said);
      assert SpreadOut(corpus);
    }
    if SpreadOut(corpus) {
      var s, t, r, u :| Says(corpus, s, t) && Says(corpus, r, u) && SaidBefore(corpus, u.conv, t.said);
      SaidBeforeExactly(corpus, u.conv, t.said);
      assert t in turns && u in turns;
      assert Spread(turns) && turns != [];
    }
  }

  /** `main`, from a corpus that parses to its verdict. */
  method Check(corpus: seq<RawEntry>, snapshot: Option<int>) returns (v: Verdict)
    ensures snapshot.Some? ==> (ExitCode(v) == 0 <==> ClosedBy(corpus, snapshot.value))
    ensures snapshot.None? ==> (ExitCode(v) == 0 <==> Clean(corpus) && SpreadOut(corpus))
    ensures snapshot.None? && ExitCode(v) == 0 ==> v == Vacuous
    ensures ExitCode(v) in {0, 1} && (v == Undated ==> !Clean(corpus))
  {
    hide Clean, Turns, Problems, ReadCorpus, Spread, ClosedBy, SpreadOut;
    var turns, unresolved := CorpusTurns(corpus);
    NothingIsDropped(corpus);
    if snapshot.Some? { PassesExactly(corpus, snapshot.value); } else { SpreadExactly(corpus); }
    v := Judge(turns, |unresolved|, snapshot);
  }
}
