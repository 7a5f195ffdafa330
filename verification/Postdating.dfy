/**
 The utterance dates of `benchmarks/check_utterance_postdating.py`: which turns have one, the
 instant each scope supplies, the turns said after it, and the verdict. Dates are day numbers.
 */
module Postdating {
  import opened Options

  datatype Turn = Turn(conv: nat, dia: string, said: int)

  datatype Verdict = NoTurns | Undated | Broken | NothingIsEvidence | HeldUninformative | Vacuous | Held

  function ExitCode(v: Verdict): nat {
    match v
    case NoTurns | Undated | Broken | NothingIsEvidence => 1
    case HeldUninformative | Vacuous | Held => 0
  }

  function Conversations(turns: seq<Turn>): set<nat> {
    set t | t in turns :: t.conv
  }

  // ---------------------------------------------------------------- the instants

  /** Each conversation's end is the latest date among its own turns. */
  ghost predicate AreLatest(turns: seq<Turn>, ends: map<nat, int>) {
    && ends.Keys == Conversations(turns)
    && (forall t :: t in turns ==> t.conv in ends && t.said <= ends[t.conv])
    && (forall c :: c in ends ==> exists t :: t in turns && t.conv == c && t.said == ends[c])
  }

  ghost predicate AreInstants(turns: seq<Turn>, snapshot: Option<int>, ends: map<nat, int>) {
    if snapshot.Some?
    then ends.Keys == Conversations(turns) && forall c :: c in ends ==> ends[c] == snapshot.value
    else AreLatest(turns, ends)
  }

  method ConversationEnds(turns: seq<Turn>, snapshot: Option<int>) returns (ends: map<nat, int>, declared: bool)
    ensures AreInstants(turns, snapshot, ends) && declared == snapshot.Some?
  {
    if snapshot.Some? {
      return map c | c in Conversations(turns) :: snapshot.value, true;
    }
    ends := LatestEnds(turns);
    declared := false;
  }

  method LatestEnds(turns: seq<Turn>) returns (ends: map<nat, int>)
    ensures AreLatest(turns, ends)
  {
    ends := map[];
    assert AreLatest(turns[..0], ends);
    hide AreLatest;
    for i := 0 to |turns|
      invariant AreLatest(turns[..i], ends)
    {
      var t := turns[i];
      ghost var before := ends;
      if t.conv !in ends || t.said > ends[t.conv] { ends := ends[t.conv := t.said]; }
      OneMoreTurn(turns[..i], t, before, ends);
      OneLonger(turns, i);
    }
    assert turns[..|turns|] == turns;
  }

  lemma OneLonger(turns: seq<Turn>, i: nat)
    requires i < |turns|
    ensures turns[..i] + [turns[i]] == turns[..i + 1]
  {
  }

  lemma OneMoreTurn(turns: seq<Turn>, t: Turn, before: map<nat, int>, after: map<nat, int>)
    requires AreLatest(turns, before)
    requires after == if t.conv !in before || t.said > before[t.conv] then before[t.conv := t.said] else before
    ensures AreLatest(turns + [t], after)
  {
    var more := turns + [t];
    assert forall x :: x in more <==> x in turns || x == t;
    forall c | c in after ensures exists x :: x in more && x.conv == c && x.said == after[c] {
      if c in before && after[c] == before[c] {
        var x :| x in turns && x.conv == c && x.said == before[c];
        assert x in more;
      } else {
        assert t in more;
      }
    }
  }

  // ---------------------------------------------------------------- the comparison

  /** The turn at `at` is seen from conversation `ref` and said after its instant. */
  predicate Demotes(turns: seq<Turn>, ends: map<nat, int>, merged: bool, ref: nat, at: nat) {
    && ref in ends && at < |turns|
    && (merged || turns[at].conv == ref)
    && turns[at].said > ends[ref]
  }

  datatype Pair = Pair(ref: nat, at: nat)

  predicate Earlier(a: Pair, b: Pair) {
    a.ref < b.ref || (a.ref == b.ref && a.at < b.at)
  }

  /** `pairs` lists, in order and once each, the pairs with ref below `ref`, or at it and before `at`. */
  ghost predicate ListsUpTo(turns: seq<Turn>, ends: map<nat, int>, merged: bool, pairs: seq<Pair>, ref: nat, at: nat) {
    && (forall p :: p in pairs <==> Demotes(turns, ends, merged, p.ref, p.at) && Earlier(p, Pair(ref, at)))
    && (forall j, k :: 0 <= j < k < |pairs| ==> Earlier(pairs[j], pairs[k]))
  }

  ghost predicate ListsAll(turns: seq<Turn>, ends: map<nat, int>, merged: bool, pairs: seq<Pair>) {
    && (forall p :: p in pairs <==> Demotes(turns, ends, merged, p.ref, p.at))
    && (forall j, k :: 0 <= j < k < |pairs| ==> Earlier(pairs[j], pairs[k]))
  }

  /** `out` gives each pair with its turn. */
  ghost predicate Shows(turns: seq<Turn>, pairs: seq<Pair>, out: seq<(nat, Turn)>) {
    && |out| == |pairs|
    && forall k :: 0 <= k < |out| ==> pairs[k].at < |turns| && out[k] == (pairs[k].ref, turns[pairs[k].at])
  }

  /** What `postdating` returns: every pair once, by conversation and then by position. */
  ghost predicate IsPostdating(turns: seq<Turn>, ends: map<nat, int>, merged: bool, out: seq<(nat, Turn)>) {
    exists pairs :: ListsAll(turns, ends, merged, pairs) && Shows(turns, pairs, out)
  }

  method SortedRefs(ends: map<nat, int>) returns (refs: seq<nat>)
    ensures forall c :: c in refs <==> c in ends
    ensures forall j, k :: 0 <= j < k < |refs| ==> refs[j] < refs[k]
  {
    refs := [];
    var todo := ends.Keys;
    while todo != {}
      invariant forall c :: c in ends <==> c in refs || c in todo
      invariant forall j, k :: 0 <= j < k < |refs| ==> refs[j] < refs[k]
      invariant forall j, c :: 0 <= j < |refs| && c in todo ==> refs[j] < c
      decreases todo
    {
      ghost var some :| some in todo;
      SomeLeast(todo, some);
      var c :| c in todo && IsLeast(c, todo);
      refs := refs + [c];
      todo := todo - {c};
    }
  }

  predicate IsLeast(c: nat, s: set<nat>) {
    c in s && forall d :: d in s ==> c <= d
  }

  lemma {:induction false} SomeLeast(s: set<nat>, c: nat)
    requires c in s
    ensures exists m :: IsLeast(m, s)
  {
    if d :| d in s && d < c {
      SomeLeast(s, d);
    } else {
      assert IsLeast(c, s);
    }
  }

  method PostdatingTurns(turns: seq<Turn>, ends: map<nat, int>, merged: bool) returns (out: seq<(nat, Turn)>)
    ensures IsPostdating(turns, ends, merged, out)
  {
    ghost var pairs: seq<Pair>;
    var refs := SortedRefs(ends);
    out, pairs := [], [];
    for r := 0 to |refs|
      invariant Shows(turns, pairs, out)
      invariant ListsUpTo(turns, ends, merged, pairs, if r == 0 then 0 else refs[r - 1] + 1, 0)
    {
      var ref, end := refs[r], ends[refs[r]];
      NoneBetween(turns, ends, merged, pairs, if r == 0 then 0 else refs[r - 1] + 1, ref);
      for i := 0 to |turns|
        invariant Shows(turns, pairs, out)
        invariant ListsUpTo(turns, ends, merged, pairs, ref, i)
      {
        var turn := turns[i];
        ghost var before := pairs;
        if (merged || turn.conv == ref) && turn.said > end {
          out, pairs := out + [(ref, turn)], pairs + [Pair(ref, i)];
        }
        OnePosition(turns, ends, merged, before, ref, i, pairs);
      }
      assert ListsUpTo(turns, ends, merged, pairs, ref + 1, 0);
    }
    assert ListsAll(turns, ends, merged, pairs);
  }

  lemma NoneBetween(turns: seq<Turn>, ends: map<nat, int>, merged: bool, pairs: seq<Pair>, low: nat, high: nat)
    requires ListsUpTo(turns, ends, merged, pairs, low, 0) && low <= high
    requires forall c :: low <= c < high ==> c !in ends
    ensures ListsUpTo(turns, ends, merged, pairs, high, 0)
  {
  }

  lemma OnePosition(turns: seq<Turn>, ends: map<nat, int>, merged: bool, before: seq<Pair>, ref: nat, at: nat,
                    after: seq<Pair>)
    requires ListsUpTo(turns, ends, merged, before, ref, at)
    requires after == before + if Demotes(turns, ends, merged, ref, at) then [Pair(ref, at)] else []
    ensures ListsUpTo(turns, ends, merged, after, ref, at + 1)
  {
    hide Demotes;
    forall p ensures p in after <==> Demotes(turns, ends, merged, p.ref, p.at) && Earlier(p, Pair(ref, at + 1)) {
      assert p in after <==> p in before || (Demotes(turns, ends, merged, ref, at) && p == Pair(ref, at));
      assert Earlier(p, Pair(ref, at + 1)) <==> Earlier(p, Pair(ref, at)) || p == Pair(ref, at);
    }
    forall j, k | 0 <= j < k < |after| ensures Earlier(after[j], after[k]) {
      if k == |before| { assert before[j] in before; }
    }
  }

  // ---------------------------------------------------------------- what the counts can say

  /** A derived instant is a maximum over the turns compared with it, so it demotes none of them. */
  lemma DerivedNeverDemotesItsOwn(turns: seq<Turn>, ends: map<nat, int>, own: seq<(nat, Turn)>)
    requires AreLatest(turns, ends) && IsPostdating(turns, ends, false, own)
    ensures own == []
  {
    var pairs :| ListsAll(turns, ends, false, pairs) && Shows(turns, pairs, own);
    forall ref: nat, at: nat ensures !Demotes(turns, ends, false, ref, at) {
      if at < |turns| { assert turns[at] in turns; }
    }
    SomePair(pairs);
  }

  lemma SomePair(pairs: seq<Pair>)
    ensures pairs != [] ==> exists p :: p in pairs
  {
    if pairs != [] { assert pairs[0] in pairs; }
  }

  /** Merged over derived instants, nothing is demoted exactly when all instants are equal. */
  lemma MergedIsEmptyExactly(turns: seq<Turn>, ends: map<nat, int>, merged: seq<(nat, Turn)>)
    requires AreLatest(turns, ends) && IsPostdating(turns, ends, true, merged)
    ensures merged == [] <==> forall c, d :: c in ends && d in ends ==> ends[c] == ends[d]
  {
    var pairs :| ListsAll(turns, ends, true, pairs) && Shows(turns, pairs, merged);
    if pairs == [] {
      forall c, d | c in ends && d in ends ensures ends[c] <= ends[d] {
        var t :| t in turns && t.conv == c && t.said == ends[c];
        var i :| 0 <= i < |turns| && turns[i] == t;
        assert Pair(d, i) in pairs <==> Demotes(turns, ends, true, d, i);
      }
    } else {
      var p := pairs[0];
      assert p in pairs;
      assert Demotes(turns, ends, true, p.ref, p.at);
      assert turns[p.at] in turns && ends[turns[p.at].conv] > ends[p.ref];
    }
  }

  /** Over a declared instant both readings ask the same question. */
  lemma DeclaredDemotesExactly(turns: seq<Turn>, snapshot: int, ends: map<nat, int>, merged: bool,
                               out: seq<(nat, Turn)>)
    requires AreInstants(turns, Some(snapshot), ends) && IsPostdating(turns, ends, merged, out)
    ensures out == [] <==> forall t :: t in turns ==> t.said <= snapshot
  {
    var pairs :| ListsAll(turns, ends, merged, pairs) && Shows(turns, pairs, out);
    if pairs == [] {
      forall t | t in turns ensures t.said <= snapshot {
        var i :| 0 <= i < |turns| && turns[i] == t;
        assert Pair(t.conv, i) in pairs <==> Demotes(turns, ends, merged, t.conv, i);
      }
    } else {
      var p := pairs[0];
      assert p in pairs;
      assert turns[p.at] in turns && turns[p.at].said > snapshot;
    }
  }

  predicate AllBefore(turns: seq<Turn>, c: nat, day: int) {
    forall v :: v in turns && v.conv == c ==> v.said < day
  }

  /** Some conversation ended before a turn of another was said. */
  predicate Spread(turns: seq<Turn>) {
    exists t, u :: t in turns && u in turns && AllBefore(turns, u.conv, t.said)
  }

  lemma AllBeforeExactly(turns: seq<Turn>, ends: map<nat, int>, c: nat, day: int)
    requires AreLatest(turns, ends) && c in ends
    ensures AllBefore(turns, c, day) <==> ends[c] < day
  {
    var v :| v in turns && v.conv == c && v.said == ends[c];
  }

  lemma SpreadIsDifferentEnds(turns: seq<Turn>, ends: map<nat, int>)
    requires AreLatest(turns, ends)
    ensures Spread(turns) <==> !(forall c, d :: c in ends && d in ends ==> ends[c] == ends[d])
  {
    hide AllBefore;
    if Spread(turns) {
      var t, u :| t in turns && u in turns && AllBefore(turns, u.conv, t.said);
      AllBeforeExactly(turns, ends, u.conv, t.said);
      assert ends[u.conv] < t.said <= ends[t.conv];
    } else {
      forall c, d | c in ends && d in ends ensures ends[c] <= ends[d] {
        var t :| t in turns && t.conv == c && t.said == ends[c];
        var u :| u in turns && u.conv == d && u.said == ends[d];
        AllBeforeExactly(turns, ends, d, t.said);
      }
    }
  }

  predicate Passes(turns: seq<Turn>, unresolved: nat, snapshot: Option<int>) {
    && turns != [] && unresolved == 0
    && if snapshot.Some? then forall t :: t in turns ==> t.said <= snapshot.value else Spread(turns)
  }

  /** The ladder at the end of `main`. */
  method Judge(turns: seq<Turn>, unresolved: nat, snapshot: Option<int>) returns (v: Verdict)
    ensures ExitCode(v) == if Passes(turns, unresolved, snapshot) then 0 else 1
    ensures v == NoTurns <==> turns == []
    ensures v == Undated <==> turns != [] && unresolved > 0
    ensures v == Broken ==> snapshot.Some? && exists t :: t in turns && t.said > snapshot.value
    ensures v in {Held, HeldUninformative} ==> snapshot.Some? && (v == Held <==> Spread(turns))
    ensures v in {Vacuous, NothingIsEvidence} ==> snapshot.None? && (v == Vacuous <==> Spread(turns))
  {
    hide AreLatest, AreInstants, IsPostdating, Spread;
    var ends, declared := ConversationEnds(turns, snapshot);
    var derived, _ := ConversationEnds(turns, None);
    var own := PostdatingTurns(turns, ends, false);
    var merged := PostdatingTurns(turns, derived, true);
    DerivedIsLatest(turns, derived);
    MergedIsEmptyExactly(turns, derived, merged);
    SpreadIsDifferentEnds(turns, derived);
    if snapshot.Some? {
      DeclaredDemotesExactly(turns, snapshot.value, ends, false, own);
    } else {
      DerivedIsLatest(turns, ends);
      DerivedNeverDemotesItsOwn(turns, ends, own);
    }
    if |turns| == 0 { return NoTurns; }
    if unresolved > 0 { return Undated; }
    if own != [] { return Broken; }
    if merged == [] {
      return if declared then HeldUninformative else NothingIsEvidence;
    }
    return if declared then Held else Vacuous;
  }

  lemma DerivedIsLatest(turns: seq<Turn>, ends: map<nat, int>)
    requires AreInstants(turns, None, ends)
    ensures AreLatest(turns, ends)
  {
  }

  /** More turns that do not postdate a declared instant never turn a pass into a failure. */
  lemma DeclaredPassSurvives(turns: seq<Turn>, more: seq<Turn>, snapshot: int)
    requires Passes(turns, 0, Some(snapshot))
    ensures Passes(turns + more, 0, Some(snapshot)) <==> forall t :: t in more ==> t.said <= snapshot
  {
    var all := turns + more;
    assert forall t :: t in all <==> t in turns || t in more;
  }

  /** A derived pass survives every new transcript, whatever its dates. */
  lemma DerivedPassSurvivesNewTranscripts(turns: seq<Turn>, more: seq<Turn>)
    requires Passes(turns, 0, None) && Conversations(turns) !! Conversations(more)
    ensures Passes(turns + more, 0, None)
  {
    var t, u :| t in turns && u in turns && AllBefore(turns, u.conv, t.said);
    var all := turns + more;
    assert u.conv in Conversations(turns);
    forall v | v in all && v.conv == u.conv ensures v.said < t.said {
      assert v in more ==> v.conv in Conversations(more);
    }
    assert t in all && u in all && AllBefore(all, u.conv, t.said);
  }

  function CaughtUp(turns: seq<Turn>, day: int): seq<Turn> {
    seq(|turns|, i requires 0 <= i < |turns| => turns[i].(said := day))
  }

  /** Later turns that let every old transcript catch up undo any derived pass. */
  lemma DerivedPassIsLostByCatchingUp(turns: seq<Turn>, day: int)
    requires forall t :: t in turns ==> t.said <= day
    ensures Conversations(CaughtUp(turns, day)) == Conversations(turns)
    ensures !Passes(turns + CaughtUp(turns, day), 0, None)
  {
    var late := CaughtUp(turns, day);
    forall t | t in turns ensures exists v :: v in late && v.conv == t.conv && v.said == day {
      var i :| 0 <= i < |turns| && turns[i] == t;
      assert late[i] in late;
    }
    forall v | v in late ensures v.said == day && v.conv in Conversations(turns) {
      var i :| 0 <= i < |late| && late[i] == v;
      assert turns[i] in turns;
    }
    NoSpread(turns + late, late, day);
  }

  lemma NoSpread(all: seq<Turn>, late: seq<Turn>, day: int)
    requires forall v :: v in late ==> v in all && v.said == day
    requires forall t :: t in all ==> t.said <= day && exists v :: v in late && v.conv == t.conv
    ensures !Spread(all)
  {
    forall t, u | t in all && u in all ensures !AllBefore(all, u.conv, t.said) {
      var v :| v in late && v.conv == u.conv;
      assert v in all;
    }
  }
}
