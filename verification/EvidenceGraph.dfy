/**
 The one-hop expansion of `benchmarks/evidence_graph_pilot.py` and its relation controls in
 `benchmarks/evidence_graph_eval.py`. Ids matter only through equality and order, so they are
 integers here.
 */
module EvidenceGraph {
  import opened Sets

  datatype Mention = Mention(chunk: nat, entity: nat)

  /** `target` is the relation's object. */
  datatype Relation = Relation(subject: nat, target: nat, confidence: real, evidence: nat, authored: bool)

  datatype Diagnostic = Diagnostic(ambiguousEntity: bool, entities: set<nat>)

  datatype Graph = Graph(mentions: seq<Mention>, relations: seq<Relation>, diagnostics: seq<Diagnostic>)

  datatype Query = Query(seeds: seq<nat>, trusted: set<nat>)

  datatype Score = Score(confidence: real, evidence: nat)

  predicate Less(a: Score, b: Score) {
    a.confidence < b.confidence || (a.confidence == b.confidence && a.evidence < b.evidence)
  }

  // ---------------------------------------------------------------- the declarative answer

  function Ambiguous(g: Graph): set<nat> {
    set d, e | d in g.diagnostics && d.ambiguousEntity && e in d.entities :: e
  }

  function SeedEntities(g: Graph, q: Query): set<nat> {
    set m | m in g.mentions && m.chunk in q.seeds && m.entity !in Ambiguous(g) :: m.entity
  }

  predicate Touches(g: Graph, q: Query, r: Relation) {
    && r.authored && r.subject !in Ambiguous(g) && r.target !in Ambiguous(g)
    && (r.subject in SeedEntities(g, q) || r.target in SeedEntities(g, q))
  }

  /** The object of a relation whose subject is a seed entity, even if its object is one too. */
  function Neighbor(g: Graph, q: Query, r: Relation): nat {
    if r.subject in SeedEntities(g, q) then r.target else r.subject
  }

  function Supporting(g: Graph, entity: nat): set<nat> {
    set m | m in g.mentions && m.entity == entity :: m.chunk
  }

  /** Relation r leads from the seeds to chunk c. */
  predicate LeadsTo(g: Graph, q: Query, r: Relation, c: nat) {
    Touches(g, q, r) && c in Supporting(g, Neighbor(g, q, r)) && c !in q.seeds
  }

  /** Every chunk one hop away; for a trusted query chunk, what the expansion may append. */
  function Candidates(g: Graph, q: Query, rels: seq<Relation>): set<nat> {
    set r, c | r in rels && Touches(g, q, r) && c in Supporting(g, Neighbor(g, q, r)) && c !in q.seeds :: c
  }

  function ScoreOf(r: Relation): Score {
    Score(r.confidence, r.evidence)
  }

  /** `scores` gives each candidate the best of the relations that lead to it. */
  ghost predicate BestScores(g: Graph, q: Query, rels: seq<Relation>, scores: map<nat, Score>) {
    && scores.Keys == Candidates(g, q, rels)
    && (forall r, c :: r in rels && LeadsTo(g, q, r, c) ==> c in scores && !Less(scores[c], ScoreOf(r)))
    && (forall c :: c in scores ==> exists r :: r in rels && LeadsTo(g, q, r, c) && ScoreOf(r) == scores[c])
  }

  function TouchCount(g: Graph, q: Query, rels: seq<Relation>): nat {
    if rels == [] then 0
    else TouchCount(g, q, rels[..|rels| - 1]) + if Touches(g, q, rels[|rels| - 1]) then 1 else 0
  }

  /** Higher score first, then the smaller id. */
  predicate Precedes(scores: map<nat, Score>, a: nat, b: nat)
    requires a in scores && b in scores
  {
    Less(scores[b], scores[a]) || (scores[a] == scores[b] && a < b)
  }

  ghost predicate Lists(order: seq<nat>, elements: set<nat>) {
    && (forall k :: 0 <= k < |order| ==> order[k] in elements)
    && (forall c :: c in elements ==> c in order)
  }

  ghost predicate Ranked(scores: map<nat, Score>, order: seq<nat>) {
    && (forall k :: 0 <= k < |order| ==> order[k] in scores)
    && (forall j, k :: 0 <= j < k < |order| ==> Precedes(scores, order[j], order[k]))
  }

  /** What `_expanded_ids` returns, said without the order in which it looks at anything. */
  ghost predicate IsExpansion(g: Graph, q: Query, accepted: seq<nat>, discovered: nat, inspected: nat, rejected: nat) {
    && discovered == |Candidates(g, q, g.relations)|
    && rejected == |Candidates(g, q, g.relations) - q.trusted|
    && inspected == TouchCount(g, q, g.relations)
    && Lists(accepted, Candidates(g, q, g.relations) * q.trusted)
    && exists scores :: BestScores(g, q, g.relations, scores) && Ranked(scores, accepted)
  }

  // ---------------------------------------------------------------- the loops

  method ScoreCandidates(g: Graph, q: Query) returns (scores: map<nat, Score>, inspected: nat)
    ensures BestScores(g, q, g.relations, scores) && inspected == TouchCount(g, q, g.relations)
  {
    scores, inspected := map[], 0;
    assert Candidates(g, q, []) == {};
    for i := 0 to |g.relations|
      invariant BestScores(g, q, g.relations[..i], scores) && inspected == TouchCount(g, q, g.relations[..i])
    {
      var r := g.relations[i];
      assert g.relations[..i + 1] == g.relations[..i] + [r];
      ghost var before := scores;
      if Touches(g, q, r) {
        inspected := inspected + 1;
        scores := AddSupport(scores, Supporting(g, Neighbor(g, q, r)) - (set s | s in q.seeds), ScoreOf(r));
      }
      OneMoreRelation(g, q, g.relations[..i], r, before, scores);
    }
    assert g.relations[..|g.relations|] == g.relations;
  }

  /** The inner loop: each supporting chunk keeps the better of its scores. */
  method AddSupport(scores: map<nat, Score>, supporting: set<nat>, s: Score) returns (after: map<nat, Score>)
    ensures after == Improved(scores, supporting, s)
  {
    after := scores;
    var todo := supporting;
    while todo != {}
      invariant todo <= supporting && after == Improved(scores, supporting - todo, s)
      decreases todo
    {
      var c :| c in todo;
      if c !in after || Less(after[c], s) { after := after[c := s]; }
      todo := todo - {c};
    }
    assert supporting - todo == supporting;
  }

  function Improved(scores: map<nat, Score>, supporting: set<nat>, s: Score): map<nat, Score> {
    map c | c in scores.Keys + supporting ::
      if c in supporting && (c !in scores || Less(scores[c], s)) then s else scores[c]
  }

  lemma OneMoreRelation(g: Graph, q: Query, rels: seq<Relation>, r: Relation, before: map<nat, Score>,
                        after: map<nat, Score>)
    requires BestScores(g, q, rels, before)
    requires after == if !Touches(g, q, r) then before
                      else Improved(before, Supporting(g, Neighbor(g, q, r)) - (set s | s in q.seeds), ScoreOf(r))
    ensures BestScores(g, q, rels + [r], after)
  {
    hide Ambiguous, SeedEntities, Touches, Neighbor, Supporting;
    var more := rels + [r];
    assert forall x :: x in more <==> x in rels || x == r;
    assert Candidates(g, q, more) == after.Keys;
    forall c | c in after ensures exists x :: x in more && LeadsTo(g, q, x, c) && ScoreOf(x) == after[c] {
      if c in before && after[c] == before[c] {
        var x :| x in rels && LeadsTo(g, q, x, c) && ScoreOf(x) == before[c];
        assert x in more;
      } else {
        assert r in more && LeadsTo(g, q, r, c);
      }
    }
  }

  method Rank(scores: map<nat, Score>) returns (order: seq<nat>)
    ensures Lists(order, scores.Keys) && Ranked(scores, order)
  {
    order := [];
    var todo := scores.Keys;
    while todo != {}
      invariant todo <= scores.Keys && Lists(order, scores.Keys - todo) && Ranked(scores, order)
      decreases todo
    {
      var c :| c in todo;
      var at := |order|;
      while at > 0 && Precedes(scores, c, order[at - 1])
        invariant 0 <= at <= |order|
        invariant forall k :: at <= k < |order| ==> Precedes(scores, c, order[k])
      {
        at := at - 1;
      }
      InsertRanked(scores, order, c, at);
      InsertLists(order, c, at, scores.Keys - todo);
      assert scores.Keys - todo + {c} == scores.Keys - (todo - {c});
      order := order[..at] + [c] + order[at..];
      todo := todo - {c};
    }
    assert scores.Keys - todo == scores.Keys;
  }

  lemma InsertRanked(scores: map<nat, Score>, order: seq<nat>, c: nat, at: nat)
    requires Ranked(scores, order) && c in scores && c !in order && at <= |order|
    requires at > 0 ==> !Precedes(scores, c, order[at - 1])
    requires forall k :: at <= k < |order| ==> Precedes(scores, c, order[k])
    ensures Ranked(scores, order[..at] + [c] + order[at..])
  {
    var next := order[..at] + [c] + order[at..];
    assert forall k :: 0 <= k < |next| ==> next[k] == if k < at then order[k] else if k == at then c else order[k - 1];
    forall j, k | 0 <= j < k < |next| ensures Precedes(scores, next[j], next[k]) {
      if k == at { assert j == at - 1 || Precedes(scores, order[j], order[at - 1]); }
    }
  }

  lemma InsertLists(order: seq<nat>, c: nat, at: nat, elements: set<nat>)
    requires Lists(order, elements) && at <= |order|
    ensures Lists(order[..at] + [c] + order[at..], elements + {c})
  {
    var next := order[..at] + [c] + order[at..];
    forall e | e in elements + {c} ensures e in next {
      if e == c {
        assert next[at] == c;
      } else {
        var k :| 0 <= k < |order| && order[k] == e;
        assert next[if k < at then k else k + 1] == e;
      }
    }
  }

  /** The trusted ids among the first n, in order. */
  function Kept(order: seq<nat>, trusted: set<nat>, n: nat): seq<nat>
    requires n <= |order|
  {
    if n == 0 then []
    else Kept(order, trusted, n - 1) + if order[n - 1] in trusted then [order[n - 1]] else []
  }

  method ExpandedIds(g: Graph, q: Query) returns (accepted: seq<nat>, discovered: nat, inspected: nat, rejected: nat)
    ensures IsExpansion(g, q, accepted, discovered, inspected, rejected)
    ensures |accepted| + rejected == discovered
  {
    hide Candidates, TouchCount, IsExpansion;
    if q.seeds == [] {
      NoSeeds(g, q);
      return [], 0, 0, 0;
    }
    accepted, discovered, inspected, rejected := ExpandFromSeeds(g, q);
  }

  method ExpandFromSeeds(g: Graph, q: Query)
    returns (accepted: seq<nat>, discovered: nat, inspected: nat, rejected: nat)
    ensures IsExpansion(g, q, accepted, discovered, inspected, rejected)
    ensures |accepted| + rejected == discovered
  {
    hide BestScores, Candidates, TouchCount, Lists, Ranked, IsExpansion;
    var scores;
    scores, inspected := ScoreCandidates(g, q);
    var ordered := Rank(scores);
    accepted, rejected := [], 0;
    for k := 0 to |ordered|
      invariant accepted == Kept(ordered, q.trusted, k) && |accepted| + rejected == k
    {
      if ordered[k] in q.trusted { accepted := accepted + [ordered[k]]; } else { rejected := rejected + 1; }
    }
    discovered := |ordered|;
    KeptIsExpansion(g, q, scores, ordered, inspected);
  }

  lemma {:induction false} KeptRanked(scores: map<nat, Score>, order: seq<nat>, trusted: set<nat>, n: nat)
    requires Ranked(scores, order) && n <= |order|
    ensures Ranked(scores, Kept(order, trusted, n))
    ensures forall x :: x in Kept(order, trusted, n) <==> x in order[..n] && x in trusted
  {
    if n > 0 {
      KeptRanked(scores, order, trusted, n - 1);
      var before := Kept(order, trusted, n - 1);
      assert order[..n] == order[..n - 1] + [order[n - 1]];
      forall j | 0 <= j < |before| ensures Precedes(scores, before[j], order[n - 1]) {
        assert before[j] in order[..n - 1];
        var k :| 0 <= k < n - 1 && order[k] == before[j];
      }
    }
  }

  lemma {:induction false} RankedSize(scores: map<nat, Score>, order: seq<nat>, elements: set<nat>)
    requires Ranked(scores, order) && Lists(order, elements)
    ensures |order| == |elements|
  {
    if order == [] {
      assert elements == {};
    } else {
      var n := |order| - 1;
      var rest, last := order[..n], order[n];
      assert forall j :: 0 <= j < n ==> Precedes(scores, order[j], last) && order[j] != last;
      forall c | c in elements - {last} ensures c in rest {
        var k :| 0 <= k < |order| && order[k] == c;
        assert rest[k] == c;
      }
      RankedSize(scores, rest, elements - {last});
      assert last in elements;
    }
  }

  lemma KeptIsExpansion(g: Graph, q: Query, scores: map<nat, Score>, order: seq<nat>, inspected: nat)
    requires BestScores(g, q, g.relations, scores) && Lists(order, scores.Keys) && Ranked(scores, order)
    requires inspected == TouchCount(g, q, g.relations)
    ensures var accepted := Kept(order, q.trusted, |order|);
      |accepted| <= |order| && IsExpansion(g, q, accepted, |order|, inspected, |order| - |accepted|)
  {
    hide TouchCount, Candidates;
    var accepted, all := Kept(order, q.trusted, |order|), scores.Keys;
    assert all == Candidates(g, q, g.relations);
    hide BestScores;
    KeptRanked(scores, order, q.trusted, |order|);
    assert order[..|order|] == order;
    assert Lists(accepted, all * q.trusted);
    RankedSize(scores, order, all);
    RankedSize(scores, accepted, all * q.trusted);
    assert all == all * q.trusted + (all - q.trusted);
    assert |all| == |all * q.trusted| + |all - q.trusted|;
  }

  lemma NoSeeds(g: Graph, q: Query)
    requires q.seeds == []
    ensures IsExpansion(g, q, [], 0, 0, 0)
  {
    assert SeedEntities(g, q) == {};
    NothingTouches(g, q, g.relations);
  }

  lemma {:induction false} NothingTouches(g: Graph, q: Query, rels: seq<Relation>)
    requires forall r :: r in rels ==> !Touches(g, q, r)
    ensures Candidates(g, q, rels) == {} && TouchCount(g, q, rels) == 0 && BestScores(g, q, rels, map[])
    ensures g.relations == rels ==> IsExpansion(g, q, [], 0, 0, 0)
  {
    hide Touches, Supporting, Neighbor, Ambiguous, SeedEntities;
    if rels != [] {
      assert rels[|rels| - 1] in rels;
      NothingTouches(g, q, rels[..|rels| - 1]);
    }
    assert Ranked(map[], []);
  }

  // ---------------------------------------------------------------- the answer, off the lists

  ghost predicate Clear(g: Graph, entity: nat) {
    forall d :: d in g.diagnostics && d.ambiguousEntity ==> entity !in d.entities
  }

  /** Some seed chunk mentions the entity, which no diagnostic calls ambiguous. */
  ghost predicate Seeded(g: Graph, q: Query, entity: nat) {
    Clear(g, entity) && exists m :: m in g.mentions && m.entity == entity && m.chunk in q.seeds
  }

  ghost predicate Inspected(g: Graph, q: Query, r: Relation) {
    r.authored && Clear(g, r.subject) && Clear(g, r.target) && (Seeded(g, q, r.subject) || Seeded(g, q, r.target))
  }

  /** An inspected relation, and a chunk outside the seeds that mentions its other end. */
  ghost predicate OneHop(g: Graph, q: Query, r: Relation, c: nat) {
    && Inspected(g, q, r) && c !in q.seeds
    && Mention(c, if Seeded(g, q, r.subject) then r.target else r.subject) in g.mentions
  }

  ghost predicate Reached(g: Graph, q: Query, c: nat) {
    exists r :: r in g.relations && OneHop(g, q, r, c)
  }

  ghost predicate Outranks(r: Relation, a: nat, s: Relation, b: nat) {
    || s.confidence < r.confidence
    || (s.confidence == r.confidence && (s.evidence < r.evidence || (s.evidence == r.evidence && a < b)))
  }

  /** One relation that leads to a outranks every relation that leads to b. */
  ghost predicate Ahead(g: Graph, q: Query, a: nat, b: nat) {
    exists r :: r in g.relations && OneHop(g, q, r, a) && OutranksAll(g, q, r, a, b)
  }

  ghost predicate OutranksAll(g: Graph, q: Query, r: Relation, a: nat, b: nat) {
    forall s :: s in g.relations && OneHop(g, q, s, b) ==> Outranks(r, a, s, b)
  }

  lemma TouchesExactly(g: Graph, q: Query, r: Relation, c: nat)
    ensures Touches(g, q, r) <==> Inspected(g, q, r)
    ensures LeadsTo(g, q, r, c) <==> OneHop(g, q, r, c)
  {
    forall e: nat ensures e in Ambiguous(g) <==> !Clear(g, e) {}
    forall e: nat ensures e in SeedEntities(g, q) <==> Seeded(g, q, e) {}
    hide Ambiguous, SeedEntities, Clear, Seeded;
    forall e: nat ensures c in Supporting(g, e) <==> Mention(c, e) in g.mentions {
      if c in Supporting(g, e) {
        var m :| m in g.mentions && m.entity == e && m.chunk == c;
        assert m == Mention(c, e);
      }
    }
  }

  ghost function InspectedAt(g: Graph, q: Query, rels: seq<Relation>): set<nat> {
    set i: nat | i < |rels| && Inspected(g, q, rels[i])
  }

  lemma {:induction false} TouchCountExactly(g: Graph, q: Query, rels: seq<Relation>)
    ensures TouchCount(g, q, rels) == |InspectedAt(g, q, rels)|
  {
    hide Touches, Inspected;
    if rels == [] {
      assert InspectedAt(g, q, rels) == {};
    } else {
      var n := |rels| - 1;
      TouchCountExactly(g, q, rels[..n]);
      TouchesExactly(g, q, rels[n], 0);
      OneMore(InspectedAt(g, q, rels[..n]), InspectedAt(g, q, rels), n, Inspected(g, q, rels[n]));
    }
  }

  /**
   Main result: the expansion read off the mentions, the diagnostics and the relations. It keeps
   the trusted chunks one hop away and no others; one comes before another when the best relation
   that leads to it is surer, or as sure with the later evidence, or ties and the id is smaller.
   */
  lemma ExpansionExactly(g: Graph, q: Query, accepted: seq<nat>, discovered: nat, inspected: nat, rejected: nat)
    requires IsExpansion(g, q, accepted, discovered, inspected, rejected)
    ensures forall c :: c in accepted <==> c in q.trusted && Reached(g, q, c)
    ensures forall j, k :: 0 <= j < k < |accepted| ==> Ahead(g, q, accepted[j], accepted[k])
    ensures discovered == |set m | m in g.mentions && Reached(g, q, m.chunk) :: m.chunk|
    ensures rejected == |set m | m in g.mentions && Reached(g, q, m.chunk) && m.chunk !in q.trusted :: m.chunk|
    ensures inspected == |InspectedAt(g, q, g.relations)|
  {
    hide TouchCount, Candidates, LeadsTo, OneHop, Reached, Inspected, Ahead;
    TouchCountExactly(g, q, g.relations);
    CandidatesAreReached(g, q);
    var all := Candidates(g, q, g.relations);
    assert all == set m | m in g.mentions && Reached(g, q, m.chunk) :: m.chunk;
    assert all - q.trusted == set m | m in g.mentions && Reached(g, q, m.chunk) && m.chunk !in q.trusted :: m.chunk;
    var scores :| BestScores(g, q, g.relations, scores) && Ranked(scores, accepted);
    hide BestScores;
    forall j, k | 0 <= j < k < |accepted| ensures Ahead(g, q, accepted[j], accepted[k]) {
      PrecedesIsAhead(g, q, scores, accepted[j], accepted[k]);
    }
  }

  lemma PrecedesIsAhead(g: Graph, q: Query, scores: map<nat, Score>, a: nat, b: nat)
    requires BestScores(g, q, g.relations, scores) && a in scores && b in scores && Precedes(scores, a, b)
    ensures Ahead(g, q, a, b)
  {
    hide Candidates, LeadsTo, OneHop;
    var r :| r in g.relations && LeadsTo(g, q, r, a) && ScoreOf(r) == scores[a];
    TouchesExactly(g, q, r, a);
    forall s | s in g.relations && OneHop(g, q, s, b) ensures Outranks(r, a, s, b) { TouchesExactly(g, q, s, b); }
    assert OutranksAll(g, q, r, a, b);
  }

  lemma CandidatesAreReached(g: Graph, q: Query)
    ensures forall c :: c in Candidates(g, q, g.relations) <==> Reached(g, q, c)
    ensures forall c :: Reached(g, q, c) ==> exists m :: m in g.mentions && m.chunk == c
  {
    forall r, c ensures LeadsTo(g, q, r, c) <==> OneHop(g, q, r, c) { TouchesExactly(g, q, r, c); }
    hide Touches, Inspected, Seeded, Supporting, Neighbor;
    forall c | Reached(g, q, c) ensures exists m :: m in g.mentions && m.chunk == c {
      var r :| r in g.relations && OneHop(g, q, r, c);
      var m := Mention(c, if Seeded(g, q, r.subject) then r.target else r.subject);
      assert m in g.mentions && m.chunk == c;
    }
  }

  // ---------------------------------------------------------------- order independence

  lemma {:induction false} RankedIsUnique(s: map<nat, Score>, a: seq<nat>, b: seq<nat>, elements: set<nat>)
    requires Ranked(s, a) && Ranked(s, b) && Lists(a, elements) && Lists(b, elements)
    ensures a == b
  {
    RankedSize(s, a, elements);
    RankedSize(s, b, elements);
    if a != [] {
      var n := |a| - 1;
      assert a[n] in elements && b[n] in elements;
      var k :| 0 <= k < |b| && b[k] == a[n];
      var l :| 0 <= l < |a| && a[l] == b[n];
      assert k == n || Precedes(s, b[k], b[n]);
      assert l == n || Precedes(s, a[l], a[n]);
      assert a[n] == b[n];
      WithoutLast(s, a, elements);
      WithoutLast(s, b, elements);
      RankedIsUnique(s, a[..n], b[..n], elements - {a[n]});
    }
  }

  lemma WithoutLast(s: map<nat, Score>, a: seq<nat>, elements: set<nat>)
    requires a != [] && Ranked(s, a) && Lists(a, elements)
    ensures var n := |a| - 1; Ranked(s, a[..n]) && Lists(a[..n], elements - {a[n]})
  {
    var n := |a| - 1;
    forall j | 0 <= j < n ensures a[j] != a[n] { assert Precedes(s, a[j], a[n]); }
    forall c | c in elements - {a[n]} ensures c in a[..n] {
      var k :| 0 <= k < |a| && a[k] == c;
      assert a[..n][k] == c;
    }
  }

  lemma BestScoresAreUnique(g: Graph, q: Query, rels: seq<Relation>, more: seq<Relation>, s: map<nat, Score>,
                            t: map<nat, Score>)
    requires BestScores(g, q, rels, s) && BestScores(g, q, more, t) && forall r :: r in rels <==> r in more
    ensures s == t
  {
    hide Touches, Supporting, Neighbor;
    SameCandidates(g, q, rels, more);
    forall c | c in s ensures s[c] == t[c] {
      var r :| r in rels && LeadsTo(g, q, r, c) && ScoreOf(r) == s[c];
      var x :| x in more && LeadsTo(g, q, x, c) && ScoreOf(x) == t[c];
      assert !Less(t[c], s[c]) && !Less(s[c], t[c]);
    }
  }

  lemma SameCandidates(g: Graph, q: Query, rels: seq<Relation>, more: seq<Relation>)
    requires forall r :: r in rels <==> r in more
    ensures Candidates(g, q, rels) == Candidates(g, q, more)
  {
    hide Touches, Supporting, Neighbor;
  }

  lemma {:induction false} TouchCountOfMultiset(g: Graph, q: Query, rels: seq<Relation>, more: seq<Relation>)
    requires multiset(rels) == multiset(more)
    ensures TouchCount(g, q, rels) == TouchCount(g, q, more)
    decreases |rels|
  {
    hide Touches;
    assert |rels| == |multiset(rels)| == |more|;
    if rels != [] {
      var n := |rels| - 1;
      var k := TakenOut(rels, more);
      TouchCountOfMultiset(g, q, rels[..n], more[..k] + more[k + 1..]);
      TouchCountInsert(g, q, more[..k], rels[n], more[k + 1..]);
    }
  }

  lemma TakenOut(rels: seq<Relation>, more: seq<Relation>) returns (k: nat)
    requires rels != [] && multiset(rels) == multiset(more)
    ensures k < |more| && more == more[..k] + [rels[|rels| - 1]] + more[k + 1..]
    ensures multiset(rels[..|rels| - 1]) == multiset(more[..k] + more[k + 1..])
  {
    var n := |rels| - 1;
    var last := rels[n];
    assert last in multiset(more);
    k :| 0 <= k < |more| && more[k] == last;
    assert more == more[..k] + [last] + more[k + 1..];
    assert rels == rels[..n] + [last];
    assert multiset(more[..k] + more[k + 1..]) == multiset(more) - multiset{last};
  }

  lemma {:induction false} TouchCountInsert(g: Graph, q: Query, a: seq<Relation>, r: Relation, b: seq<Relation>)
    ensures TouchCount(g, q, a + [r] + b) == TouchCount(g, q, a + b) + if Touches(g, q, r) then 1 else 0
  {
    hide Touches;
    if b == [] {
      assert a + [r] + b == a + [r] && a + b == a;
      assert (a + [r])[..|a|] == a;
    } else {
      var n := |b| - 1;
      TouchCountInsert(g, q, a, r, b[..n]);
      assert (a + [r] + b)[..|a| + 1 + n] == a + [r] + b[..n];
      assert (a + b)[..|a| + n] == a + b[..n];
    }
  }

  /**
   Main result: the answer is a function of the graph as a set of relations. Listing the
   relations in another order gives the same chunks in the same order and the same counts.
   */
  lemma ExpansionIgnoresRelationOrder(g: Graph, h: Graph, q: Query,
                                      a: seq<nat>, b: seq<nat>, da: nat, db: nat, ia: nat, ib: nat, ra: nat, rb: nat)
    requires h == g.(relations := h.relations) && multiset(g.relations) == multiset(h.relations)
    ensures IsExpansion(g, q, a, da, ia, ra) && IsExpansion(h, q, b, db, ib, rb) ==>
      a == b && da == db && ia == ib && ra == rb
  {
    hide Touches, Neighbor, Supporting, BestScores, Ranked, Lists, Candidates, TouchCount;
    assert forall r :: r in g.relations <==> r in multiset(g.relations);
    assert forall r :: r in h.relations <==> r in multiset(h.relations);
    SameGraphSameTouches(g, h, q, h.relations);
    SameCandidates(g, q, g.relations, h.relations);
    TouchCountOfMultiset(g, q, g.relations, h.relations);
    if IsExpansion(g, q, a, da, ia, ra) && IsExpansion(h, q, b, db, ib, rb) {
      var s :| BestScores(g, q, g.relations, s) && Ranked(s, a);
      var t :| BestScores(h, q, h.relations, t) && Ranked(t, b);
      BestScoresAreUnique(g, q, g.relations, h.relations, s, t);
      RankedIsUnique(s, a, b, Candidates(g, q, g.relations) * q.trusted);
    }
  }

  lemma {:induction false} SameGraphSameTouches(g: Graph, h: Graph, q: Query, rels: seq<Relation>)
    requires h == g.(relations := h.relations)
    ensures TouchCount(h, q, rels) == TouchCount(g, q, rels) && Candidates(h, q, rels) == Candidates(g, q, rels)
    ensures forall s :: BestScores(h, q, rels, s) == BestScores(g, q, rels, s)
  {
    if rels != [] { SameGraphSameTouches(g, h, q, rels[..|rels| - 1]); }
    assert forall r: Relation :: Touches(g, q, r) == Touches(h, q, r) && Neighbor(g, q, r) == Neighbor(h, q, r);
    assert forall e: nat :: Supporting(g, e) == Supporting(h, e);
    hide Touches, Neighbor, Supporting;
    assert forall r: Relation, c: nat :: LeadsTo(g, q, r, c) == LeadsTo(h, q, r, c);
  }

  // ---------------------------------------------------------------- the controls

  lemma ListsSomething(order: seq<nat>, elements: set<nat>)
    requires Lists(order, elements)
    ensures order != [] ==> elements != {}
  {
    if order != [] { assert order[0] in elements; }
  }

  /** `removed_relation_control`: with no relations there is nothing to expand. */
  lemma RemovedControlExpandsNothing(g: Graph, q: Query, a: seq<nat>, d: nat, i: nat, r: nat)
    requires IsExpansion(g.(relations := []), q, a, d, i, r)
    ensures a == [] && d == i == r == 0
  {
    var e := g.(relations := []);
    assert Candidates(e, q, e.relations) == {};
    ListsSomething(a, Candidates(e, q, e.relations) * q.trusted);
  }

  /** `random.shuffle` in place, for any choices the generator makes. */
  method Shuffle(objects: array<nat>, picks: seq<nat>)
    requires |picks| == objects.Length && forall i :: 0 <= i < |picks| ==> picks[i] <= i
    modifies objects
    ensures multiset(objects[..]) == multiset(old(objects[..]))
  {
    var i := objects.Length;
    while i > 1
      invariant i <= objects.Length && multiset(objects[..]) == multiset(old(objects[..]))
    {
      i := i - 1;
      var j := picks[i];
      objects[i], objects[j] := objects[j], objects[i];
    }
  }

  function Objects(rels: seq<Relation>): seq<nat> {
    seq(|rels|, i requires 0 <= i < |rels| => rels[i].target)
  }

  /** `shuffled_relation_control`: each relation keeps everything but its object. */
  method ShuffledControl(g: Graph, picks: seq<nat>) returns (h: Graph)
    requires |picks| == |g.relations| && forall i :: 0 <= i < |picks| ==> picks[i] <= i
    ensures h == g.(relations := h.relations) && |h.relations| == |g.relations|
    ensures forall i :: 0 <= i < |g.relations| ==> h.relations[i] == g.relations[i].(target := h.relations[i].target)
    ensures multiset(Objects(h.relations)) == multiset(Objects(g.relations))
  {
    var n := |g.relations|;
    var objects := new nat[n](i requires 0 <= i < n => g.relations[i].target);
    assert objects[..] == Objects(g.relations);
    Shuffle(objects, picks);
    h := g.(relations := seq(n, i requires 0 <= i < n reads objects => g.relations[i].(target := objects[i])));
    assert Objects(h.relations) == objects[..];
  }

  /** The relations that start, and that end, at an entity. */
  ghost function OutOf(rels: seq<Relation>, e: nat): set<nat> {
    set i: nat | i < |rels| && rels[i].subject == e
  }

  ghost function Into(rels: seq<Relation>, e: nat): set<nat> {
    set i: nat | i < |rels| && rels[i].target == e
  }

  lemma {:induction false} IntoIsMultiplicity(rels: seq<Relation>, e: nat)
    ensures |Into(rels, e)| == multiset(Objects(rels))[e]
  {
    if rels == [] {
      assert Into(rels, e) == {};
    } else {
      var n := |rels| - 1;
      IntoIsMultiplicity(rels[..n], e);
      OneMore(Into(rels[..n], e), Into(rels, e), n, rels[n].target == e);
      assert Objects(rels) == Objects(rels[..n]) + [rels[n].target];
    }
  }

  /** The shuffled control rewires the graph but keeps the degrees of every entity. */
  lemma ShuffleKeepsDegrees(g: Graph, h: Graph, e: nat)
    requires |h.relations| == |g.relations| && multiset(Objects(h.relations)) == multiset(Objects(g.relations))
    requires forall i :: 0 <= i < |g.relations| ==> h.relations[i] == g.relations[i].(target := h.relations[i].target)
    ensures |Into(h.relations, e)| == |Into(g.relations, e)| && OutOf(h.relations, e) == OutOf(g.relations, e)
  {
    IntoIsMultiplicity(g.relations, e);
    IntoIsMultiplicity(h.relations, e);
  }
}
