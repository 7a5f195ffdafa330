/**
 The monetary scan of `benchmarks/artifact_contract.py`: a search of an object graph that may
 contain cycles, pruning only the containers on the path it is on.
 */
module MonetaryScan {

  type Id = nat

  /** `Raw` is a bytes value, taken with its decoded text. */
  datatype Node = Text(s: string) | Raw(decoded: string) | Mapping(values: seq<Id>) | Items(elements: seq<Id>) | Scalar

  type Heap = map<Id, Node>

  /** `_MONETARY_PROSE.search(value) is not None`. */
  type Pattern = string -> bool

  function Children(n: Node): seq<Id> {
    match n
    case Mapping(values) => values
    case Items(elements) => elements
    case _ => []
  }

  ghost predicate Closed(h: Heap) {
    forall v, c :: v in h && c in Children(h[v]) ==> c in h
  }

  predicate Matches(n: Node, pattern: Pattern) {
    match n
    case Text(s) => pattern(s)
    case Raw(s) => pattern(s)
    case _ => false
  }

  /** `_publishes_monetary_prose(value, seen)`. */
  predicate Scan(h: Heap, pattern: Pattern, v: Id, seen: set<Id>)
    requires Closed(h) && v in h
    decreases |h.Keys - seen|
  {
    if h[v].Text? || h[v].Raw? then Matches(h[v], pattern)
    else if v in seen then false
    else
      Shrinks(h, v, seen);
      exists c :: c in Children(h[v]) && Scan(h, pattern, c, seen + {v})
  }

  lemma Shrinks(h: Heap, v: Id, seen: set<Id>)
    requires v in h && v !in seen
    ensures |h.Keys - (seen + {v})| < |h.Keys - seen|
  {
    assert h.Keys - (seen + {v}) == h.Keys - seen - {v};
  }

  // ---------------------------------------------------------------- the reference

  /** A walk through mapping values and sequence items from v to a matching text. */
  ghost predicate Walk(h: Heap, pattern: Pattern, v: Id, p: seq<Id>) {
    && p != [] && p[0] == v
    && (forall i :: 0 <= i < |p| ==> p[i] in h)
    && (forall i :: 0 <= i < |p| - 1 ==> p[i + 1] in Children(h[p[i]]))
    && Matches(h[p[|p| - 1]], pattern)
  }

  ghost predicate Publishes(h: Heap, pattern: Pattern, v: Id) {
    exists p :: Walk(h, pattern, v, p)
  }

  lemma {:induction false} ScanFindsWalk(h: Heap, pattern: Pattern, v: Id, seen: set<Id>) returns (p: seq<Id>)
    requires Closed(h) && v in h && Scan(h, pattern, v, seen)
    ensures Walk(h, pattern, v, p)
    decreases |h.Keys - seen|
  {
    if Matches(h[v], pattern) {
      p := [v];
    } else {
      Shrinks(h, v, seen);
      var c :| c in Children(h[v]) && Scan(h, pattern, c, seen + {v});
      var rest := ScanFindsWalk(h, pattern, c, seen + {v});
      p := [v] + rest;
    }
  }

  /** The last place v stands on the walk. */
  ghost function LastVisit(p: seq<Id>, v: Id): (j: nat)
    requires v in p
    ensures j < |p| && p[j] == v && v !in p[j + 1..]
  {
    if p[|p| - 1] == v then |p| - 1 else LastVisit(p[..|p| - 1], v)
  }

  lemma WalkOn(h: Heap, pattern: Pattern, v: Id, p: seq<Id>, j: nat)
    requires Walk(h, pattern, v, p) && j < |p|
    ensures Walk(h, pattern, p[j], p[j..])
  {
    var rest := p[j..];
    forall i | 0 <= i < |rest| - 1 ensures rest[i + 1] in Children(h[rest[i]]) {
      assert p[j + i + 1] in Children(h[p[j + i]]);
    }
  }

  /** Cutting a walk at its last visit to v leaves one that never returns to v. */
  lemma {:induction false} WalkIsFound(h: Heap, pattern: Pattern, v: Id, seen: set<Id>, p: seq<Id>)
    requires Closed(h) && Walk(h, pattern, v, p) && forall i :: 0 <= i < |p| ==> p[i] !in seen
    ensures Scan(h, pattern, v, seen)
    decreases |h.Keys - seen|
  {
    if h[v].Text? || h[v].Raw? {
      forall i | 0 <= i < |p| - 1 ensures Children(h[p[i]]) != [] {
        assert p[i + 1] in Children(h[p[i]]);
      }
    } else {
      assert p[0] == v;
      var j := LastVisit(p, v);
      var rest := p[j + 1..];
      assert p[j + 1] in Children(h[p[j]]);
      forall i | 0 <= i < |rest| ensures rest[i] !in seen + {v} { assert rest[i] == p[j + 1 + i]; }
      WalkOn(h, pattern, v, p, j + 1);
      hide Walk;
      Shrinks(h, v, seen);
      WalkIsFound(h, pattern, rest[0], seen + {v}, rest);
    }
  }

  /**
   Main result: on any finite graph, cyclic or not, the scan answers true exactly when some
   matching text can be reached, although it forgets what it saw on other paths.
   */
  lemma ScanIsReachability(h: Heap, pattern: Pattern, v: Id, surface: Id)
    requires Closed(h) && v in h && surface !in h
    ensures Scan(h, pattern, v, {}) <==> Publishes(h, pattern, v)
    ensures Scan(h, pattern, v, {surface}) <==> Publishes(h, pattern, v)
  {
    if Publishes(h, pattern, v) {
      var p :| Walk(h, pattern, v, p);
      WalkIsFound(h, pattern, v, {}, p);
      WalkIsFound(h, pattern, v, {surface}, p);
    }
    if Scan(h, pattern, v, {}) { var p := ScanFindsWalk(h, pattern, v, {}); }
    if Scan(h, pattern, v, {surface}) { var p := ScanFindsWalk(h, pattern, v, {surface}); }
  }

  // ---------------------------------------------------------------- the contract

  datatype Entry = Entry(key: string, value: Id)

  datatype Claims = Undeclared | NotAnArray | Array(length: nat)

  /** `provider_metadata_from_payload`; an item is true when `validate_cost_claim` accepts it. */
  datatype Metadata = Unreadable | Read(items: seq<bool>)

  datatype Verdict = Accepted | MustDeclare | ClaimsNotAnArray | MetadataUnreadable | MetadataRequired | ClaimInvalid

  /** The values under every root key but `outcomes`, seen from the fresh dict that holds them. */
  predicate SurfacePublishes(h: Heap, pattern: Pattern, entries: seq<Entry>, surface: Id)
    requires Closed(h) && forall e :: e in entries ==> e.value in h
  {
    exists e :: e in entries && e.key != "outcomes" && Scan(h, pattern, e.value, {surface})
  }

  function Audit(h: Heap, pattern: Pattern, entries: seq<Entry>, surface: Id, claims: Claims,
                 metadata: Metadata): Verdict
    requires Closed(h) && forall e :: e in entries ==> e.value in h
  {
    match claims
    case Undeclared => MustDeclare
    case NotAnArray => ClaimsNotAnArray
    case Array(n) =>
      if n == 0 && !SurfacePublishes(h, pattern, entries, surface) then Accepted
      else
        match metadata
        case Unreadable => MetadataUnreadable
        case Read(items) =>
          if items == [] then MetadataRequired else if false in items then ClaimInvalid else Accepted
  }

  /** A text is reached from v through mapping values and sequence items, and the pattern finds it. */
  ghost predicate ReachesText(h: Heap, pattern: Pattern, v: Id) {
    exists p :: p != [] && p[0] == v && IsPath(h, p) && IsProse(h, pattern, p[|p| - 1])
  }

  ghost predicate IsPath(h: Heap, p: seq<Id>) {
    forall i :: 0 <= i < |p| - 1 ==> p[i] in h && IsChild(h[p[i]], p[i + 1])
  }

  ghost predicate IsChild(n: Node, c: Id) {
    (n.Mapping? && c in n.values) || (n.Items? && c in n.elements)
  }

  ghost predicate IsProse(h: Heap, pattern: Pattern, v: Id) {
    v in h && ((h[v].Text? && pattern(h[v].s)) || (h[v].Raw? && pattern(h[v].decoded)))
  }

  lemma PublishesExactly(h: Heap, pattern: Pattern, v: Id)
    requires Closed(h) && v in h
    ensures Publishes(h, pattern, v) <==> ReachesText(h, pattern, v)
  {
    hide Closed;
    if Publishes(h, pattern, v) {
      var p :| Walk(h, pattern, v, p);
      assert forall i :: 0 <= i < |p| - 1 ==> p[i + 1] in Children(h[p[i]]);
      assert IsPath(h, p) && IsProse(h, pattern, p[|p| - 1]);
    }
    if ReachesText(h, pattern, v) {
      var p :| p != [] && p[0] == v && IsPath(h, p) && IsProse(h, pattern, p[|p| - 1]);
      assert forall i :: 0 <= i < |p| - 1 ==> p[i] in h && IsChild(h[p[i]], p[i + 1]);
      assert Walk(h, pattern, v, p);
    }
  }

  /** Some value under a root key other than `outcomes` reaches monetary text. */
  ghost predicate SurfaceReachesText(h: Heap, pattern: Pattern, entries: seq<Entry>) {
    exists e :: e in entries && e.key != "outcomes" && ReachesText(h, pattern, e.value)
  }

  /** Every verdict of the audit, by the declaration, the graph and the metadata. */
  lemma AuditExactly(h: Heap, pattern: Pattern, entries: seq<Entry>, surface: Id, claims: Claims, metadata: Metadata)
    requires Closed(h) && (forall e :: e in entries ==> e.value in h) && surface !in h
    ensures var verdict := Audit(h, pattern, entries, surface, claims, metadata);
      var looks := claims.Array? && (claims.length > 0 || SurfaceReachesText(h, pattern, entries));
      && (verdict == MustDeclare <==> claims.Undeclared?)
      && (verdict == ClaimsNotAnArray <==> claims.NotAnArray?)
      && (verdict == MetadataUnreadable <==> looks && metadata.Unreadable?)
      && (verdict == MetadataRequired <==> looks && metadata == Read([]))
      && (verdict == ClaimInvalid <==>
        looks && metadata.Read? && exists k :: 0 <= k < |metadata.items| && !metadata.items[k])
  {
    hide Scan, ReachesText, Closed;
    forall e | e in entries ensures Scan(h, pattern, e.value, {surface}) <==> ReachesText(h, pattern, e.value) {
      ScanIsReachability(h, pattern, e.value, surface);
      PublishesExactly(h, pattern, e.value);
    }
  }

  /**
   The audit is skipped, so that metadata is not looked at, exactly when the artifact declares an
   empty array and no monetary text can be reached from the root other than through `outcomes`.
   */
  lemma AuditIsSkippedExactly(h: Heap, pattern: Pattern, entries: seq<Entry>, surface: Id, claims: Claims)
    requires Closed(h) && (forall e :: e in entries ==> e.value in h) && surface !in h
    ensures Audit(h, pattern, entries, surface, claims, Unreadable) == Accepted
       <==> claims == Array(0) && forall e :: e in entries && e.key != "outcomes" ==> !Publishes(h, pattern, e.value)
  {
    forall e | e in entries ensures Scan(h, pattern, e.value, {surface}) <==> Publishes(h, pattern, e.value) {
      ScanIsReachability(h, pattern, e.value, surface);
    }
  }

  /**
   The exemption is of one root key, not of a subtree: where the artifact can be reached from
   inside itself, its outcomes are scanned like anything else.
   */
  lemma ExemptionIsOfTheRootKey(h: Heap, pattern: Pattern, entries: seq<Entry>, surface: Id, to: seq<Id>, outcomes: Id,
                                metadata: Metadata)
    requires Closed(h) && (forall e :: e in entries ==> e.value in h) && surface !in h
    requires to != [] && (forall i :: 0 <= i < |to| ==> to[i] in h)
    requires forall i :: 0 <= i < |to| - 1 ==> to[i + 1] in Children(h[to[i]])
    requires exists e :: e in entries && e.key != "outcomes" && e.value == to[0]
    requires outcomes in Children(h[to[|to| - 1]]) && Publishes(h, pattern, outcomes)
    ensures Audit(h, pattern, entries, surface, Array(0), metadata) == Accepted ==>
      metadata.Read? && metadata.items != [] && false !in metadata.items
  {
    var p :| Walk(h, pattern, outcomes, p);
    var whole := to + p;
    forall i | 0 <= i < |whole| - 1 ensures whole[i + 1] in Children(h[whole[i]]) {
      if i == |to| - 1 {
        assert whole[i + 1] == p[0];
      } else if i >= |to| {
        assert p[i - |to| + 1] in Children(h[p[i - |to|]]);
      }
    }
    assert Walk(h, pattern, to[0], whole);
    ScanIsReachability(h, pattern, to[0], surface);
  }
}
