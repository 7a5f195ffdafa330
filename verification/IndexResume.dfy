/**
 `index_documents` and `load_documents` of `benchmarks/enterprise_rag.py`: indexing that can be
 cut off between any two batch writes and run again over what is left.
 */
module IndexResume {
  import opened ChunkIds
  import opened Sets

  /** `parts` is what `chunk_text` makes of the document's body at the configured size and overlap. */
  datatype Doc = Doc(id: string, parts: seq<string>)

  datatype Chunk = Chunk(id: string, source: string, text: string)

  type Store = map<string, Chunk>

  datatype Limit = NoLimit | AtMost(n: int)

  function DocChunks(doc: Doc): (chunks: seq<Chunk>)
    ensures |chunks| == |doc.parts|
  {
    seq(|doc.parts|, i requires 0 <= i < |doc.parts| => Chunk(ChunkId(doc.id, i), doc.id, doc.parts[i]))
  }

  /** The rows a transaction over `chunks` writes; a later chunk replaces an earlier one of its id. */
  function Rows(chunks: seq<Chunk>): Store {
    if chunks == [] then map[] else Rows(chunks[..|chunks| - 1])[chunks[|chunks| - 1].id := chunks[|chunks| - 1]]
  }

  function Sources(store: Store): set<string> {
    set k | k in store :: store[k].source
  }

  /** The chunks of the documents among the first n that are not skipped. */
  function FreshChunks(docs: seq<Doc>, skip: set<string>, n: nat): seq<Chunk>
    requires n <= |docs|
  {
    if n == 0 then []
    else FreshChunks(docs, skip, n - 1) + if docs[n - 1].id in skip then [] else DocChunks(docs[n - 1])
  }

  /** The positions of documents that are skipped, and of those that are not, among the first n. */
  ghost function Skipped(docs: seq<Doc>, skip: set<string>, n: nat): set<nat>
    requires n <= |docs|
  {
    set i | 0 <= i < n && docs[i].id in skip
  }

  ghost function Written(docs: seq<Doc>, skip: set<string>, n: nat): set<nat>
    requires n <= |docs|
  {
    set i | 0 <= i < n && docs[i].id !in skip
  }

  lemma CountsGrow(docs: seq<Doc>, skip: set<string>, n: nat)
    requires n < |docs|
    ensures |Skipped(docs, skip, n + 1)| == |Skipped(docs, skip, n)| + if docs[n].id in skip then 1 else 0
    ensures |Written(docs, skip, n + 1)| == |Written(docs, skip, n)| + if docs[n].id in skip then 0 else 1
    ensures |Skipped(docs, skip, 0)| == |Written(docs, skip, 0)| == 0
  {
    OneMore(Skipped(docs, skip, n), Skipped(docs, skip, n + 1), n, docs[n].id in skip);
    OneMore(Written(docs, skip, n), Written(docs, skip, n + 1), n, docs[n].id !in skip);
  }

  /** The store once the first n documents have been gone through, skipping the given sources. */
  function IndexedUpTo(store: Store, docs: seq<Doc>, skip: set<string>, n: nat): Store
    requires n <= |docs|
  {
    store + Rows(FreshChunks(docs, skip, n))
  }

  /** Where the last flush was, once n documents have been gone through with batches of k chunks. */
  function FlushedAt(docs: seq<Doc>, skip: set<string>, k: int, n: nat): (f: nat)
    requires n <= |docs|
    ensures f <= n
  {
    if n == 0 then 0
    else
      var f := FlushedAt(docs, skip, k, n - 1);
      if docs[n - 1].id !in skip && |FreshChunks(docs, skip, n)| - |FreshChunks(docs, skip, f)| >= k then n else f
  }

  /** The states committed while the first n documents are gone through. */
  function Commits(store: Store, docs: seq<Doc>, skip: set<string>, k: int, n: nat): seq<Store>
    requires n <= |docs|
  {
    if n == 0 then []
    else
      Commits(store, docs, skip, k, n - 1)
      + if FlushedAt(docs, skip, k, n) == n then [IndexedUpTo(store, docs, skip, n)] else []
  }

  /** All of them: what is left in the last batch is flushed at the end. */
  function AllCommits(store: Store, docs: seq<Doc>, skip: set<string>, k: int): seq<Store> {
    var n := |docs|;
    Commits(store, docs, skip, k, n)
    + if |FreshChunks(docs, skip, FlushedAt(docs, skip, k, n))| < |FreshChunks(docs, skip, n)|
      then [IndexedUpTo(store, docs, skip, n)] else []
  }

  /** The reference: every document written, in one go and without skipping. */
  function FullIndex(store: Store, docs: seq<Doc>): Store {
    IndexedUpTo(store, docs, {}, |docs|)
  }

  ghost predicate DistinctIds(docs: seq<Doc>) {
    forall i, j :: 0 <= i < j < |docs| ==> docs[i].id != docs[j].id
  }

  ghost predicate Holds(store: Store, doc: Doc) {
    forall c :: c in DocChunks(doc) ==> c.id in store && store[c.id] == c
  }

  /** Every document whose source is present is present whole. */
  ghost predicate WholeDocuments(store: Store, docs: seq<Doc>) {
    forall d :: d in docs && d.id in Sources(store) ==> Holds(store, d)
  }

  /** What a run over `store` skips: nothing, or every source it finds there. */
  ghost predicate SkipsFor(store: Store, skip: set<string>) {
    skip == {} || skip == Sources(store)
  }

  /** A store that a run, resuming or not, may leave behind if it is cut off: a document boundary of it. */
  ghost predicate LeftBy(store: Store, docs: seq<Doc>, after: Store) {
    exists skip :: SkipsFor(store, skip) && Boundary(store, docs, skip, after)
  }

  class Index {
    var store: Store

    /** Every committed state of the store. */
    ghost var history: seq<Store>

    constructor (initial: Store)
      ensures store == initial && history == []
    {
      store, history := initial, [];
    }

    /** `_write_batch`: one transaction, so all of the batch or none of it. */
    method WriteBatch(batch: seq<Chunk>) returns (written: nat)
      modifies this
      ensures written == |batch| && store == old(store) + Rows(batch) && history == old(history) + [store]
    {
      store := store + Rows(batch);
      history := history + [store];
      written := |batch|;
    }

    /**
     `index_documents`: a reset first deletes every source there is, and only if there is one;
     what follows is judged from the store that leaves.
     */
    method IndexDocuments(docs: seq<Doc>, batchChunks: int, reset: bool, skipIndexedSources: bool)
      returns (indexedDocs: nat, indexedChunks: nat, skippedDocs: nat)
      modifies this
      ensures var start := if reset then map[] else old(store);
        var skip := if skipIndexedSources then Sources(start) else {};
        && store == IndexedUpTo(start, docs, skip, |docs|)
        && skippedDocs == |set i | 0 <= i < |docs| && docs[i].id in skip|
        && indexedDocs == |set i | 0 <= i < |docs| && docs[i].id !in skip|
        && indexedDocs + skippedDocs == |docs|
        && indexedChunks == |FreshChunks(docs, skip, |docs|)|
        && history == old(history) + (if reset && old(store) != map[] then [map[]] else [])
                    + AllCommits(start, docs, skip, batchChunks)
        && Boundaries(start, docs, skip, old(history) + (if reset && old(store) != map[] then [map[]] else []), history)
    {
      hide IndexedUpTo, FreshChunks, Boundaries, AllCommits;
      if reset && store != map[] {
        store := map[];
        history := history + [store];
      } else {
        assert old(history) + [] == history;
      }
      indexedDocs, indexedChunks, skippedDocs := AddDocuments(docs, batchChunks, skipIndexedSources);
    }

    method AddDocuments(docs: seq<Doc>, batchChunks: int, skipIndexedSources: bool)
      returns (indexedDocs: nat, indexedChunks: nat, skippedDocs: nat)
      modifies this
      ensures var skip := if skipIndexedSources then Sources(old(store)) else {};
        && store == IndexedUpTo(old(store), docs, skip, |docs|)
        && skippedDocs == |set i | 0 <= i < |docs| && docs[i].id in skip|
        && indexedDocs == |set i | 0 <= i < |docs| && docs[i].id !in skip|
        && indexedDocs + skippedDocs == |docs|
        && indexedChunks == |FreshChunks(docs, skip, |docs|)|
        && history == old(history) + AllCommits(old(store), docs, skip, batchChunks)
        && Boundaries(old(store), docs, skip, old(history), history)
    {
      hide Gone;
      var existing := if skipIndexedSources then Sources(store) else {};
      hide Sources, Rows, IndexedUpTo, FreshChunks, AllCommits, DocChunks, Boundaries;
      var batch: seq<Chunk> := [];
      indexedDocs, indexedChunks, skippedDocs := 0, 0, 0;
      assert Skipped(docs, existing, 0) == {} && Written(docs, existing, 0) == {};
      NothingGone(store, docs, existing, batchChunks, history);
      for n := 0 to |docs|
        invariant Gone(old(store), docs, existing, batchChunks, n, batch, store, indexedChunks, old(history), history)
        invariant skippedDocs == |Skipped(docs, existing, n)| && indexedDocs == |Written(docs, existing, n)|
        invariant indexedDocs + skippedDocs == n
      {
        CountsGrow(docs, existing, n);
        if docs[n].id in existing {
          skippedDocs := skippedDocs + 1;
          OneSkipped(old(store), docs, existing, batchChunks, n, batch, store, indexedChunks, old(history), history);
        } else {
          indexedDocs := indexedDocs + 1;
          OneAdded(old(store), docs, existing, batchChunks, n, batch, store, indexedChunks, old(history), history);
          batch := batch + DocChunks(docs[n]);
          if |batch| >= batchChunks {
            var written := WriteBatch(batch);
            indexedChunks := indexedChunks + written;
            batch := [];
          }
        }
      }
      LastBatch(old(store), docs, existing, batchChunks, batch, store, indexedChunks, old(history), history);
      if batch != [] {
        var written := WriteBatch(batch);
        indexedChunks := indexedChunks + written;
      }
      CommitsAreBoundaries(old(store), docs, existing, batchChunks, old(history));
      assert Skipped(docs, existing, |docs|) == set i | 0 <= i < |docs| && docs[i].id in existing;
      assert Written(docs, existing, |docs|) == set i | 0 <= i < |docs| && docs[i].id !in existing;
    }
  }

  /** Where the loop stands after n documents: what it has committed and what waits in the batch. */
  ghost predicate Gone(start: Store, docs: seq<Doc>, skip: set<string>, k: int, n: nat, batch: seq<Chunk>,
                       store: Store, chunks: nat, before: seq<Store>, now: seq<Store>)
    requires n <= |docs|
  {
    var f := FlushedAt(docs, skip, k, n);
    && FreshChunks(docs, skip, n) == FreshChunks(docs, skip, f) + batch
    && store == IndexedUpTo(start, docs, skip, f)
    && chunks == |FreshChunks(docs, skip, f)|
    && now == before + Commits(start, docs, skip, k, n)
  }

  lemma NothingGone(start: Store, docs: seq<Doc>, skip: set<string>, k: int, before: seq<Store>)
    ensures Gone(start, docs, skip, k, 0, [], start, 0, before, before)
  {
    assert before + [] == before;
    assert start + map[] == start;
  }

  lemma OneSkipped(start: Store, docs: seq<Doc>, skip: set<string>, k: int, n: nat, batch: seq<Chunk>,
                   store: Store, chunks: nat, before: seq<Store>, now: seq<Store>)
    requires n < |docs| && docs[n].id in skip && Gone(start, docs, skip, k, n, batch, store, chunks, before, now)
    ensures Gone(start, docs, skip, k, n + 1, batch, store, chunks, before, now)
  {
    hide IndexedUpTo;
    assert FreshChunks(docs, skip, n) + [] == FreshChunks(docs, skip, n);
    CommitsGrow(start, docs, skip, k, n);
    hide Commits;
  }

  lemma OneAdded(start: Store, docs: seq<Doc>, skip: set<string>, k: int, n: nat, batch: seq<Chunk>,
                 store: Store, chunks: nat, before: seq<Store>, now: seq<Store>)
    requires n < |docs| && docs[n].id !in skip && Gone(start, docs, skip, k, n, batch, store, chunks, before, now)
    ensures var more := batch + DocChunks(docs[n]);
      if |more| >= k
      then Gone(start, docs, skip, k, n + 1, [], store + Rows(more), chunks + |more|, before,
                now + [store + Rows(more)])
      else Gone(start, docs, skip, k, n + 1, more, store, chunks, before, now)
  {
    hide FreshChunks, DocChunks, IndexedUpTo, Rows;
    var f, more := FlushedAt(docs, skip, k, n), batch + DocChunks(docs[n]);
    FreshGrows(docs, skip, n);
    assert FreshChunks(docs, skip, n + 1) == FreshChunks(docs, skip, f) + more;
    Flush(start, docs, skip, f, n + 1, more);
    var next := if |more| >= k then n + 1 else f;
    assert FlushedAt(docs, skip, k, n + 1) == next;
    CommitsGrow(start, docs, skip, k, n);
    hide FlushedAt, Commits;
    var c := Commits(start, docs, skip, k, n);
    assert FreshChunks(docs, skip, n + 1) + [] == FreshChunks(docs, skip, n + 1);
    if |more| >= k { assert before + c + [store + Rows(more)] == before + (c + [store + Rows(more)]); }
  }

  lemma FreshGrows(docs: seq<Doc>, skip: set<string>, n: nat)
    requires n < |docs| && docs[n].id !in skip
    ensures FreshChunks(docs, skip, n + 1) == FreshChunks(docs, skip, n) + DocChunks(docs[n])
  {
  }

  lemma CommitsGrow(start: Store, docs: seq<Doc>, skip: set<string>, k: int, n: nat)
    requires n < |docs|
    ensures Commits(start, docs, skip, k, n + 1) ==
      if FlushedAt(docs, skip, k, n + 1) == n + 1
      then Commits(start, docs, skip, k, n) + [IndexedUpTo(start, docs, skip, n + 1)]
      else Commits(start, docs, skip, k, n)
  {
    hide FlushedAt, IndexedUpTo;
    var c := Commits(start, docs, skip, k, n);
    assert c + [] == c;
  }

  lemma LastBatch(start: Store, docs: seq<Doc>, skip: set<string>, k: int, batch: seq<Chunk>,
                  store: Store, chunks: nat, before: seq<Store>, now: seq<Store>)
    requires Gone(start, docs, skip, k, |docs|, batch, store, chunks, before, now)
    ensures chunks + |batch| == |FreshChunks(docs, skip, |docs|)|
    ensures (if batch != [] then store + Rows(batch) else store) == IndexedUpTo(start, docs, skip, |docs|)
    ensures (if batch != [] then now + [store + Rows(batch)] else now) == before + AllCommits(start, docs, skip, k)
  {
    var n := |docs|;
    var f, c := FlushedAt(docs, skip, k, n), Commits(start, docs, skip, k, n);
    Flush(start, docs, skip, f, n, batch);
    if batch == [] {
      UnflushedNothing(start, docs, skip, f, n);
      assert before + (c + []) == before + c;
    } else {
      assert before + c + [store + Rows(batch)] == before + (c + [store + Rows(batch)]);
    }
    hide IndexedUpTo, Rows, FreshChunks;
  }

  /** What `AddDocuments` says of its commits is what the resume theorem asks of each. */
  lemma CommittedIsLeftBy(start: Store, docs: seq<Doc>, skip: set<string>, before: seq<Store>, now: seq<Store>, i: nat)
    requires SkipsFor(start, skip) && Boundaries(start, docs, skip, before, now) && |before| <= i < |now|
    ensures LeftBy(start, docs, now[i])
  {
  }

  lemma {:induction false} CommitBoundaries(start: Store, docs: seq<Doc>, skip: set<string>, k: int, n: nat)
    requires n <= |docs|
    ensures forall s :: s in Commits(start, docs, skip, k, n) ==> Boundary(start, docs, skip, s)
  {
    hide Boundary, IndexedUpTo, FlushedAt;
    if n > 0 {
      CommitBoundaries(start, docs, skip, k, n - 1);
      BoundaryAt(start, docs, skip, n);
      CommitsGrow(start, docs, skip, k, n - 1);
      hide Commits;
    }
  }

  lemma BoundaryAt(start: Store, docs: seq<Doc>, skip: set<string>, n: nat)
    requires n <= |docs|
    ensures Boundary(start, docs, skip, IndexedUpTo(start, docs, skip, n))
  {
  }

  lemma CommitsAreBoundaries(start: Store, docs: seq<Doc>, skip: set<string>, k: int, before: seq<Store>)
    ensures Boundaries(start, docs, skip, before, before + AllCommits(start, docs, skip, k))
  {
    hide Boundary, IndexedUpTo, Commits, FreshChunks;
    CommitBoundaries(start, docs, skip, k, |docs|);
    BoundaryAt(start, docs, skip, |docs|);
    var all := AllCommits(start, docs, skip, k);
    forall i | |before| <= i < |before + all| ensures Boundary(start, docs, skip, (before + all)[i]) {
      assert (before + all)[i] == all[i - |before|];
      assert all[i - |before|] in all;
    }
  }

  ghost predicate Boundary(start: Store, docs: seq<Doc>, skip: set<string>, after: Store) {
    exists n :: 0 <= n <= |docs| && after == IndexedUpTo(start, docs, skip, n)
  }

  /** Every state committed since `before` lies between two documents. */
  ghost predicate Boundaries(start: Store, docs: seq<Doc>, skip: set<string>, before: seq<Store>, now: seq<Store>) {
    before <= now && forall i :: |before| <= i < |now| ==> Boundary(start, docs, skip, now[i])
  }

  lemma Flush(start: Store, docs: seq<Doc>, skip: set<string>, flushed: nat, n: nat, batch: seq<Chunk>)
    requires flushed <= n <= |docs| && FreshChunks(docs, skip, n) == FreshChunks(docs, skip, flushed) + batch
    ensures IndexedUpTo(start, docs, skip, flushed) + Rows(batch) == IndexedUpTo(start, docs, skip, n)
  {
    RowsConcat(FreshChunks(docs, skip, flushed), batch);
  }

  lemma UnflushedNothing(start: Store, docs: seq<Doc>, skip: set<string>, flushed: nat, n: nat)
    requires flushed <= n <= |docs| && FreshChunks(docs, skip, n) == FreshChunks(docs, skip, flushed)
    ensures IndexedUpTo(start, docs, skip, flushed) == IndexedUpTo(start, docs, skip, n)
  {
  }

  lemma {:induction false} RowsConcat(a: seq<Chunk>, b: seq<Chunk>)
    ensures Rows(a + b) == Rows(a) + Rows(b)
  {
    if b == [] {
      assert a + b == a;
    } else {
      RowsConcat(a, b[..|b| - 1]);
      assert (a + b)[..|a + b| - 1] == a + b[..|b| - 1];
    }
  }

  // ---------------------------------------------------------------- what the store holds

  lemma {:induction false} RowsKeys(chunks: seq<Chunk>, key: string)
    requires key in Rows(chunks)
    ensures Rows(chunks)[key] in chunks && Rows(chunks)[key].id == key
  {
    if key != chunks[|chunks| - 1].id { RowsKeys(chunks[..|chunks| - 1], key); }
  }

  lemma {:induction false} RowsHave(chunks: seq<Chunk>, c: Chunk)
    requires c in chunks
    ensures c.id in Rows(chunks)
  {
    if c != chunks[|chunks| - 1] { RowsHave(chunks[..|chunks| - 1], c); }
  }

  lemma {:induction false} FreshChunkHasDoc(docs: seq<Doc>, skip: set<string>, n: nat, c: Chunk) returns (i: nat)
    requires n <= |docs| && c in FreshChunks(docs, skip, n)
    ensures i < n && docs[i].id !in skip && c in DocChunks(docs[i]) && c.source == docs[i].id
  {
    if docs[n - 1].id !in skip && c in DocChunks(docs[n - 1]) {
      i := n - 1;
    } else {
      i := FreshChunkHasDoc(docs, skip, n - 1, c);
    }
  }

  lemma {:induction false} DocIsFresh(docs: seq<Doc>, skip: set<string>, n: nat, i: nat)
    requires i < n <= |docs| && docs[i].id !in skip
    ensures forall c :: c in DocChunks(docs[i]) ==> c in FreshChunks(docs, skip, n)
  {
    if i < n - 1 { DocIsFresh(docs, skip, n - 1, i); }
  }

  /** Chunks of one id come from one document, so they are one chunk. */
  lemma ChunkOfId(a: Doc, b: Doc, c: Chunk, e: Chunk)
    requires c in DocChunks(a) && e in DocChunks(b) && c.id == e.id
    ensures a.id == b.id && (a == b ==> c == e)
  {
    var i :| 0 <= i < |DocChunks(a)| && DocChunks(a)[i] == c;
    var j :| 0 <= j < |DocChunks(b)| && DocChunks(b)[j] == e;
    ChunkIdInjective(a.id, i, b.id, j);
  }

  /** Every document gone through is whole: written by this run, or whole when it was skipped. */
  lemma GoneThroughIsWhole(store: Store, docs: seq<Doc>, skip: set<string>, n: nat, i: nat)
    requires DistinctIds(docs) && WholeDocuments(store, docs) && SkipsFor(store, skip) && i < n <= |docs|
    ensures Holds(IndexedUpTo(store, docs, skip, n), docs[i])
  {
    if docs[i].id in skip {
      UntouchedStaysWhole(store, docs, skip, n, i);
    } else {
      WrittenIsWhole(store, docs, skip, n, i);
    }
    hide IndexedUpTo, Holds, WholeDocuments, DistinctIds;
  }

  lemma WrittenIsWhole(store: Store, docs: seq<Doc>, skip: set<string>, n: nat, i: nat)
    requires DistinctIds(docs) && i < n <= |docs| && docs[i].id !in skip
    ensures Holds(IndexedUpTo(store, docs, skip, n), docs[i])
  {
    hide DocChunks, FreshChunks, Rows;
    var rows := Rows(FreshChunks(docs, skip, n));
    DocIsFresh(docs, skip, n, i);
    forall c | c in DocChunks(docs[i]) ensures c.id in store + rows && (store + rows)[c.id] == c {
      RowsHave(FreshChunks(docs, skip, n), c);
      RowsKeys(FreshChunks(docs, skip, n), c.id);
      var j := FreshChunkHasDoc(docs, skip, n, rows[c.id]);
      ChunkOfId(docs[i], docs[j], c, rows[c.id]);
    }
  }

  /** Crash soundness: whatever a cut-off run leaves, a source present in it is present whole. */
  lemma CrashLeavesWholeDocuments(store: Store, docs: seq<Doc>, after: Store)
    requires DistinctIds(docs) && WholeDocuments(store, docs) && LeftBy(store, docs, after)
    ensures WholeDocuments(after, docs)
  {
    var skip :| SkipsFor(store, skip) && Boundary(store, docs, skip, after);
    var n :| 0 <= n <= |docs| && after == IndexedUpTo(store, docs, skip, n);
    forall d | d in docs && d.id in Sources(after) ensures Holds(after, d) {
      var i :| 0 <= i < |docs| && docs[i] == d;
      if i < n {
        GoneThroughIsWhole(store, docs, skip, n, i);
      } else {
        PresentWasPresent(store, docs, skip, n, i);
        UntouchedStaysWhole(store, docs, skip, n, i);
      }
    }
  }

  /** A document not gone through yet can only be present because the store had it. */
  lemma PresentWasPresent(store: Store, docs: seq<Doc>, skip: set<string>, n: nat, i: nat)
    requires DistinctIds(docs) && n <= i < |docs| && docs[i].id in Sources(IndexedUpTo(store, docs, skip, n))
    ensures docs[i].id in Sources(store)
  {
    var after := IndexedUpTo(store, docs, skip, n);
    var key :| key in after && after[key].source == docs[i].id;
    if key in Rows(FreshChunks(docs, skip, n)) {
      RowsKeys(FreshChunks(docs, skip, n), key);
      var j := FreshChunkHasDoc(docs, skip, n, after[key]);
    }
  }

  lemma UntouchedStaysWhole(store: Store, docs: seq<Doc>, skip: set<string>, n: nat, i: nat)
    requires DistinctIds(docs) && WholeDocuments(store, docs) && n <= |docs| && i < |docs|
    requires docs[i].id in Sources(store)
    ensures Holds(IndexedUpTo(store, docs, skip, n), docs[i])
  {
    var rows := Rows(FreshChunks(docs, skip, n));
    assert docs[i] in docs;
    forall c | c in DocChunks(docs[i]) ensures c.id in store + rows && (store + rows)[c.id] == c {
      if c.id in rows {
        RowsKeys(FreshChunks(docs, skip, n), c.id);
        var j := FreshChunkHasDoc(docs, skip, n, rows[c.id]);
        ChunkOfId(docs[i], docs[j], c, rows[c.id]);
      }
    }
  }

  /** Skipping whole documents writes the same store as writing everything again. */
  lemma SkippingLosesNothing(store: Store, docs: seq<Doc>)
    requires DistinctIds(docs) && WholeDocuments(store, docs)
    ensures IndexedUpTo(store, docs, Sources(store), |docs|) == FullIndex(store, docs)
  {
    hide Sources;
    var n, skip := |docs|, Sources(store);
    var some, all := Rows(FreshChunks(docs, skip, n)), Rows(FreshChunks(docs, {}, n));
    forall key ensures key in store + some <==> key in store + all
               ensures key in store + some ==> (store + some)[key] == (store + all)[key]
    {
      if key in all {
        RowsKeys(FreshChunks(docs, {}, n), key);
        var i := FreshChunkHasDoc(docs, {}, n, all[key]);
        GoneThroughIsWhole(store, docs, skip, n, i);
      } else if key in some {
        RowsKeys(FreshChunks(docs, skip, n), key);
        var i := FreshChunkHasDoc(docs, skip, n, some[key]);
        DocIsFresh(docs, {}, n, i);
        RowsHave(FreshChunks(docs, {}, n), some[key]);
      }
    }
  }

  /** What a cut-off run wrote is part of what the full index writes. */
  lemma CrashKeepsTheGoal(store: Store, docs: seq<Doc>, after: Store)
    requires DistinctIds(docs) && WholeDocuments(store, docs) && LeftBy(store, docs, after)
    ensures FullIndex(after, docs) == FullIndex(store, docs)
  {
    hide Sources, Rows, FreshChunks, DocChunks, WholeDocuments, DistinctIds;
    var skip :| SkipsFor(store, skip) && Boundary(store, docs, skip, after);
    var n :| 0 <= n <= |docs| && after == IndexedUpTo(store, docs, skip, n);
    var some, all := Rows(FreshChunks(docs, skip, n)), Rows(FreshChunks(docs, {}, |docs|));
    forall key | key in some ensures key in all {
      RowsKeys(FreshChunks(docs, skip, n), key);
      var i := FreshChunkHasDoc(docs, skip, n, some[key]);
      DocIsFresh(docs, {}, |docs|, i);
      RowsHave(FreshChunks(docs, {}, |docs|), some[key]);
    }
    assert store + some + all == store + all;
  }

  /**
   Main result: after any number of cut-off runs, each skipping the sources it finds or not, one
   run to the end leaves exactly the store that a single uninterrupted run would have left.
   */
  lemma {:induction false} ResumeReachesFullIndex(stores: seq<Store>, docs: seq<Doc>, skip: set<string>)
    requires stores != [] && DistinctIds(docs) && WholeDocuments(stores[0], docs)
    requires forall i :: 0 <= i < |stores| - 1 ==> LeftBy(stores[i], docs, stores[i + 1])
    requires SkipsFor(stores[|stores| - 1], skip)
    ensures var last := stores[|stores| - 1];
      && WholeDocuments(last, docs)
      && IndexedUpTo(last, docs, skip, |docs|) == FullIndex(stores[0], docs)
  {
    hide WholeDocuments, LeftBy, IndexedUpTo;
    if |stores| == 1 {
      SkippingLosesNothing(stores[0], docs);
    } else {
      hide FullIndex, SkipsFor;
      var next := stores[1];
      assert LeftBy(stores[0], docs, stores[0 + 1]);
      CrashLeavesWholeDocuments(stores[0], docs, next);
      CrashKeepsTheGoal(stores[0], docs, next);
      var rest := stores[1..];
      forall i | 0 <= i < |rest| - 1 ensures LeftBy(rest[i], docs, rest[i + 1]) {
        assert LeftBy(stores[i + 1], docs, stores[i + 1 + 1]);
      }
      ResumeReachesFullIndex(rest, docs, skip);
    }
  }

  // ---------------------------------------------------------------- the rows and the batches themselves

  /** Chunk k of document i, as `doc_chunks` makes it. */
  ghost predicate IsChunk(docs: seq<Doc>, skip: set<string>, n: nat, i: nat, k: nat, c: Chunk) {
    && i < n && i < |docs| && docs[i].id !in skip && k < |docs[i].parts|
    && c == Chunk(ChunkId(docs[i].id, k), docs[i].id, docs[i].parts[k])
  }

  /** Exactly the chunks of the documents that are not skipped are written. */
  lemma WrittenExactly(docs: seq<Doc>, skip: set<string>, n: nat, c: Chunk)
    requires DistinctIds(docs) && n <= |docs|
    ensures c.id in Rows(FreshChunks(docs, skip, n)) && Rows(FreshChunks(docs, skip, n))[c.id] == c <==>
      exists i: nat, k: nat :: IsChunk(docs, skip, n, i, k, c)
  {
    hide FreshChunks, Rows;
    var chunks := FreshChunks(docs, skip, n);
    if i: nat, k: nat :| IsChunk(docs, skip, n, i, k, c) {
      assert DocChunks(docs[i])[k] == c;
      DocIsFresh(docs, skip, n, i);
      RowsHave(chunks, c);
      RowsKeys(chunks, c.id);
      var j := FreshChunkHasDoc(docs, skip, n, Rows(chunks)[c.id]);
      ChunkOfId(docs[i], docs[j], c, Rows(chunks)[c.id]);
    }
    if c.id in Rows(chunks) && Rows(chunks)[c.id] == c {
      RowsKeys(chunks, c.id);
      var j := FreshChunkHasDoc(docs, skip, n, c);
      var k :| 0 <= k < |DocChunks(docs[j])| && DocChunks(docs[j])[k] == c;
      assert IsChunk(docs, skip, n, j, k, c);
    }
  }

  /**
   The store after n documents, row by row: under the id of each part of each document that is not
   skipped there is that part, and every other key holds what it held.
   */
  lemma IndexedExactly(store: Store, docs: seq<Doc>, skip: set<string>, n: nat, c: Chunk)
    requires DistinctIds(docs) && n <= |docs|
    ensures var after := IndexedUpTo(store, docs, skip, n);
      c.id in after && after[c.id] == c <==>
        (exists i: nat, k: nat :: IsChunk(docs, skip, n, i, k, c)) ||
        (c.id in store && store[c.id] == c &&
         forall i: nat, k: nat, x :: IsChunk(docs, skip, n, i, k, x) ==> x.id != c.id)
  {
    hide FreshChunks, Rows, IsChunk, DistinctIds;
    var rows := Rows(FreshChunks(docs, skip, n));
    WrittenExactly(docs, skip, n, c);
    forall i: nat, k: nat, x | IsChunk(docs, skip, n, i, k, x) ensures x.id in rows {
      WrittenExactly(docs, skip, n, x);
    }
    if c.id in rows {
      RowsKeys(FreshChunks(docs, skip, n), c.id);
      WrittenExactly(docs, skip, n, rows[c.id]);
    }
  }

  /** The chunks counted: every part of every document that is not skipped, once. */
  lemma ChunksCounted(docs: seq<Doc>, skip: set<string>, n: nat)
    requires n < |docs|
    ensures |FreshChunks(docs, skip, 0)| == 0
    ensures |FreshChunks(docs, skip, n + 1)| ==
      |FreshChunks(docs, skip, n)| + if docs[n].id in skip then 0 else |docs[n].parts|
  {
  }

  /**
   When batches are flushed: what waits after a document is always less than a batch, and a flush
   comes right after a document whose chunks complete one.
   */
  lemma {:induction false} FlushesAreDue(docs: seq<Doc>, skip: set<string>, k: int, n: nat)
    requires n <= |docs| && k >= 1
    ensures |FreshChunks(docs, skip, n)| - |FreshChunks(docs, skip, FlushedAt(docs, skip, k, n))| < k
    ensures n > 0 && FlushedAt(docs, skip, k, n) == n ==>
      var f := FlushedAt(docs, skip, k, n - 1);
      |FreshChunks(docs, skip, n - 1)| - |FreshChunks(docs, skip, f)| < k <=
      |FreshChunks(docs, skip, n)| - |FreshChunks(docs, skip, f)|
  {
    hide FreshChunks;
    if n > 0 {
      FlushesAreDue(docs, skip, k, n - 1);
      ChunksCounted(docs, skip, n - 1);
    }
  }

  // ---------------------------------------------------------------- the documents themselves

  /** The first document of each id among the first n rows. */
  function FirstOfEachId(rows: seq<Doc>, n: nat): seq<Doc>
    requires n <= |rows|
  {
    if n == 0 then []
    else
      FirstOfEachId(rows, n - 1) + if rows[n - 1].id in Ids(FirstOfEachId(rows, n - 1)) then [] else [rows[n - 1]]
  }

  function Ids(docs: seq<Doc>): set<string> {
    set i | 0 <= i < |docs| :: docs[i].id
  }

  /** The limit as the generator applies it: it is looked at only after a document has been yielded. */
  function Taken(docs: seq<Doc>, limit: Limit): seq<Doc> {
    match limit
    case NoLimit => docs
    case AtMost(n) =>
      var most := if n < 1 then 1 else n;
      if |docs| <= most then docs else docs[..most]
  }

  method LoadDocuments(rows: seq<Doc>, limit: Limit) returns (docs: seq<Doc>)
    ensures docs == Taken(FirstOfEachId(rows, |rows|), limit)
  {
    var seen: set<string> := {};
    docs := [];
    for i := 0 to |rows|
      invariant docs == FirstOfEachId(rows, i) && seen == Ids(docs)
      invariant limit.AtMost? && docs != [] ==> |docs| < limit.n
    {
      if rows[i].id !in seen {
        DocIdsGrow(docs, rows[i]);
        seen := seen + {rows[i].id};
        docs := docs + [rows[i]];
        if limit.AtMost? && |docs| >= limit.n {
          FirstsArePrefix(rows, i + 1);
          return;
        }
      }
    }
  }

  lemma DocIdsGrow(docs: seq<Doc>, doc: Doc)
    ensures Ids(docs + [doc]) == Ids(docs) + {doc.id}
  {
    var more := docs + [doc];
    forall x ensures x in Ids(more) <==> x in Ids(docs) + {doc.id} {
      if x in Ids(docs) {
        var i :| 0 <= i < |docs| && docs[i].id == x;
        assert more[i].id == x;
      }
      assert more[|docs|] == doc;
    }
  }

  lemma {:induction false} FirstsArePrefix(rows: seq<Doc>, n: nat)
    requires n <= |rows|
    ensures FirstOfEachId(rows, n) <= FirstOfEachId(rows, |rows|)
    decreases |rows| - n
  {
    if n < |rows| { FirstsArePrefix(rows, n + 1); }
  }

  /** The loader is what makes the ids distinct. */
  lemma {:induction false} LoadedIdsAreDistinct(rows: seq<Doc>, n: nat)
    requires n <= |rows|
    ensures DistinctIds(FirstOfEachId(rows, n))
    ensures forall k :: 0 <= k < n ==> rows[k].id in Ids(FirstOfEachId(rows, n))
  {
    if n > 0 {
      LoadedIdsAreDistinct(rows, n - 1);
      var before := FirstOfEachId(rows, n - 1);
      hide Ids, DistinctIds;
      if rows[n - 1].id !in Ids(before) { DistinctGrows(before, rows[n - 1]); } else { assert before + [] == before; }
    }
  }

  lemma DistinctGrows(docs: seq<Doc>, doc: Doc)
    requires DistinctIds(docs) && doc.id !in Ids(docs)
    ensures DistinctIds(docs + [doc]) && Ids(docs + [doc]) == Ids(docs) + {doc.id}
  {
    DocIdsGrow(docs, doc);
    assert forall k :: 0 <= k < |docs| ==> docs[k].id in Ids(docs);
  }

  /** A limit is kept exactly when it is at least one or there is nothing to load. */
  lemma LimitKeptExactly(docs: seq<Doc>, n: int)
    ensures |Taken(docs, AtMost(n))| <= (if n < 0 then 0 else n) <==> n >= 1 || docs == []
  {
  }

  ghost predicate IsFirst(rows: seq<Doc>, k: nat, d: Doc) {
    k < |rows| && rows[k] == d && forall j :: 0 <= j < k ==> rows[j].id != d.id
  }

  lemma {:induction false} IdsOfFirsts(rows: seq<Doc>, n: nat, id: string)
    requires n <= |rows|
    ensures id in Ids(FirstOfEachId(rows, n)) <==> exists j :: 0 <= j < n && rows[j].id == id
  {
    if n > 0 {
      IdsOfFirsts(rows, n - 1, id);
      var before, last := FirstOfEachId(rows, n - 1), rows[n - 1];
      DocIdsGrow(before, last);
      assert before + [] == before;
    } else {
      assert Ids([]) == {};
    }
    hide Ids;
  }

  /** What is loaded: the rows with no earlier row of their id. */
  lemma {:induction false} FirstsExactly(rows: seq<Doc>, n: nat, d: Doc)
    requires n <= |rows|
    ensures d in FirstOfEachId(rows, n) <==> exists k :: 0 <= k < n && IsFirst(rows, k, d)
  {
    hide Ids;
    if n > 0 {
      FirstsExactly(rows, n - 1, d);
      IdsOfFirsts(rows, n - 1, rows[n - 1].id);
      if d in FirstOfEachId(rows, n) && d !in FirstOfEachId(rows, n - 1) { assert IsFirst(rows, n - 1, d); }
    }
  }

  /** How many documents a limit lets through, and which: the first ones. */
  lemma TakenExactly(docs: seq<Doc>, n: int)
    ensures Taken(docs, AtMost(n)) <= docs && Taken(docs, NoLimit) == docs
    ensures |Taken(docs, AtMost(n))| == if n < 1 && docs != [] then 1 else if 1 <= n < |docs| then n else |docs|
  {
  }
}
