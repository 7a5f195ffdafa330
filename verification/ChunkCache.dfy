/**
 The vector cache of `benchmarks/calibration_drift.py`: each distinct chunk goes to the encoder
 once, and an interrupted run loses a bounded number of vectors. A text stands for its digest,
 since different texts have different digests, and an integer stands for a vector.
 */
module ChunkCache {
  const BlockSize := 256
  const FlushAt := 2000

  /** Every vector kept is the one the encoder gives its text. */
  ghost predicate Honest(encode: nat -> int, vectors: map<nat, int>) {
    forall t :: t in vectors ==> vectors[t] == encode(t)
  }

  ghost predicate Within(small: map<nat, int>, big: map<nat, int>) {
    forall t :: t in small ==> t in big && small[t] == big[t]
  }

  ghost function Elements(texts: seq<nat>): set<nat> {
    set t | t in texts
  }

  /** Pairwise different texts, none of them known. */
  ghost predicate NewAndDistinct(known: set<nat>, texts: seq<nat>) {
    NewFrom(known, texts, 0)
  }

  /** What the cache lacks, first occurrences in order. */
  function Missing(known: set<nat>, texts: seq<nat>): seq<nat> {
    if texts == [] then []
    else
      var n := |texts| - 1;
      var before := Missing(known, texts[..n]);
      if texts[n] in known || texts[n] in before then before else before + [texts[n]]
  }

  lemma {:induction false} MissingIsNew(known: set<nat>, texts: seq<nat>)
    ensures NewAndDistinct(known, Missing(known, texts))
    ensures known + Elements(Missing(known, texts)) == known + Elements(texts)
    ensures texts == [] ==> Missing(known, texts) == []
  {
    if texts != [] {
      var n := |texts| - 1;
      MissingIsNew(known, texts[..n]);
      assert texts == texts[..n] + [texts[n]];
      MissingStep(known, texts[..n], Missing(known, texts[..n]), texts[n]);
    }
  }

  /** s does not occur without t before it. */
  ghost predicate ComesFirst(texts: seq<nat>, t: nat, s: nat) {
    t != s && forall b :: 0 <= b < |texts| && texts[b] == s ==> t in texts[..b]
  }

  lemma {:induction false} MissingInOrder(known: set<nat>, texts: seq<nat>)
    ensures forall t :: t in Missing(known, texts) <==> t in texts && t !in known
    ensures forall j, k :: 0 <= j < k < |Missing(known, texts)| ==>
      ComesFirst(texts, Missing(known, texts)[j], Missing(known, texts)[k])
  {
    if texts != [] {
      var n := |texts| - 1;
      var all, before := Missing(known, texts), Missing(known, texts[..n]);
      MissingInOrder(known, texts[..n]);
      assert texts == texts[..n] + [texts[n]];
      forall j, k | 0 <= j < k < |all| ensures ComesFirst(texts, all[j], all[k]) {
        assert all[j] == before[j] && before[j] in before;
        if k < |before| {
          assert ComesFirst(texts[..n], before[j], before[k]);
          FirstStays(texts, before[j], before[k]);
        }
      }
    }
  }

  lemma FirstStays(texts: seq<nat>, t: nat, s: nat)
    requires texts != [] && ComesFirst(texts[..|texts| - 1], t, s)
    requires t in texts[..|texts| - 1]
    ensures ComesFirst(texts, t, s)
  {
    var n := |texts| - 1;
    forall b | 0 <= b < |texts| && texts[b] == s ensures t in texts[..b] {
      if b < n { assert texts[..n][..b] == texts[..b]; }
    }
  }

  lemma MissingStep(known: set<nat>, texts: seq<nat>, before: seq<nat>, t: nat)
    requires NewAndDistinct(known, before) && known + Elements(before) == known + Elements(texts)
    ensures var after := if t in known || t in before then before else before + [t];
      NewAndDistinct(known, after) && known + Elements(after) == known + Elements(texts + [t])
  {
    assert Elements(texts + [t]) == Elements(texts) + {t};
    assert Elements(before + [t]) == Elements(before) + {t};
    if t !in known && t !in before { SentGrows(known, before, t); }
  }

  ghost predicate NewFrom(known: set<nat>, texts: seq<nat>, at: nat) {
    && (forall i :: at <= i < |texts| ==> texts[i] !in known)
    && (forall i, j :: at <= i < j < |texts| ==> texts[i] != texts[j])
  }

  lemma NextIsNew(known: set<nat>, texts: seq<nat>, at: nat)
    requires at < |texts| && NewFrom(known, texts, at)
    ensures texts[at] !in known && NewFrom(known + {texts[at]}, texts, at + 1)
  {
  }

  lemma SentGrows(loaded: set<nat>, sent: seq<nat>, t: nat)
    requires NewAndDistinct(loaded, sent) && t !in loaded + Elements(sent)
    ensures NewAndDistinct(loaded, sent + [t]) && Elements(sent + [t]) == Elements(sent) + {t}
  {
    assert forall i :: 0 <= i < |sent| ==> sent[i] in Elements(sent);
  }

  lemma KeyAdded(vectors: map<nat, int>, t: nat, v: int)
    requires t !in vectors
    ensures |vectors[t := v]| == |vectors| + 1 && vectors[t := v].Keys == vectors.Keys + {t}
  {
    assert vectors[t := v].Keys == vectors.Keys + {t};
    assert |vectors.Keys + {t}| == |vectors.Keys| + 1;
  }

  lemma SameSize(small: map<nat, int>, big: map<nat, int>)
    requires Within(small, big) && |small| == |big|
    ensures small == big
  {
    var rest := big.Keys - small.Keys;
    assert small.Keys <= big.Keys;
    assert big.Keys == small.Keys + rest;
    assert |big.Keys| == |small.Keys| + |rest|;
  }

  ghost predicate IsCache(encode: nat -> int, loaded: set<nat>, disk: map<nat, int>, vectors: map<nat, int>,
                          sent: seq<nat>) {
    && Honest(encode, vectors) && Within(disk, vectors)
    && NewAndDistinct(loaded, sent) && vectors.Keys == loaded + Elements(sent)
  }

  lemma CacheGrows(encode: nat -> int, loaded: set<nat>, disk: map<nat, int>, vectors: map<nat, int>, sent: seq<nat>,
                   t: nat)
    requires IsCache(encode, loaded, disk, vectors, sent) && t !in vectors
    ensures IsCache(encode, loaded, disk, vectors[t := encode(t)], sent + [t])
  {
    hide Elements, NewAndDistinct;
    SentGrows(loaded, sent, t);
    KeyAdded(vectors, t, encode(t));
    HonestGrows(encode, disk, vectors, t);
    hide Honest, Within;
  }

  lemma HonestGrows(encode: nat -> int, disk: map<nat, int>, vectors: map<nat, int>, t: nat)
    requires Honest(encode, vectors) && Within(disk, vectors) && t !in vectors
    ensures Honest(encode, vectors[t := encode(t)]) && Within(disk, vectors[t := encode(t)])
  {
  }

  /** What `embed` ends in: `np.stack` refuses an empty list. */
  datatype Outcome = EncoderRaised | NothingToStack | Rows(rows: seq<int>)

  /**
   `disk` is the cache file, replaced whole; `sent` is what went to the encoder since loading.
   `failures` counts the calls cut off since the file was written: `dirty` does not count the
   vectors their last block had already given.
   */
  class ChunkEmbedder {
    const encode: nat -> int
    ghost const loaded: set<nat>
    var disk: map<nat, int>
    var vectors: map<nat, int>
    var dirty: nat
    ghost var sent: seq<nat>
    ghost var failures: nat

    /** What holds even in the middle of a block. */
    ghost predicate Sound()
      reads this
    {
      IsCache(encode, loaded, disk, vectors, sent)
    }

    ghost predicate Valid()
      reads this
    {
      Sound() && |disk| + dirty <= |vectors| <= |disk| + dirty + failures * (BlockSize - 1)
    }

    constructor (encode: nat -> int, disk: map<nat, int>)
      requires Honest(encode, disk)
      ensures Valid() && this.disk == vectors == disk && dirty == 0 && failures == 0 && sent == []
      ensures this.encode == encode
    {
      this.encode, this.loaded := encode, disk.Keys;
      this.disk, vectors, dirty, sent, failures := disk, disk, 0, [], 0;
    }

    /** It saves everything if and only if something is counted as unsaved or nothing is unsaved. */
    method Flush()
      requires Valid()
      modifies this`disk, this`dirty, this`failures
      ensures Valid() && dirty == 0 && failures <= old(failures)
      ensures old(dirty) > 0 ==> failures == 0
      ensures old(dirty) == 0 ==> disk == old(disk)
      ensures disk == vectors <==> old(dirty) > 0 || |vectors| == |old(disk)|
    {
      hide Honest, NewAndDistinct, Elements;
      if dirty > 0 {
        disk, dirty, failures := vectors, 0, 0;
      } else if |vectors| == |disk| {
        SameSize(disk, vectors);
      }
    }

    /** One vector arrives and is kept. */
    method Keep(text: nat)
      requires Sound() && text !in vectors
      modifies this`vectors, this`sent
      ensures Sound() && |vectors| == |old(vectors)| + 1 && sent == old(sent) + [text]
      ensures vectors.Keys == old(vectors).Keys + {text}
    {
      hide IsCache;
      CacheGrows(encode, loaded, disk, vectors, sent, text);
      KeyAdded(vectors, text, encode(text));
      vectors := vectors[text := encode(text)];
      sent := sent + [text];
    }

    /** The loop that collects what the cache lacks. */
    method FindMissing(texts: seq<nat>) returns (pending: seq<nat>)
      ensures pending == Missing(vectors.Keys, texts)
      ensures forall t :: t in pending <==> t in texts && t !in vectors
      ensures forall j, k :: 0 <= j < k < |pending| ==> ComesFirst(texts, pending[j], pending[k])
    {
      hide ComesFirst;
      MissingInOrder(vectors.Keys, texts);
      pending := [];
      for i := 0 to |texts|
        invariant pending == Missing(vectors.Keys, texts[..i])
      {
        assert texts[..i + 1][..i] == texts[..i];
        if texts[i] !in vectors && texts[i] !in pending { pending := pending + [texts[i]]; }
      }
      assert texts[..|texts|] == texts;
    }

    /** `embed`; the encoder raises after giving `lives` vectors, if it is asked for more. */
    method Embed(texts: seq<nat>, lives: nat) returns (r: Outcome)
      requires Valid() && dirty < FlushAt
      modifies this`disk, this`vectors, this`dirty, this`sent, this`failures
      ensures Valid() && dirty < FlushAt && failures <= old(failures) + if r.EncoderRaised? then 1 else 0
      ensures dirty < 2000 && |vectors| - |disk| < 2000 + 255 * failures
      ensures r.EncoderRaised? <==> |Missing(old(vectors).Keys, texts)| > lives
      ensures r.EncoderRaised? ==> sent == old(sent) + Missing(old(vectors).Keys, texts)[..lives]
      ensures r.EncoderRaised? && lives < 256 ==> disk == old(disk) && dirty == old(dirty)
      ensures !r.EncoderRaised? ==> sent == old(sent) + Missing(old(vectors).Keys, texts)
      ensures r.NothingToStack? <==> texts == []
      ensures r.Rows? ==> |r.rows| == |texts| && forall i :: 0 <= i < |texts| ==> r.rows[i] == encode(texts[i])
    {
      hide NewAndDistinct, Missing, IsCache, Elements;
      var pending := FindMissing(texts);
      MissingIsNew(vectors.Keys, texts);
      var ok := EmbedPending(pending, lives);
      if !ok { return EncoderRaised; }
      if texts == [] { return NothingToStack; }
      CacheKeys(encode, loaded, old(disk), old(vectors), old(sent));
      CacheKeys(encode, loaded, disk, vectors, sent);
      AllPresent(loaded, old(sent), pending, texts);
      var rows := Stack(texts);
      return Rows(rows);
    }

    method Stack(texts: seq<nat>) returns (rows: seq<int>)
      requires Sound() && forall i :: 0 <= i < |texts| ==> texts[i] in vectors
      ensures |rows| == |texts| && forall i :: 0 <= i < |texts| ==> rows[i] == encode(texts[i])
    {
      var vs := vectors;
      rows := seq(|texts|, i requires 0 <= i < |texts| && texts[i] in vs => vs[texts[i]]);
    }

    /** The loop over blocks of pending texts, writing the file whenever enough has gathered. */
    method EmbedPending(pending: seq<nat>, lives: nat) returns (ok: bool)
      requires Valid() && dirty < FlushAt && NewAndDistinct(vectors.Keys, pending)
      modifies this`disk, this`vectors, this`dirty, this`sent, this`failures
      ensures Valid() && dirty < FlushAt && failures <= old(failures) + if ok then 0 else 1
      ensures ok <==> |pending| <= lives
      ensures !ok ==> sent == old(sent) + pending[..lives]
      ensures !ok && lives < BlockSize ==> disk == old(disk) && dirty == old(dirty)
      ensures ok ==> sent == old(sent) + pending
    {
      hide IsCache, NewFrom;
      var done := 0;
      while done < |pending|
        invariant done <= |pending| && done <= lives
        invariant Valid() && dirty < FlushAt && failures <= old(failures) && sent == old(sent) + pending[..done]
        invariant if done == 0 then disk == old(disk) && dirty == old(dirty) else done >= BlockSize || done == |pending|
        invariant NewFrom(vectors.Keys, pending, done)
      {
        var end := if |pending| - done < BlockSize then |pending| else done + BlockSize;
        var at := EmbedBlock(pending, done, end, lives, old(sent));
        if at < end {
          failures := failures + 1;
          return false;
        }
        dirty := dirty + (end - done);
        done := end;
        if dirty >= FlushAt { Flush(); }
      }
      assert pending[..|pending|] == pending;
      return true;
    }

    method KeepNext(pending: seq<nat>, at: nat)
      requires Sound() && at < |pending| && NewFrom(vectors.Keys, pending, at)
      modifies this`vectors, this`sent
      ensures Sound() && NewFrom(vectors.Keys, pending, at + 1)
      ensures |vectors| == |old(vectors)| + 1 && sent == old(sent) + [pending[at]]
    {
      hide IsCache, NewFrom;
      NextIsNew(vectors.Keys, pending, at);
      Keep(pending[at]);
    }

    /** The loop inside one block; it stops where the encoder does. */
    method EmbedBlock(pending: seq<nat>, start: nat, end: nat, lives: nat, ghost before: seq<nat>) returns (at: nat)
      requires Sound() && start <= end <= |pending| && start <= lives
      requires NewFrom(vectors.Keys, pending, start) && sent == before + pending[..start]
      modifies this`vectors, this`sent
      ensures start <= at <= end && at == if end <= lives then end else lives
      ensures Sound() && NewFrom(vectors.Keys, pending, at)
      ensures |vectors| == |old(vectors)| + at - start
      ensures sent == before + pending[..at]
    {
      hide IsCache, NewFrom;
      at := start;
      while at < end && at != lives
        invariant start <= at <= end && at <= lives
        invariant Sound() && NewFrom(vectors.Keys, pending, at)
        invariant |vectors| == |old(vectors)| + at - start
        invariant sent == before + pending[..at]
      {
        OneFurther(before, pending, at);
        KeepNext(pending, at);
        at := at + 1;
      }
    }
  }

  /** A block that fails part way leaves a vector that a flush at the end does not save. */
  method FailedBlockIsNotSaved(encode: nat -> int, a: nat, b: nat) returns (e: ChunkEmbedder)
    requires a != b
    ensures fresh(e) && e.Valid() && e.sent == [a] && a in e.vectors && e.disk == map[]
  {
    hide Missing, IsCache, Elements, Honest, NewAndDistinct;
    TwoMissing(encode, a, b);
    e := new ChunkEmbedder(encode, map[]);
    var r := e.Embed([a, b], 1);
    assert e.sent == [a];
    OneSent(encode, e.loaded, e.disk, e.vectors, a);
    e.Flush();
  }

  lemma OneSent(encode: nat -> int, loaded: set<nat>, disk: map<nat, int>, vectors: map<nat, int>, a: nat)
    requires IsCache(encode, loaded, disk, vectors, [a])
    ensures a in vectors
  {
    assert a in Elements([a]);
  }

  lemma TwoMissing(encode: nat -> int, a: nat, b: nat)
    requires a != b
    ensures Honest(encode, map[]) && forall known :: known == {} ==> Missing(known, [a, b]) == [a, b]
  {
    forall known: set<nat> | known == {} ensures Missing(known, [a, b]) == [a, b] {
      assert [a, b][..1] == [a] && [a][..0] == [];
      assert Missing(known, []) == [] && Missing(known, [a]) == [a];
    }
  }

  lemma CacheKeys(encode: nat -> int, loaded: set<nat>, disk: map<nat, int>, vectors: map<nat, int>, sent: seq<nat>)
    requires IsCache(encode, loaded, disk, vectors, sent)
    ensures vectors.Keys == loaded + Elements(sent)
  {
  }

  lemma OneFurther(before: seq<nat>, s: seq<nat>, at: nat)
    requires at < |s|
    ensures before + s[..at] + [s[at]] == before + s[..at + 1]
  {
  }

  lemma AllPresent(loaded: set<nat>, sent: seq<nat>, pending: seq<nat>, texts: seq<nat>)
    requires loaded + Elements(sent) + Elements(pending) == loaded + Elements(sent) + Elements(texts)
    ensures forall i :: 0 <= i < |texts| ==> texts[i] in loaded + Elements(sent + pending)
  {
    forall i | 0 <= i < |texts| ensures texts[i] in loaded + Elements(sent + pending) {
      assert texts[i] in loaded + Elements(sent) + Elements(texts);
    }
  }
}
