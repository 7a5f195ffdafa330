/**
 `write_artifact` of `benchmarks/h2h_artifact.py`: many files handed over by single renames, with
 backups and a rollback.
 */
module Publish {
  import opened Sets

  datatype Path = Summary | Vector(key: string) | Other(name: string)

  datatype File = File(data: string, mode: nat)

  datatype Entry = Absent | Present(file: File)

  type Dir = map<Path, File>

  datatype Target = Target(path: Path, data: string)

  /** One rename or unlink of the handover: the path it acts on and what it leaves there. */
  datatype Op = Op(path: Path, result: Entry)

  /**
   What interrupts the handover: nothing, operation k raising without effect, or an interrupt
   that lands after operation k took effect and before `changed.append` recorded it.
   */
  datatype Fault = NoFault | RaisedAt(k: nat) | InterruptedAfter(k: nat)

  function Look(dir: Dir, p: Path): Entry {
    if p in dir then Present(dir[p]) else Absent
  }

  function Put(dir: Dir, p: Path, e: Entry): Dir {
    match e
    case Present(f) => dir[p := f]
    case Absent => dir - {p}
  }

  ghost predicate DistinctTargets(payloads: seq<Target>) {
    forall i, j :: 0 <= i < j < |payloads| ==> payloads[i].path != payloads[j].path
  }

  function Paths(payloads: seq<Target>): set<Path> {
    set i | 0 <= i < |payloads| :: payloads[i].path
  }

  /** `outcomes.glob("*.jsonl")`: each vector on disk once. */
  ghost predicate IsGlob(glob: seq<Path>, dir: Dir) {
    && (forall p :: p in glob <==> p in dir && p.Vector?)
    && (forall i, j :: 0 <= i < j < |glob| ==> glob[i] != glob[j])
  }

  /** The mode a staged file carries: that of the file it replaces, or the standard one. */
  function Staged(dir: Dir, t: Target, freshMode: nat): File {
    File(t.data, if t.path in dir then dir[t.path].mode else freshMode)
  }

  function Unlinks(glob: seq<Path>, payloads: seq<Target>): seq<Op> {
    if glob == [] then []
    else
      Unlinks(glob[..|glob| - 1], payloads)
      + if glob[|glob| - 1] in Paths(payloads) then [] else [Op(glob[|glob| - 1], Absent)]
  }

  /** The renames in payload order, then the unlinks of the stale vectors. */
  function Handover(dir: Dir, payloads: seq<Target>, glob: seq<Path>, freshMode: nat): seq<Op> {
    seq(|payloads|, i requires 0 <= i < |payloads| =>
      Op(payloads[i].path, Present(Staged(dir, payloads[i], freshMode))))
    + Unlinks(glob, payloads)
  }

  /** The file a payload is to become: its own bytes, and the mode of the file it replaces. */
  ghost predicate IsPublished(dir: Dir, before: Dir, t: Target, freshMode: nat) {
    t.path in dir && dir[t.path].data == t.data &&
    dir[t.path].mode == if t.path in before then before[t.path].mode else freshMode
  }

  /** A published directory: this build's files, no other outcome vector, and all else as it was. */
  ghost predicate Published(dir: Dir, before: Dir, payloads: seq<Target>, freshMode: nat) {
    && (forall i :: 0 <= i < |payloads| ==> IsPublished(dir, before, payloads[i], freshMode))
    && (forall key :: Vector(key) in dir <==> exists i :: 0 <= i < |payloads| && payloads[i].path == Vector(key))
    && (forall p: Path :: !p.Vector? && (forall i :: 0 <= i < |payloads| ==> payloads[i].path != p) ==>
          (p in dir <==> p in before) && (p in dir ==> dir[p] == before[p]))
  }

  /** The vectors of older builds. */
  ghost function Stale(before: Dir, payloads: seq<Target>): set<Path> {
    set p: Path | p in before && p.Vector? && (forall i :: 0 <= i < |payloads| ==> payloads[i].path != p)
  }

  /** One operation of the handover took effect and no other: a payload published, or a stale vector gone. */
  ghost predicate OneTookEffect(dir: Dir, before: Dir, payloads: seq<Target>, freshMode: nat, k: nat) {
    if k < |payloads| then
      IsPublished(dir, before, payloads[k], freshMode) && dir - {payloads[k].path} == before - {payloads[k].path}
    else
      exists p: Path :: p.Vector? && p in before && dir == before - {p} &&
                        forall i :: 0 <= i < |payloads| ==> payloads[i].path != p
  }

  // ---------------------------------------------------------------- the directory in between

  ghost predicate DistinctOps(ops: seq<Op>) {
    forall i, j :: 0 <= i < j < |ops| ==> ops[i].path != ops[j].path
  }

  ghost predicate Touched(ops: seq<Op>, p: Path) {
    exists i :: 0 <= i < |ops| && ops[i].path == p
  }

  /** Exactly the operations in `applied` have taken effect on `old`. */
  ghost predicate Mixed(dir: Dir, before: Dir, ops: seq<Op>, applied: set<nat>) {
    && (forall i: nat :: i < |ops| ==>
         Look(dir, ops[i].path) == if i in applied then ops[i].result else Look(before, ops[i].path))
    && (forall p :: !Touched(ops, p) ==> Look(dir, p) == Look(before, p))
  }

  lemma MixedSet(dir: Dir, before: Dir, ops: seq<Op>, applied: set<nat>, i: nat, on: bool)
    requires DistinctOps(ops) && Mixed(dir, before, ops, applied) && i < |ops|
    ensures Mixed(Put(dir, ops[i].path, if on then ops[i].result else Look(before, ops[i].path)), before, ops,
                  if on then applied + {i} else applied - {i})
  {
    var after := Put(dir, ops[i].path, if on then ops[i].result else Look(before, ops[i].path));
    forall j: nat | j < |ops| && j != i ensures Look(after, ops[j].path) == Look(dir, ops[j].path) {}
    forall p | !Touched(ops, p) ensures Look(after, p) == Look(before, p) {
      assert p != ops[i].path;
    }
  }

  lemma MixedIsUnique(a: Dir, b: Dir, before: Dir, ops: seq<Op>, applied: set<nat>)
    requires Mixed(a, before, ops, applied) && Mixed(b, before, ops, applied)
    ensures a == b
  {
    forall p ensures Look(a, p) == Look(b, p) {
      if Touched(ops, p) {
        var i :| 0 <= i < |ops| && ops[i].path == p;
      }
    }
    assert forall p :: p in a <==> Look(a, p).Present?;
    assert forall p :: p in b <==> Look(b, p).Present?;
    assert forall p :: p in a ==> a[p] == Look(a, p).file && b[p] == Look(b, p).file;
  }

  /** `copy2` of every file the handover will replace or unlink. */
  function Backups(dir: Dir, ops: seq<Op>): map<Path, File> {
    map i: nat | i < |ops| && ops[i].path in dir :: ops[i].path := dir[ops[i].path]
  }

  // ---------------------------------------------------------------- the handover

  class Artifact {
    var dir: Dir

    constructor (initial: Dir)
      ensures dir == initial
    {
      dir := initial;
    }

    /**
     On success everything took effect. When an operation raises, the directory is as it was. An
     interrupt between an operation and its bookkeeping leaves that one operation in effect.
     */
    method WriteArtifact(payloads: seq<Target>, glob: seq<Path>, freshMode: nat, fault: Fault) returns (ok: bool)
      requires DistinctTargets(payloads) && IsGlob(glob, dir)
      modifies this
      ensures var ops := Handover(old(dir), payloads, glob, freshMode);
        && |ops| == |payloads| + |Stale(old(dir), payloads)|
        && ok == (fault.NoFault? || fault.k >= |ops|)
        && (ok ==> Published(dir, old(dir), payloads, freshMode))
        && (!ok && fault.RaisedAt? ==> dir == old(dir))
        && (!ok && fault.InterruptedAfter? ==> OneTookEffect(dir, old(dir), payloads, freshMode, fault.k))
    {
      hide Handover, Mixed, DistinctOps, Put, Published, OneTookEffect, Stale;
      var ops := Handover(dir, payloads, glob, freshMode);
      HandoverIsDistinct(dir, payloads, glob, freshMode);
      HandoverCount(dir, payloads, glob, freshMode);
      ok := HandOver(ops, fault);
      if ok {
        PublishedExactly(dir, old(dir), payloads, glob, freshMode);
      } else if fault.InterruptedAfter? {
        OpTakesEffect(old(dir), payloads, glob, freshMode, fault.k);
      }
    }

    /** The handover itself, over the operations in order, and its rollback. */
    method HandOver(ops: seq<Op>, fault: Fault) returns (ok: bool)
      requires DistinctOps(ops)
      modifies this
      ensures ok == (fault.NoFault? || fault.k >= |ops|)
      ensures ok ==> Mixed(dir, old(dir), ops, Before(|ops|))
      ensures !ok && fault.RaisedAt? ==> dir == old(dir)
      ensures !ok && fault.InterruptedAfter? ==> dir == Put(old(dir), ops[fault.k].path, ops[fault.k].result)
    {
      hide Mixed, DistinctOps, Look, Put;
      var backups := Backups(dir, ops);
      var changed: seq<Path> := [];
      ok := true;
      NothingApplied(dir, ops);
      while |changed| < |ops| && ok
        invariant |changed| <= |ops| && forall i :: 0 <= i < |changed| ==> changed[i] == ops[i].path
        invariant ok ==> Mixed(dir, old(dir), ops, Before(|changed|)) && (fault.NoFault? || |changed| <= fault.k)
        invariant !ok ==> !fault.NoFault? && |changed| == fault.k < |ops|
        invariant !ok ==> Mixed(dir, old(dir), ops, Before(|changed|) + Slipped(fault))
        decreases |ops| - |changed|, ok
      {
        var k := |changed|;
        if fault == RaisedAt(k) {
          ok := false;
          assert Before(k) + Slipped(fault) == Before(k);
        } else {
          MixedSet(dir, old(dir), ops, Before(k), k, true);
          dir := Put(dir, ops[k].path, ops[k].result);
          if fault == InterruptedAfter(k) {
            ok := false;
          } else {
            assert Before(k) + {k} == Before(k + 1);
            changed := changed + [ops[k].path];
          }
        }
      }
      if !ok {
        RollBack(old(dir), ops, backups, changed, Slipped(fault));
        RolledBack(dir, old(dir), ops, fault);
      }
    }

    /** `for target in reversed(changed)`: restore the backup, or remove what was not there. */
    method RollBack(ghost before: Dir, ghost ops: seq<Op>, backups: map<Path, File>, changed: seq<Path>,
                    ghost slipped: set<nat>)
      requires DistinctOps(ops) && |changed| <= |ops| && forall i :: 0 <= i < |changed| ==> changed[i] == ops[i].path
      requires forall i :: i in slipped ==> i >= |changed|
      requires backups == Backups(before, ops)
      requires Mixed(dir, before, ops, Before(|changed|) + slipped)
      modifies this
      ensures Mixed(dir, before, ops, slipped)
    {
      hide Mixed, DistinctOps;
      var left := |changed|;
      while left > 0
        invariant 0 <= left <= |changed| && Mixed(dir, before, ops, Before(left) + slipped)
      {
        left := left - 1;
        var p := changed[left];
        assert p in backups <==> p in before;
        MixedSet(dir, before, ops, Before(left + 1) + slipped, left, false);
        assert Before(left + 1) + slipped - {left} == Before(left) + slipped;
        if p in backups {
          dir := dir[p := backups[p]];
        } else {
          dir := dir - {p};
        }
      }
      assert Before(0) + slipped == slipped;
    }
  }

  ghost function Before(n: nat): (s: set<nat>)
    ensures forall i: nat :: i in s <==> i < n
  {
    if n == 0 then {} else Before(n - 1) + {n - 1}
  }

  ghost function Slipped(fault: Fault): set<nat> {
    if fault.InterruptedAfter? then {fault.k} else {}
  }

  lemma NothingApplied(dir: Dir, ops: seq<Op>)
    ensures Mixed(dir, dir, ops, {})
  {
  }

  /** What the rollback restores, put in terms of the directory alone. */
  lemma RolledBack(dir: Dir, before: Dir, ops: seq<Op>, fault: Fault)
    requires DistinctOps(ops) && !fault.NoFault? && fault.k < |ops| && Mixed(dir, before, ops, Slipped(fault))
    ensures fault.RaisedAt? ==> dir == before
    ensures fault.InterruptedAfter? ==> dir == Put(before, ops[fault.k].path, ops[fault.k].result)
  {
    NothingApplied(before, ops);
    MixedSet(before, before, ops, {}, fault.k, true);
    assert {} + {fault.k} == {fault.k};
    hide Mixed, DistinctOps;
    if fault.RaisedAt? {
      MixedIsUnique(dir, before, before, ops, {});
    } else {
      MixedIsUnique(dir, Put(before, ops[fault.k].path, ops[fault.k].result), before, ops, {fault.k});
    }
  }

  lemma {:induction false} UnlinkPaths(glob: seq<Path>, payloads: seq<Target>)
    requires forall i, j :: 0 <= i < j < |glob| ==> glob[i] != glob[j]
    ensures DistinctOps(Unlinks(glob, payloads))
    ensures forall i :: 0 <= i < |Unlinks(glob, payloads)| ==>
      var op := Unlinks(glob, payloads)[i]; op.result.Absent? && op.path in glob && op.path !in Paths(payloads)
    ensures forall p :: p in glob && p !in Paths(payloads) ==> Touched(Unlinks(glob, payloads), p)
  {
    if glob != [] {
      var rest, last := glob[..|glob| - 1], glob[|glob| - 1];
      hide Paths;
      UnlinkPaths(rest, payloads);
      var ops := Unlinks(glob, payloads);
      forall p | p in glob && p !in Paths(payloads) ensures Touched(ops, p) {
        if p == last {
          assert ops[|ops| - 1].path == p;
        } else {
          assert p in rest;
          var i :| 0 <= i < |Unlinks(rest, payloads)| && Unlinks(rest, payloads)[i].path == p;
          assert ops[i].path == p;
        }
      }
    }
  }

  lemma HandoverIsDistinct(dir: Dir, payloads: seq<Target>, glob: seq<Path>, freshMode: nat)
    requires DistinctTargets(payloads) && IsGlob(glob, dir)
    ensures DistinctOps(Handover(dir, payloads, glob, freshMode))
  {
    UnlinkPaths(glob, payloads);
    hide Unlinks, IsGlob, Staged;
    var ops, n := Handover(dir, payloads, glob, freshMode), |payloads|;
    forall i, j | 0 <= i < j < |ops| ensures ops[i].path != ops[j].path {
      if i < n <= j { assert payloads[i].path in Paths(payloads) && ops[j] == Unlinks(glob, payloads)[j - n]; }
    }
  }

  /** How many operations there are: one for each payload, and one for each vector of an older build. */
  lemma {:induction false} UnlinkCount(glob: seq<Path>, payloads: seq<Target>, stale: set<Path>)
    requires forall i, j :: 0 <= i < j < |glob| ==> glob[i] != glob[j]
    requires forall p :: p in stale <==> p in glob && p !in Paths(payloads)
    ensures |Unlinks(glob, payloads)| == |stale|
  {
    hide Paths;
    if glob == [] {
      assert stale == {};
    } else {
      var rest, last := glob[..|glob| - 1], glob[|glob| - 1];
      assert glob == rest + [last];
      UnlinkCount(rest, payloads, stale - {last});
      OneMore(stale - {last}, stale, last, last !in Paths(payloads));
    }
  }

  lemma HandoverCount(before: Dir, payloads: seq<Target>, glob: seq<Path>, freshMode: nat)
    requires IsGlob(glob, before)
    ensures |Handover(before, payloads, glob, freshMode)| ==
      |payloads| + |Stale(before, payloads)|
  {
    UnlinkCount(glob, payloads, Stale(before, payloads));
  }

  /** What operation k alone does. */
  lemma OpTakesEffect(before: Dir, payloads: seq<Target>, glob: seq<Path>, freshMode: nat, k: nat)
    requires IsGlob(glob, before) && k < |Handover(before, payloads, glob, freshMode)|
    ensures var op := Handover(before, payloads, glob, freshMode)[k];
      OneTookEffect(Put(before, op.path, op.result), before, payloads, freshMode, k)
  {
    var op, n := Handover(before, payloads, glob, freshMode)[k], |payloads|;
    UnlinkPaths(glob, payloads);
    hide Unlinks;
    if k >= n {
      assert op == Unlinks(glob, payloads)[k - n];
      assert forall i :: 0 <= i < n ==> payloads[i].path in Paths(payloads);
    }
  }

  /** A completed handover publishes: content, modes, the vectors of this build only, all else untouched. */
  lemma PublishedExactly(dir: Dir, before: Dir, payloads: seq<Target>, glob: seq<Path>, freshMode: nat)
    requires DistinctTargets(payloads) && IsGlob(glob, before)
    requires var ops := Handover(before, payloads, glob, freshMode);
      Mixed(dir, before, ops, Before(|ops|))
    ensures Published(dir, before, payloads, freshMode)
  {
    hide Handover, Mixed, IsPublished, IsGlob;
    PayloadsArePublished(dir, before, payloads, glob, freshMode);
    forall key ensures Vector(key) in dir <==> Vector(key) in Paths(payloads) {
      if Vector(key) in Paths(payloads) {
        var i :| 0 <= i < |payloads| && payloads[i].path == Vector(key);
        assert IsPublished(dir, before, payloads[i], freshMode);
        PublishedIsThere(dir, before, payloads[i], freshMode);
      } else {
        StaleIsGone(dir, before, payloads, glob, freshMode, Vector(key));
      }
    }
    forall p: Path | !p.Vector? && p !in Paths(payloads) ensures Look(dir, p) == Look(before, p) {
      GlobIsVectors(glob, before, p);
      OtherIsUntouched(dir, before, payloads, glob, freshMode, p);
    }
  }

  lemma PublishedIsThere(dir: Dir, before: Dir, t: Target, freshMode: nat)
    requires IsPublished(dir, before, t, freshMode)
    ensures t.path in dir
  {
  }

  lemma PayloadsArePublished(dir: Dir, before: Dir, payloads: seq<Target>, glob: seq<Path>, freshMode: nat)
    requires var ops := Handover(before, payloads, glob, freshMode);
      Mixed(dir, before, ops, Before(|ops|))
    ensures forall i :: 0 <= i < |payloads| ==> IsPublished(dir, before, payloads[i], freshMode)
  {
    hide Unlinks;
    var ops := Handover(before, payloads, glob, freshMode);
    forall i | 0 <= i < |payloads| ensures IsPublished(dir, before, payloads[i], freshMode) {
      assert Look(dir, ops[i].path) == ops[i].result;
    }
  }

  lemma OtherIsUntouched(dir: Dir, before: Dir, payloads: seq<Target>, glob: seq<Path>, freshMode: nat, p: Path)
    requires IsGlob(glob, before) && p !in Paths(payloads) && p !in glob
    requires var ops := Handover(before, payloads, glob, freshMode);
      Mixed(dir, before, ops, Before(|ops|))
    ensures Look(dir, p) == Look(before, p)
  {
    NotHandedOver(before, payloads, glob, freshMode, p);
    hide Handover, IsGlob;
  }

  lemma GlobIsVectors(glob: seq<Path>, before: Dir, p: Path)
    requires IsGlob(glob, before) && !p.Vector?
    ensures p !in glob
  {
  }

  lemma NotHandedOver(before: Dir, payloads: seq<Target>, glob: seq<Path>, freshMode: nat, p: Path)
    requires IsGlob(glob, before) && p !in Paths(payloads) && p !in glob
    ensures !Touched(Handover(before, payloads, glob, freshMode), p)
  {
    var ops, n := Handover(before, payloads, glob, freshMode), |payloads|;
    UnlinkPaths(glob, payloads);
    hide Unlinks, IsGlob, Staged;
    forall i | 0 <= i < |ops| ensures ops[i].path != p {
      if i < n { assert payloads[i].path in Paths(payloads); } else { assert ops[i] == Unlinks(glob, payloads)[i - n]; }
    }
  }

  lemma StaleIsGone(dir: Dir, before: Dir, payloads: seq<Target>, glob: seq<Path>, freshMode: nat, p: Path)
    requires IsGlob(glob, before) && p !in Paths(payloads) && p.Vector?
    requires var ops := Handover(before, payloads, glob, freshMode);
      Mixed(dir, before, ops, Before(|ops|))
    ensures p !in dir
  {
    var ops, n := Handover(before, payloads, glob, freshMode), |payloads|;
    UnlinkPaths(glob, payloads);
    hide Unlinks;
    if p in glob {
      var i :| 0 <= i < |Unlinks(glob, payloads)| && Unlinks(glob, payloads)[i].path == p;
      assert ops[n + i] == Unlinks(glob, payloads)[i];
      assert Look(dir, ops[n + i].path) == ops[n + i].result;
    } else {
      NotHandedOver(before, payloads, glob, freshMode, p);
      assert Look(dir, p) == Look(before, p);
    }
  }

  /**
   The exact extent of "rollback of caught handover errors": an interrupt that slips between an
   operation and its bookkeeping is undone if and only if that operation changed nothing.
   */
  lemma SlippedInterruptExactly(before: Dir, op: Op)
    ensures Put(before, op.path, op.result) == before <==> Look(before, op.path) == op.result
  {
    var after := Put(before, op.path, op.result);
    assert Look(after, op.path) == op.result;
  }
}
