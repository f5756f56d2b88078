/// What compaction, snapshots and retention do to the replica is maintenance in the sense the
/// staging protocol relies on (src/sync/mod.rs:766-1013, 1201-1228).

module Maintenance {
  import opened LtxFiles
  import opened Planner
  import opened Retention
  import R = Replica
  import S = Staging

  /// The replica's objects, however its files are encoded.
  ghost function ObjectsOf<V, F>(r: R.Replica<V>, encode: (FileKey, LtxFile<V>) -> S.Object<F>): S.Objects<F> {
    map k | k in R.AllKeys(r.levels) && R.Listed(r.levels, k) :: encode(k, R.FileAt(r.levels, k))
  }

  /// Every step but a sync keeps the newest level-0 file, adds none to level 0, changes none
  /// there, and reaches no further, whatever the log of level-0 files made durable.
  lemma StepMaintains<V, F>(r: R.Replica<V>, s: R.Step<V>, pageSize: nat, zero: V,
    encode: (FileKey, LtxFile<V>) -> S.Object<F>, log: seq<S.Object<F>>)
    requires pageSize > 0 && R.Valid(r, LockPgno(pageSize)) && !s.Sync? && |log| == |r.h|
    ensures S.Maintains(log, ObjectsOf(r, encode), ObjectsOf(R.Next(r, s, pageSize), encode))
  {
    var lock, next := LockPgno(pageSize), R.Next(r, s, pageSize);
    R.StepKeepsValid(r, s, pageSize, zero);
    assert next.h == r.h;
    LevelZeroShrinks(r, s, pageSize);
    R.KeysValid(next, lock);
    forall k | k in ObjectsOf(next, encode) && k.level == 0
      ensures k in ObjectsOf(r, encode) && ObjectsOf(next, encode)[k] == ObjectsOf(r, encode)[k]
    {
      SameFile(r, next, lock, k);
      R.AllKeysListed(r.levels, k);
    }
    if log != [] {
      NewestListed(next, lock);
      R.AllKeysListed(next.levels, S.L0Key(|log|));
    }
    MaintainsByParts(log, r, next, encode);
  }

  lemma MaintainsByParts<V, F>(log: seq<S.Object<F>>, r: R.Replica<V>, next: R.Replica<V>,
    encode: (FileKey, LtxFile<V>) -> S.Object<F>)
    requires |log| == |next.h| && ValidKeys(R.AllKeys(next.levels)) && Head(R.AllKeys(next.levels)) == |next.h|
    requires forall k :: k in ObjectsOf(next, encode) && k.level == 0 ==>
      k in ObjectsOf(r, encode) && ObjectsOf(next, encode)[k] == ObjectsOf(r, encode)[k]
    requires log != [] ==> S.L0Key(|log|) in ObjectsOf(next, encode)
    ensures S.Maintains(log, ObjectsOf(r, encode), ObjectsOf(next, encode))
  {
    forall k | k in ObjectsOf(next, encode) ensures 1 <= k.min <= k.max <= |log| {
      assert k in R.AllKeys(next.levels);
    }
  }

  lemma NewestListed<V>(r: R.Replica<V>, lock: nat)
    requires R.Valid(r, lock) && r.h != []
    ensures R.Listed(r.levels, S.L0Key(|r.h|))
  {
    var level := r.levels[0];
    assert R.HasKey(level, S.L0Key(|r.h|), |level| - 1);
  }

  /// A level-0 file of `next` is the file of the same key in `r`.
  lemma SameFile<V>(r: R.Replica<V>, next: R.Replica<V>, lock: nat, k: FileKey)
    requires R.Valid(r, lock) && |next.levels| == R.LEVELS && k.level == 0 && R.Listed(next.levels, k)
    requires forall e :: e in next.levels[0] ==> e in r.levels[0]
    ensures R.Listed(r.levels, k) && R.FileAt(next.levels, k) == R.FileAt(r.levels, k)
  {
    var level, file := r.levels[0], R.FileAt(next.levels, k);
    assert R.LevelOk(r.h, r.levels, 0);
    var i :| 0 <= i < |next.levels[0]| && next.levels[0][i].file == file;
    assert next.levels[0][i] in level;
    var j :| 0 <= j < |level| && level[j].file == file;
    assert R.HasKey(level, k, j) && R.Listed(r.levels, k);
    var m :| 0 <= m < |level| && level[m].file == R.FileAt(r.levels, k);
    assert file.max == k.max == R.FileAt(r.levels, k).max;
    assert level[m].file.max == k.max;
    OneEntry(level, m, j);
  }

  lemma OneEntry<V>(level: Level<V>, i: nat, j: nat)
    requires Ordered(level) && i < |level| && j < |level| && level[i].file.max == level[j].file.max
    ensures i == j
  {
  }

  // --- Level 0 only shrinks -------------------------------------------------------------------

  ghost predicate Within<V>(level: Level<V>, of: Level<V>) {
    forall e :: e in level ==> e in of
  }

  lemma LevelZeroShrinks<V>(r: R.Replica<V>, s: R.Step<V>, pageSize: nat)
    requires |r.levels| == R.LEVELS && !s.Sync?
    ensures Within(R.Next(r, s, pageSize).levels[0], r.levels[0])
  {
    match s {
      case CompactInto(_, _) =>
      case TakeSnapshot(_) =>
      case RetainSnapshots(cutoff, maxLevel, deletes) =>
        var p := R.DropSnapshots(r, cutoff, deletes);
        DeleteShrinks(r, SNAPSHOT_LEVEL, ExpiredSnapshots(r.levels[SNAPSHOT_LEVEL], cutoff), deletes);
        var minRetained := MinRetained(r.levels[SNAPSHOT_LEVEL], cutoff);
        PruneShrinks(p.replica, minRetained, maxLevel + 1, p.left);
      case RetainL0(cutoff, deletes) =>
        DeleteShrinks(r, 0, ExpiredL0(r.levels[0], Reach(r.levels[1]), cutoff), deletes);
    }
  }

  lemma DeleteShrinks<V>(r: R.Replica<V>, l: nat, gone: Level<V>, deletes: nat)
    requires |r.levels| == R.LEVELS && l < R.LEVELS
    ensures Within(R.DeleteUpTo(r, l, gone, deletes).replica.levels[0], r.levels[0])
  {
    if l == 0 {
      var k := if deletes < |gone| then deletes else |gone|;
      WithoutMembers(r.levels[0], gone[..k]);
    }
  }

  lemma {:induction false} PruneShrinks<V>(r: R.Replica<V>, txid: nat, n: nat, deletes: nat)
    requires |r.levels| == R.LEVELS
    ensures Within(R.PruneBelow(r, txid, n, deletes).replica.levels[0], r.levels[0])
  {
    if n > 0 {
      PruneShrinks(r, txid, n - 1, deletes);
      var p := R.PruneBelow(r, txid, n - 1, deletes);
      if p.ok && n - 1 < R.LEVELS {
        DeleteShrinks(p.replica, n - 1, ExpiredBelow(p.replica.levels[n - 1], txid), p.left);
      }
    }
  }
}
