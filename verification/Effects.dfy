/// What each maintenance step does to a valid replica: when it acts, the exact file it adds or
/// the exact files it removes, and that everything else stays as it was.

module Effects {
  import opened History
  import opened LtxFiles
  import opened Planner
  import opened Retention
  import opened Restore
  import opened Replica

  /// The file of TXIDs `min` to `max`: every page of theirs still inside, in its newest version.
  ghost function FileFor<V>(h: History<V>, min: nat, max: nat): LtxFile<V>
    requires max <= |h|
  {
    LtxFile(min, max, CommitAt(h, max), Summary(h, min, max))
  }

  // --- Syncs --------------------------------------------------------------------------------------

  /// A sync adds one file to L0, holding what its transaction left inside the database.
  lemma SyncExactly<V>(r: Replica<V>, tx: Tx<V>, created: Age)
    requires |r.levels| == LEVELS
    ensures var h, t := r.h + [tx], |r.h| + 1;
      && Synced(r, tx, created).h == h
      && Synced(r, tx, created).levels == r.levels[0 := r.levels[0] + [Entry(FileFor(h, t, t), created)]]
  {
    var h, t := r.h + [tx], |r.h| + 1;
    assert h[t - 1] == tx;
    assert Newest(h, t, t - 1) == map[];
    assert Newest(h, t, t) == tx.pages;
  }

  // --- Compaction ------------------------------------------------------------------------------

  /// With `n` the number of source files the destination already reaches: there is nothing to do
  /// exactly when that is all of them, and a file is written exactly when there are more and no
  /// TXID is missing between two of them. The file runs from the first of them to the end of the
  /// source, and is the only change.
  lemma CompactionExactly<V>(r: Replica<V>, lock: nat, dst: nat, created: Age, zero: V) returns (n: nat)
    requires Valid(r, lock) && 1 <= dst < SNAPSHOT_LEVEL
    ensures var src := r.levels[dst - 1];
      n <= |src| && forall i :: 0 <= i < |src| ==> (src[i].file.min > Reach(r.levels[dst]) <==> i >= n)
    ensures var (after, outcome), src := CompactLevel(r, dst, created), r.levels[dst - 1];
      && Reach(src) <= |r.h|
      && (outcome == Nothing <==> n == |src|)
      && (outcome == Written <==>
          n < |src| && forall i :: n < i < |src| ==> src[i].file.min <= src[i - 1].file.max + 1)
      && (outcome != Written ==> after == r)
      && (outcome == Written ==>
          var file := FileFor(r.h, src[n].file.min, Reach(src));
          after == r.(levels := r.levels[dst := r.levels[dst] + [Entry(file, created)]]))
  {
    var src, bound := r.levels[dst - 1], Reach(r.levels[dst]);
    assert LevelOk(r.h, r.levels, dst - 1);
    ReachBounded(r.h, src);
    forall i | 0 <= i < |src| ensures src[i].file.min <= src[i].file.max { assert Describes(r.h, src[i].file); }
    n := PastIsSuffix(src, bound);
    AcceptedSuffix(src, n);
    if n < |src| && RangesAccepted(FilesIn(src[n..])) {
      SuffixMerges(r.h, lock, src, n, zero);
    }
  }

  lemma AcceptedSuffix<V>(src: Level<V>, n: nat)
    requires Ordered(src) && n <= |src|
    ensures RangesAccepted(FilesIn(src[n..])) <==>
      forall i :: n < i < |src| ==> src[i].file.min <= src[i - 1].file.max + 1
  {
    var files := FilesIn(src[n..]);
    if RangesAccepted(files) {
      forall i | n < i < |src| ensures src[i].file.min <= src[i - 1].file.max + 1 {
        assert AdjoinsAt(files, i - n);
        assert files[i - n - 1] == src[i - 1].file && files[i - n] == src[i].file;
      }
    }
    if forall i :: n < i < |src| ==> src[i].file.min <= src[i - 1].file.max + 1 {
      forall k | 0 < k < |files| ensures AdjoinsAt(files, k) {
        assert files[k - 1] == src[n + k - 1].file && files[k] == src[n + k].file;
      }
    }
  }

  // --- Snapshots ---------------------------------------------------------------------------------

  /// A snapshot is taken exactly when something was replicated and none stands at HEAD. It is the
  /// whole history in one file, and the only change.
  lemma SnapshotExactly<V>(r: Replica<V>, pageSize: nat, created: Age, zero: V)
    requires pageSize > 0 && Valid(r, LockPgno(pageSize))
    ensures var (after, outcome), snaps := Snapshotted(r, pageSize, created), r.levels[SNAPSHOT_LEVEL];
      && (outcome == Written <==> r.h != [] && Reach(snaps) < |r.h|)
      && (outcome != Written ==> outcome == Nothing && after == r)
      && (outcome == Written ==>
          after == r.(levels := r.levels[SNAPSHOT_LEVEL := snaps + [Entry(FileFor(r.h, 1, |r.h|), created)]]))
  {
    ReachBounded(r.h, r.levels[SNAPSHOT_LEVEL]);
    SnapshotKeepsValid(r, pageSize, created, zero);
    if r.h == [] {
      KeysValid(r, LockPgno(pageSize));
      HeadPositive(AllKeys(r.levels));
    } else {
      StandsExactlyAtReach(r, LockPgno(pageSize));
      if Reach(r.levels[SNAPSHOT_LEVEL]) < |r.h| {
        PlanReachesHead(r, pageSize);
        var files := FilesOf(StoreOf(r.levels, pageSize), FullPlan(AllKeys(r.levels)).value);
        PlanMergesToSnapshot(r.h, LockPgno(pageSize), files, zero);
      }
    }
  }

  // --- Retention -----------------------------------------------------------------------------------

  /// L0 retention removes as much of the head of L0 as is folded into L1 and not known to be newer
  /// than the cutoff, short of the newest file and of the deletions the store allows; it goes
  /// through exactly when the store allows them all.
  lemma L0PassExactly<V>(r: Replica<V>, lock: nat, cutoff: int, deletes: nat) returns (n: nat)
    requires Valid(r, lock)
    ensures var level := r.levels[0];
      n <= |level| && forall i :: 0 <= i < |level| ==>
        (i < n <==>
          && i < |level| - 1 && level[i].file.max <= Reach(r.levels[1])
          && forall j :: 0 <= j <= i && level[j].created.At? ==> level[j].created.time <= cutoff)
    ensures var gone := if deletes < n then deletes else n;
      L0Pass(r, cutoff, deletes) == Pass(r.(levels := r.levels[0 := r.levels[0][gone..]]), deletes - gone, n <= deletes)
  {
    var level, maxL1 := r.levels[0], Reach(r.levels[1]);
    assert LevelOk(r.h, r.levels, 0);
    n := L0ExpiredIsPrefix(level, maxL1, cutoff);
    forall i | 0 <= i < |level| ensures level[i].file.max > 0 { assert Describes(r.h, level[i].file); }
    var gone := if deletes < n then deletes else n;
    assert level[..n][..gone] == level[..gone];
    WithoutPrefix(level, gone);
  }

  /// `level` is `of` without the entries ending before `txid`, the newest excepted.
  ghost predicate Pruned<V>(of: Level<V>, level: Level<V>, txid: nat) {
    && Ordered(level)
    && (forall e :: e in level ==> e in of && (txid <= e.file.max || e == Last(of)))
    && (forall e :: e in of && (txid <= e.file.max || e == Last(of)) ==> e in level)
  }

  lemma PruneLevelExactly<V>(r: Replica<V>, l: nat, txid: nat, deletes: nat)
    requires |r.levels| == LEVELS && l < LEVELS && Ordered(r.levels[l])
    requires |ExpiredBelow(r.levels[l], txid)| <= deletes
    ensures var p := PruneLevel(r, l, txid, deletes);
      && p.ok && p.left == deletes - |ExpiredBelow(r.levels[l], txid)|
      && Pruned(r.levels[l], p.replica.levels[l], txid)
      && p.replica == r.(levels := r.levels[l := p.replica.levels[l]])
  {
    var level, gone := r.levels[l], ExpiredBelow(r.levels[l], txid);
    assert gone[..|gone|] == gone;
    WithoutMembers(level, gone);
    SelectOrdered(level, NotIn(gone));
    forall e | e in level ensures e in gone <==> e.file.max < txid && e != Last(level) {
      KeepsNewest(level, EndsBefore(txid), e);
    }
  }

  /// The number of files in the first `n` levels.
  ghost function Files<V>(levels: seq<Level<V>>, n: nat): nat
    requires n <= |levels|
  {
    if n == 0 then 0 else Files(levels, n - 1) + |levels[n - 1]|
  }

  lemma {:induction false} PruneBelowExactly<V>(r: Replica<V>, txid: nat, n: nat, deletes: nat)
    requires |r.levels| == LEVELS && n <= SNAPSHOT_LEVEL && forall l :: 0 <= l < n ==> Ordered(r.levels[l])
    requires Files(r.levels, n) <= deletes
    ensures var p := PruneBelow(r, txid, n, deletes);
      && p.ok && p.left >= deletes - Files(r.levels, n)
      && (forall l :: 0 <= l < n ==> Pruned(r.levels[l], p.replica.levels[l], txid))
      && (forall l :: n <= l < LEVELS ==> p.replica.levels[l] == r.levels[l])
  {
    if n > 0 {
      PruneBelowExactly(r, txid, n - 1, deletes);
      var p := PruneBelow(r, txid, n - 1, deletes);
      NoMore(r.levels[n - 1], txid);
      PruneLevelExactly(p.replica, n - 1, txid, p.left);
    }
  }

  lemma NoMore<V>(level: Level<V>, txid: nat)
    requires Ordered(level)
    ensures |ExpiredBelow(level, txid)| <= |level|
  {
    var n := BelowTxidIsPrefix(level, txid);
  }

  /// No snapshot is left that ends before the oldest one kept by age, except the newest, so
  /// pruning the snapshot level too, or levels past it, takes nothing more.
  lemma {:induction false} PruneSnapshotsToo<V>(r: Replica<V>, txid: nat, n: nat, deletes: nat)
    requires |r.levels| == LEVELS && SNAPSHOT_LEVEL <= n && PruneBelow(r, txid, SNAPSHOT_LEVEL, deletes).ok
    requires ExpiredBelow(PruneBelow(r, txid, SNAPSHOT_LEVEL, deletes).replica.levels[SNAPSHOT_LEVEL], txid) == []
    ensures PruneBelow(r, txid, n, deletes) == PruneBelow(r, txid, SNAPSHOT_LEVEL, deletes)
  {
    if n > SNAPSHOT_LEVEL {
      PruneSnapshotsToo(r, txid, n - 1, deletes);
      if n - 1 == SNAPSHOT_LEVEL {
        DeletesNothing(PruneBelow(r, txid, n - 1, deletes).replica, SNAPSHOT_LEVEL);
      }
    }
  }

  /// `level` is `of` without the entries known to be older than the cutoff, the newest excepted.
  ghost predicate Dropped<V>(of: Level<V>, level: Level<V>, cutoff: int) {
    && Ordered(level)
    && (forall e :: e in level ==> e in of && (e == Last(of) || e.created == Unknown || e.created.time >= cutoff))
    && (forall e :: e in of && (e == Last(of) || e.created == Unknown || e.created.time >= cutoff) ==> e in level)
  }

  lemma DropExactly<V>(r: Replica<V>, cutoff: int, deletes: nat)
    requires |r.levels| == LEVELS && Ordered(r.levels[SNAPSHOT_LEVEL]) && |r.levels[SNAPSHOT_LEVEL]| <= deletes
    ensures var p, snaps := DropSnapshots(r, cutoff, deletes), r.levels[SNAPSHOT_LEVEL];
      && p.ok && p.left >= deletes - |snaps|
      && Dropped(snaps, p.replica.levels[SNAPSHOT_LEVEL], cutoff)
      && p.replica == r.(levels := r.levels[SNAPSHOT_LEVEL := p.replica.levels[SNAPSHOT_LEVEL]])
  {
    var level, gone := r.levels[SNAPSHOT_LEVEL], ExpiredSnapshots(r.levels[SNAPSHOT_LEVEL], cutoff);
    assert gone[..|gone|] == gone;
    WithoutMembers(level, gone);
    SelectOrdered(level, NotIn(gone));
    forall e | e in level ensures e in gone <==> e.created.At? && e.created.time < cutoff && e != Last(level) {
      KeepsNewest(level, IsExpired(cutoff), e);
    }
  }

  lemma NothingBelow<V>(snaps: Level<V>, kept: Level<V>, cutoff: int)
    requires Ordered(snaps) && Dropped(snaps, kept, cutoff)
    requires forall i :: 0 <= i < |snaps| ==> snaps[i].file.max > 0
    ensures ExpiredBelow(kept, MinRetained(snaps, cutoff)) == []
  {
    var least := MinRetained(snaps, cutoff);
    MinRetainedIsLeast(snaps, cutoff);
    forall i | 0 <= i < |kept| - 1 ensures least <= kept[i].file.max {
      assert kept[i] in kept && Last(kept) in kept;
      var k :| 0 <= k < |snaps| && snaps[k] == kept[i];
      var last :| 0 <= last < |snaps| && snaps[last] == Last(kept);
      assert k < last;
    }
    var n := BelowTxidIsPrefix(kept, least);
    assert |kept| > 1 ==> least <= kept[0].file.max;
    assert kept[..0] == [];
  }

  /// Pruning every level up to `maxLevel`, of which the snapshot level has nothing to lose.
  lemma PruneUpToExactly<V>(r: Replica<V>, txid: nat, maxLevel: nat, deletes: nat)
    requires |r.levels| == LEVELS && forall l :: 0 <= l < SNAPSHOT_LEVEL ==> Ordered(r.levels[l])
    requires ExpiredBelow(r.levels[SNAPSHOT_LEVEL], txid) == [] && Files(r.levels, SNAPSHOT_LEVEL) <= deletes
    ensures var p := PruneBelow(r, txid, maxLevel + 1, deletes);
      && p.ok && p.replica.levels[SNAPSHOT_LEVEL] == r.levels[SNAPSHOT_LEVEL]
      && (forall l :: 0 <= l < SNAPSHOT_LEVEL && l <= maxLevel ==> Pruned(r.levels[l], p.replica.levels[l], txid))
      && (forall l :: maxLevel < l < SNAPSHOT_LEVEL ==> p.replica.levels[l] == r.levels[l])
  {
    var n := if maxLevel + 1 < SNAPSHOT_LEVEL then maxLevel + 1 else SNAPSHOT_LEVEL;
    FewerFiles(r.levels, n, SNAPSHOT_LEVEL);
    PruneBelowExactly(r, txid, n, deletes);
    if maxLevel + 1 > SNAPSHOT_LEVEL {
      PruneSnapshotsToo(r, txid, maxLevel + 1, deletes);
    }
  }

  /// Nothing ends before TXID 0.
  lemma PruneNothing<V>(level: Level<V>)
    requires Ordered(level)
    ensures Pruned(level, level, 0)
  {
  }

  /// Snapshot retention, when the store allows as many deletions as there are files: the expired
  /// snapshots go, the newest excepted, and every level up to `maxLevel` loses the files that end
  /// before the oldest snapshot kept by age, each level's newest excepted.
  lemma SnapshotPassExactly<V>(r: Replica<V>, lock: nat, cutoff: int, maxLevel: nat, deletes: nat)
    requires Valid(r, lock) && Files(r.levels, LEVELS) <= deletes
    ensures var p, least := SnapshotPass(r, cutoff, maxLevel, deletes), MinRetained(r.levels[SNAPSHOT_LEVEL], cutoff);
      && p.ok
      && Dropped(r.levels[SNAPSHOT_LEVEL], p.replica.levels[SNAPSHOT_LEVEL], cutoff)
      && (forall l :: 0 <= l < SNAPSHOT_LEVEL && l <= maxLevel ==> Pruned(r.levels[l], p.replica.levels[l], least))
      && (forall l :: maxLevel < l < SNAPSHOT_LEVEL ==> p.replica.levels[l] == r.levels[l])
  {
    forall l | 0 <= l < SNAPSHOT_LEVEL ensures Ordered(r.levels[l]) { assert LevelOk(r.h, r.levels, l); }
    var snaps, least := r.levels[SNAPSHOT_LEVEL], MinRetained(r.levels[SNAPSHOT_LEVEL], cutoff);
    forall i | 0 <= i < |snaps| ensures snaps[i].file.max > 0 { assert Describes(r.h, snaps[i].file); }
    DropExactly(r, cutoff, deletes);
    var p := DropSnapshots(r, cutoff, deletes);
    SameFiles(r.levels, p.replica.levels, SNAPSHOT_LEVEL);
    if least == 0 {
      forall l | 0 <= l < SNAPSHOT_LEVEL ensures Pruned(r.levels[l], p.replica.levels[l], least) {
        PruneNothing(r.levels[l]);
      }
    } else {
      NothingBelow(snaps, p.replica.levels[SNAPSHOT_LEVEL], cutoff);
      PruneUpToExactly(p.replica, least, maxLevel, p.left);
    }
  }

  lemma {:induction false} SameFiles<V>(a: seq<Level<V>>, b: seq<Level<V>>, n: nat)
    requires n <= |a| && n <= |b| && forall l :: 0 <= l < n ==> a[l] == b[l]
    ensures Files(a, n) == Files(b, n)
  {
    if n > 0 { SameFiles(a, b, n - 1); }
  }

  lemma {:induction false} FewerFiles<V>(levels: seq<Level<V>>, n: nat, k: nat)
    requires n <= k <= |levels|
    ensures Files(levels, n) <= Files(levels, k)
    decreases k
  {
    if n < k { FewerFiles(levels, n, k - 1); }
  }
}
