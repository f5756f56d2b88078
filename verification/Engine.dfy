/// The sync engine's operations on its replica, as the source performs them: an object whose
/// fields change step by step, with deletions that may fail part way. Each is proved against
/// the step functions of module `Replica`, so what is proved of every run of those holds of
/// every run of these.

module Engine {
  import opened History
  import opened LtxFiles
  import opened Planner
  import opened Restore
  import opened Retention
  import opened Merge
  import R = Replica

  // --- Frames and pages ------------------------------------------------------------------------

  /// The pages a file's frames hold.
  function PagesOf<V>(frames: seq<Frame<V>>): map<nat, V> {
    if frames == [] then map[]
    else PagesOf(frames[..|frames| - 1])[frames[|frames| - 1].pgno := frames[|frames| - 1].data]
  }

  lemma {:induction false} PagesOfFrames<V>(pages: map<nat, V>, commit: nat)
    ensures forall p :: p in PagesOf(Frames(pages, commit)) <==> p in pages && 1 <= p <= commit
    ensures forall p :: p in PagesOf(Frames(pages, commit)) ==> PagesOf(Frames(pages, commit))[p] == pages[p]
  {
    if commit > 0 {
      PagesOfFrames(pages, commit - 1);
      var init := Frames(pages, commit - 1);
      if commit in pages {
        assert (init + [Frame(commit, pages[commit])])[..|init|] == init;
      } else {
        assert init + [] == init;
      }
    }
  }

  lemma WrittenPages<V>(files: seq<LtxFile<V>>, commit: nat)
    requires AllInRange(files)
    ensures PagesOf(Frames(Trim(Override(files), commit), commit)) == Trim(Override(files), commit)
  {
    PagesOfFrames(Trim(Override(files), commit), commit);
    OverrideInRange(files);
  }

  lemma {:induction false} OverrideInRange<V>(files: seq<LtxFile<V>>)
    requires AllInRange(files)
    ensures forall p :: p in Override(files) ==> 1 <= p
  {
    if files != [] {
      assert InRange(files[|files| - 1]);
      OverrideInRange(files[..|files| - 1]);
    }
  }

  lemma DescribedInRange<V>(h: History<V>, lock: nat, files: seq<LtxFile<V>>, zero: V)
    requires WellFormed(h, lock) && AllDescribe(h, files)
    ensures AllInRange(files)
  {
    forall i | 0 <= i < |files| ensures InRange(files[i]) {
      assert Describes(h, files[i]);
      forall p | p in files[i].pages ensures 1 <= p <= files[i].commit {
        SummaryPage(h, lock, files[i].min, files[i].max, p, zero);
      }
    }
  }

  // --- The engine ----------------------------------------------------------------------------------

  datatype Compaction = Compacted(min: nat, max: nat, inputs: nat) | UpToDate | Refused | BadLevel | StoreFailed

  /// Whether the store serves an operation's downloads, and takes its upload.
  datatype Weather = Weather(fetches: bool, uploads: bool)

  class Syncer<V(==)> {
    const pageSize: nat
    const zero: V
    var levels: seq<Level<V>>
    var deletesLeft: nat
    ghost var h: History<V>

    ghost function Here(): R.Replica<V>
      reads this
    {
      R.Replica(h, levels)
    }

    ghost predicate Valid()
      reads this
    {
      pageSize > 0 && R.Valid(Here(), LockPgno(pageSize))
    }

    constructor (pageSize: nat, zero: V)
      requires pageSize > 0
      ensures Valid() && h == [] && Here() == R.Empty() && this.pageSize == pageSize
    {
      this.pageSize, this.zero := pageSize, zero;
      levels, deletesLeft, h := seq(R.LEVELS, _ => []), 0, [];
      new;
      R.RunIsValid<V>([], pageSize, zero);
      assert Here() == R.Run<V>([], pageSize);
    }

    /// `open`, over whatever an earlier process left in the replica.
    constructor Open(pageSize: nat, zero: V, levels: seq<Level<V>>, ghost h: History<V>)
      requires pageSize > 0 && R.Valid(R.Replica(h, levels), LockPgno(pageSize))
      ensures Valid() && Here() == R.Replica(h, levels) && this.pageSize == pageSize
    {
      this.pageSize, this.zero := pageSize, zero;
      this.levels, deletesLeft, this.h := levels, 0, h;
    }

    /// `sync`, once its file is staged and uploaded.
    method Sync(tx: Tx<V>, created: Age, txid: nat)
      requires Valid() && WellFormed(h + [tx], LockPgno(pageSize)) && txid == |h| + 1
      modifies this`levels, this`h
      ensures Valid() && Here() == R.Synced(old(Here()), tx, created)
    {
      R.SyncKeepsValid(Here(), LockPgno(pageSize), tx, created, zero);
      var file := LtxFile(txid, txid, tx.commit, Trim(tx.pages, tx.commit));
      levels := levels[0 := levels[0] + [Entry(file, created)]];
      h := h + [tx];
    }

    /// The largest TXID a level reaches.
    method MaxTxid(l: nat) returns (m: nat)
      requires Valid() && l < R.LEVELS
      ensures m == Reach(levels[l])
    {
      m := 0;
      LevelsOrdered(Here(), LockPgno(pageSize), l);
      for i := 0 to |levels[l]|
        invariant m == if i == 0 then 0 else levels[l][i - 1].file.max
      {
        if levels[l][i].file.max > m {
          m := levels[l][i].file.max;
        }
      }
    }

    /// `compact_level`: merges what the level below has past the destination's frontier into
    /// one new file, deleting nothing. If the store fails, nothing changes.
    method CompactLevel(dst: nat, created: Age, weather: Weather) returns (r: Compaction)
      requires Valid()
      modifies this`levels
      ensures Valid()
      ensures r.BadLevel? <==> dst == 0 || dst >= SNAPSHOT_LEVEL
      ensures r.BadLevel? || r.StoreFailed? ==> levels == old(levels)
      ensures !r.BadLevel? ==>
        var (after, outcome) := R.CompactLevel(old(Here()), dst, created);
        && (!r.StoreFailed? ==> Here() == after)
        && (r.UpToDate? <==> outcome.Nothing?)
        && (r.Refused? <==> outcome.GapError? && weather.fetches)
        && (r.Compacted? <==> outcome.Written? && weather.fetches && weather.uploads)
      ensures r.Compacted? ==>
        var src := old(levels)[dst - 1];
        && 0 < r.inputs <= |src|
        && (forall i :: 0 <= i < |src| ==>
            (src[i].file.min > old(Reach(levels[dst])) <==> i >= |src| - r.inputs))
        && r.min == src[|src| - r.inputs].file.min && r.max == Reach(src)
    {
      if dst == 0 || dst >= SNAPSHOT_LEVEL {
        return BadLevel;
      }
      R.CompactKeepsValid(Here(), LockPgno(pageSize), dst, created, zero);
      ghost var first := FirstPast(Here(), LockPgno(pageSize), dst);
      var dstMax := MaxTxid(dst);
      var src := R.Past(levels[dst - 1], dstMax);
      if src == [] {
        return Compaction.UpToDate;
      }
      if !weather.fetches {
        return StoreFailed;
      }
      var files := R.FilesIn(src);
      PastInRange(Here(), LockPgno(pageSize), dst - 1, dstMax, zero);
      var merged := CompactToWriter(files, seq(|files|, _ => pageSize));
      match merged {
        case NoInputs => assert false;
        case BadPageSize(_) => assert false;
        case BadRange => return Refused;
        case Compacted(min, max, commit, frames) =>
          if !weather.uploads {
            return StoreFailed;
          }
          WrittenPages(files, commit);
          var file := LtxFile(min, max, commit, PagesOf(frames));
          levels := levels[dst := levels[dst] + [Entry(file, created)]];
          return Compaction.Compacted(min, max, |files|);
      }
    }

    /// The file a listed key names; a level has one file a key.
    method Get(k: FileKey) returns (file: LtxFile<V>)
      requires Valid() && R.Listed(levels, k)
      ensures file == R.FileAt(levels, k)
    {
      var i: nat :| i < |levels[k.level]| && R.HasKey(levels[k.level], k, i);
      LevelsOrdered(Here(), LockPgno(pageSize), k.level);
      OneFileAKey(levels[k.level], k, i);
      file := levels[k.level][i].file;
    }

    /// Fetches the files of a plan.
    method Fetch(plan: seq<FileKey>) returns (files: seq<LtxFile<V>>)
      requires Valid() && Present(R.StoreOf(levels, pageSize), plan)
      ensures files == FilesOf(R.StoreOf(levels, pageSize), plan)
    {
      files := [];
      for i := 0 to |plan|
        invariant |files| == i && forall j :: 0 <= j < i ==> files[j] == R.StoreOf(levels, pageSize)[plan[j]].file
      {
        assert plan[i] in R.StoreOf(levels, pageSize);
        var file := Get(plan[i]);
        files := files + [file];
      }
    }

    /// Whether a snapshot already covers TXIDs 1 to `head`.
    method SnapshotCovers(head: nat) returns (covers: bool)
      requires Valid()
      ensures covers <==> R.SnapshotStands(levels[SNAPSHOT_LEVEL], head)
    {
      var snaps := levels[SNAPSHOT_LEVEL];
      covers := exists i :: 0 <= i < |snaps| && snaps[i].file.min == 1 && snaps[i].file.max == head;
    }

    /// Fetches a restore plan's files and merges them.
    method MergePlan(plan: seq<FileKey>, head: nat) returns (merged: LtxFile<V>, inputs: nat)
      requires Valid() && Present(R.StoreOf(levels, pageSize), plan)
      requires plan != [] && AllDescribe(h, FilesOf(R.StoreOf(levels, pageSize), plan))
      ensures merged == Merged(FilesOf(R.StoreOf(levels, pageSize), plan)).(min := 1, max := head)
      ensures inputs == |plan|
    {
      var files := Fetch(plan);
      DescribedInRange(h, LockPgno(pageSize), files, zero);
      var commit := files[|files| - 1].commit;
      var frames := MergeToWriter(files, commit);
      WrittenPages(files, commit);
      return LtxFile(1, head, commit, PagesOf(frames)), |files|;
    }

    /// `plan_restore` over every file listed.
    method PlanAll(keys: seq<FileKey>) returns (r: Planner.Result<seq<FileKey>>)
      ensures r == FullPlan(keys)
    {
      r := PlanRestore(keys);
    }

    /// `snapshot`: merges a full restore plan into one file for TXIDs 1 to HEAD. If the store
    /// fails, nothing changes.
    method Snapshot(created: Age, weather: Weather) returns (r: Compaction)
      requires Valid()
      modifies this`levels
      ensures Valid() && Here() ==
        if r.StoreFailed? then old(Here()) else R.Snapshotted(old(Here()), pageSize, created).0
      ensures r.UpToDate? <==> R.Snapshotted(old(Here()), pageSize, created).1.Nothing?
      ensures r.Compacted? <==>
        R.Snapshotted(old(Here()), pageSize, created).1.Written? && weather.fetches && weather.uploads
      ensures r.UpToDate? || r.Compacted? || r.StoreFailed?
      ensures r.Compacted? ==>
        r == Compaction.Compacted(1, |h|, |Greedy(R.AllKeys(old(levels)), 0)|)
    {
      ghost var before := Here();
      R.SnapshotKeepsValid(before, pageSize, created, zero);
      var keys := R.AllKeys(levels);
      if keys == [] {
        SnapshottedIs(before, pageSize, created);
        return Compaction.UpToDate;
      }
      var head := Planner.Head(keys);
      var covers := SnapshotCovers(head);
      SnapshottedIs(before, pageSize, created);
      if covers {
        return Compaction.UpToDate;
      }
      var plan := PlanAll(keys);
      if !weather.fetches || !weather.uploads {
        return StoreFailed;
      }
      var merged, inputs := MergePlan(plan.value, head);
      levels := levels[SNAPSHOT_LEVEL := levels[SNAPSHOT_LEVEL] + [Entry(merged, created)]];
      return Compaction.Compacted(1, head, inputs);
    }

    /// Deletes files one by one, in the store and then in the index, until the store fails.
    method DeleteFiles(l: nat, gone: Level<V>) returns (ok: bool)
      requires |levels| == R.LEVELS && l < R.LEVELS
      modifies this`levels, this`deletesLeft
      ensures R.Pass(Here(), deletesLeft, ok) == R.DeleteUpTo(old(Here()), l, gone, old(deletesLeft))
    {
      WithoutNothing(levels[l], gone);
      for i := 0 to |gone|
        invariant i <= old(deletesLeft) && deletesLeft == old(deletesLeft) - i
        invariant |levels| == old(|levels|) && levels == old(levels)[l := Without(old(levels)[l], gone[..i])]
      {
        if deletesLeft == 0 {
          return false;
        }
        deletesLeft := deletesLeft - 1;
        WithoutOneMore(old(levels)[l], gone, i);
        levels := levels[l := Without(levels[l], [gone[i]])];
      }
      return true;
    }

    /// `enforce_retention_by_txid`, at any level and TXID. A TXID past the newest snapshot
    /// may take what no snapshot covers; retention itself never asks for one.
    method EnforceRetentionByTxid(l: nat, txid: nat) returns (ok: bool)
      requires Valid()
      modifies this`levels, this`deletesLeft
      ensures txid <= old(Reach(levels[SNAPSHOT_LEVEL])) ==>
        Valid() && Reach(levels[SNAPSHOT_LEVEL]) == old(Reach(levels[SNAPSHOT_LEVEL]))
      ensures R.Pass(Here(), deletesLeft, ok) == R.PruneLevel(old(Here()), l, txid, old(deletesLeft))
    {
      if txid <= Reach(levels[SNAPSHOT_LEVEL]) {
        R.PruneLevelKeepsValid(Here(), LockPgno(pageSize), l, txid, deletesLeft);
      }
      if l >= R.LEVELS {
        return true;
      }
      var gone := BelowTxid(levels[l], txid);
      ok := DeleteFiles(l, gone);
    }

    /// The cascade of `enforce_snapshot_retention` over levels `0..=maxLevel`.
    method PruneLevels(txid: nat, maxLevel: nat) returns (ok: bool)
      requires Valid() && txid <= Reach(levels[SNAPSHOT_LEVEL])
      modifies this`levels, this`deletesLeft
      ensures Valid()
      ensures R.Pass(Here(), deletesLeft, ok) == R.PruneBelow(old(Here()), txid, maxLevel + 1, old(deletesLeft))
    {
      for l := 0 to maxLevel + 1
        invariant Valid() && txid <= Reach(levels[SNAPSHOT_LEVEL])
        invariant R.PruneBelow(old(Here()), txid, l, old(deletesLeft)) == R.Pass(Here(), deletesLeft, true)
      {
        ok := EnforceRetentionByTxid(l, txid);
        if !ok {
          StopsThere(old(Here()), txid, l + 1, maxLevel + 1, old(deletesLeft));
          return;
        }
      }
      ok := true;
    }

    /// The first half of snapshot retention: the snapshots past the cutoff, never the newest.
    /// It is also the last, when the store fails or no snapshot is kept by age.
    method DropSnapshots(cutoff: int, ghost maxLevel: nat) returns (ok: bool, minRetained: nat)
      requires Valid()
      modifies this`levels, this`deletesLeft
      ensures Valid()
      ensures minRetained == MinRetained(old(levels)[SNAPSHOT_LEVEL], cutoff) <= Reach(levels[SNAPSHOT_LEVEL])
      ensures R.Pass(Here(), deletesLeft, ok) == R.DropSnapshots(old(Here()), cutoff, old(deletesLeft))
      ensures (ok && minRetained > 0) ||
        R.Pass(Here(), deletesLeft, ok) == R.SnapshotPass(old(Here()), cutoff, maxLevel, old(deletesLeft))
    {
      R.DropSnapshotsKeepsValid(Here(), LockPgno(pageSize), cutoff, deletesLeft);
      ghost var before, deletes := Here(), deletesLeft;
      var gone;
      gone, minRetained := SnapshotExpired(levels[SNAPSHOT_LEVEL], cutoff);
      ok := DeleteFiles(SNAPSHOT_LEVEL, gone);
      OnlyDrops(before, cutoff, maxLevel, deletes, R.Pass(Here(), deletesLeft, ok), minRetained);
    }

    /// The second half: every level is pruned below the oldest snapshot kept by age.
    method PruneRetained(minRetained: nat, maxLevel: nat, ghost before: R.Replica<V>, ghost cutoff: int,
      ghost deletes: nat)
      returns (ok: bool)
      requires Valid() && |before.levels| == R.LEVELS
      requires R.Pass(Here(), deletesLeft, true) == R.DropSnapshots(before, cutoff, deletes)
      requires 0 < minRetained == MinRetained(before.levels[SNAPSHOT_LEVEL], cutoff) <= Reach(levels[SNAPSHOT_LEVEL])
      modifies this`levels, this`deletesLeft
      ensures Valid() && R.Pass(Here(), deletesLeft, ok) == R.SnapshotPass(before, cutoff, maxLevel, deletes)
    {
      ok := PruneLevels(minRetained, maxLevel);
    }

    /// `enforce_snapshot_retention`: expired snapshots go, then every level is pruned below
    /// the oldest snapshot kept by age.
    method EnforceSnapshotRetention(now: int, retention: nat, maxLevel: nat) returns (ok: bool, minRetained: nat)
      requires Valid()
      modifies this`levels, this`deletesLeft
      ensures Valid() && Here() == R.ExpireSnapshots(old(Here()), now - retention, maxLevel, old(deletesLeft))
      ensures R.Pass(Here(), deletesLeft, ok) ==
        R.SnapshotPass(old(Here()), now - retention, maxLevel, old(deletesLeft))
      ensures minRetained == MinRetained(old(levels)[SNAPSHOT_LEVEL], now - retention)
    {
      ghost var before, deletes := Here(), deletesLeft;
      var cutoff := now - retention;
      ok, minRetained := DropSnapshots(cutoff, maxLevel);
      if !ok || minRetained == 0 {
        return;
      }
      ok := PruneRetained(minRetained, maxLevel, before, cutoff, deletes);
    }

    /// `enforce_l0_retention`; a zero window disables it.
    method EnforceL0Retention(now: int, retention: nat) returns (ok: bool)
      requires Valid()
      modifies this`levels, this`deletesLeft
      ensures Valid()
      ensures Here() ==
        if retention == 0 then old(Here()) else R.ExpireL0(old(Here()), now - retention, old(deletesLeft))
      ensures R.Pass(Here(), deletesLeft, ok) ==
        if retention == 0 then R.Pass(old(Here()), old(deletesLeft), true)
        else R.L0Pass(old(Here()), now - retention, old(deletesLeft))
    {
      if retention == 0 {
        return true;
      }
      R.ExpireL0KeepsValid(Here(), LockPgno(pageSize), now - retention, deletesLeft);
      var maxL1 := MaxTxid(1);
      var gone := OldAndFolded(maxL1, now - retention);
      ok := DeleteFiles(0, gone);
    }

    /// What L0 retention may delete.
    method OldAndFolded(maxL1: nat, cutoff: int) returns (gone: Level<V>)
      requires |levels| == R.LEVELS
      ensures gone == ExpiredL0(levels[0], maxL1, cutoff)
    {
      gone := L0Expired(levels[0], maxL1, cutoff);
    }
  }

  // --- What the methods rely on -----------------------------------------------------------------------

  lemma OneFileAKey<V>(level: Level<V>, k: FileKey, i: nat)
    requires Ordered(level) && i < |level| && R.HasKey(level, k, i)
    ensures forall j :: 0 <= j < |level| && R.HasKey(level, k, j) ==> j == i
  {
  }

  lemma LevelsOrdered<V>(r: R.Replica<V>, lock: nat, l: nat)
    requires R.Valid(r, lock) && l < R.LEVELS
    ensures Ordered(r.levels[l])
  {
    if l < SNAPSHOT_LEVEL { assert R.LevelOk(r.h, r.levels, l); }
  }

  /// The source files past the destination's frontier are the last of their level.
  lemma FirstPast<V>(r: R.Replica<V>, lock: nat, dst: nat) returns (n: nat)
    requires R.Valid(r, lock) && 1 <= dst < SNAPSHOT_LEVEL
    ensures var src := r.levels[dst - 1];
      && n <= |src| && R.Past(src, Reach(r.levels[dst])) == src[n..]
      && (forall i :: 0 <= i < |src| ==> (src[i].file.min > Reach(r.levels[dst]) <==> i >= n))
  {
    var src := r.levels[dst - 1];
    assert R.LevelOk(r.h, r.levels, dst - 1);
    forall i | 0 <= i < |src| ensures src[i].file.min <= src[i].file.max { assert Describes(r.h, src[i].file); }
    n := R.PastIsSuffix(src, Reach(r.levels[dst]));
  }

  lemma PastInRange<V>(r: R.Replica<V>, lock: nat, l: nat, bound: nat, zero: V)
    requires R.Valid(r, lock) && l < SNAPSHOT_LEVEL
    ensures AllInRange(R.FilesIn(R.Past(r.levels[l], bound)))
  {
    var src := R.Past(r.levels[l], bound);
    assert R.LevelOk(r.h, r.levels, l);
    SelectMembers(r.levels[l], R.StartsAfter<V>(bound));
    forall i | 0 <= i < |src| ensures Describes(r.h, R.FilesIn(src)[i]) {
      assert src[i] in src;
    }
    DescribedInRange(r.h, lock, R.FilesIn(src), zero);
  }

  /// What `Snapshotted` is, case by case; the plan's files are there whenever it merges.
  lemma SnapshottedIs<V>(r: R.Replica<V>, pageSize: nat, created: Age)
    requires pageSize > 0 && R.Valid(r, LockPgno(pageSize))
    ensures var keys, snaps, store := R.AllKeys(r.levels), r.levels[SNAPSHOT_LEVEL], R.StoreOf(r.levels, pageSize);
      var head, plan := Planner.Head(keys), FullPlan(keys);
      if keys == [] || R.SnapshotStands(snaps, head) then R.Snapshotted(r, pageSize, created) == (r, R.Nothing)
      else
        && head == |r.h| && plan == Ok(Greedy(keys, 0)) && plan.value != []
        && Present(store, plan.value) && AllDescribe(r.h, FilesOf(store, plan.value))
        && R.Snapshotted(r, pageSize, created) ==
          (r.(levels := r.levels[SNAPSHOT_LEVEL :=
            snaps + [Entry(Merged(FilesOf(store, plan.value)).(min := 1, max := head), created)]]), R.Written)
  {
    var keys := R.AllKeys(r.levels);
    if keys != [] {
      R.KeysValid(r, LockPgno(pageSize));
      R.HeadPositive(keys);
      R.PlanReachesHead(r, pageSize);
    }
  }

  /// Once the store has failed, the levels above are left alone.
  lemma {:induction false} StopsThere<V>(r: R.Replica<V>, txid: nat, k: nat, n: nat, deletes: nat)
    requires |r.levels| == R.LEVELS && k <= n && !R.PruneBelow(r, txid, k, deletes).ok
    ensures R.PruneBelow(r, txid, n, deletes) == R.PruneBelow(r, txid, k, deletes)
    decreases n
  {
    if k < n {
      StopsThere(r, txid, k, n - 1, deletes);
    }
  }

  /// With the store failing or no snapshot kept by age, retention ends after the snapshots.
  lemma OnlyDrops<V>(r: R.Replica<V>, cutoff: int, maxLevel: nat, deletes: nat, dropped: R.Pass<V>, minRetained: nat)
    requires |r.levels| == R.LEVELS && dropped == R.DropSnapshots(r, cutoff, deletes)
    requires minRetained == MinRetained(r.levels[SNAPSHOT_LEVEL], cutoff)
    ensures (dropped.ok && minRetained > 0) || R.SnapshotPass(r, cutoff, maxLevel, deletes) == dropped
  {
  }

  lemma {:induction false} WithoutNothing<V>(level: Level<V>, gone: Level<V>)
    ensures Without(level, gone[..0]) == level
  {
    forall i | 0 <= i < |level| ensures NotIn(gone[..0])(level[i]) <==> i < |level| {}
    SelectPrefix(level, NotIn(gone[..0]), |level|);
  }

  lemma WithoutOneMore<V>(level: Level<V>, gone: Level<V>, i: nat)
    requires i < |gone|
    ensures Without(Without(level, gone[..i]), [gone[i]]) == Without(level, gone[..i + 1])
  {
    SelectTwice(level, gone[..i], [gone[i]], gone[..i + 1]);
  }

  lemma {:induction false} SelectTwice<V>(level: Level<V>, a: Level<V>, b: Level<V>, both: Level<V>)
    requires forall e :: e in both <==> e in a || e in b
    ensures Select(Select(level, NotIn(a)), NotIn(b)) == Select(level, NotIn(both))
  {
    if level != [] {
      var init, last := level[..|level| - 1], level[|level| - 1];
      SelectTwice(init, a, b, both);
      var kept := Select(init, NotIn(a));
      if last !in a {
        assert (kept + [last])[..|kept|] == kept;
      } else {
        assert kept + [] == kept;
      }
    }
  }
}
