/// A limit of the compaction cascade, found while stating its invariant: snapshot
/// retention can leave a hole inside a level, and compaction out of that level is then
/// refused. The replica stays restorable, because only TXIDs the newest snapshot covers
/// are missing; what stops is the merging of that level into the next.

module Stall {
  import opened History
  import opened LtxFiles
  import opened Planner
  import opened Retention
  import opened Replica

  /// Once retention has pruned L0 past where L1 reaches, the next compaction into L1 puts
  /// a hole in L1, and if L1's previous newest file was still to be merged upward, the
  /// compaction into L2 is refused.
  lemma PrunedPastL1Stalls<V>(r: Replica<V>, lock: nat, created: Age, later: Age, zero: V)
    requires Valid(r, lock)
    requires r.levels[1] != [] && Reach(r.levels[1]) < |r.h| - |r.levels[0]|
    requires Reach(r.levels[2]) < Last(r.levels[1]).file.min
    ensures CompactLevel(r, 1, created).1 == Written
    ensures CompactLevel(CompactLevel(r, 1, created).0, 2, later).1 == GapError
  {
    var l1 := r.levels[1];
    assert LevelOk(r.h, r.levels, 1);
    ReachBounded(r.h, l1);
    TailMerges(r, lock, created, zero);
    CompactKeepsValid(r, lock, 1, created, zero);
    var after := CompactLevel(r, 1, created).0;
    assert after.levels[1][|l1| - 1] == Last(l1);
    assert HoleBefore(after.levels[1], Reach(after.levels[2]), |l1|);
    CompactionRefusedExactly(after, lock, 2, later);
  }

  lemma PastAll<V>(level: Level<V>, bound: nat)
    requires forall i :: 0 <= i < |level| ==> level[i].file.min > bound
    ensures Past(level, bound) == level
  {
    SelectSuffix(level, StartsAfter(bound), 0);
    assert level[0..] == level;
  }

  lemma TailAccepted<V>(head: nat, tail: Level<V>)
    requires IsTail(head, tail)
    ensures RangesAccepted(FilesIn(tail))
  {
  }

  /// When all of L0 lies past L1, compaction merges all of it.
  lemma TailMerges<V>(r: Replica<V>, lock: nat, created: Age, zero: V)
    requires Valid(r, lock) && r.h != [] && Reach(r.levels[1]) <= |r.h| - |r.levels[0]|
    ensures CompactLevel(r, 1, created) ==
      (r.(levels := r.levels[1 := r.levels[1] + [Entry(Merged(FilesIn(r.levels[0])), created)]]), Written)
    ensures Merged(FilesIn(r.levels[0])).min == |r.h| - |r.levels[0]| + 1
    ensures Merged(FilesIn(r.levels[0])).max == |r.h|
  {
    var tail := r.levels[0];
    PastAll(tail, Reach(r.levels[1]));
    TailAccepted(|r.h|, tail);
  }

  // --- A run that gets there --------------------------------------------------------------

  /// The TXID ranges of a level's files.
  ghost predicate Shape<V>(level: Level<V>, ranges: seq<(nat, nat)>) {
    |level| == |ranges| && forall i :: 0 <= i < |level| ==>
      level[i].file.min == ranges[i].0 && level[i].file.max == ranges[i].1
  }

  /// Two syncs with a compaction into L1 between them, a third sync, a snapshot, and
  /// snapshot retention over levels 0..=2 that expires nothing: after such a run L0 starts
  /// at TXID 3 while L1 ends at 1, and the cascade stalls.
  lemma CascadeCanStall(pageSize: nat, created: Age, later: Age) returns (steps: seq<Step<char>>)
    requires IsPageSize(pageSize)
    ensures |steps| == 6 && steps[0].Sync? && steps[1].CompactInto? && steps[2].Sync? && steps[3].Sync?
    ensures steps[4].TakeSnapshot? && steps[5].RetainSnapshots?
    ensures WellFormed(Replicated(steps), LockPgno(pageSize)) && Valid(Run(steps, pageSize), LockPgno(pageSize))
    ensures CompactLevel(CompactLevel(Run(steps, pageSize), 1, created).0, 2, later).1 == GapError
  {
    var synced := SyncsAndCompaction(pageSize);
    var s := Run(synced, pageSize);
    StepKeepsValid(s, TakeSnapshot(At(5)), pageSize, 'z');
    var snapped := Then(synced, TakeSnapshot(At(5)), pageSize);
    AfterSnapshot(s, Run(snapped, pageSize), pageSize);
    StepKeepsValid(Run(snapped, pageSize), RetainSnapshots(0, 2, 100), pageSize, 'z');
    steps := Then(snapped, RetainSnapshots(0, 2, 100), pageSize);
    AfterRetention(Run(snapped, pageSize), Run(steps, pageSize), pageSize);
    PrunedPastL1Stalls(Run(steps, pageSize), LockPgno(pageSize), created, later, 'z');
  }

  /// One more step of a run.
  lemma Then(steps: seq<Step<char>>, s: Step<char>, pageSize: nat) returns (next: seq<Step<char>>)
    ensures next == steps + [s] && Run(next, pageSize) == Next(Run(steps, pageSize), s, pageSize)
  {
    next := steps + [s];
    assert next[..|steps|] == steps;
  }

  /// Every transaction rewrites the one page there is.
  ghost predicate OnePage(h: History<char>) {
    forall i :: 0 <= i < |h| ==> h[i].pages.Keys == {1} && h[i].commit == 1
  }

  lemma OnePageWellFormed(h: History<char>, pageSize: nat)
    requires OnePage(h) && IsPageSize(pageSize)
    ensures WellFormed(h, LockPgno(pageSize))
  {
    forall t | 1 <= t <= |h| ensures WellFormedAt(h, LockPgno(pageSize), t) {
      assert h[t - 1].pages.Keys == {1};
    }
  }

  /// A run that has replicated only rewrites of page 1, and its level-0 files.
  ghost predicate Reached(steps: seq<Step<char>>, pageSize: nat, ranges: seq<(nat, nat)>) {
    var r := Run(steps, pageSize);
    pageSize > 0 && Valid(r, LockPgno(pageSize)) && OnePage(r.h) && |r.h| == |ranges| && Shape(r.levels[0], ranges)
  }

  lemma ThenSync(steps: seq<Step<char>>, page: char, created: Age, pageSize: nat, ranges: seq<(nat, nat)>)
    returns (next: seq<Step<char>>)
    requires IsPageSize(pageSize) && Reached(steps, pageSize, ranges)
    ensures |next| == |steps| + 1 && next[..|steps|] == steps && next[|steps|].Sync?
    ensures Reached(next, pageSize, ranges + [(|ranges| + 1, |ranges| + 1)])
    ensures forall l :: 1 <= l < LEVELS ==> Run(next, pageSize).levels[l] == Run(steps, pageSize).levels[l]
  {
    var r, tx := Run(steps, pageSize), Tx(map[1 := page], 1);
    assert tx.pages.Keys == {1};
    OnePageWellFormed(r.h + [tx], pageSize);
    StepKeepsValid(r, Sync(tx, created), pageSize, 'z');
    next := Then(steps, Sync(tx, created), pageSize);
  }

  lemma SyncsAndCompaction(pageSize: nat) returns (steps: seq<Step<char>>)
    requires IsPageSize(pageSize)
    ensures |steps| == 4 && steps[0].Sync? && steps[1].CompactInto? && steps[2].Sync? && steps[3].Sync?
    ensures Reached(steps, pageSize, [(1, 1), (2, 2), (3, 3)])
    ensures var r := Run(steps, pageSize);
      Shape(r.levels[1], [(1, 1)]) && r.levels[2] == [] && r.levels[SNAPSHOT_LEVEL] == []
  {
    var first := SyncAndCompaction(pageSize);
    var second := ThenSync(first, 'b', At(3), pageSize, [(1, 1)]);
    steps := ThenSync(second, 'c', At(4), pageSize, [(1, 1), (2, 2)]);
    assert steps[..3] == second && second[..2] == first;
  }

  lemma SyncAndCompaction(pageSize: nat) returns (steps: seq<Step<char>>)
    requires IsPageSize(pageSize)
    ensures |steps| == 2 && steps[0].Sync? && steps[1].CompactInto?
    ensures Reached(steps, pageSize, [(1, 1)])
    ensures var r := Run(steps, pageSize);
      Shape(r.levels[1], [(1, 1)]) && r.levels[2] == [] && r.levels[SNAPSHOT_LEVEL] == []
  {
    var none := NothingYet(pageSize);
    var first := ThenSync(none, 'a', At(1), pageSize, []);
    steps := Then(first, CompactInto(1, At(2)), pageSize);
    FirstCompaction(Run(first, pageSize), Run(steps, pageSize), pageSize);
  }

  lemma NothingYet(pageSize: nat) returns (steps: seq<Step<char>>)
    requires IsPageSize(pageSize)
    ensures steps == [] && Reached(steps, pageSize, [])
    ensures forall l :: 0 <= l < LEVELS ==> Run(steps, pageSize).levels[l] == []
  {
    steps := [];
    RunIsValid(steps, pageSize, 'z');
  }

  lemma FirstCompaction(r: Replica<char>, after: Replica<char>, pageSize: nat)
    requires pageSize > 0 && Valid(r, LockPgno(pageSize)) && |r.h| == 1 && Shape(r.levels[0], [(1, 1)]) &&
      r.levels[1] == []
    requires after == Next(r, CompactInto(1, At(2)), pageSize)
    ensures Valid(after, LockPgno(pageSize))
    ensures after.h == r.h && Shape(after.levels[1], [(1, 1)])
    ensures forall l :: 0 <= l < LEVELS && l != 1 ==> after.levels[l] == r.levels[l]
  {
    TailMerges(r, LockPgno(pageSize), At(2), 'z');
    StepKeepsValid(r, CompactInto(1, At(2)), pageSize, 'z');
  }

  lemma AfterSnapshot(synced: Replica<char>, snapped: Replica<char>, pageSize: nat)
    requires pageSize > 0 && Valid(synced, LockPgno(pageSize)) && |synced.h| == 3 && synced.levels[SNAPSHOT_LEVEL] == []
    requires snapped == Next(synced, TakeSnapshot(At(5)), pageSize)
    ensures |snapped.levels[SNAPSHOT_LEVEL]| == 1
    ensures snapped.levels[SNAPSHOT_LEVEL][0].created == At(5) && snapped.levels[SNAPSHOT_LEVEL][0].file.max == 3
    ensures forall l :: 0 <= l < SNAPSHOT_LEVEL ==> snapped.levels[l] == synced.levels[l]
  {
    SnapshotKeepsValid(synced, pageSize, At(5), 'z');
  }

  /// The one snapshot is not expired, so retention only prunes below it.
  lemma OnlyPrunes(snapped: Replica<char>, pageSize: nat)
    requires |snapped.levels| == LEVELS && |snapped.levels[SNAPSHOT_LEVEL]| == 1
    requires snapped.levels[SNAPSHOT_LEVEL][0].created == At(5) && snapped.levels[SNAPSHOT_LEVEL][0].file.max == 3
    ensures Next(snapped, RetainSnapshots(0, 2, 100), pageSize) == PruneBelow(snapped, 3, 3, 100).replica
  {
    var snaps := snapped.levels[SNAPSHOT_LEVEL];
    SelectPrefix(snaps, IsExpired(0), 0);
    assert snaps[..0] == [] && snaps[..|snaps| - 1] == [];
    assert MinRetained(snaps, 0) == 3;
    DeletesNothing(snapped, SNAPSHOT_LEVEL);
  }

  /// Pruning one more level, when the store lets every deletion through.
  lemma PruneOneMore(r: Replica<char>, txid: nat, l: nat, deletes: nat, p: Pass<char>)
    requires |r.levels| == LEVELS && l < LEVELS && p == PruneBelow(r, txid, l, deletes) && p.ok
    requires |ExpiredBelow(p.replica.levels[l], txid)| <= p.left
    ensures var gone := ExpiredBelow(p.replica.levels[l], txid);
      PruneBelow(r, txid, l + 1, deletes) == Pass(Deleted(p.replica, l, gone), p.left - |gone|, true)
  {
    var gone := ExpiredBelow(p.replica.levels[l], txid);
    assert gone[..|gone|] == gone;
  }

  /// The only file of a level is its newest, and stays.
  lemma PrunesNothing(r: Replica<char>, txid: nat, l: nat, deletes: nat, p: Pass<char>)
    requires |r.levels| == LEVELS && l < LEVELS && p == PruneBelow(r, txid, l, deletes) && p.ok
    requires |p.replica.levels[l]| <= 1
    ensures PruneBelow(r, txid, l + 1, deletes) == p
  {
    var n := BelowTxidIsPrefix(p.replica.levels[l], txid);
    assert n == 0;
    PruneOneMore(r, txid, l, deletes, p);
    DeletesNothing(p.replica, l);
  }

  lemma AfterRetention(snapped: Replica<char>, r: Replica<char>, pageSize: nat)
    requires |snapped.levels| == LEVELS
    requires |snapped.levels[SNAPSHOT_LEVEL]| == 1
    requires snapped.levels[SNAPSHOT_LEVEL][0].created == At(5) && snapped.levels[SNAPSHOT_LEVEL][0].file.max == 3
    requires Shape(snapped.levels[0], [(1, 1), (2, 2), (3, 3)]) && Shape(snapped.levels[1], [(1, 1)])
    requires snapped.levels[2] == []
    requires r == Next(snapped, RetainSnapshots(0, 2, 100), pageSize)
    ensures Shape(r.levels[0], [(3, 3)]) && Shape(r.levels[1], [(1, 1)]) && r.levels[2] == []
  {
    OnlyPrunes(snapped, pageSize);
    PrunesLevels(snapped, 100);
  }

  /// Pruning levels 0 to 2 below TXID 3 takes two files from level 0 and nothing else.
  lemma PrunesLevels(r: Replica<char>, deletes: nat)
    requires |r.levels| == LEVELS && deletes >= 2
    requires Shape(r.levels[0], [(1, 1), (2, 2), (3, 3)]) && |r.levels[1]| <= 1 && |r.levels[2]| <= 1
    ensures var after := PruneBelow(r, 3, 3, deletes).replica;
      Shape(after.levels[0], [(3, 3)]) && after.levels[1] == r.levels[1] && after.levels[2] == r.levels[2]
  {
    var pruned := PruneTail(r);
    PruneOneMore(r, 3, 0, deletes, Pass(r, deletes, true));
    var p := Pass(pruned, deletes - 2, true);
    PrunesNothing(r, 3, 1, deletes, p);
    PrunesNothing(r, 3, 2, deletes, p);
  }

  lemma PruneTail(r: Replica<char>) returns (pruned: Replica<char>)
    requires |r.levels| == LEVELS && Shape(r.levels[0], [(1, 1), (2, 2), (3, 3)])
    ensures |ExpiredBelow(r.levels[0], 3)| == 2
    ensures pruned == Deleted(r, 0, ExpiredBelow(r.levels[0], 3))
    ensures Shape(pruned.levels[0], [(3, 3)])
    ensures forall l :: 1 <= l < LEVELS ==> pruned.levels[l] == r.levels[l]
  {
    var tail := r.levels[0];
    SelectPrefix(tail, EndsBefore(3), 2);
    KeepNewestPrefix(tail, 2);
    WithoutPrefix(tail, 2);
    pruned := Deleted(r, 0, ExpiredBelow(tail, 3));
  }
}
