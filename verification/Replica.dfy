/// The replica as a long-running state machine (the `Syncer` of src/sync/mod.rs).

module Replica {
  // Syncs append to level 0, compactions cascade files upward, snapshots anchor the chain, and
  // retention deletes, in any order, any number of times, with retention stopping after any
  // prefix of its deletes. `h` is the history the replica has replicated.

  import opened History
  import opened LtxFiles
  import opened Planner
  import opened Apply
  import opened Retention
  import opened Restore

  const LEVELS: nat := 10

  /// What the replica holds, level by level. The source keeps this twice, in the object
  /// store and in the in-memory `FileIndex`, which a single writer keeps in step.
  datatype Replica<V> = Replica(h: History<V>, levels: seq<Level<V>>)

  // --- The invariant -------------------------------------------------------------------

  ghost predicate LevelDescribes<V>(h: History<V>, level: Level<V>) {
    forall i :: 0 <= i < |level| ==> Describes(h, level[i].file)
  }

  /// Entry `i` of a level starts after entry `j < i` ends.
  ghost predicate Disjoint<V>(level: Level<V>) {
    forall i, j :: 0 <= i < j < |level| ==> level[i].file.max < level[j].file.min
  }

  /// Level 0 is the tail of the history, one transaction a file, ending at HEAD.
  ghost predicate IsTail<V>(head: nat, level: Level<V>) {
    && |level| <= head && (head > 0 ==> level != [])
    && forall i :: 0 <= i < |level| ==>
        level[i].file.min == head - |level| + 1 + i && level[i].file.max == level[i].file.min
  }

  ghost predicate AllSnapshots<V>(level: Level<V>) {
    forall i :: 0 <= i < |level| ==> level[i].file.min == 1
  }

  ghost predicate CoveredBy<V>(level: Level<V>, t: nat) {
    exists i :: 0 <= i < |level| && level[i].file.min <= t <= level[i].file.max
  }

  /// Past the newest snapshot, a level has no hole up to where it reaches.
  ghost predicate NoHoleAbove<V>(level: Level<V>, snapshot: nat) {
    forall t :: snapshot < t <= Reach(level) ==> CoveredBy(level, t)
  }

  /// No file of a level straddles how far the next level has pulled from it.
  ghost predicate SplitAt<V>(level: Level<V>, bound: nat) {
    forall i :: 0 <= i < |level| ==> level[i].file.max <= bound || bound < level[i].file.min
  }

  ghost predicate LevelOk<V>(h: History<V>, levels: seq<Level<V>>, l: nat)
    requires |levels| == LEVELS && l < SNAPSHOT_LEVEL
  {
    && LevelDescribes(h, levels[l]) && Ordered(levels[l]) && Disjoint(levels[l])
    && (l < SNAPSHOT_LEVEL - 1 ==> SplitAt(levels[l], Reach(levels[l + 1])) && Reach(levels[l + 1]) <= Reach(levels[l]))
    && (l > 0 ==> NoHoleAbove(levels[l], Reach(levels[SNAPSHOT_LEVEL])))
  }

  ghost predicate Valid<V>(r: Replica<V>, lock: nat) {
    && WellFormed(r.h, lock) && |r.levels| == LEVELS
    && (forall l :: 0 <= l < SNAPSHOT_LEVEL ==> LevelOk(r.h, r.levels, l))
    && IsTail(|r.h|, r.levels[0])
    && LevelDescribes(r.h, r.levels[SNAPSHOT_LEVEL]) && Ordered(r.levels[SNAPSHOT_LEVEL])
    && AllSnapshots(r.levels[SNAPSHOT_LEVEL])
    // what L0 no longer holds is in a snapshot or folded into L1
    && (Reach(r.levels[SNAPSHOT_LEVEL]) >= |r.h| - |r.levels[0]| || Reach(r.levels[1]) >= |r.h| - |r.levels[0]|)
  }

  function Empty<V>(): Replica<V> {
    Replica([], seq(LEVELS, _ => []))
  }

  // --- The steps ---------------------------------------------------------------------------

  /// `sync`: the next transaction becomes a level-0 file.
  ghost function Synced<V>(r: Replica<V>, tx: Tx<V>, created: Age): Replica<V>
    requires |r.levels| == LEVELS
  {
    var h := r.h + [tx];
    var file := LtxFile(|h|, |h|, tx.commit, Trim(tx.pages, tx.commit));
    Replica(h, r.levels[0 := r.levels[0] + [Entry(file, created)]])
  }

  function Past<V>(level: Level<V>, bound: nat): Level<V> {
    Select(level, StartsAfter(bound))
  }

  function StartsAfter<V>(bound: nat): Entry<V> -> bool {
    (e: Entry<V>) => e.file.min > bound
  }

  function FilesIn<V>(level: Level<V>): (files: seq<LtxFile<V>>)
    ensures |files| == |level|
    ensures forall i :: 0 <= i < |files| ==> files[i] == level[i].file
  {
    seq(|level|, i requires 0 <= i < |level| => level[i].file)
  }

  datatype Outcome = Nothing | Written | GapError | Unplannable(error: SyncError)

  /// `compact_level`: merge what level `dst - 1` has past the destination's reach.
  function CompactLevel<V>(r: Replica<V>, dst: nat, created: Age): (Replica<V>, Outcome)
    requires |r.levels| == LEVELS && 1 <= dst < SNAPSHOT_LEVEL
  {
    var src := Past(r.levels[dst - 1], Reach(r.levels[dst]));
    if src == [] then (r, Nothing)
    else if !RangesAccepted(FilesIn(src)) then (r, GapError)
    else
      var merged := Entry(Merged(FilesIn(src)), created);
      (r.(levels := r.levels[dst := r.levels[dst] + [merged]]), Written)
  }

  /// Deleting `gone` from a level.
  function Deleted<V(==)>(r: Replica<V>, l: nat, gone: Level<V>): Replica<V>
    requires l < |r.levels|
  {
    r.(levels := r.levels[l := Without(r.levels[l], gone)])
  }

  // --- Extending the history keeps what the files say ----------------------------------------

  lemma LevelStaysDescribed<V>(h: History<V>, k: History<V>, level: Level<V>, zero: V)
    requires h <= k && LevelDescribes(h, level)
    ensures LevelDescribes(k, level)
  {
    forall i | 0 <= i < |level| ensures Describes(k, level[i].file) {
      PrefixStable(h, k, level[i].file.min, level[i].file.max, zero);
    }
  }

  /// A sync keeps the invariant whenever its transaction is well formed.
  lemma SyncKeepsValid<V>(r: Replica<V>, lock: nat, tx: Tx<V>, created: Age, zero: V)
    requires Valid(r, lock) && WellFormed(r.h + [tx], lock)
    ensures Valid(Synced(r, tx, created), lock)
  {
    var n := Synced(r, tx, created);
    forall l | 0 <= l < SNAPSHOT_LEVEL ensures LevelOk(n.h, n.levels, l) {
      assert LevelOk(r.h, r.levels, l);
      if l == 0 {
        SyncExtendsTail(r, lock, tx, created, zero);
      } else {
        LevelStaysDescribed(r.h, n.h, r.levels[l], zero);
      }
    }
    LevelStaysDescribed(r.h, n.h, r.levels[SNAPSHOT_LEVEL], zero);
  }

  lemma SyncExtendsTail<V>(r: Replica<V>, lock: nat, tx: Tx<V>, created: Age, zero: V)
    requires Valid(r, lock) && WellFormed(r.h + [tx], lock)
    ensures LevelOk(Synced(r, tx, created).h, Synced(r, tx, created).levels, 0)
  {
    var h, t := r.h + [tx], |r.h| + 1;
    var level := r.levels[0];
    var e := Entry(LtxFile(t, t, tx.commit, Trim(tx.pages, tx.commit)), created);
    assert Describes(h, e.file) by {
      assert h[t - 1] == tx;
      assert Newest(h, t, t - 1) == map[];
      assert Newest(h, t, t) == tx.pages;
    }
    assert LevelOk(r.h, r.levels, 0);
    ReachBounded(r.h, level);
    assert Reach(r.levels[1]) < t;
    LevelStaysDescribed(r.h, h, level, zero);
    AppendToOrdered(h, level, e);
    SplitAtAppend(level, e, Reach(r.levels[1]));
    assert Synced(r, tx, created).levels[0] == level + [e];
  }

  /// Appending a file that starts past everything keeps a level's order.
  lemma AppendToOrdered<V>(h: History<V>, level: Level<V>, e: Entry<V>)
    requires LevelDescribes(h, level) && Ordered(level) && Disjoint(level)
    requires Describes(h, e.file) && Reach(level) < e.file.min
    ensures LevelDescribes(h, level + [e]) && Ordered(level + [e]) && Disjoint(level + [e])
    ensures Reach(level + [e]) == e.file.max
  {
    SplitAtReach(level);
    forall i | 0 <= i < |level| ensures level[i].file.max < e.file.min {
      assert Describes(h, level[i].file);
      assert i < |level| - 1 ==> level[i].file.max < Last(level).file.max;
    }
  }

  lemma ReachBounded<V>(h: History<V>, level: Level<V>)
    requires LevelDescribes(h, level)
    ensures Reach(level) <= |h|
  {
  }

  // --- Compaction ------------------------------------------------------------------------------

  /// What lies past a bound no file straddles is a suffix of the level.
  lemma {:induction false} PastIsSuffix<V>(level: Level<V>, bound: nat) returns (n: nat)
    requires Ordered(level) && Disjoint(level) && SplitAt(level, bound)
    requires forall i :: 0 <= i < |level| ==> level[i].file.min <= level[i].file.max
    ensures n <= |level| && Past(level, bound) == level[n..]
    ensures forall i :: 0 <= i < n ==> level[i].file.max <= bound
    ensures forall i :: n <= i < |level| ==> level[i].file.min > bound
  {
    n := CountUpTo(level, bound);
    SelectSuffix(level, StartsAfter(bound), n);
  }

  /// The merge of a level's suffix describes the range from its first file to its last.
  lemma SuffixMerges<V>(h: History<V>, lock: nat, level: Level<V>, n: nat, zero: V)
    requires WellFormed(h, lock) && LevelDescribes(h, level) && Disjoint(level)
    requires n < |level| && RangesAccepted(FilesIn(level[n..]))
    ensures var m := Merged(FilesIn(level[n..]));
      Describes(h, m) && m.min == level[n].file.min && m.max == Last(level).file.max
  {
    FirstIsLeast(h, level, n);
    SuffixEnds(level, n);
    MergeDescribes(h, lock, FilesIn(level[n..]), zero);
  }

  lemma SuffixEnds<V>(level: Level<V>, n: nat)
    requires n < |level|
    ensures var files := FilesIn(level[n..]);
      files != [] && files[0] == level[n].file && files[|files| - 1] == Last(level).file
  {
  }

  lemma FirstIsLeast<V>(h: History<V>, level: Level<V>, n: nat)
    requires LevelDescribes(h, level) && Disjoint(level) && n < |level|
    ensures AllDescribe(h, FilesIn(level[n..]))
    ensures LeastMin(FilesIn(level[n..])) == level[n].file.min
  {
    var files := FilesIn(level[n..]);
    var k :| 0 <= k < |files| && LeastMin(files) == files[k].min;
    assert files[k] == level[n + k].file && files[0] == level[n].file;
    assert Describes(h, level[n].file);
    assert k > 0 ==> level[n].file.max < level[n + k].file.min;
    forall i | 0 <= i < |files| ensures Describes(h, files[i]) {
      assert files[i] == level[n + i].file;
    }
  }

  lemma AppendKeepsCover<V>(level: Level<V>, e: Entry<V>, snapshot: nat)
    requires NoHoleAbove(level, snapshot)
    requires e.file.min <= Reach(level) + 1 || e.file.min <= snapshot + 1
    ensures NoHoleAbove(level + [e], snapshot)
  {
    var next := level + [e];
    forall t | snapshot < t <= Reach(next) ensures CoveredBy(next, t) {
      if t <= Reach(level) {
        assert CoveredBy(level, t);
        var i :| 0 <= i < |level| && level[i].file.min <= t <= level[i].file.max;
        assert next[i] == level[i];
      } else {
        assert next[|level|] == e;
      }
    }
  }

  /// A compaction leaves no hole past the snapshot: the source has none, and no source
  /// file straddles where the destination ends.
  lemma CompactionStartsInTime<V>(r: Replica<V>, lock: nat, dst: nat, src: Level<V>, n: nat, t: nat)
    requires Valid(r, lock) && 1 <= dst < SNAPSHOT_LEVEL
    requires src == r.levels[dst - 1] && n < |src|
    requires forall i :: 0 <= i < n ==> src[i].file.max <= Reach(r.levels[dst])
    requires Reach(r.levels[SNAPSHOT_LEVEL]) < t && Reach(r.levels[dst]) < t
    ensures src[n].file.min <= t
  {
    assert LevelOk(r.h, r.levels, dst - 1);
    assert Describes(r.h, src[n].file);
    if t > Reach(src) {
      assert n < |src| - 1 ==> src[n].file.max < Last(src).file.max;
      return;
    }
    var k: nat;
    if dst == 1 {
      assert |r.h| - |src| < t;
      k := t - (|r.h| - |src|) - 1;
      assert src[k].file.min == t;
    } else {
      assert CoveredBy(src, t);
      k :| 0 <= k < |src| && src[k].file.min <= t <= src[k].file.max;
    }
    assert k >= n;
    if n < k {
      assert src[n].file.max < src[k].file.min;
    }
  }

  /// A compaction, whether it writes, finds nothing or is refused, keeps the invariant.
  lemma CompactKeepsValid<V>(r: Replica<V>, lock: nat, dst: nat, created: Age, zero: V)
    requires Valid(r, lock) && 1 <= dst < SNAPSHOT_LEVEL
    ensures Valid(CompactLevel(r, dst, created).0, lock)
  {
    var (after, outcome) := CompactLevel(r, dst, created);
    if outcome != Written {
      return;
    }
    var src, dest := r.levels[dst - 1], r.levels[dst];
    var snapshot := Reach(r.levels[SNAPSHOT_LEVEL]);
    assert LevelOk(r.h, r.levels, dst - 1) && LevelOk(r.h, r.levels, dst);
    forall i | 0 <= i < |src| ensures src[i].file.min <= src[i].file.max { assert Describes(r.h, src[i].file); }
    var n := PastIsSuffix(src, Reach(dest));
    SuffixMerges(r.h, lock, src, n, zero);
    var e := Entry(Merged(FilesIn(src[n..])), created);
    CompactionStartsInTime(r, lock, dst, src, n, 1 + if snapshot < Reach(dest) then Reach(dest) else snapshot);
    AppendToOrdered(r.h, dest, e);
    AppendKeepsCover(dest, e, snapshot);
    CompactedLevels(r, lock, dst, e);
  }

  lemma SplitAtReach<V>(level: Level<V>)
    requires Ordered(level)
    ensures SplitAt(level, Reach(level))
  {
    forall i | 0 <= i < |level| ensures level[i].file.max <= Reach(level) {
      assert i < |level| - 1 ==> level[i].file.max < Last(level).file.max;
    }
  }

  lemma SplitAtAppend<V>(level: Level<V>, e: Entry<V>, bound: nat)
    requires SplitAt(level, bound) && bound < e.file.min
    ensures SplitAt(level + [e], bound)
  {
  }

  /// The rest of the replica around a new file at `dst` that reaches as far as its source.
  lemma CompactedLevels<V>(r: Replica<V>, lock: nat, dst: nat, e: Entry<V>)
    requires Valid(r, lock) && 1 <= dst < SNAPSHOT_LEVEL
    requires Reach(r.levels[dst]) < e.file.min <= e.file.max == Reach(r.levels[dst - 1])
    requires var next := r.levels[dst] + [e];
      && LevelDescribes(r.h, next) && Ordered(next) && Disjoint(next)
      && NoHoleAbove(next, Reach(r.levels[SNAPSHOT_LEVEL]))
    ensures Valid(r.(levels := r.levels[dst := r.levels[dst] + [e]]), lock)
  {
    var after := r.(levels := r.levels[dst := r.levels[dst] + [e]]);
    assert LevelOk(r.h, r.levels, dst - 1);
    SplitAtReach(r.levels[dst - 1]);
    assert LevelOk(after.h, after.levels, dst - 1);
    assert LevelOk(r.h, r.levels, dst);
    if dst < SNAPSHOT_LEVEL - 1 {
      SplitAtAppend(r.levels[dst], e, Reach(r.levels[dst + 1]));
    }
    assert LevelOk(after.h, after.levels, dst);
    forall l | 0 <= l < SNAPSHOT_LEVEL ensures LevelOk(after.h, after.levels, l) {
      assert LevelOk(r.h, r.levels, l);
    }
  }

  /// Source files `i - 1` and `i`, both still to be merged, leave a TXID between them.
  ghost predicate HoleBefore<V>(src: Level<V>, bound: nat, i: nat)
    requires 0 < i < |src|
  {
    bound < src[i - 1].file.min && src[i - 1].file.max + 1 < src[i].file.min
  }

  /// A compaction is refused exactly when two of the source files it would merge leave a
  /// TXID between them uncovered.
  lemma CompactionRefusedExactly<V>(r: Replica<V>, lock: nat, dst: nat, created: Age)
    requires Valid(r, lock) && 1 <= dst < SNAPSHOT_LEVEL
    ensures var src, bound := r.levels[dst - 1], Reach(r.levels[dst]);
      CompactLevel(r, dst, created).1 == GapError <==> exists i :: 0 < i < |src| && HoleBefore(src, bound, i)
  {
    var src, bound := r.levels[dst - 1], Reach(r.levels[dst]);
    assert LevelOk(r.h, r.levels, dst - 1);
    forall i | 0 <= i < |src| ensures src[i].file.min <= src[i].file.max { assert Describes(r.h, src[i].file); }
    var n := PastIsSuffix(src, bound);
    HolesRefused(src, bound, n);
  }

  lemma HolesRefused<V>(src: Level<V>, bound: nat, n: nat)
    requires Ordered(src) && n <= |src|
    requires forall i :: 0 <= i < n ==> src[i].file.max <= bound && src[i].file.min <= src[i].file.max
    requires forall i :: n <= i < |src| ==> src[i].file.min > bound
    ensures RangesAccepted(FilesIn(src[n..])) <==> forall i :: 0 < i < |src| ==> !HoleBefore(src, bound, i)
  {
    var files := FilesIn(src[n..]);
    if RangesAccepted(files) {
      forall i | 0 < i < |src| ensures !HoleBefore(src, bound, i) {
        if i > n {
          assert AdjoinsAt(files, i - n);
          assert files[i - n - 1] == src[i - 1].file && files[i - n] == src[i].file;
        }
      }
    }
    if forall i :: 0 < i < |src| ==> !HoleBefore(src, bound, i) {
      forall k | 0 < k < |files| ensures AdjoinsAt(files, k) {
        assert !HoleBefore(src, bound, n + k);
        assert files[k - 1] == src[n + k - 1].file && files[k] == src[n + k].file;
      }
    }
  }

  /// Past the newest snapshot a level has no holes, so only files the snapshot already
  /// covers can stall the cascade.
  lemma StallsOnlyBelowSnapshot<V>(r: Replica<V>, lock: nat, dst: nat, created: Age)
    requires Valid(r, lock) && 1 <= dst < SNAPSHOT_LEVEL
    requires Reach(r.levels[SNAPSHOT_LEVEL]) <= Reach(r.levels[dst])
    ensures CompactLevel(r, dst, created).1 != GapError
  {
    var src, bound := r.levels[dst - 1], Reach(r.levels[dst]);
    CompactionRefusedExactly(r, lock, dst, created);
    forall i | 0 < i < |src| ensures !HoleBefore(src, bound, i) {
      if bound < src[i - 1].file.min {
        NoHoleBefore(r, lock, dst, src, i);
      }
    }
  }

  lemma NoHoleBefore<V>(r: Replica<V>, lock: nat, dst: nat, src: Level<V>, i: nat)
    requires Valid(r, lock) && 1 <= dst < SNAPSHOT_LEVEL
    requires src == r.levels[dst - 1] && 0 < i < |src|
    requires Reach(r.levels[SNAPSHOT_LEVEL]) < src[i - 1].file.min
    ensures src[i].file.min <= src[i - 1].file.max + 1
  {
    var t := src[i - 1].file.max + 1;
    assert LevelOk(r.h, r.levels, dst - 1);
    assert Describes(r.h, src[i - 1].file) && Describes(r.h, src[i].file);
    assert src[i].file.max <= Reach(src) by { assert i < |src| - 1 ==> src[i].file.max < Last(src).file.max; }
    if dst > 1 {
      if t <= Reach(src) {
        assert CoveredBy(src, t);
        var k :| 0 <= k < |src| && src[k].file.min <= t <= src[k].file.max;
        assert k == i;
      }
    }
  }

  // --- Deleting ------------------------------------------------------------------------------------

  /// What retention may delete from level `l` without harm: never the newest entry; from
  /// level 0 only a head that is in a snapshot or folded into L1; from the cascade levels
  /// only what the newest snapshot covers.
  ghost predicate Deletable<V>(r: Replica<V>, l: nat, gone: Level<V>)
    requires |r.levels| == LEVELS && l < LEVELS
  {
    var level, snapshot := r.levels[l], Reach(r.levels[SNAPSHOT_LEVEL]);
    && (level != [] ==> Last(level) !in gone)
    && (l == 0 ==>
        && gone <= level
        && forall i :: 0 <= i < |gone| ==> gone[i].file.max <= snapshot || gone[i].file.max <= Reach(r.levels[1]))
    && (0 < l < SNAPSHOT_LEVEL ==> forall e :: e in gone ==> e.file.max <= snapshot)
  }

  /// A level minus some entries, the newest not among them.
  lemma WithoutKeepsLevel<V>(h: History<V>, level: Level<V>, gone: Level<V>)
    requires LevelDescribes(h, level) && Ordered(level)
    requires level != [] ==> Last(level) !in gone
    ensures LevelDescribes(h, Without(level, gone)) && Ordered(Without(level, gone))
    ensures Reach(Without(level, gone)) == Reach(level)
    ensures AllSnapshots(level) ==> AllSnapshots(Without(level, gone))
    ensures forall bound :: SplitAt(level, bound) ==> SplitAt(Without(level, gone), bound)
  {
    var kept := Without(level, gone);
    SelectOrdered(level, NotIn(gone));
    WithoutMembers(level, gone);
    forall i | 0 <= i < |kept| ensures exists k :: 0 <= k < |level| && level[k] == kept[i] {
      assert kept[i] in level;
    }
  }

  lemma WithoutKeepsDisjoint<V>(h: History<V>, level: Level<V>, gone: Level<V>)
    requires LevelDescribes(h, level) && Ordered(level) && Disjoint(level)
    ensures Disjoint(Without(level, gone))
  {
    var kept := Without(level, gone);
    SelectOrdered(level, NotIn(gone));
    WithoutMembers(level, gone);
    forall i, j | 0 <= i < j < |kept| ensures kept[i].file.max < kept[j].file.min {
      assert kept[i] in level && kept[j] in level && kept[i].file.max < kept[j].file.max;
      var a :| 0 <= a < |level| && level[a] == kept[i];
      var b :| 0 <= b < |level| && level[b] == kept[j];
      assert a < b;
    }
  }

  lemma WithoutKeepsCover<V>(level: Level<V>, gone: Level<V>, snapshot: nat)
    requires NoHoleAbove(level, snapshot)
    requires forall e :: e in gone ==> e.file.max <= snapshot
    requires Reach(Without(level, gone)) == Reach(level)
    ensures NoHoleAbove(Without(level, gone), snapshot)
  {
    var kept := Without(level, gone);
    WithoutMembers(level, gone);
    forall t | snapshot < t <= Reach(kept) ensures CoveredBy(kept, t) {
      assert CoveredBy(level, t);
      var i :| 0 <= i < |level| && level[i].file.min <= t <= level[i].file.max;
      assert level[i] in kept;
      var k :| 0 <= k < |kept| && kept[k] == level[i];
    }
  }

  lemma DeleteKeepsValid<V>(r: Replica<V>, lock: nat, l: nat, gone: Level<V>)
    requires Valid(r, lock) && l < LEVELS && Deletable(r, l, gone)
    ensures Valid(Deleted(r, l, gone), lock)
    ensures Reach(Deleted(r, l, gone).levels[SNAPSHOT_LEVEL]) == Reach(r.levels[SNAPSHOT_LEVEL])
  {
    var after := Deleted(r, l, gone);
    var level := r.levels[l];
    if l < SNAPSHOT_LEVEL { assert LevelOk(r.h, r.levels, l); }
    WithoutKeepsLevel(r.h, level, gone);
    if l == 0 {
      DeleteHead(r, gone);
    }
    forall k | 0 <= k < SNAPSHOT_LEVEL ensures LevelOk(after.h, after.levels, k) {
      assert LevelOk(r.h, r.levels, k);
      if k == l {
        WithoutKeepsDisjoint(r.h, level, gone);
        if l > 0 {
          WithoutKeepsCover(level, gone, Reach(r.levels[SNAPSHOT_LEVEL]));
        }
      }
    }
  }

  lemma DeleteHead<V>(r: Replica<V>, gone: Level<V>)
    requires |r.levels| == LEVELS && IsTail(|r.h|, r.levels[0]) && Ordered(r.levels[0])
    requires Deletable(r, 0, gone)
    requires Reach(r.levels[SNAPSHOT_LEVEL]) >= |r.h| - |r.levels[0]| || Reach(r.levels[1]) >= |r.h| - |r.levels[0]|
    ensures var kept := Without(r.levels[0], gone);
      && IsTail(|r.h|, kept)
      && (Reach(r.levels[SNAPSHOT_LEVEL]) >= |r.h| - |kept| || Reach(r.levels[1]) >= |r.h| - |kept|)
  {
    var level, n := r.levels[0], |gone|;
    assert level[..n] == gone;
    WithoutPrefix(level, n);
    if n > 0 {
      assert gone[n - 1] in gone;
      assert gone[n - 1] == level[n - 1];
    }
  }

  /// Deleting nothing changes nothing.
  lemma DeletesNothing<V>(r: Replica<V>, l: nat)
    requires l < |r.levels|
    ensures Deleted(r, l, []) == r
  {
    SelectSuffix(r.levels[l], NotIn<V>([]), 0);
    assert r.levels[l][0..] == r.levels[l];
    assert r.levels[l := r.levels[l]] == r.levels;
  }

  /// Where a retention pass got to: the replica, the deletions the store still allows, and
  /// whether it went through.
  datatype Pass<V> = Pass(replica: Replica<V>, left: nat, ok: bool)

  /// Deleting `gone` from a level in order, as far as `deletes` deletions go.
  ghost function DeleteUpTo<V>(r: Replica<V>, l: nat, gone: Level<V>, deletes: nat): (p: Pass<V>)
    requires |r.levels| == LEVELS && l < LEVELS
    ensures |p.replica.levels| == LEVELS && p.replica.h == r.h
  {
    var k := if deletes < |gone| then deletes else |gone|;
    Pass(Deleted(r, l, gone[..k]), deletes - k, k == |gone|)
  }

  /// `enforce_retention_by_txid`. There is nothing at a level past the last.
  ghost function PruneLevel<V>(r: Replica<V>, l: nat, txid: nat, deletes: nat): (p: Pass<V>)
    requires |r.levels| == LEVELS
    ensures |p.replica.levels| == LEVELS && p.replica.h == r.h
  {
    if l < LEVELS then DeleteUpTo(r, l, ExpiredBelow(r.levels[l], txid), deletes) else Pass(r, deletes, true)
  }

  /// Pruning levels `0..n` below a TXID, stopping where the store fails.
  ghost function PruneBelow<V>(r: Replica<V>, txid: nat, n: nat, deletes: nat): (p: Pass<V>)
    requires |r.levels| == LEVELS
    ensures |p.replica.levels| == LEVELS && p.replica.h == r.h
  {
    if n == 0 then Pass(r, deletes, true)
    else
      var p := PruneBelow(r, txid, n - 1, deletes);
      if !p.ok then p else PruneLevel(p.replica, n - 1, txid, p.left)
  }

  /// The first half of snapshot retention: the expired snapshots.
  ghost function DropSnapshots<V>(r: Replica<V>, cutoff: int, deletes: nat): (p: Pass<V>)
    requires |r.levels| == LEVELS
    ensures |p.replica.levels| == LEVELS && p.replica.h == r.h
  {
    DeleteUpTo(r, SNAPSHOT_LEVEL, ExpiredSnapshots(r.levels[SNAPSHOT_LEVEL], cutoff), deletes)
  }

  /// `enforce_snapshot_retention`: expired snapshots go, then every level is pruned below
  /// the oldest snapshot kept by age. An error after `deletes` deletions stops it there.
  ghost function SnapshotPass<V>(r: Replica<V>, cutoff: int, maxLevel: nat, deletes: nat): (p: Pass<V>)
    requires |r.levels| == LEVELS
    ensures |p.replica.levels| == LEVELS && p.replica.h == r.h
  {
    var p, minRetained := DropSnapshots(r, cutoff, deletes), MinRetained(r.levels[SNAPSHOT_LEVEL], cutoff);
    if !p.ok || minRetained == 0 then p else PruneBelow(p.replica, minRetained, maxLevel + 1, p.left)
  }

  ghost function ExpireSnapshots<V>(r: Replica<V>, cutoff: int, maxLevel: nat, deletes: nat): (after: Replica<V>)
    requires |r.levels| == LEVELS
    ensures |after.levels| == LEVELS && after.h == r.h
  {
    SnapshotPass(r, cutoff, maxLevel, deletes).replica
  }

  /// `enforce_l0_retention`: what has been folded into L1 and is old enough goes.
  ghost function L0Pass<V>(r: Replica<V>, cutoff: int, deletes: nat): (p: Pass<V>)
    requires |r.levels| == LEVELS
    ensures |p.replica.levels| == LEVELS && p.replica.h == r.h
  {
    DeleteUpTo(r, 0, ExpiredL0(r.levels[0], Reach(r.levels[1]), cutoff), deletes)
  }

  ghost function ExpireL0<V>(r: Replica<V>, cutoff: int, deletes: nat): Replica<V>
    requires |r.levels| == LEVELS
  {
    L0Pass(r, cutoff, deletes).replica
  }

  lemma BelowSnapshotDeletable<V>(r: Replica<V>, lock: nat, l: nat, txid: nat, k: nat)
    requires Valid(r, lock) && l < LEVELS && txid <= Reach(r.levels[SNAPSHOT_LEVEL])
    requires k <= |ExpiredBelow(r.levels[l], txid)|
    ensures Deletable(r, l, ExpiredBelow(r.levels[l], txid)[..k])
  {
    var level := r.levels[l];
    if l < SNAPSHOT_LEVEL { assert LevelOk(r.h, r.levels, l); }
    var gone := ExpiredBelow(level, txid);
    forall e | e in gone[..k] ensures e in level && e.file.max < txid && (level != [] ==> e != Last(level)) {
      assert e in gone;
      KeepsNewest(level, EndsBefore(txid), e);
    }
    if l == 0 {
      var n := BelowTxidIsPrefix(level, txid);
      assert gone[..k] == level[..k];
    }
  }

  lemma PruneLevelKeepsValid<V>(r: Replica<V>, lock: nat, l: nat, txid: nat, deletes: nat)
    requires Valid(r, lock) && txid <= Reach(r.levels[SNAPSHOT_LEVEL])
    ensures var p := PruneLevel(r, l, txid, deletes);
      Valid(p.replica, lock) && Reach(p.replica.levels[SNAPSHOT_LEVEL]) == Reach(r.levels[SNAPSHOT_LEVEL])
  {
    if l < LEVELS {
      var gone := ExpiredBelow(r.levels[l], txid);
      var k := if deletes < |gone| then deletes else |gone|;
      BelowSnapshotDeletable(r, lock, l, txid, k);
      DeleteKeepsValid(r, lock, l, gone[..k]);
    }
  }

  lemma {:induction false} PruneBelowKeepsValid<V>(r: Replica<V>, lock: nat, txid: nat, n: nat, deletes: nat)
    requires Valid(r, lock) && txid <= Reach(r.levels[SNAPSHOT_LEVEL])
    ensures var p := PruneBelow(r, txid, n, deletes);
      Valid(p.replica, lock) && Reach(p.replica.levels[SNAPSHOT_LEVEL]) == Reach(r.levels[SNAPSHOT_LEVEL])
  {
    if n > 0 {
      PruneBelowKeepsValid(r, lock, txid, n - 1, deletes);
      var p := PruneBelow(r, txid, n - 1, deletes);
      if p.ok {
        PruneLevelKeepsValid(p.replica, lock, n - 1, txid, p.left);
      }
    }
  }

  /// Dropping snapshots keeps the newest, and what it was keeping by age.
  lemma DropSnapshotsKeepsValid<V>(r: Replica<V>, lock: nat, cutoff: int, deletes: nat)
    requires Valid(r, lock)
    ensures var p, snaps := DropSnapshots(r, cutoff, deletes), r.levels[SNAPSHOT_LEVEL];
      Valid(p.replica, lock) && MinRetained(snaps, cutoff) <= Reach(snaps) == Reach(p.replica.levels[SNAPSHOT_LEVEL])
  {
    var snaps := r.levels[SNAPSHOT_LEVEL];
    var gone, minRetained := ExpiredSnapshots(snaps, cutoff), MinRetained(snaps, cutoff);
    var k := if deletes < |gone| then deletes else |gone|;
    forall e | e in gone[..k] ensures snaps != [] ==> e != Last(snaps) {
      assert e in gone;
      KeepsNewest(snaps, IsExpired(cutoff), e);
    }
    DeleteKeepsValid(r, lock, SNAPSHOT_LEVEL, gone[..k]);
    forall i | 0 <= i < |snaps| ensures snaps[i].file.max > 0 {
      assert Describes(r.h, snaps[i].file);
    }
    MinRetainedIsLeast(snaps, cutoff);
    if minRetained > 0 {
      var i :| 0 <= i < |snaps| && minRetained == snaps[i].file.max;
      assert i < |snaps| - 1 ==> snaps[i].file.max < Last(snaps).file.max;
    }
  }

  lemma ExpireSnapshotsKeepsValid<V>(r: Replica<V>, lock: nat, cutoff: int, maxLevel: nat, deletes: nat)
    requires Valid(r, lock)
    ensures Valid(ExpireSnapshots(r, cutoff, maxLevel, deletes), lock)
  {
    DropSnapshotsKeepsValid(r, lock, cutoff, deletes);
    var p, minRetained := DropSnapshots(r, cutoff, deletes), MinRetained(r.levels[SNAPSHOT_LEVEL], cutoff);
    if p.ok && minRetained > 0 {
      PruneBelowKeepsValid(p.replica, lock, minRetained, maxLevel + 1, p.left);
    }
  }

  lemma ExpireL0KeepsValid<V>(r: Replica<V>, lock: nat, cutoff: int, deletes: nat)
    requires Valid(r, lock)
    ensures Valid(ExpireL0(r, cutoff, deletes), lock)
  {
    var level := r.levels[0];
    assert LevelOk(r.h, r.levels, 0);
    var n := L0ExpiredIsPrefix(level, Reach(r.levels[1]), cutoff);
    var gone := level[..n];
    var part := gone[..if deletes < n then deletes else n];
    assert part == level[..|part|];
    assert level != [] ==> Last(level) !in part by {
      forall i | 0 <= i < |part| ensures level != [] ==> part[i] != Last(level) {
        assert part[i] == level[i] && i < |level| - 1;
      }
    }
    DeleteKeepsValid(r, lock, 0, part);
  }

  // --- What a reader of the replica sees ------------------------------------------------------------

  function KeysOf<V>(level: Level<V>, l: nat): (keys: seq<FileKey>)
    ensures |keys| == |level|
  {
    seq(|level|, i requires 0 <= i < |level| => FileKey(l, level[i].file.min, level[i].file.max))
  }

  /// `all_levels`: every file, in level order.
  function AllKeys<V>(levels: seq<Level<V>>): seq<FileKey> {
    if levels == [] then []
    else AllKeys(levels[..|levels| - 1]) + KeysOf(levels[|levels| - 1], |levels| - 1)
  }

  predicate HasKey<V>(level: Level<V>, k: FileKey, i: nat)
    requires i < |level|
  {
    level[i].file.min == k.min && level[i].file.max == k.max
  }

  ghost predicate Listed<V>(levels: seq<Level<V>>, k: FileKey) {
    k.level < |levels| && exists i :: 0 <= i < |levels[k.level]| && HasKey(levels[k.level], k, i)
  }

  lemma {:induction false} AllKeysListed<V>(levels: seq<Level<V>>, k: FileKey)
    ensures k in AllKeys(levels) <==> Listed(levels, k)
  {
    if levels != [] {
      var n := |levels| - 1;
      var last := levels[n];
      AllKeysListed(levels[..n], k);
      if k.level == n {
        forall i | 0 <= i < |last| ensures HasKey(last, k, i) <==> KeysOf(last, n)[i] == k {}
        assert Listed(levels, k) <==> k in KeysOf(last, n) by {
          if k in KeysOf(last, n) {
            var i :| 0 <= i < |last| && KeysOf(last, n)[i] == k;
            assert HasKey(last, k, i);
          }
          if Listed(levels, k) {
            var i :| 0 <= i < |last| && HasKey(last, k, i);
            assert KeysOf(last, n)[i] == k;
          }
        }
      } else {
        assert k !in KeysOf(last, n);
      }
    }
  }

  ghost function FileAt<V>(levels: seq<Level<V>>, k: FileKey): (file: LtxFile<V>)
    requires Listed(levels, k)
    ensures file.min == k.min && file.max == k.max
    ensures exists i :: 0 <= i < |levels[k.level]| && levels[k.level][i].file == file
  {
    var i :| 0 <= i < |levels[k.level]| && HasKey(levels[k.level], k, i);
    levels[k.level][i].file
  }

  /// The objects behind the listing.
  ghost function StoreOf<V>(levels: seq<Level<V>>, pageSize: nat): Store<V> {
    map k | k in AllKeys(levels) && Listed(levels, k) :: Stored(pageSize, FileAt(levels, k))
  }

  lemma StoreIsFaithful<V>(r: Replica<V>, pageSize: nat)
    requires pageSize > 0 && Valid(r, LockPgno(pageSize))
    ensures Faithful(r.h, pageSize, StoreOf(r.levels, pageSize))
    ensures Present(StoreOf(r.levels, pageSize), AllKeys(r.levels))
  {
    var store := StoreOf(r.levels, pageSize);
    forall k | k in store ensures Describes(r.h, store[k].file) {
      if k.level < SNAPSHOT_LEVEL { assert LevelOk(r.h, r.levels, k.level); }
      var i :| 0 <= i < |r.levels[k.level]| && r.levels[k.level][i].file == store[k].file;
    }
    forall k | k in AllKeys(r.levels) ensures k in store {
      AllKeysListed(r.levels, k);
    }
  }

  lemma ListedCovers<V>(levels: seq<Level<V>>, l: nat, i: nat, t: nat)
    requires l < |levels| && i < |levels[l]| && levels[l][i].file.min <= t <= levels[l][i].file.max
    ensures Covered(AllKeys(levels), t)
  {
    var k := FileKey(l, levels[l][i].file.min, levels[l][i].file.max);
    assert HasKey(levels[l], k, i);
    AllKeysListed(levels, k);
    assert k.min <= t <= k.max;
  }

  /// No TXID up to HEAD is ever uncovered.
  lemma EveryTxidCovered<V>(r: Replica<V>, lock: nat, t: nat)
    requires Valid(r, lock) && 1 <= t <= |r.h|
    ensures Covered(AllKeys(r.levels), t)
  {
    var tail, snaps := r.levels[0], r.levels[SNAPSHOT_LEVEL];
    var lo := |r.h| - |tail|;
    if t > lo {
      assert tail[t - lo - 1].file.min == t;
      ListedCovers(r.levels, 0, t - lo - 1, t);
    } else if t <= Reach(snaps) {
      ListedCovers(r.levels, SNAPSHOT_LEVEL, |snaps| - 1, t);
    } else {
      assert LevelOk(r.h, r.levels, 1);
      assert CoveredBy(r.levels[1], t);
      var i :| 0 <= i < |r.levels[1]| && r.levels[1][i].file.min <= t <= r.levels[1][i].file.max;
      ListedCovers(r.levels, 1, i, t);
    }
  }

  lemma KeysValid<V>(r: Replica<V>, lock: nat)
    requires Valid(r, lock)
    ensures ValidKeys(AllKeys(r.levels)) && Head(AllKeys(r.levels)) == |r.h|
  {
    var keys := AllKeys(r.levels);
    forall k | k in keys ensures 1 <= k.min <= k.max <= |r.h| {
      AllKeysListed(r.levels, k);
      if k.level < SNAPSHOT_LEVEL { assert LevelOk(r.h, r.levels, k.level); }
      var i :| 0 <= i < |r.levels[k.level]| && HasKey(r.levels[k.level], k, i);
      assert Describes(r.h, r.levels[k.level][i].file);
    }
    if r.h != [] {
      EveryTxidCovered(r, lock, |r.h|);
      var k :| k in keys && k.min <= |r.h| <= k.max;
    }
  }

  /// A restore from these objects yields exactly the database at HEAD, by either algorithm.
  ghost predicate RestoresToHead<V>(h: History<V>, keys: seq<FileKey>, store: Store<V>, pageSize: nat, zero: V)
    requires pageSize > 0
  {
    && FullPlan(keys).Ok? && Present(store, FullPlan(keys).value)
    && BothReplay(h, FilesOf(store, FullPlan(keys).value), LockPgno(pageSize), zero)
  }

  ghost predicate BothReplay<V>(h: History<V>, files: seq<LtxFile<V>>, lock: nat, zero: V) {
    && OldestFirst([], files, zero) == State(h, |h|, zero)
    && NewestFirst(Resize([], CommitAt(h, |h|), zero), files, lock) == State(h, |h|, zero)
  }

  /// The promise everything rests on, of whatever a valid replica has been through.
  lemma ValidIsRestorable<V>(r: Replica<V>, pageSize: nat, zero: V)
    requires pageSize > 0 && Valid(r, LockPgno(pageSize)) && r.h != []
    ensures RestoresToHead(r.h, AllKeys(r.levels), StoreOf(r.levels, pageSize), pageSize, zero)
  {
    PlanReachesHead(r, pageSize);
    PlanRestores(r.h, AllKeys(r.levels), StoreOf(r.levels, pageSize), pageSize, zero);
  }

  lemma PlanRestores<V>(h: History<V>, keys: seq<FileKey>, store: Store<V>, pageSize: nat, zero: V)
    requires pageSize > 0 && WellFormed(h, LockPgno(pageSize)) && PlanChains(h, keys, store)
    ensures RestoresToHead(h, keys, store, pageSize, zero)
  {
    ChainToHeadRestores(h, LockPgno(pageSize), FilesOf(store, FullPlan(keys).value), zero);
  }

  lemma ChainToHeadRestores<V>(h: History<V>, lock: nat, files: seq<LtxFile<V>>, zero: V)
    requires WellFormed(h, lock) && 1 <= lock
    requires files != [] && AllDescribe(h, files) && ChainFrom(0, files) && EndOf(0, files) == |h|
    ensures BothReplay(h, files, lock, zero)
  {
    ChainReplays(h, lock, 0, files, zero);
    ChainRestores(h, lock, 0, files, zero);
    FromScratch(files, CommitAt(h, |h|), zero);
  }

  /// The full plan starts at TXID 1, reaches HEAD, and all its files are there.
  ghost predicate PlanChains<V>(h: History<V>, keys: seq<FileKey>, store: Store<V>) {
    && FullPlan(keys).Ok? && Present(store, FullPlan(keys).value)
    && var files := FilesOf(store, FullPlan(keys).value);
    && files != [] && files[0].min == 1
    && AllDescribe(h, files) && ChainFrom(0, files) && EndOf(0, files) == |h|
  }

  lemma PlanReachesHead<V>(r: Replica<V>, pageSize: nat)
    requires pageSize > 0 && Valid(r, LockPgno(pageSize)) && r.h != []
    ensures PlanChains(r.h, AllKeys(r.levels), StoreOf(r.levels, pageSize))
  {
    var keys, store := AllKeys(r.levels), StoreOf(r.levels, pageSize);
    var lock := LockPgno(pageSize);
    KeysValid(r, lock);
    forall t | 1 <= t <= |r.h| ensures Covered(keys, t) { EveryTxidCovered(r, lock, t); }
    FullPlanExact(keys);
    StoreIsFaithful(r, pageSize);
    var plan := FullPlan(keys).value;
    ChainMembers(keys, 0, plan);
    ChainOfFiles(r.h, pageSize, store, keys, 0, plan);
    assert plan[0] in plan;
  }

  /// And no local copy, however old, ever needs a full restore to catch up.
  lemma EveryCopyCatchesUp<V>(r: Replica<V>, lock: nat, t: nat)
    requires Valid(r, lock) && t <= |r.h|
    ensures DeltaPlan(AllKeys(r.levels), t).Ok?
    ensures t < |r.h| ==> Reached(DeltaPlan(AllKeys(r.levels), t).value, t) == |r.h|
  {
    var keys := AllKeys(r.levels);
    KeysValid(r, lock);
    forall u | t < u <= |r.h| ensures Covered(keys, u) { EveryTxidCovered(r, lock, u); }
    ChainGapExact(keys, t);
  }

  // --- Snapshots ------------------------------------------------------------------------------------

  /// `snapshot`: merge a full restore plan into one file labelled `1..=HEAD`.
  ghost function Snapshotted<V>(r: Replica<V>, pageSize: nat, created: Age): (Replica<V>, Outcome)
    requires |r.levels| == LEVELS
  {
    var keys := AllKeys(r.levels);
    var head, snaps := Head(keys), r.levels[SNAPSHOT_LEVEL];
    if keys == [] || SnapshotStands(snaps, head) then (r, Nothing)
    else
      var plan, store := FullPlan(keys), StoreOf(r.levels, pageSize);
      if plan.Err? then (r, Unplannable(plan.error))
      else if !Present(store, plan.value) then (r, Unplannable(NoSnapshot))
      else
        var merged := Merged(FilesOf(store, plan.value)).(min := 1, max := head);
        (r.(levels := r.levels[SNAPSHOT_LEVEL := snaps + [Entry(merged, created)]]), Written)
  }

  lemma ChainIsAccepted<V>(files: seq<LtxFile<V>>, t: nat)
    requires ChainFrom(t, files)
    ensures RangesAccepted(files)
  {
    forall i | 0 < i < |files| ensures AdjoinsAt(files, i) {
      assert files[..i + 1] == files[..i] + [files[i]];
      ChainPrefix(t, files, i + 1);
      ChainSplit(t, files[..i + 1]);
      assert files[..i + 1][..i] == files[..i];
    }
  }

  lemma {:induction false} ChainPrefix<V>(t: nat, files: seq<LtxFile<V>>, n: nat)
    requires ChainFrom(t, files) && n <= |files|
    ensures ChainFrom(t, files[..n])
    decreases |files|
  {
    if n > 0 {
      ChainPrefix(files[0].max, files[1..], n - 1);
      assert files[..n][1..] == files[1..][..n - 1];
    }
  }

  lemma PlanMergesToSnapshot<V>(h: History<V>, lock: nat, files: seq<LtxFile<V>>, zero: V)
    requires WellFormed(h, lock)
    requires files != [] && files[0].min == 1 && AllDescribe(h, files) && ChainFrom(0, files) && EndOf(0, files) == |h|
    ensures Describes(h, Merged(files)) && Merged(files).min == 1 && Merged(files).max == |h|
  {
    ChainIsAccepted(files, 0);
    assert LeastMin(files) == 1 by {
      var k :| 0 <= k < |files| && LeastMin(files) == files[k].min;
      assert Describes(h, files[k]);
    }
    MergeDescribes(h, lock, files, zero);
  }

  ghost predicate SnapshotStands<V>(snaps: Level<V>, head: nat) {
    exists i :: 0 <= i < |snaps| && snaps[i].file.min == 1 && snaps[i].file.max == head
  }

  lemma StandsExactlyAtReach<V>(r: Replica<V>, lock: nat)
    requires Valid(r, lock) && r.h != []
    ensures AllKeys(r.levels) != [] && Head(AllKeys(r.levels)) == |r.h|
    ensures SnapshotStands(r.levels[SNAPSHOT_LEVEL], |r.h|) <==> Reach(r.levels[SNAPSHOT_LEVEL]) == |r.h|
    ensures Reach(r.levels[SNAPSHOT_LEVEL]) <= |r.h|
  {
    var snaps := r.levels[SNAPSHOT_LEVEL];
    KeysValid(r, lock);
    EveryTxidCovered(r, lock, |r.h|);
    SplitAtReach(snaps);
    ReachBounded(r.h, snaps);
    if Reach(snaps) == |r.h| {
      assert snaps[|snaps| - 1].file.min == 1;
    }
    assert forall i :: 0 <= i < |snaps| ==> snaps[i].file.max <= Reach(snaps) || Reach(snaps) < snaps[i].file.min;
  }

  lemma HeadPositive(keys: seq<FileKey>)
    requires ValidKeys(keys)
    ensures keys != [] ==> Head(keys) > 0
  {
    assert keys != [] ==> keys[0] in keys;
  }

  /// A snapshot of a valid replica is exactly the summary of its whole history, keeps the
  /// invariant, and is refused only when one already stands at HEAD or nothing was synced.
  lemma SnapshotKeepsValid<V>(r: Replica<V>, pageSize: nat, created: Age, zero: V)
    requires pageSize > 0 && Valid(r, LockPgno(pageSize))
    ensures Valid(Snapshotted(r, pageSize, created).0, LockPgno(pageSize))
    ensures Snapshotted(r, pageSize, created).1 ==
      if r.h == [] || Reach(r.levels[SNAPSHOT_LEVEL]) == |r.h| then Nothing else Written
    ensures r.h != [] ==> Reach(Snapshotted(r, pageSize, created).0.levels[SNAPSHOT_LEVEL]) == |r.h|
  {
    var lock := LockPgno(pageSize);
    if r.h == [] {
      KeysValid(r, lock);
      HeadPositive(AllKeys(r.levels));
    } else {
      StandsExactlyAtReach(r, lock);
      if Reach(r.levels[SNAPSHOT_LEVEL]) < |r.h| {
        PlanReachesHead(r, pageSize);
        var files := FilesOf(StoreOf(r.levels, pageSize), FullPlan(AllKeys(r.levels)).value);
        PlanMergesToSnapshot(r.h, lock, files, zero);
        SnapshotAppended(r, lock, Entry(Merged(files), created));
      }
    }
  }

  lemma SnapshotAppended<V>(r: Replica<V>, lock: nat, e: Entry<V>)
    requires Valid(r, lock) && Describes(r.h, e.file) && e.file.min == 1 && e.file.max == |r.h|
    requires Reach(r.levels[SNAPSHOT_LEVEL]) < |r.h|
    ensures Valid(r.(levels := r.levels[SNAPSHOT_LEVEL := r.levels[SNAPSHOT_LEVEL] + [e]]), lock)
  {
    var snaps := r.levels[SNAPSHOT_LEVEL];
    var after := r.(levels := r.levels[SNAPSHOT_LEVEL := snaps + [e]]);
    SplitAtReach(snaps);
    forall i | 0 <= i < |snaps| ensures snaps[i].file.max < |r.h| {
      assert i < |snaps| - 1 ==> snaps[i].file.max < Last(snaps).file.max;
    }
    forall l | 0 <= l < SNAPSHOT_LEVEL ensures LevelOk(after.h, after.levels, l) {
      assert LevelOk(r.h, r.levels, l);
      ReachBounded(r.h, r.levels[l]);
    }
  }

  // --- Every run --------------------------------------------------------------------------------------

  /// One thing the replica goes through. Any order, any `now` (through `cutoff`), any
  /// creation times, and retention cut short by an error after any number of deletions.
  datatype Step<V> =
    | Sync(tx: Tx<V>, created: Age)
    | CompactInto(dst: nat, created: Age)
    | TakeSnapshot(created: Age)
    | RetainSnapshots(cutoff: int, maxLevel: nat, deletes: nat)
    | RetainL0(cutoff: int, deletes: nat)

  ghost function Next<V>(r: Replica<V>, s: Step<V>, pageSize: nat): (after: Replica<V>)
    requires |r.levels| == LEVELS
    ensures |after.levels| == LEVELS
    ensures after.h == r.h + if s.Sync? then [s.tx] else []
  {
    match s
    case Sync(tx, created) => Synced(r, tx, created)
    case CompactInto(dst, created) => if 1 <= dst < SNAPSHOT_LEVEL then CompactLevel(r, dst, created).0 else r
    case TakeSnapshot(created) => Snapshotted(r, pageSize, created).0
    case RetainSnapshots(cutoff, maxLevel, deletes) => ExpireSnapshots(r, cutoff, maxLevel, deletes)
    case RetainL0(cutoff, deletes) => ExpireL0(r, cutoff, deletes)
  }

  /// The transactions a run replicates.
  ghost function Replicated<V>(steps: seq<Step<V>>): History<V> {
    if steps == [] then []
    else
      var last := steps[|steps| - 1];
      Replicated(steps[..|steps| - 1]) + if last.Sync? then [last.tx] else []
  }

  ghost function Run<V>(steps: seq<Step<V>>, pageSize: nat): (r: Replica<V>)
    ensures |r.levels| == LEVELS && r.h == Replicated(steps)
  {
    if steps == [] then Empty() else Next(Run(steps[..|steps| - 1], pageSize), steps[|steps| - 1], pageSize)
  }

  lemma StepKeepsValid<V>(r: Replica<V>, s: Step<V>, pageSize: nat, zero: V)
    requires pageSize > 0 && Valid(r, LockPgno(pageSize))
    requires s.Sync? ==> WellFormed(r.h + [s.tx], LockPgno(pageSize))
    ensures Valid(Next(r, s, pageSize), LockPgno(pageSize))
  {
    var lock := LockPgno(pageSize);
    match s {
      case Sync(tx, created) => SyncKeepsValid(r, lock, tx, created, zero);
      case CompactInto(dst, created) =>
        if 1 <= dst < SNAPSHOT_LEVEL { CompactKeepsValid(r, lock, dst, created, zero); }
      case TakeSnapshot(created) => SnapshotKeepsValid(r, pageSize, created, zero);
      case RetainSnapshots(cutoff, maxLevel, deletes) => ExpireSnapshotsKeepsValid(r, lock, cutoff, maxLevel, deletes);
      case RetainL0(cutoff, deletes) => ExpireL0KeepsValid(r, lock, cutoff, deletes);
    }
  }

  /// Every replica any run reaches is valid.
  lemma {:induction false} RunIsValid<V>(steps: seq<Step<V>>, pageSize: nat, zero: V)
    requires pageSize > 0 && WellFormed(Replicated(steps), LockPgno(pageSize))
    ensures Valid(Run(steps, pageSize), LockPgno(pageSize))
  {
    if steps == [] {
      var r := Run(steps, pageSize);
      assert forall l :: 0 <= l < LEVELS ==> r.levels[l] == [];
      assert forall l :: 0 <= l < SNAPSHOT_LEVEL ==> LevelOk(r.h, r.levels, l);
    } else {
      var n := |steps| - 1;
      WellFormedPrefix(Replicated(steps[..n]), Replicated(steps), LockPgno(pageSize));
      RunIsValid(steps[..n], pageSize, zero);
      StepKeepsValid(Run(steps[..n], pageSize), steps[n], pageSize, zero);
    }
  }

  /// After any run at all, the replica restores to exactly the database it replicated.
  lemma RunIsRestorable<V>(steps: seq<Step<V>>, pageSize: nat, zero: V)
    requires pageSize > 0 && WellFormed(Replicated(steps), LockPgno(pageSize)) && Replicated(steps) != []
    ensures var levels := Run(steps, pageSize).levels;
      RestoresToHead(Replicated(steps), AllKeys(levels), StoreOf(levels, pageSize), pageSize, zero)
  {
    RunIsValid(steps, pageSize, zero);
    ValidIsRestorable(Run(steps, pageSize), pageSize, zero);
  }
}
