/// Restoring a database from a replica: in memory, onto disk, at a point in time, and
/// incrementally, with the two-phase position marker that makes the last one crash-safe.
/// Follows src/sync/restore.rs operation by operation.

module Restore {
  import opened Options
  import opened History
  import opened LtxFiles
  import opened Planner
  import opened Apply

  /// An object in the replica: an LTX file and the page size in its header.
  datatype Stored<V> = Stored(pageSize: nat, file: LtxFile<V>)

  type Store<V> = map<FileKey, Stored<V>>

  /// literstream's claim about what a local image is.
  datatype Marker =
    | Clean(txid: nat, pageSize: nat, commit: nat, fileLen: nat)
    | Applying(from: nat, to: nat)

  /// Every stored file is what its key says of history `h`, at page size `pageSize`.
  ghost predicate Faithful<V>(h: History<V>, pageSize: nat, store: Store<V>) {
    && pageSize > 0
    && WellFormed(h, LockPgno(pageSize))
    && forall k :: k in store ==>
        && store[k].pageSize == pageSize
        && Describes(h, store[k].file)
        && store[k].file.min == k.min && store[k].file.max == k.max
  }

  ghost predicate Present<V>(store: Store<V>, plan: seq<FileKey>) {
    forall k :: k in plan ==> k in store
  }

  /// The store some time later: objects may have been deleted, none has changed.
  ghost predicate Remains<V>(later: Store<V>, store: Store<V>) {
    forall k :: k in later ==> k in store && later[k] == store[k]
  }

  lemma RemainingFiles<V>(later: Store<V>, store: Store<V>, plan: seq<FileKey>)
    requires Remains(later, store)
    ensures Present(later, plan) ==> Present(store, plan) && FilesOf(later, plan) == FilesOf(store, plan)
  {
    if Present(later, plan) {
      forall i | 0 <= i < |plan| ensures later[plan[i]] == store[plan[i]] {
        assert plan[i] in plan;
      }
    }
  }

  ghost function FilesOf<V>(store: Store<V>, plan: seq<FileKey>): (files: seq<LtxFile<V>>)
    requires Present(store, plan)
    ensures |files| == |plan|
    ensures forall i :: 0 <= i < |plan| ==> files[i] == store[plan[i]].file
  {
    seq(|plan|, i requires 0 <= i < |plan| => store[plan[i]].file)
  }

  /// A chain of keys is a chain of files.
  lemma {:induction false} ChainOfFiles<V>(h: History<V>, pageSize: nat, store: Store<V>, keys: seq<FileKey>,
    t: nat, plan: seq<FileKey>)
    requires Faithful(h, pageSize, store)
    requires Present(store, plan) && IsChain(keys, t, plan)
    ensures ChainFrom(t, FilesOf(store, plan))
    ensures EndOf(t, FilesOf(store, plan)) == Reached(plan, t)
    ensures AllDescribe(h, FilesOf(store, plan))
    decreases |plan|
  {
    if plan != [] {
      assert Present(store, plan[1..]) by {
        assert forall k :: k in plan[1..] ==> k in plan;
      }
      ChainOfFiles(h, pageSize, store, keys, plan[0].max, plan[1..]);
      assert FilesOf(store, plan)[1..] == FilesOf(store, plan[1..]);
      assert plan[0] in plan;
    }
    forall i | 0 <= i < |plan| ensures Describes(h, FilesOf(store, plan)[i]) {
      assert plan[i] in plan;
    }
  }

  // --- In memory -----------------------------------------------------------------------

  /// `apply_plan`: resize, then copy each page in, file by file.
  method ApplyPlan<V>(store: Store<V>, plan: seq<FileKey>, zero: V, ghost lock: nat) returns (r: Result<seq<V>>)
    requires forall k :: k in store ==> Encodable(store[k].file, lock)
    ensures r.Ok? <==> Present(store, plan)
    ensures r.Ok? ==> r.value == OldestFirst([], FilesOf(store, plan), zero)
    ensures r.Err? ==> r.error.MissingFile? && r.error.key in plan && r.error.key !in store
  {
    var image: seq<V> := [];
    for i := 0 to |plan|
      invariant Present(store, plan[..i])
      invariant image == OldestFirst([], FilesOf(store, plan[..i]), zero)
    {
      if plan[i] !in store {
        assert plan[i] in plan;
        return Err(MissingFile(plan[i]));
      }
      assert plan[..i + 1] == plan[..i] + [plan[i]];
      assert FilesOf(store, plan[..i + 1])[..i] == FilesOf(store, plan[..i]);
      var file := store[plan[i]].file;
      image := CopyPages(Resize(image, file.commit, zero), file, lock);
      assert image == Overlay(OldestFirst([], FilesOf(store, plan[..i]), zero), file.pages, file.commit, zero);
    }
    assert plan[..|plan|] == plan;
    return Ok(image);
  }

  method CopyPages<V>(resized: seq<V>, file: LtxFile<V>, ghost lock: nat) returns (image: seq<V>)
    requires Encodable(file, lock) && |resized| == file.commit
    ensures |image| == file.commit
    ensures forall i :: 0 <= i < |image| ==> image[i] == if i + 1 in file.pages then file.pages[i + 1] else resized[i]
  {
    var frames := Frames(file.pages, file.commit);
    FramesListPages(file.pages, file.commit);
    image := resized;
    for j := 0 to |frames|
      invariant |image| == file.commit
      invariant forall i :: 0 <= i < |image| ==>
        image[i] == if Seen(frames, j, i + 1) then file.pages[i + 1] else resized[i]
    {
      assert IsFrameOf(frames[j], file.pages, file.commit);
      forall p | 1 <= p <= |image|
        ensures Seen(frames, j + 1, p) <==> Seen(frames, j, p) || frames[j].pgno == p
      {
        SeenNext(frames, j, p);
      }
      image := image[frames[j].pgno - 1 := frames[j].data];
    }
  }

  lemma SeenNext<V>(frames: seq<Frame<V>>, j: nat, p: nat)
    requires j < |frames|
    ensures Seen(frames, j + 1, p) <==> Seen(frames, j, p) || frames[j].pgno == p
  {
  }

  /// `restore`: the latest image a replica holds.
  method RestoreLatest<V>(keys: seq<FileKey>, store: Store<V>, zero: V, ghost h: History<V>, ghost pageSize: nat)
    returns (r: Result<seq<V>>)
    requires Faithful(h, pageSize, store)
    ensures r.Ok? ==>
      && FullPlan(keys).Ok? && Reached(Greedy(keys, 0), 0) <= |h|
      && r.value == State(h, Reached(Greedy(keys, 0), 0), zero)
    ensures r.Err? ==> FullPlan(keys).Err? || !Present(store, FullPlan(keys).value)
  {
    var plan := PlanRestore(keys);
    if plan.Err? {
      return Err(plan.error);
    }
    AllStoredEncodable(h, pageSize, store, zero);
    r := ApplyPlan(store, plan.value, zero, LockPgno(pageSize));
    if r.Ok? {
      GreedyIsChain(keys, 0);
      ChainOfFiles(h, pageSize, store, keys, 0, plan.value);
      ChainReplays(h, LockPgno(pageSize), 0, FilesOf(store, plan.value), zero);
    }
  }

  lemma AllStoredEncodable<V>(h: History<V>, pageSize: nat, store: Store<V>, zero: V)
    requires Faithful(h, pageSize, store)
    ensures forall k :: k in store ==> Encodable(store[k].file, LockPgno(pageSize))
  {
    forall k | k in store ensures Encodable(store[k].file, LockPgno(pageSize)) {
      DescribedIsEncodable(h, LockPgno(pageSize), store[k].file, zero);
    }
  }

  /// `restore_to_txid`: the newest state not after `target` that files ending by `target`
  /// reach.
  method RestoreToTxid<V>(keys: seq<FileKey>, store: Store<V>, target: nat, zero: V, ghost h: History<V>,
    ghost pageSize: nat)
    returns (r: Result<(seq<V>, nat)>)
    requires Faithful(h, pageSize, store)
    ensures r.Ok? ==>
      && r.value.1 <= |h| && r.value.1 == Reached(Greedy(EndingBy(keys, target), 0), 0)
      && r.value.0 == State(h, r.value.1, zero)
    ensures r == Err(TxidTooOld(target)) <==> FullPlan(EndingBy(keys, target)).Err?
    ensures FullPlan(EndingBy(keys, target)).Ok? && Present(store, FullPlan(EndingBy(keys, target)).value) ==> r.Ok?
  {
    var planned := PlanRestoreTo(keys, target);
    if planned.Err? {
      return Err(TxidTooOld(target));
    }
    var plan := planned.value;
    AllStoredEncodable(h, pageSize, store, zero);
    var image := ApplyPlan(store, plan, zero, LockPgno(pageSize));
    if image.Err? {
      return Err(image.error);
    }
    GreedyIsChain(EndingBy(keys, target), 0);
    ChainOfFiles(h, pageSize, store, EndingBy(keys, target), 0, plan);
    ChainReplays(h, LockPgno(pageSize), 0, FilesOf(store, plan), zero);
    return Ok((image.value, plan[|plan| - 1].max));
  }

  // --- The "already written" set ----------------------------------------------------------

  /// `DenseSet` (a flag per page) and `SparseSet` (a hash set) behind one `claim`.
  class PageSet {
    const dense: bool
    var bits: seq<bool>
    var seen: set<nat>

    constructor Dense(n: nat)
      ensures dense && |bits| == n && Claimed() == {}
    {
      dense := true;
      bits := seq(n, _ => false);
      seen := {};
    }

    constructor Sparse()
      ensures !dense && Claimed() == {}
    {
      dense := false;
      bits := [];
      seen := {};
    }

    ghost function Claimed(): set<nat>
      reads this
    {
      if dense then set p | 0 <= p < |bits| && bits[p] else seen
    }

    /// A dense set can only record pages it has a flag for.
    predicate InRange(p: nat)
      reads this
    {
      !dense || p < |bits|
    }

    /// Marks `p` written; true only for the first claim.
    method Claim(p: nat) returns (first: bool)
      modifies this
      ensures |bits| == old(|bits|)
      ensures first == (InRange(p) && p !in old(Claimed()))
      ensures Claimed() == if first then old(Claimed()) + {p} else old(Claimed())
    {
      if dense {
        first := p < |bits| && !bits[p];
        if first {
          bits := bits[p := true];
        }
      } else {
        first := p !in seen;
        seen := seen + {p};
      }
    }
  }

  /// The lock page counts as written from the start, so it stays zero-filled.
  method DenseWithLock(commit: nat, pageSize: nat) returns (written: PageSet)
    requires pageSize > 0
    ensures fresh(written) && written.dense && commit < |written.bits|
    ensures forall p :: 1 <= p <= commit ==> (p in written.Claimed() <==> p == LockPgno(pageSize))
  {
    written := new PageSet.Dense(commit + 1);
    var _ := written.Claim(LockPgno(pageSize));
  }

  method SparseWithLock(pageSize: nat) returns (written: PageSet)
    requires pageSize > 0
    ensures fresh(written) && !written.dense && written.Claimed() == {LockPgno(pageSize)}
  {
    written := new PageSet.Sparse();
    var _ := written.Claim(LockPgno(pageSize));
  }

  // --- The disk, and power failing -------------------------------------------------------

  /// A local database file and the marker beside it. `power` is how many more operations
  /// complete before the machine dies: any run can die at any point. Dying with unsynced
  /// writes leaves the file arbitrary, which covers any subset of them having reached the
  /// disk. Replacing the marker (temporary file, fsync, rename, directory fsync) is one
  /// atomic durable operation.
  class Disk<V> {
    var file: Option<seq<V>>
    var dirty: bool
    var marker: Option<Marker>
    var power: nat

    /// Starts one operation, or dies.
    method Step() returns (alive: bool)
      modifies this
      ensures marker == old(marker)
      ensures alive <==> old(power) > 0
      ensures alive ==> power == old(power) - 1 && file == old(file) && dirty == old(dirty)
      ensures !alive ==> power == 0 && !dirty && (!old(dirty) ==> file == old(file))
    {
      if power == 0 {
        if dirty {
          file := *;
        }
        dirty := false;
        return false;
      }
      power := power - 1;
      return true;
    }

    method WriteMarker(m: Marker) returns (alive: bool)
      modifies this
      ensures alive ==> marker == Some(m) && file == old(file) && dirty == old(dirty)
      ensures alive <==> old(power) > 0
      ensures power == if alive then old(power) - 1 else 0
      ensures !alive ==> marker == old(marker) && !dirty && (!old(dirty) ==> file == old(file))
    {
      alive := Step();
      if alive {
        marker := Some(m);
      }
    }

    /// `File::create` followed by `set_len`: a fresh, zero-filled file.
    method Create(pages: nat, zero: V) returns (alive: bool)
      modifies this
      ensures marker == old(marker)
      ensures alive <==> old(power) > 1
      ensures power == if alive then old(power) - 2 else 0
      ensures alive ==> file == Some(Resize([], pages, zero)) && dirty
    {
      alive := Step();
      if alive {
        file, dirty := Some([]), true;
        alive := SetLen(pages, zero);
      }
    }

    /// Truncates the file, or grows it with zeros.
    method SetLen(pages: nat, zero: V) returns (alive: bool)
      requires file.Some?
      modifies this
      ensures marker == old(marker)
      ensures alive <==> old(power) > 0
      ensures power == if alive then old(power) - 1 else 0
      ensures alive ==> file == Some(Resize(old(file).value, pages, zero)) && dirty
    {
      alive := Step();
      if alive {
        file, dirty := Some(Resize(file.value, pages, zero)), true;
      }
    }

    /// Two `set_len` calls: down (or up) to `low` pages, then to `final`.
    method Reshape(low: nat, final: nat, zero: V) returns (alive: bool)
      requires file.Some?
      modifies this
      ensures marker == old(marker)
      ensures alive <==> old(power) > 1
      ensures power == if alive then old(power) - 2 else 0
      ensures alive ==> file == Some(Resize(Resize(old(file).value, low, zero), final, zero)) && dirty
    {
      alive := SetLen(low, zero);
      if alive {
        alive := SetLen(final, zero);
      }
    }

    method WritePage(p: nat, data: V) returns (alive: bool)
      requires file.Some? && 1 <= p <= |file.value|
      modifies this
      ensures marker == old(marker)
      ensures alive <==> old(power) > 0
      ensures power == if alive then old(power) - 1 else 0
      ensures alive ==> file == Some(old(file).value[p - 1 := data]) && dirty
    {
      alive := Step();
      if alive {
        file, dirty := Some(file.value[p - 1 := data]), true;
      }
    }

    method SyncAll() returns (alive: bool)
      modifies this
      ensures marker == old(marker)
      ensures alive <==> old(power) > 0
      ensures power == if alive then old(power) - 1 else 0
      ensures alive ==> file == old(file) && !dirty
    {
      alive := Step();
      if alive {
        dirty := false;
      }
    }

    /// The marker protocol's promise: when a clean marker is on disk and the file still has
    /// the length it records, the file is exactly the state it names.
    ghost predicate Honest(h: History<V>, pageSize: nat, zero: V)
      reads this
    {
      marker.Some? && marker.value.Clean? ==>
        var t := marker.value.txid;
        && !dirty && t <= |h|
        && marker.value == Clean(t, pageSize, CommitAt(h, t), CommitAt(h, t) * pageSize)
        && (HasRecordedLength(marker.value) ==> file == Some(State(h, t, zero)))
    }

    predicate HasRecordedLength(m: Marker)
      requires m.Clean?
      reads this
    {
      file.Some? && |file.value| * m.pageSize == m.fileLen
    }

    /// The marker vouches for the file that is there.
    predicate Vouched()
      reads this
    {
      marker.Some? && marker.value.Clean? && HasRecordedLength(marker.value)
    }

    ghost predicate Holds(h: History<V>, t: nat, pageSize: nat, zero: V)
      requires t <= |h|
      reads this
    {
      && marker == Some(Clean(t, pageSize, CommitAt(h, t), CommitAt(h, t) * pageSize))
      && file == Some(State(h, t, zero))
      && !dirty
    }
  }

  /// How an operation on the disk ended.
  datatype Run<+T> = Done(value: T) | Failed(error: SyncError) | Crashed

  // --- Newest-first onto disk --------------------------------------------------------------

  /// Page `p` once a newest-first apply has finished the files `done` (the newest of the
  /// plan) and the first `j` frames of the file before them.
  ghost predicate PageState<V>(
    was: seq<V>, now: seq<V>, done: seq<LtxFile<V>>, file: LtxFile<V>, j: nat, claimed: set<nat>, lock: nat, p: nat)
    requires |now| == |was| && 1 <= p <= |was|
    requires j <= |Frames(file.pages, file.commit)|
    requires Encodable(file, lock)
  {
    var seen := Seen(Frames(file.pages, file.commit), j, p) && p in file.pages;
    && (p in claimed <==> p == lock || Resolve(done, p).Version? || seen)
    && now[p - 1] ==
        if p == lock then was[p - 1]
        else if Resolve(done, p).Version? then Resolve(done, p).data
        else if seen then file.pages[p]
        else was[p - 1]
  }

  ghost predicate Progress<V>(
    was: seq<V>, now: seq<V>, done: seq<LtxFile<V>>, file: LtxFile<V>, j: nat, claimed: set<nat>, lock: nat)
    requires |now| == |was|
    requires j <= |Frames(file.pages, file.commit)|
    requires Encodable(file, lock)
  {
    forall p :: 1 <= p <= |was| ==> PageState(was, now, done, file, j, claimed, lock, p)
  }

  /// The same between files.
  ghost predicate Between<V>(was: seq<V>, now: seq<V>, done: seq<LtxFile<V>>, claimed: set<nat>, lock: nat) {
    && now == NewestFirst(was, done, lock)
    && forall p :: 1 <= p <= |was| ==> (p in claimed <==> p == lock || Resolve(done, p).Version?)
  }

  lemma {:induction false} ResolveOlder<V>(file: LtxFile<V>, files: seq<LtxFile<V>>, p: nat)
    ensures Resolve([file] + files, p) ==
      if Resolve(files, p).Version? then Resolve(files, p)
      else if p in file.pages then Version(file.pages[p]) else Nowhere
    decreases |files|
  {
    var all, n := [file] + files, |files|;
    if n == 0 {
      assert all[..0] == [];
    } else {
      assert all[..n] == [file] + files[..n - 1];
      ResolveOlder(file, files[..n - 1], p);
    }
  }

  lemma FileDone<V>(was: seq<V>, now: seq<V>, done: seq<LtxFile<V>>, file: LtxFile<V>, claimed: set<nat>, lock: nat)
    requires |now| == |was| && Encodable(file, lock)
    requires Progress(was, now, done, file, |Frames(file.pages, file.commit)|, claimed, lock)
    ensures Between(was, now, [file] + done, claimed, lock)
  {
    var all := NewestFirst(was, [file] + done, lock);
    FramesListPages(file.pages, file.commit);
    forall i | 0 <= i < |was| ensures now[i] == all[i] {
      ResolveOlder(file, done, i + 1);
      assert PageState(was, now, done, file, |Frames(file.pages, file.commit)|, claimed, lock, i + 1);
    }
    forall p | 1 <= p <= |was| ensures p in claimed <==> p == lock || Resolve([file] + done, p).Version? {
      ResolveOlder(file, done, p);
      assert PageState(was, now, done, file, |Frames(file.pages, file.commit)|, claimed, lock, p);
    }
  }

  /// One frame: write it if its page is inside the final size and unclaimed.
  lemma FrameDone<V>(was: seq<V>, now: seq<V>, next: seq<V>, done: seq<LtxFile<V>>, file: LtxFile<V>, j: nat,
    claimed: set<nat>, claimedNext: set<nat>, lock: nat)
    requires |now| == |was| == |next| && Encodable(file, lock)
    requires j < |Frames(file.pages, file.commit)|
    requires Progress(was, now, done, file, j, claimed, lock)
    requires var f := Frames(file.pages, file.commit)[j];
      var write := f.pgno <= |was| && f.pgno !in claimed;
      && (f.pgno <= |was| ==> claimedNext == claimed + {f.pgno})
      && (f.pgno > |was| ==> claimedNext == claimed)
      && (write ==> 1 <= f.pgno && next == now[f.pgno - 1 := f.data])
      && (!write ==> next == now)
    ensures Progress(was, next, done, file, j + 1, claimedNext, lock)
  {
    var frames := Frames(file.pages, file.commit);
    FramesListPages(file.pages, file.commit);
    assert IsFrameOf(frames[j], file.pages, file.commit);
    var k := j + 1;
    forall p | 1 <= p <= |was| ensures PageState(was, next, done, file, k, claimedNext, lock, p) {
      SeenNext(frames, j, p);
      assert PageState(was, now, done, file, j, claimed, lock, p);
    }
  }

  /// The pages still to be written, at most.
  ghost function Unclaimed(claimed: set<nat>, commit: nat): (u: set<nat>) {
    set p | 1 <= p <= commit && p !in claimed
  }

  lemma OneFewerUnclaimed(claimed: set<nat>, p: nat, commit: nat)
    requires 1 <= p <= commit && p !in claimed
    ensures |Unclaimed(claimed + {p}, commit)| == |Unclaimed(claimed, commit)| - 1
  {
    assert Unclaimed(claimed, commit) == Unclaimed(claimed + {p}, commit) + {p};
  }

  lemma {:induction false} FewUnclaimed(claimed: set<nat>, commit: nat)
    ensures |Unclaimed(claimed, commit)| <= commit
  {
    if commit == 0 {
      assert Unclaimed(claimed, commit) == {};
    } else {
      FewUnclaimed(claimed, commit - 1);
      assert Unclaimed(claimed, commit) <= Unclaimed(claimed, commit - 1) + {commit};
      SubsetSize(Unclaimed(claimed, commit), Unclaimed(claimed, commit - 1) + {commit});
    }
  }

  lemma SubsetSize(a: set<nat>, b: set<nat>)
    requires a <= b
    ensures |a| <= |b|
  {
    assert b == a + (b - a);
  }

  /// One file of the walk below.
  method ApplyFile<V>(disk: Disk<V>, file: LtxFile<V>, commit: nat, written: PageSet,
    ghost was: seq<V>, ghost done: seq<LtxFile<V>>, ghost lock: nat)
    returns (alive: bool)
    requires Encodable(file, lock) && |was| == commit
    requires disk.file.Some? && |disk.file.value| == commit && disk.dirty
    requires !written.dense || commit < |written.bits|
    requires Between(was, disk.file.value, done, written.Claimed(), lock)
    modifies disk, written
    ensures disk.marker == old(disk.marker)
    ensures !alive ==> old(disk.power) < |Unclaimed(old(written.Claimed()), commit)|
    ensures alive ==>
      disk.power + |Unclaimed(old(written.Claimed()), commit)| ==
        old(disk.power) + |Unclaimed(written.Claimed(), commit)|
    ensures alive ==>
      && disk.file.Some? && |disk.file.value| == commit && disk.dirty
      && |written.bits| == old(|written.bits|)
      && Between(was, disk.file.value, [file] + done, written.Claimed(), lock)
  {
    var frames := Frames(file.pages, file.commit);
    for j := 0 to |frames|
      invariant disk.marker == old(disk.marker) && disk.dirty
      invariant disk.file.Some? && |disk.file.value| == commit
      invariant |written.bits| == old(|written.bits|)
      invariant disk.power + |Unclaimed(old(written.Claimed()), commit)| ==
        old(disk.power) + |Unclaimed(written.Claimed(), commit)|
      invariant Progress(was, disk.file.value, done, file, j, written.Claimed(), lock)
    {
      ghost var now, claimed := disk.file.value, written.Claimed();
      var pgno := frames[j].pgno;
      FrameInRange(file, j);
      if 1 <= pgno <= commit {
        var first := written.Claim(pgno);
        assert written.Claimed() == claimed + {pgno};
        if first {
          OneFewerUnclaimed(claimed, pgno, commit);
          alive := disk.WritePage(pgno, frames[j].data);
          if !alive { return; }
        }
      }
      FrameDone(was, now, disk.file.value, done, file, j, claimed, written.Claimed(), lock);
    }
    FileDone(was, disk.file.value, done, file, written.Claimed(), lock);
    alive := true;
  }

  lemma FrameInRange<V>(file: LtxFile<V>, j: nat)
    requires j < |Frames(file.pages, file.commit)|
    ensures 1 <= Frames(file.pages, file.commit)[j].pgno
  {
    FramesListPages(file.pages, file.commit);
    assert IsFrameOf(Frames(file.pages, file.commit)[j], file.pages, file.commit);
  }

  /// Walks the plan newest-first, writing each page the first time it is seen.
  method ApplyNewestFirst<V>(disk: Disk<V>, store: Store<V>, plan: seq<FileKey>, commit: nat, written: PageSet,
    ghost lock: nat)
    returns (r: Run<()>)
    requires forall k :: k in store ==> Encodable(store[k].file, lock)
    requires disk.file.Some? && |disk.file.value| == commit && disk.dirty
    requires !written.dense || commit < |written.bits|
    requires forall p :: 1 <= p <= commit ==> (p in written.Claimed() <==> p == lock)
    modifies disk, written
    ensures disk.marker == old(disk.marker)
    ensures r.Done? ==>
      && Present(store, plan) && disk.dirty
      && disk.file == Some(NewestFirst(old(disk.file).value, FilesOf(store, plan), lock))
    ensures r.Failed? ==> !Present(store, plan)
    ensures r.Done? ==> disk.power >= old(disk.power) - commit
    ensures r.Crashed? ==> old(disk.power) < commit
  {
    ghost var was := disk.file.value;
    FewUnclaimed(written.Claimed(), commit);
    assert FilesOf(store, plan[|plan|..]) == [];
    for i := |plan| downto 0
      invariant Present(store, plan[i..])
      invariant disk.marker == old(disk.marker) && disk.dirty
      invariant disk.file.Some? && |disk.file.value| == commit
      invariant |written.bits| == old(|written.bits|)
      invariant disk.power + |Unclaimed(old(written.Claimed()), commit)| ==
        old(disk.power) + |Unclaimed(written.Claimed(), commit)|
      invariant Between(was, disk.file.value, FilesOf(store, plan[i..]), written.Claimed(), lock)
    {
      if plan[i] !in store {
        assert plan[i] in plan;
        return Failed(MissingFile(plan[i]));
      }
      var alive := ApplyFile(disk, store[plan[i]].file, commit, written, was, FilesOf(store, plan[i + 1..]), lock);
      if !alive { return Crashed; }
      assert plan[i..] == [plan[i]] + plan[i + 1..];
      assert FilesOf(store, plan[i..]) == [store[plan[i]].file] + FilesOf(store, plan[i + 1..]);
    }
    assert plan[0..] == plan;
    return Done(());
  }

  /// The file has been cut down to what the plan keeps of the state it starts from.
  ghost predicate Prepared<V>(file: Option<seq<V>>, files: seq<LtxFile<V>>, base: seq<V>, commit: nat, zero: V) {
    files != [] ==>
      && commit == files[|files| - 1].commit
      && file == Some(Resize(Resize(base, LeastCommit(files), zero), commit, zero))
  }

  /// Applying a plan newest-first over a prepared file gives the state the plan reaches.
  lemma PreparedRestores<V>(h: History<V>, pageSize: nat, store: Store<V>, keys: seq<FileKey>, t: nat,
    plan: seq<FileKey>,
    was: seq<V>, commit: nat, zero: V)
    requires Faithful(h, pageSize, store) && t <= |h|
    requires plan != [] && Present(store, plan) && IsChain(keys, t, plan)
    requires Prepared(Some(was), FilesOf(store, plan), State(h, t, zero), commit, zero)
    ensures Reached(plan, t) <= |h|
    ensures commit == CommitAt(h, Reached(plan, t))
    ensures NewestFirst(was, FilesOf(store, plan), LockPgno(pageSize)) == State(h, Reached(plan, t), zero)
  {
    ChainOfFiles(h, pageSize, store, keys, t, plan);
    PreparedFilesRestore(h, LockPgno(pageSize), t, FilesOf(store, plan), was, commit, zero);
  }

  lemma PreparedFilesRestore<V>(h: History<V>, lock: nat, t: nat, files: seq<LtxFile<V>>, was: seq<V>, commit: nat,
    zero: V)
    requires WellFormed(h, lock) && 1 <= lock && t <= |h| && files != [] && AllDescribe(h, files) && ChainFrom(t, files)
    requires Prepared(Some(was), files, State(h, t, zero), commit, zero)
    ensures EndOf(t, files) <= |h| && commit == CommitAt(h, EndOf(t, files))
    ensures NewestFirst(was, files, lock) == State(h, EndOf(t, files), zero)
  {
    ChainRestores(h, lock, t, files, zero);
  }

  /// The shared tail of a full restore and a delta: write the pages, sync the file, and
  /// only then replace the `Applying` marker.
  method ApplyAndStamp<V>(disk: Disk<V>, keys: seq<FileKey>, store: Store<V>, plan: seq<FileKey>, from: nat,
    pageSize: nat, commit: nat, written: PageSet, zero: V, ghost h: History<V>)
    returns (r: Run<nat>)
    requires Faithful(h, pageSize, store) && from <= |h| && plan != [] && IsChain(keys, from, plan)
    requires disk.marker.Some? && disk.marker.value.Applying?
    requires disk.file.Some? && |disk.file.value| == commit && disk.dirty
    requires Present(store, plan) ==> Prepared(disk.file, FilesOf(store, plan), State(h, from, zero), commit, zero)
    requires !written.dense || commit < |written.bits|
    requires forall p :: 1 <= p <= commit ==> (p in written.Claimed() <==> p == LockPgno(pageSize))
    modifies disk, written
    ensures disk.Honest(h, pageSize, zero)
    ensures r.Done? ==> r.value == Reached(plan, from) && r.value <= |h| && disk.Holds(h, r.value, pageSize, zero)
    ensures r.Failed? ==> !Present(store, plan)
    ensures r.Crashed? ==> old(disk.power) < commit + 2
  {
    ghost var was := disk.file.value;
    AllStoredEncodable(h, pageSize, store, zero);
    var applied := ApplyNewestFirst(disk, store, plan, commit, written, LockPgno(pageSize));
    if applied.Crashed? { return Crashed; }
    if applied.Failed? { return Failed(applied.error); }
    var alive := disk.SyncAll();
    if !alive { return Crashed; }
    var to := plan[|plan| - 1].max;
    PreparedRestores(h, pageSize, store, keys, from, plan, was, commit, zero);
    ProductIsNat(commit, pageSize);
    alive := disk.WriteMarker(Clean(to, pageSize, commit, commit * pageSize));
    if !alive { return Crashed; }
    return Done(to);
  }

  lemma ProductIsNat(a: nat, b: nat)
    ensures a * b >= 0
  {
  }

  /// The operations that suffice to write the state a plan ending in `k` reaches: its marker,
  /// two to size the file, one a page, one to sync, and the marker again.
  ghost function EnoughFor<V>(store: Store<V>, k: FileKey): nat {
    if k in store then store[k].file.commit + 5 else 0
  }

  ghost predicate PowerShort<V>(store: Store<V>, keys: seq<FileKey>, power: nat) {
    exists k :: k in keys && EnoughFor(store, k) > power
  }

  lemma ShortBefore<V>(later: Store<V>, store: Store<V>, keys: seq<FileKey>, power: nat)
    requires Remains(later, store)
    ensures PowerShort(later, keys, power) ==> PowerShort(store, keys, power)
  {
    if PowerShort(later, keys, power) {
      var k :| k in keys && EnoughFor(later, k) > power;
      assert EnoughFor(store, k) > power;
    }
  }

  // --- Full restore onto disk ---------------------------------------------------------------

  /// `apply_plan_to_path`: rebuilds the file from nothing under an `Applying` marker.
  method ApplyPlanToPath<V>(disk: Disk<V>, keys: seq<FileKey>, store: Store<V>, plan: seq<FileKey>, zero: V,
    ghost h: History<V>, ghost pageSize: nat)
    returns (r: Run<nat>)
    requires Faithful(h, pageSize, store) && IsChain(keys, 0, plan)
    requires disk.Honest(h, pageSize, zero)
    modifies disk
    ensures disk.Honest(h, pageSize, zero)
    ensures r.Done? ==>
      && plan != [] && r.value == Reached(plan, 0) && r.value <= |h|
      && disk.Holds(h, r.value, pageSize, zero)
    ensures r.Failed? ==> plan == [] || !Present(store, plan)
    ensures r.Crashed? ==> plan != [] && EnoughFor(store, plan[|plan| - 1]) > old(disk.power)
  {
    if plan == [] {
      return Failed(NoSnapshot);
    }
    var newest := plan[|plan| - 1];
    if newest !in store {
      assert newest in plan;
      return Failed(MissingFile(newest));
    }
    var size, commit := store[newest].pageSize, store[newest].file.commit;
    var alive := disk.WriteMarker(Applying(0, newest.max));
    if !alive { return Crashed; }
    alive := disk.Create(commit, zero);
    if !alive { return Crashed; }

    if Present(store, plan) {
      FromScratch(FilesOf(store, plan), commit, zero);
    }
    var written := DenseWithLock(commit, size);
    r := ApplyAndStamp(disk, keys, store, plan, 0, size, commit, written, zero, h);
  }

  /// `restore_to_path`.
  method RestoreToPath<V>(disk: Disk<V>, keys: seq<FileKey>, store: Store<V>, zero: V, ghost h: History<V>,
    ghost pageSize: nat)
    returns (r: Run<nat>)
    requires Faithful(h, pageSize, store)
    requires disk.Honest(h, pageSize, zero)
    modifies disk
    ensures disk.Honest(h, pageSize, zero)
    ensures r.Done? ==>
      && r.value == Reached(Greedy(keys, 0), 0) && r.value <= |h|
      && disk.Holds(h, r.value, pageSize, zero)
    ensures r.Failed? ==> FullPlan(keys).Err? || !Present(store, FullPlan(keys).value)
    ensures r.Crashed? ==> PowerShort(store, keys, old(disk.power))
  {
    var plan := PlanRestore(keys);
    if plan.Err? {
      return Failed(plan.error);
    }
    GreedyIsChain(keys, 0);
    ChainMembers(keys, 0, plan.value);
    r := ApplyPlanToPath(disk, keys, store, plan.value, zero, h, pageSize);
  }

  // --- Incremental restore --------------------------------------------------------------------

  datatype DeltaShape = DeltaShape(pageSize: nat, finalCommit: nat, minCommit: nat)

  const MAX_COMMIT: nat := 0xFFFF_FFFF

  /// Reads the plan's headers: one page size throughout, the final size, and the smallest
  /// size the database passes through.
  method ReadDeltaShape<V>(store: Store<V>, plan: seq<FileKey>) returns (r: Result<DeltaShape>)
    requires forall k :: k in store ==> store[k].pageSize > 0
    requires plan != []
    ensures r.Ok? ==>
      && Present(store, plan)
      && (forall k :: k in plan ==> store[k].pageSize == r.value.pageSize)
      && r.value.finalCommit == FilesOf(store, plan)[|plan| - 1].commit
      && var least := LeastCommit(FilesOf(store, plan));
      r.value.minCommit == if least < MAX_COMMIT then least else MAX_COMMIT
    ensures r.Err? && Present(store, plan) ==>
      exists i, j :: 0 <= i < j < |plan| && store[plan[i]].pageSize != store[plan[j]].pageSize
  {
    var pageSize, finalCommit, minCommit := 0, 0, MAX_COMMIT;
    for i := 0 to |plan|
      invariant Present(store, plan[..i])
      invariant pageSize == if i == 0 then 0 else store[plan[0]].pageSize
      invariant forall j :: 0 <= j < i ==> plan[j] in store && store[plan[j]].pageSize == pageSize
      invariant i > 0 ==> finalCommit == store[plan[i - 1]].file.commit
      invariant minCommit <= MAX_COMMIT
      invariant forall j :: 0 <= j < i ==> minCommit <= store[plan[j]].file.commit
      invariant minCommit == MAX_COMMIT || exists j :: 0 <= j < i && minCommit == store[plan[j]].file.commit
    {
      if plan[i] !in store {
        assert plan[i] in plan;
        return Err(MissingFile(plan[i]));
      }
      var stored := store[plan[i]];
      if pageSize != 0 && stored.pageSize != pageSize {
        assert store[plan[0]].pageSize != store[plan[i]].pageSize;
        return Err(InvalidPageSize(stored.pageSize));
      }
      pageSize, finalCommit := stored.pageSize, stored.file.commit;
      minCommit := if stored.file.commit < minCommit then stored.file.commit else minCommit;
    }
    assert plan[..|plan|] == plan;
    return Ok(DeltaShape(pageSize, finalCommit, minCommit));
  }

  /// `apply_delta_to_path`: truncate to the low-water mark, grow, write newest-first. `shape`
  /// was read from `store`; an object may be gone by the time its pages are fetched.
  method ApplyDeltaToPath<V>(disk: Disk<V>, keys: seq<FileKey>, later: Store<V>, plan: seq<FileKey>, from: nat,
    shape: DeltaShape, zero: V, ghost store: Store<V>, ghost h: History<V>, ghost pageSize: nat)
    returns (r: Run<nat>)
    requires Faithful(h, pageSize, store) && Remains(later, store) && IsChain(keys, from, plan)
    requires plan != [] && Present(store, plan) && from <= |h|
    requires shape.pageSize == pageSize
    requires shape.finalCommit == FilesOf(store, plan)[|plan| - 1].commit
    requires shape.minCommit == LeastCommit(FilesOf(store, plan))
    requires disk.Honest(h, pageSize, zero) && disk.file == Some(State(h, from, zero))
    modifies disk
    ensures disk.Honest(h, pageSize, zero)
    ensures r.Done? ==> r.value == Reached(plan, from) && r.value <= |h| && disk.Holds(h, r.value, pageSize, zero)
    ensures r.Failed? ==> !Present(later, plan)
    ensures r.Crashed? ==> EnoughFor(store, plan[|plan| - 1]) > old(disk.power)
  {
    var to := plan[|plan| - 1].max;
    var commit := shape.finalCommit;
    var alive := disk.WriteMarker(Applying(from, to));
    if !alive { return Crashed; }
    alive := disk.Reshape(shape.minCommit, commit, zero);
    if !alive { return Crashed; }

    RemainsFaithful(later, store, h, pageSize);
    ReshapedIsPrepared(later, store, plan, State(h, from, zero), shape.minCommit, commit, zero);
    var written := SparseWithLock(shape.pageSize);
    r := ApplyAndStamp(disk, keys, later, plan, from, shape.pageSize, commit, written, zero, h);
  }

  lemma RemainsFaithful<V>(later: Store<V>, store: Store<V>, h: History<V>, pageSize: nat)
    requires Remains(later, store) && Faithful(h, pageSize, store)
    ensures Faithful(h, pageSize, later)
  {
  }

  lemma ReshapedIsPrepared<V>(later: Store<V>, store: Store<V>, plan: seq<FileKey>, base: seq<V>, low: nat,
    commit: nat, zero: V)
    requires Remains(later, store) && Present(store, plan) && plan != []
    requires commit == FilesOf(store, plan)[|plan| - 1].commit && low == LeastCommit(FilesOf(store, plan))
    ensures Present(later, plan) ==>
      Prepared(Some(Resize(Resize(base, low, zero), commit, zero)), FilesOf(later, plan), base, commit, zero)
  {
    RemainingFiles(later, store, plan);
  }

  datatype CatchUpResult =
    | UpToDate(txid: nat)
    | Incremental(from: nat, to: nat, files: nat)
    | FullRestore(to: nat, reason: FallbackReason)
  {
    /// The TXID the file is at.
    function Txid(): nat {
      match this
      case UpToDate(txid) => txid
      case Incremental(_, to, _) => to
      case FullRestore(to, _) => to
    }

    predicate Because(why: FallbackReason) {
      FullRestore? && reason == why
    }
  }

  datatype FallbackReason = NoMarker | DirtyMarker | LengthMismatch | ChainGapped | PageSizeChanged | LocalAhead

  /// `catch_up`: bring the file at `disk` to the replica's HEAD, by delta when the marker
  /// proves that safe and by full restore otherwise. `headerPageSize` reads the page size
  /// the file's own first page states.
  ///
  /// `store` is the replica when a delta's headers are read, `later` when pages are fetched.
  ///
  /// Whatever happens (completion, an object that vanished since the listing or since its
  /// header was read, power failing at any operation) the marker left behind is honest, and
  /// a completed run leaves exactly the state it reports.
  method CatchUp<V>(disk: Disk<V>, keys: seq<FileKey>, store: Store<V>, later: Store<V>,
    headerPageSize: seq<V> -> Option<nat>, zero: V, ghost h: History<V>, ghost pageSize: nat)
    returns (r: Run<CatchUpResult>)
    requires Faithful(h, pageSize, store) && Remains(later, store)
    requires forall t: nat :: t <= |h| ==> CommitAt(h, t) <= MAX_COMMIT
    requires disk.Honest(h, pageSize, zero)
    modifies disk
    ensures disk.Honest(h, pageSize, zero)
    ensures r.Done? ==> (r.value.Because(NoMarker) <==> old(disk.marker).None?)
    ensures r.Done? ==>
      (r.value.Because(DirtyMarker) <==> old(disk.marker).Some? && old(disk.marker).value.Applying?)
    ensures r.Done? ==>
      (r.value.Because(LengthMismatch) <==>
        old(disk.marker).Some? && old(disk.marker).value.Clean? && !old(disk.Vouched()))
    ensures r.Done? && !old(disk.Vouched()) ==> r.value.FullRestore?
    ensures r.Done? && old(disk.Vouched()) ==>
      var from := old(disk.marker).value.txid;
      var gap := exists t :: from < t <= Head(keys) && !Covered(keys, t);
      var resized :=
        || headerPageSize(old(disk.file).value) != Some(old(disk.marker).value.pageSize)
        || exists k :: k in Greedy(keys, from) && k in store && store[k].pageSize != old(disk.marker).value.pageSize;
      && (r.value.Because(LocalAhead) <==> from > Head(keys))
      && (r.value.UpToDate? <==> from == Head(keys))
      && (r.value.Because(ChainGapped) <==> gap)
      && (r.value.Because(PageSizeChanged) <==> from < Head(keys) && !gap && resized)
      && (r.value.Incremental? <==> from < Head(keys) && !gap && !resized)
    ensures r.Done? && r.value.UpToDate? ==> unchanged(disk)
    ensures r.Done? ==> match r.value
      case UpToDate(txid) =>
        txid == Head(keys) && txid <= |h| && disk.Holds(h, txid, pageSize, zero)
      case Incremental(from, to, files) =>
        && old(disk.marker).Some? && old(disk.marker).value.Clean? && from == old(disk.marker).value.txid < to
        && to == Head(keys) && files == |Greedy(keys, from)|
        && to <= |h| && disk.Holds(h, to, pageSize, zero)
      case FullRestore(to, reason) =>
        && to == Reached(Greedy(keys, 0), 0) &&
          (to == Head(keys) <==> forall t :: 1 <= t <= Head(keys) ==> Covered(keys, t))
        && to <= |h| && disk.Holds(h, to, pageSize, zero)
    ensures r.Failed? ==>
      || FullPlan(keys).Err? || !Present(later, FullPlan(keys).value)
      || (old(disk.Vouched()) && !Present(later, Greedy(keys, old(disk.marker).value.txid)))
    ensures r.Failed? && old(disk.Vouched()) ==> old(disk.marker).value.txid != Head(keys)
    ensures r.Crashed? ==> PowerShort(store, keys, old(disk.power))
  {
    ShortBefore(later, store, keys, disk.power);
    if disk.marker.None? {
      r := FullRestoreFor(disk, keys, later, NoMarker, zero, h, pageSize);
      return;
    }
    if disk.marker.value.Applying? {
      r := FullRestoreFor(disk, keys, later, DirtyMarker, zero, h, pageSize);
      return;
    }
    var marker := disk.marker.value;
    if !disk.HasRecordedLength(marker) {
      r := FullRestoreFor(disk, keys, later, LengthMismatch, zero, h, pageSize);
      return;
    }
    r := CatchUpFrom(disk, keys, store, later, marker, headerPageSize, zero, h, pageSize);
  }

  /// The rest of `catch_up`, with a marker that vouches for the file.
  method CatchUpFrom<V>(disk: Disk<V>, keys: seq<FileKey>, store: Store<V>, later: Store<V>, marker: Marker,
    headerPageSize: seq<V> -> Option<nat>, zero: V, ghost h: History<V>, ghost pageSize: nat)
    returns (r: Run<CatchUpResult>)
    requires Faithful(h, pageSize, store) && Remains(later, store)
    requires forall t: nat :: t <= |h| ==> CommitAt(h, t) <= MAX_COMMIT
    requires disk.Honest(h, pageSize, zero) && disk.Vouched() && disk.marker == Some(marker)
    modifies disk
    ensures disk.Honest(h, pageSize, zero)
    ensures r.Done? ==> !r.value.Because(NoMarker) && !r.value.Because(DirtyMarker) && !r.value.Because(LengthMismatch)
    ensures r.Done? ==>
      var from := marker.txid;
      var gap := exists t :: from < t <= Head(keys) && !Covered(keys, t);
      var resized :=
        || headerPageSize(old(disk.file).value) != Some(marker.pageSize)
        || exists k :: k in Greedy(keys, from) && k in store && store[k].pageSize != marker.pageSize;
      && (r.value.Because(LocalAhead) <==> from > Head(keys))
      && (r.value.UpToDate? <==> from == Head(keys))
      && (r.value.Because(ChainGapped) <==> gap)
      && (r.value.Because(PageSizeChanged) <==> from < Head(keys) && !gap && resized)
      && (r.value.Incremental? <==> from < Head(keys) && !gap && !resized)
    ensures r.Done? && r.value.UpToDate? ==> unchanged(disk)
    ensures r.Done? ==> match r.value
      case UpToDate(txid) => txid == Head(keys) && txid <= |h| && disk.Holds(h, txid, pageSize, zero)
      case Incremental(from, to, files) =>
        && from == marker.txid < to && to == Head(keys) && files == |Greedy(keys, from)|
        && to <= |h| && disk.Holds(h, to, pageSize, zero)
      case FullRestore(to, reason) =>
        && to == Reached(Greedy(keys, 0), 0) &&
          (to == Head(keys) <==> forall t :: 1 <= t <= Head(keys) ==> Covered(keys, t))
        && to <= |h| && disk.Holds(h, to, pageSize, zero)
    ensures r.Failed? ==>
      FullPlan(keys).Err? || !Present(later, FullPlan(keys).value) || !Present(later, Greedy(keys, marker.txid))
    ensures r.Failed? ==> marker.txid != Head(keys)
    ensures r.Crashed? ==> PowerShort(store, keys, old(disk.power))
  {
    ShortBefore(later, store, keys, disk.power);
    var head, txid := Head(keys), marker.txid;
    if txid > head {
      r := FullRestoreFor(disk, keys, later, LocalAhead, zero, h, pageSize);
      return;
    }
    if txid == head {
      return Done(UpToDate(txid));
    }
    var planned := PlanDelta(keys, txid);
    if planned.Err? {
      r := FullRestoreFor(disk, keys, later, ChainGapped, zero, h, pageSize);
      return;
    }
    if planned.value == [] {
      return Done(UpToDate(txid));
    }
    r := CatchUpByDelta(disk, keys, store, later, planned.value, marker, headerPageSize, zero, h, pageSize);
  }

  /// `plan_restore_from`, and what a delta that is not a gap looks like.
  method PlanDelta(keys: seq<FileKey>, from: nat) returns (r: Result<seq<FileKey>>)
    requires from < Head(keys)
    ensures r.Err? <==> exists t :: from < t <= Head(keys) && !Covered(keys, t)
    ensures r.Ok? ==>
      && r.value != [] && r.value == Greedy(keys, from) && Reached(r.value, from) == Head(keys)
      && IsChain(keys, from, r.value) && forall k :: k in r.value ==> k in keys
  {
    r := PlanRestoreFrom(keys, from);
    if r.Ok? {
      ChainMembers(keys, from, r.value);
    }
  }

  /// The delta arm of `catch_up`.
  method CatchUpByDelta<V>(disk: Disk<V>, keys: seq<FileKey>, store: Store<V>, later: Store<V>, plan: seq<FileKey>,
    marker: Marker, headerPageSize: seq<V> -> Option<nat>, zero: V, ghost h: History<V>, ghost pageSize: nat)
    returns (r: Run<CatchUpResult>)
    requires Faithful(h, pageSize, store) && Remains(later, store)
    requires forall t: nat :: t <= |h| ==> CommitAt(h, t) <= MAX_COMMIT
    requires marker.Clean? && plan != [] && IsChain(keys, marker.txid, plan) && forall k :: k in plan ==> k in keys
    requires disk.Honest(h, pageSize, zero) && disk.marker == Some(marker) && disk.HasRecordedLength(marker)
    modifies disk
    ensures disk.Honest(h, pageSize, zero)
    ensures r.Done? ==>
      var resized :=
        || headerPageSize(old(disk.file).value) != Some(marker.pageSize)
        || exists k :: k in plan && k in store && store[k].pageSize != marker.pageSize;
      if resized then r.value.Because(PageSizeChanged) else r.value.Incremental?
    ensures r.Done? ==> match r.value
      case UpToDate(_) => false
      case Incremental(from, to, files) =>
        && from == marker.txid && to == Reached(plan, marker.txid) && files == |plan|
        && to <= |h| && disk.Holds(h, to, pageSize, zero)
      case FullRestore(to, reason) =>
        && to == Reached(Greedy(keys, 0), 0) &&
          (to == Head(keys) <==> forall t :: 1 <= t <= Head(keys) ==> Covered(keys, t))
        && to <= |h| && disk.Holds(h, to, pageSize, zero)
    ensures r.Failed? ==>
      FullPlan(keys).Err? || !Present(later, FullPlan(keys).value) || !Present(later, plan)
    ensures r.Crashed? ==> PowerShort(store, keys, old(disk.power))
  {
    ShortBefore(later, store, keys, disk.power);
    var shape := ReadDeltaShape(store, plan);
    if shape.Err? {
      return Failed(shape.error);
    }
    if shape.value.pageSize != marker.pageSize || headerPageSize(disk.file.value) != Some(marker.pageSize) {
      r := FullRestoreFor(disk, keys, later, PageSizeChanged, zero, h, pageSize);
      return;
    }
    SmallCommits(h, pageSize, store, plan);
    var to := ApplyDeltaToPath(disk, keys, later, plan, marker.txid, shape.value, zero, store, h, pageSize);
    r := match to
      case Done(end) => Done(Incremental(marker.txid, end, |plan|))
      case Failed(e) => Failed(e)
      case Crashed => Crashed;
  }

  lemma SmallCommits<V>(h: History<V>, pageSize: nat, store: Store<V>, plan: seq<FileKey>)
    requires Faithful(h, pageSize, store) && Present(store, plan) && plan != []
    requires forall t: nat :: t <= |h| ==> CommitAt(h, t) <= MAX_COMMIT
    ensures LeastCommit(FilesOf(store, plan)) <= MAX_COMMIT
  {
    assert plan[0] in plan;
    assert FilesOf(store, plan)[0].commit == CommitAt(h, plan[0].max);
  }

  /// The fallback arm of `catch_up`.
  method FullRestoreFor<V>(disk: Disk<V>, keys: seq<FileKey>, store: Store<V>, reason: FallbackReason, zero: V,
    ghost h: History<V>, ghost pageSize: nat)
    returns (r: Run<CatchUpResult>)
    requires Faithful(h, pageSize, store)
    requires disk.Honest(h, pageSize, zero)
    modifies disk
    ensures disk.Honest(h, pageSize, zero)
    ensures r.Done? ==>
      && r.value == FullRestore(Reached(Greedy(keys, 0), 0), reason)
      && (r.value.to == Head(keys) <==> forall t :: 1 <= t <= Head(keys) ==> Covered(keys, t))
      && r.value.to <= |h| && disk.Holds(h, r.value.to, pageSize, zero)
    ensures r.Failed? ==> FullPlan(keys).Err? || !Present(store, FullPlan(keys).value)
    ensures r.Crashed? ==> PowerShort(store, keys, old(disk.power))
  {
    GreedyReachesCoveredRun(keys, 0);
    var to := RestoreToPath(disk, keys, store, zero, h, pageSize);
    r := match to
      case Done(txid) => Done(FullRestore(txid, reason))
      case Failed(e) => Failed(e)
      case Crashed => Crashed;
  }

  // --- Over every run -----------------------------------------------------------------------

  /// One boot of the machine: the replica as it is by then, what is left of it when pages are
  /// fetched, the listing read from it, what (if anything) another program left in the file's
  /// place, and how many disk operations succeed before power fails again.
  datatype Boot<V> = Boot(h: History<V>, store: Store<V>, later: Store<V>, keys: seq<FileKey>,
                          foreign: Option<Option<seq<V>>>, power: nat)

  /// The replica only ever advances between boots.
  ghost predicate Advances<V>(boots: seq<Boot<V>>, pageSize: nat) {
    && (forall i :: 0 <= i < |boots| ==> Faithful(boots[i].h, pageSize, boots[i].store))
    && (forall i :: 0 <= i < |boots| ==> Remains(boots[i].later, boots[i].store))
    && (forall i :: 0 <= i < |boots| ==> forall t: nat :: t <= |boots[i].h| ==> CommitAt(boots[i].h, t) <= MAX_COMMIT)
    && (forall i, j :: 0 <= i < j < |boots| ==> boots[i].h <= boots[j].h)
  }

  /// How a boot ended: at the state it reports, with an object missing, or short of power.
  ghost predicate Outcome<V>(r: Run<CatchUpResult>, disk: Disk<V>, boot: Boot<V>, pageSize: nat, zero: V)
    reads disk
  {
    match r
    case Done(done) => done.Txid() <= |boot.h| && disk.Holds(boot.h, done.Txid(), pageSize, zero)
    case Failed(_) => FullPlan(boot.keys).Err? || !Present(boot.later, boot.keys)
    case Crashed => PowerShort(boot.store, boot.keys, boot.power)
  }

  lemma PlannedIsListed<V>(store: Store<V>, keys: seq<FileKey>, from: nat)
    ensures FullPlan(keys).Ok? && !Present(store, FullPlan(keys).value) ==> !Present(store, keys)
    ensures !Present(store, Greedy(keys, from)) ==> !Present(store, keys)
  {
    GreedyIsChain(keys, 0);
    ChainMembers(keys, 0, Greedy(keys, 0));
    GreedyIsChain(keys, from);
    ChainMembers(keys, from, Greedy(keys, from));
  }

  /// Any number of boots, each running `catch_up` until it completes, fails or dies, over
  /// a replica that keeps advancing: the marker is honest throughout, so no image is ever
  /// trusted that is not the state it claims to be. What the last boot did is what its own
  /// replica and power allow.
  method CatchUpAcrossBoots<V>(disk: Disk<V>, boots: seq<Boot<V>>, headerPageSize: seq<V> -> Option<nat>, zero: V,
    ghost pageSize: nat)
    returns (r: Run<CatchUpResult>)
    requires boots != [] && Advances(boots, pageSize)
    requires disk.marker.None?
    modifies disk
    ensures disk.Honest(boots[|boots| - 1].h, pageSize, zero)
    ensures Outcome(r, disk, boots[|boots| - 1], pageSize, zero)
  {
    r := Crashed;
    for i := 0 to |boots|
      invariant disk.Honest(boots[if i == 0 then 0 else i - 1].h, pageSize, zero)
      invariant i > 0 ==> Outcome(r, disk, boots[i - 1], pageSize, zero)
    {
      HonestAsReplicaAdvances(disk, boots[if i == 0 then 0 else i - 1].h, boots[i].h, pageSize, zero);
      r := CatchUpAtBoot(disk, boots[i], headerPageSize, zero, pageSize);
    }
  }

  method CatchUpAtBoot<V>(disk: Disk<V>, boot: Boot<V>, headerPageSize: seq<V> -> Option<nat>, zero: V,
    ghost pageSize: nat)
    returns (r: Run<CatchUpResult>)
    requires Faithful(boot.h, pageSize, boot.store) && Remains(boot.later, boot.store)
    requires forall t: nat :: t <= |boot.h| ==> CommitAt(boot.h, t) <= MAX_COMMIT
    requires disk.Honest(boot.h, pageSize, zero)
    modifies disk
    ensures disk.Honest(boot.h, pageSize, zero)
    ensures Outcome(r, disk, boot, pageSize, zero)
  {
    if boot.foreign.Some? {
      ForeignWrite(disk, boot.foreign.value, boot.h, pageSize, zero);
    }
    disk.power := boot.power;
    PlannedIsListed(boot.later, boot.keys, if disk.Vouched() then disk.marker.value.txid else 0);
    r := CatchUp(disk, boot.keys, boot.store, boot.later, headerPageSize, zero, boot.h, pageSize);
  }

  /// Another program replaces or removes the file. A replacement of the recorded length is
  /// the one thing the protocol cannot notice, so it is not made here.
  method ForeignWrite<V>(disk: Disk<V>, file: Option<seq<V>>, ghost h: History<V>, ghost pageSize: nat, ghost zero: V)
    requires disk.Honest(h, pageSize, zero)
    modifies disk
    ensures disk.Honest(h, pageSize, zero)
  {
    var noticed := match disk.marker
      case None => true
      case Some(Applying(_, _)) => true
      case Some(Clean(_, size, _, fileLen)) => file.None? || |file.value| * size != fileLen;
    if noticed {
      disk.file := file;
    }
  }

  lemma HonestAsReplicaAdvances<V>(disk: Disk<V>, h: History<V>, k: History<V>, pageSize: nat, zero: V)
    requires h <= k && disk.Honest(h, pageSize, zero)
    ensures disk.Honest(k, pageSize, zero)
  {
    if disk.marker.Some? && disk.marker.value.Clean? {
      PrefixStable(h, k, 1, disk.marker.value.txid, zero);
    }
  }
}
