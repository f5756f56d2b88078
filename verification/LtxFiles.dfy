/// LTX files as values, and the merge that compaction and snapshots perform on them.
/// How the merge is computed (a heap over page indexes) is in module `Merge`.

module LtxFiles {
  import opened History

  /// The decoded contents of one LTX file: the pages of transactions `min..=max`, and
  /// the database size after `max`.
  datatype LtxFile<V> = LtxFile(min: nat, max: nat, commit: nat, pages: map<nat, V>)

  /// A power of two from 512 to 65536.
  predicate IsPageSize(size: nat) {
    size in {512, 1024, 2048, 4096, 8192, 16384, 32768, 65536}
  }

  /// The page holding SQLite's lock byte, at the 1 GiB boundary. LTX files never carry it.
  function LockPgno(pageSize: nat): (lock: nat)
    requires pageSize > 0
    ensures lock >= 1
  {
    LockPgnoPositive(pageSize);
    0x4000_0000 / pageSize + 1
  }

  lemma LockPgnoPositive(pageSize: nat)
    requires pageSize > 0
    ensures 0x4000_0000 / pageSize >= 0
  {
  }

  /// It is the page holding the byte at 2^30.
  lemma LockPgnoHoldsLockByte(pageSize: nat)
    requires pageSize > 0
    ensures (LockPgno(pageSize) - 1) * pageSize <= 0x4000_0000 < LockPgno(pageSize) * pageSize
  {
  }

  lemma LockIsLarge(pageSize: nat)
    requires IsPageSize(pageSize)
    ensures LockPgno(pageSize) > 2
  {
  }

  /// File `f` holds exactly what history `h` did between `f.min` and `f.max`.
  ghost predicate Describes<V>(h: History<V>, f: LtxFile<V>) {
    && 1 <= f.min <= f.max <= |h|
    && f.commit == CommitAt(h, f.max)
    && f.pages == Summary(h, f.min, f.max)
  }

  ghost predicate AllDescribe<V>(h: History<V>, files: seq<LtxFile<V>>) {
    forall i :: 0 <= i < |files| ==> Describes(h, files[i])
  }

  /// The range check of `compact_to_writer`: each file starts no later than right after
  /// its predecessor and reaches strictly further. Overlaps are accepted.
  predicate Adjoins<V>(prev: LtxFile<V>, cur: LtxFile<V>) {
    cur.min <= prev.max + 1 && prev.max < cur.max
  }

  predicate AdjoinsAt<V>(files: seq<LtxFile<V>>, i: nat)
    requires 0 < i < |files|
  {
    Adjoins(files[i - 1], files[i])
  }

  predicate RangesAccepted<V>(files: seq<LtxFile<V>>) {
    forall i :: 0 < i < |files| ==> AdjoinsAt(files, i)
  }

  /// Every page of every file, a later file winning.
  function Override<V>(files: seq<LtxFile<V>>): map<nat, V> {
    if files == [] then map[]
    else Override(files[..|files| - 1]) + files[|files| - 1].pages
  }

  ghost function LeastMin<V>(files: seq<LtxFile<V>>): (m: nat)
    requires files != []
    ensures forall i :: 0 <= i < |files| ==> m <= files[i].min
    ensures exists i :: 0 <= i < |files| && m == files[i].min
  {
    var last := |files| - 1;
    if last == 0 then files[0].min
    else
      var m := LeastMin(files[..last]);
      assert forall i :: 0 <= i < last ==> files[..last][i] == files[i];
      if files[last].min < m then files[last].min else m
  }

  /// The merged file: the range of the inputs, the newest database size, and the latest
  /// version of each page that still fits in it.
  function Merged<V>(files: seq<LtxFile<V>>): LtxFile<V>
    requires files != []
  {
    var last := files[|files| - 1];
    LtxFile(files[0].min, last.max, last.commit, Trim(Override(files), last.commit))
  }

  /// `pages` holds page `p` exactly if it was last written at or after `from`, in the
  /// version of `State(to)`.
  ghost predicate RightAt<V>(h: History<V>, lock: nat, pages: map<nat, V>, from: nat, to: nat, p: nat, zero: V)
    requires to <= |h| && p <= CommitAt(h, to)
  {
    && (p in pages <==> 1 <= p && p != lock && LastWrite(h, p, to) >= from)
    && (p in pages ==> pages[p] == State(h, to, zero)[p - 1])
  }

  /// One more file laid over what the earlier ones gave.
  lemma OverrideStep<V>(h: History<V>, lock: nat, older: map<nat, V>, from: nat, to: nat, last: LtxFile<V>, p: nat,
    zero: V)
    requires WellFormed(h, lock) && Describes(h, last)
    requires to <= |h| && last.min <= to + 1 && to < last.max && p <= last.commit
    requires p <= CommitAt(h, to) ==> RightAt(h, lock, older, from, to, p, zero)
    requires p == 0 || p == lock ==> p !in older
    ensures RightAt(h, lock, older + last.pages, if last.min < from then last.min else from, last.max, p, zero)
  {
    SummaryPage(h, lock, last.min, last.max, p, zero);
    if 1 <= p && p != lock && LastWrite(h, p, last.max) < last.min {
      UnwrittenPage(h, lock, to, last.max, p, zero);
      LastWriteUnique(h, p, to, last.max);
    }
  }

  /// Page by page, overriding accepted files finds exactly the pages last written at or
  /// after the least `min` of the inputs, in their newest version.
  lemma {:induction false} OverridePage<V>(h: History<V>, lock: nat, files: seq<LtxFile<V>>, p: nat, zero: V)
    requires WellFormed(h, lock)
    requires files != [] && AllDescribe(h, files) && RangesAccepted(files)
    requires Describes(h, files[|files| - 1]) && p <= files[|files| - 1].commit
    ensures RightAt(h, lock, Override(files), LeastMin(files), files[|files| - 1].max, p, zero)
    decreases |files|
  {
    var n := |files| - 1;
    var init, last := files[..n], files[n];
    if n == 0 {
      assert init == [];
      SummaryPage(h, lock, last.min, last.max, p, zero);
    } else {
      InitAccepted(h, files);
      var to := init[n - 1].max;
      assert AdjoinsAt(files, n) && Describes(h, init[n - 1]);
      if p == 0 || p == lock {
        NeverDescribed(h, lock, init, p, zero);
      }
      if p <= CommitAt(h, to) {
        OverridePage(h, lock, init, p, zero);
      }
      OverrideStep(h, lock, Override(init), LeastMin(init), to, last, p, zero);
    }
  }

  lemma InitAccepted<V>(h: History<V>, files: seq<LtxFile<V>>)
    requires |files| > 1 && AllDescribe(h, files) && RangesAccepted(files)
    ensures var init := files[..|files| - 1];
      && AllDescribe(h, init) && RangesAccepted(init)
      && LeastMin(files) == if files[|files| - 1].min < LeastMin(init) then files[|files| - 1].min else LeastMin(init)
  {
    var init := files[..|files| - 1];
    forall i | 0 < i < |init| ensures AdjoinsAt(init, i) {
      assert AdjoinsAt(files, i);
    }
  }

  lemma {:induction false} NeverDescribed<V>(h: History<V>, lock: nat, files: seq<LtxFile<V>>, p: nat, zero: V)
    requires WellFormed(h, lock) && AllDescribe(h, files)
    requires p == 0 || p == lock
    ensures p !in Override(files)
  {
    if files != [] {
      var last := files[|files| - 1];
      assert Describes(h, last);
      NeverDescribed(h, lock, files[..|files| - 1], p, zero);
      SummaryPage(h, lock, last.min, last.max, p, zero);
    }
  }

  /// Merging is a homomorphism: the pages of the merge are the summary of the whole
  /// range the inputs reach, however they overlap.
  lemma MergeIsSummary<V>(h: History<V>, lock: nat, files: seq<LtxFile<V>>, zero: V)
    requires WellFormed(h, lock)
    requires files != [] && AllDescribe(h, files) && RangesAccepted(files)
    ensures Merged(files).pages == Summary(h, LeastMin(files), files[|files| - 1].max)
  {
    var b := files[|files| - 1].max;
    var m := LeastMin(files);
    assert Describes(h, files[|files| - 1]);
    assert exists i :: 0 <= i < |files| && Describes(h, files[i]) && m == files[i].min;
    forall p: nat
      ensures p in Merged(files).pages <==> p in Summary(h, m, b)
      ensures p in Merged(files).pages ==> Merged(files).pages[p] == Summary(h, m, b)[p]
    {
      SummaryPage(h, lock, m, b, p, zero);
      if p <= CommitAt(h, b) {
        OverridePage(h, lock, files, p, zero);
      }
    }
  }

  /// The merged file is labelled with its first input's `min`. That label is right when
  /// no input reaches back before the first one, which holds for inputs sorted by `min`
  /// and for restore plans anchored at TXID 1.
  lemma MergeDescribes<V>(h: History<V>, lock: nat, files: seq<LtxFile<V>>, zero: V)
    requires WellFormed(h, lock)
    requires files != [] && AllDescribe(h, files) && RangesAccepted(files)
    requires files[0].min == LeastMin(files)
    ensures Describes(h, Merged(files))
  {
    MergeIsSummary(h, lock, files, zero);
    RangesAscend(files, 0, |files| - 1);
    assert Describes(h, files[0]) && Describes(h, files[|files| - 1]);
  }

  lemma {:induction false} RangesAscend<V>(files: seq<LtxFile<V>>, i: nat, j: nat)
    requires RangesAccepted(files) && i <= j < |files|
    ensures files[i].max <= files[j].max
    ensures i < j ==> files[i].max < files[j].max
    decreases j
  {
    if i < j {
      assert AdjoinsAt(files, j);
      RangesAscend(files, i, j - 1);
    }
  }

  // --- A file's pages, one frame at a time -------------------------------------------

  datatype Frame<V> = Frame(pgno: nat, data: V)

  /// The page frames of a file in page order, as its page index lists them.
  function Frames<V>(pages: map<nat, V>, commit: nat): seq<Frame<V>> {
    if commit == 0 then []
    else Frames(pages, commit - 1) + if commit in pages then [Frame(commit, pages[commit])] else []
  }

  /// Page `p` is among the first `k` frames.
  ghost predicate Seen<V>(frames: seq<Frame<V>>, k: nat, p: nat)
    requires k <= |frames|
  {
    exists j :: 0 <= j < k && frames[j].pgno == p
  }

  ghost predicate IsFrameOf<V>(frame: Frame<V>, pages: map<nat, V>, commit: nat) {
    1 <= frame.pgno <= commit && frame.pgno in pages && frame.data == pages[frame.pgno]
  }

  /// Frames come in strictly ascending page order, one for each page up to `commit`.
  lemma {:induction false} FramesListPages<V>(pages: map<nat, V>, commit: nat)
    ensures forall j :: 0 <= j < |Frames(pages, commit)| ==> IsFrameOf(Frames(pages, commit)[j], pages, commit)
    ensures forall i, j :: 0 <= i < j < |Frames(pages, commit)| ==>
      Frames(pages, commit)[i].pgno < Frames(pages, commit)[j].pgno
    ensures forall p :: 1 <= p <= commit && p in pages ==> Seen(Frames(pages, commit), |Frames(pages, commit)|, p)
  {
    if commit > 0 {
      FramesListPages(pages, commit - 1);
      OneMoreFrame(Frames(pages, commit - 1), Frames(pages, commit), pages, commit);
    }
  }

  lemma OneMoreFrame<V>(init: seq<Frame<V>>, frames: seq<Frame<V>>, pages: map<nat, V>, commit: nat)
    requires commit > 0
    requires frames == init + if commit in pages then [Frame(commit, pages[commit])] else []
    requires forall j :: 0 <= j < |init| ==> IsFrameOf(init[j], pages, commit - 1)
    requires forall i, j :: 0 <= i < j < |init| ==> init[i].pgno < init[j].pgno
    requires forall p :: 1 <= p <= commit - 1 && p in pages ==> Seen(init, |init|, p)
    ensures forall j :: 0 <= j < |frames| ==> IsFrameOf(frames[j], pages, commit)
    ensures forall i, j :: 0 <= i < j < |frames| ==> frames[i].pgno < frames[j].pgno
    ensures forall p :: 1 <= p <= commit && p in pages ==> Seen(frames, |frames|, p)
  {
    forall j | 0 <= j < |frames| ensures IsFrameOf(frames[j], pages, commit) {
      assert j < |init| ==> IsFrameOf(init[j], pages, commit - 1);
    }
    forall p | 1 <= p <= commit && p in pages ensures Seen(frames, |frames|, p) {
      if p < commit {
        assert Seen(init, |init|, p);
        var j :| 0 <= j < |init| && init[j].pgno == p;
        assert frames[j].pgno == p;
      } else {
        assert frames[|init|].pgno == p;
      }
    }
  }

  // --- Any grouping, through any number of levels -------------------------------------

  /// A cascade of compactions: files merged into files merged into files.
  datatype Cascade<V> = Source(file: LtxFile<V>) | Compact(inputs: seq<Cascade<V>>)

  ghost function Output<V>(c: Cascade<V>): LtxFile<V>
    decreases c, 1
  {
    match c
    case Source(f) => f
    case Compact(inputs) => if inputs == [] then LtxFile(0, 0, 0, map[]) else Merged(Outputs(inputs))
  }

  ghost function Outputs<V>(cs: seq<Cascade<V>>): (r: seq<LtxFile<V>>)
    ensures |r| == |cs|
    decreases cs, 0
  {
    if cs == [] then [] else [Output(cs[0])] + Outputs(cs[1..])
  }

  /// Every compaction in the cascade has inputs sorted by `min` that pass the range check.
  ghost predicate Accepted<V>(h: History<V>, c: Cascade<V>)
    decreases c, 1
  {
    match c
    case Source(f) => Describes(h, f)
    case Compact(inputs) =>
      && inputs != []
      && AllAccepted(h, inputs)
      && RangesAccepted(Outputs(inputs))
      && Outputs(inputs)[0].min == LeastMin(Outputs(inputs))
  }

  ghost predicate AllAccepted<V>(h: History<V>, cs: seq<Cascade<V>>)
    decreases cs, 0
  {
    cs == [] || (Accepted(h, cs[0]) && AllAccepted(h, cs[1..]))
  }

  lemma {:induction false} CascadeDescribes<V>(h: History<V>, lock: nat, c: Cascade<V>, zero: V)
    requires WellFormed(h, lock) && Accepted(h, c)
    ensures Describes(h, Output(c))
    decreases c, 1
  {
    match c {
      case Source(f) =>
      case Compact(inputs) =>
        CascadesDescribe(h, lock, inputs, zero);
        MergeDescribes(h, lock, Outputs(inputs), zero);
    }
  }

  lemma {:induction false} CascadesDescribe<V>(h: History<V>, lock: nat, cs: seq<Cascade<V>>, zero: V)
    requires WellFormed(h, lock) && AllAccepted(h, cs)
    ensures AllDescribe(h, Outputs(cs))
    decreases cs, 0
  {
    if cs != [] {
      CascadeDescribes(h, lock, cs[0], zero);
      CascadesDescribe(h, lock, cs[1..], zero);
    }
  }

  /// Two cascades over one history that cover the same TXIDs produce the same file,
  /// whatever they merged in which order and through however many levels.
  lemma CompactionIsConfluent<V>(h: History<V>, lock: nat, c: Cascade<V>, d: Cascade<V>, zero: V)
    requires WellFormed(h, lock) && Accepted(h, c) && Accepted(h, d)
    requires Output(c).min == Output(d).min && Output(c).max == Output(d).max
    ensures Output(c) == Output(d)
  {
    CascadeDescribes(h, lock, c, zero);
    CascadeDescribes(h, lock, d, zero);
  }
}
