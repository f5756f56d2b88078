/// The replay algorithms of src/sync/restore.rs as functions on whole images, and when they
/// agree.

module Apply {
  // Files applied oldest-first with a resize at each, and files applied newest-first with
  // each page written once.

  import opened History
  import opened LtxFiles

  /// `apply_plan`: resize to each file's size, then copy its pages in.
  ghost function OldestFirst<V>(base: seq<V>, files: seq<LtxFile<V>>, zero: V): (r: seq<V>)
    ensures files != [] ==> |r| == files[|files| - 1].commit
  {
    if files == [] then base
    else
      var last := files[|files| - 1];
      Overlay(OldestFirst(base, files[..|files| - 1], zero), last.pages, last.commit, zero)
  }

  datatype Found<V> = Nowhere | Version(data: V)

  /// The newest version of page `p` in a plan: the last file that carries it.
  ghost function Resolve<V>(files: seq<LtxFile<V>>, p: nat): Found<V> {
    if files == [] then Nowhere
    else if p in files[|files| - 1].pages then Version(files[|files| - 1].pages[p])
    else Resolve(files[..|files| - 1], p)
  }

  /// `apply_newest_first`: every page but the lock page takes its newest version; pages
  /// no file carries keep what the file held.
  ghost function NewestFirst<V>(image: seq<V>, files: seq<LtxFile<V>>, lock: nat): (r: seq<V>)
    ensures |r| == |image|
  {
    seq(|image|, i requires 0 <= i < |image| =>
      if i + 1 != lock && Resolve(files, i + 1).Version? then Resolve(files, i + 1).data else image[i])
  }

  function Resize<V>(image: seq<V>, n: nat, zero: V): (r: seq<V>) {
    Overlay(image, map[], n, zero)
  }

  /// What the encoder accepts: pages within the database, never the lock page.
  ghost predicate Encodable<V>(f: LtxFile<V>, lock: nat) {
    lock !in f.pages && forall p :: p in f.pages ==> 1 <= p <= f.commit
  }

  ghost predicate AllEncodable<V>(files: seq<LtxFile<V>>, lock: nat) {
    forall i :: 0 <= i < |files| ==> Encodable(files[i], lock)
  }

  /// `f` carries every non-lock page by which the database grows past `size`.
  ghost predicate CarriesGrowth<V>(f: LtxFile<V>, size: nat, lock: nat) {
    forall p :: size < p <= f.commit && p != lock ==> p in f.pages
  }

  /// File `i` of a plan applied over `size` pages carries the growth past its predecessor.
  ghost predicate GrowthCarriedAt<V>(size: nat, files: seq<LtxFile<V>>, lock: nat, i: nat)
    requires i < |files|
  {
    CarriesGrowth(files[i], if i == 0 then size else files[i - 1].commit, lock)
  }

  ghost predicate GrowthCarried<V>(size: nat, files: seq<LtxFile<V>>, lock: nat) {
    forall i :: 0 <= i < |files| ==> GrowthCarriedAt(size, files, lock, i)
  }

  ghost function LeastCommit<V>(files: seq<LtxFile<V>>): (m: nat)
    requires files != []
    ensures forall i :: 0 <= i < |files| ==> m <= files[i].commit
    ensures exists i :: 0 <= i < |files| && m == files[i].commit
  {
    var last := |files| - 1;
    if last == 0 then files[0].commit
    else
      var m := LeastCommit(files[..last]);
      assert forall i :: 0 <= i < last ==> files[..last][i] == files[i];
      if files[last].commit < m then files[last].commit else m
  }

  /// Growth-carrying plans resolve page by page: the newest version in the plan, or else
  /// the page the base image had all along.
  lemma {:induction false} OldestFirstPage<V>(base: seq<V>, files: seq<LtxFile<V>>, lock: nat, p: nat, zero: V)
    requires files != [] && GrowthCarried(|base|, files, lock)
    requires 1 <= p <= files[|files| - 1].commit && p != lock
    ensures Resolve(files, p).Version? ==> OldestFirst(base, files, zero)[p - 1] == Resolve(files, p).data
    ensures Resolve(files, p).Nowhere? ==>
      && p <= |base| && OldestFirst(base, files, zero)[p - 1] == base[p - 1]
      && forall i :: 0 <= i < |files| ==> p <= files[i].commit
    decreases |files|
  {
    var n := |files| - 1;
    var init, last := files[..n], files[n];
    if p !in last.pages {
      assert GrowthCarriedAt(|base|, files, lock, n);
      if n == 0 {
        assert init == [];
      } else {
        assert GrowthCarried(|base|, init, lock) by {
          forall i | 0 <= i < |init|
            ensures GrowthCarriedAt(|base|, init, lock, i)
          {
            assert GrowthCarriedAt(|base|, files, lock, i);
          }
        }
        OldestFirstPage(base, init, lock, p, zero);
        forall i | 0 <= i < |files| ensures p <= files[i].commit || Resolve(files, p).Version? {
          if i < n { assert init[i] == files[i]; }
        }
      }
    }
  }

  /// No file carries the lock page, so it stays as it was: zero, unless the base had it.
  lemma {:induction false} LockPageUntouched<V>(base: seq<V>, files: seq<LtxFile<V>>, lock: nat, zero: V)
    requires 1 <= lock && AllEncodable(files, lock)
    requires lock <= |base| ==> base[lock - 1] == zero
    ensures lock <= |OldestFirst(base, files, zero)| ==> OldestFirst(base, files, zero)[lock - 1] == zero
    ensures Resolve(files, lock).Nowhere?
    decreases |files|
  {
    if files != [] {
      assert Encodable(files[|files| - 1], lock);
      LockPageUntouched(base, files[..|files| - 1], lock, zero);
    }
  }

  /// The central agreement of the appliers: truncate to the smallest size the plan passes
  /// through, grow to the final size, and write each page once, newest-first. The result
  /// is the image of applying every file oldest-first with a resize at each.
  lemma NewestEqualsOldest<V>(base: seq<V>, files: seq<LtxFile<V>>, lock: nat, zero: V)
    requires 1 <= lock && files != []
    requires AllEncodable(files, lock) && GrowthCarried(|base|, files, lock)
    requires lock <= |base| ==> base[lock - 1] == zero
    ensures var final := files[|files| - 1].commit;
      NewestFirst(Resize(Resize(base, LeastCommit(files), zero), final, zero), files, lock)
        == OldestFirst(base, files, zero)
  {
    var final := files[|files| - 1].commit;
    var resized := Resize(Resize(base, LeastCommit(files), zero), final, zero);
    var fast, slow := NewestFirst(resized, files, lock), OldestFirst(base, files, zero);
    assert |fast| == |slow|;
    forall i | 0 <= i < final ensures fast[i] == slow[i] {
      if i + 1 == lock {
        LockPageUntouched(base, files, lock, zero);
      } else {
        NewestEqualsOldestAt(base, files, lock, i + 1, zero);
      }
    }
  }

  lemma NewestEqualsOldestAt<V>(base: seq<V>, files: seq<LtxFile<V>>, lock: nat, p: nat, zero: V)
    requires files != [] && GrowthCarried(|base|, files, lock)
    requires 1 <= p <= files[|files| - 1].commit && p != lock
    ensures OldestFirst(base, files, zero)[p - 1] ==
      if Resolve(files, p).Version? then Resolve(files, p).data
      else Resize(Resize(base, LeastCommit(files), zero), files[|files| - 1].commit, zero)[p - 1]
  {
    OldestFirstPage(base, files, lock, p, zero);
    if Resolve(files, p).Nowhere? {
      var k :| 0 <= k < |files| && LeastCommit(files) == files[k].commit;
      assert p <= files[k].commit;
    }
  }

  // --- Without the growth promise --------------------------------------------------------

  /// File `i` carries page `p` and no later file does: the version newest-first writes.
  ghost predicate LastCarrier<V>(files: seq<LtxFile<V>>, i: nat, p: nat)
    requires i < |files|
  {
    p in files[i].pages && forall j :: i < j < |files| ==> p !in files[j].pages
  }

  /// After file `i`, the plan passes through a size that excludes page `p`.
  ghost predicate ShrinksBelow<V>(files: seq<LtxFile<V>>, i: nat, p: nat)
    requires i < |files|
  {
    exists j :: i < j < |files| && files[j].commit < p
  }

  /// Whatever version of page `p` the plan drops in a shrink and never rewrites is a page
  /// of zeros anyway.
  ghost predicate StaleIsZero<V>(files: seq<LtxFile<V>>, p: nat, zero: V) {
    forall i :: 0 <= i < |files| && LastCarrier(files, i, p) && ShrinksBelow(files, i, p) ==>
      files[i].pages[p] == zero
  }

  /// The newest file carrying `p`, if any.
  lemma {:induction false} FindLastCarrier<V>(files: seq<LtxFile<V>>, p: nat) returns (i: int)
    ensures -1 <= i < |files|
    ensures i == -1 ==> Resolve(files, p).Nowhere? && forall j :: 0 <= j < |files| ==> p !in files[j].pages
    ensures i >= 0 ==> LastCarrier(files, i, p) && Resolve(files, p) == Version(files[i].pages[p])
  {
    var n := |files| - 1;
    if n < 0 {
      i := -1;
    } else if p in files[n].pages {
      i := n;
    } else {
      i := FindLastCarrier(files[..n], p);
      assert forall j :: 0 <= j < n ==> files[..n][j] == files[j];
    }
  }

  lemma StaleIsZeroAt<V>(files: seq<LtxFile<V>>, p: nat, i: int, zero: V)
    requires -1 <= i < |files| && (i >= 0 ==> LastCarrier(files, i, p))
    requires i == -1 ==> forall j :: 0 <= j < |files| ==> p !in files[j].pages
    ensures StaleIsZero(files, p, zero) <==> (i >= 0 && ShrinksBelow(files, i, p) ==> files[i].pages[p] == zero)
  {
    forall k | 0 <= k < |files| && LastCarrier(files, k, p) ensures k == i {}
  }

  /// What oldest-first leaves at page `p` of a plan over no base: the newest version,
  /// unless a later file shrank the database below it.
  lemma {:induction false} OldestFirstFromNothing<V>(files: seq<LtxFile<V>>, lock: nat, p: nat, i: int, zero: V)
    requires AllEncodable(files, lock)
    requires files != [] && 1 <= p <= files[|files| - 1].commit
    requires -1 <= i < |files| && (i >= 0 ==> LastCarrier(files, i, p))
    requires i == -1 ==> forall j :: 0 <= j < |files| ==> p !in files[j].pages
    ensures OldestFirst([], files, zero)[p - 1] ==
      if i >= 0 && !ShrinksBelow(files, i, p) then files[i].pages[p] else zero
    decreases |files|
  {
    var n := |files| - 1;
    var init := files[..n];
    if i == n {
      return;
    }
    assert p !in files[n].pages;
    assert forall j :: 0 <= j < n ==> init[j] == files[j];
    if n == 0 {
      assert init == [];
    } else if p <= init[n - 1].commit {
      OldestFirstFromNothing(init, lock, p, i, zero);
      if i >= 0 {
        ShrinksWithin(files, i, p);
      }
    } else if i >= 0 {
      assert Encodable(files[i], lock);
      assert files[n - 1].commit < p;
    }
  }

  lemma ShrinksWithin<V>(files: seq<LtxFile<V>>, i: nat, p: nat)
    requires i < |files| - 1 && p <= files[|files| - 1].commit
    ensures ShrinksBelow(files, i, p) <==> ShrinksBelow(files[..|files| - 1], i, p)
  {
    var init := files[..|files| - 1];
    if ShrinksBelow(files, i, p) {
      var j :| i < j < |files| && files[j].commit < p;
      assert init[j].commit < p;
    }
    if ShrinksBelow(init, i, p) {
      var j :| i < j < |init| && init[j].commit < p;
      assert files[j].commit < p;
    }
  }

  /// `restore` (oldest-first, in memory) and `restore_to_path` (newest-first, on disk)
  /// produce the same image of a plan *exactly* when every stale page in it is zero. This
  /// needs nothing of the plan but that the encoder accepted its files.
  lemma RestoresAgreeExactly<V>(files: seq<LtxFile<V>>, lock: nat, zero: V)
    requires 1 <= lock && files != [] && AllEncodable(files, lock)
    ensures var final := files[|files| - 1].commit;
      NewestFirst(Resize([], final, zero), files, lock) == OldestFirst([], files, zero) <==>
      forall p :: 1 <= p <= final ==> StaleIsZero(files, p, zero)
  {
    var final := files[|files| - 1].commit;
    var fast, slow := NewestFirst(Resize([], final, zero), files, lock), OldestFirst([], files, zero);
    forall p | 1 <= p <= final ensures AgreesAt(fast, slow, files, p, zero) {
      PageAgrees(files, lock, p, zero);
    }
    AgreePointwise(fast, slow, files, zero);
  }

  ghost predicate AgreesAt<V>(fast: seq<V>, slow: seq<V>, files: seq<LtxFile<V>>, p: nat, zero: V)
    requires 1 <= p <= |fast| && |fast| == |slow|
  {
    fast[p - 1] == slow[p - 1] <==> StaleIsZero(files, p, zero)
  }

  lemma AgreePointwise<V>(fast: seq<V>, slow: seq<V>, files: seq<LtxFile<V>>, zero: V)
    requires |fast| == |slow|
    requires forall p :: 1 <= p <= |fast| ==> AgreesAt(fast, slow, files, p, zero)
    ensures fast == slow <==> forall p :: 1 <= p <= |fast| ==> StaleIsZero(files, p, zero)
  {
    if forall p :: 1 <= p <= |fast| ==> StaleIsZero(files, p, zero) {
      forall i | 0 <= i < |fast| ensures fast[i] == slow[i] {
        assert AgreesAt(fast, slow, files, i + 1, zero);
      }
    }
    if fast == slow {
      forall p | 1 <= p <= |fast| ensures StaleIsZero(files, p, zero) {
        assert AgreesAt(fast, slow, files, p, zero);
      }
    }
  }

  lemma PageAgrees<V>(files: seq<LtxFile<V>>, lock: nat, p: nat, zero: V)
    requires 1 <= lock && files != [] && AllEncodable(files, lock)
    requires 1 <= p <= files[|files| - 1].commit
    ensures NewestFirst(Resize([], files[|files| - 1].commit, zero), files, lock)[p - 1] ==
      OldestFirst([], files, zero)[p - 1]
      <==> StaleIsZero(files, p, zero)
  {
    var i := FindLastCarrier(files, p);
    var slow := OldestFirst([], files, zero)[p - 1];
    assert slow == if i >= 0 && !ShrinksBelow(files, i, p) then files[i].pages[p] else zero by {
      OldestFirstFromNothing(files, lock, p, i, zero);
    }
    assert p == lock ==> i == -1 by {
      LockPageUntouched([], files, lock, zero);
    }
    StaleIsZeroAt(files, p, i, zero);
  }

  /// A plan for which they differ: page 2 is written, dropped by a shrink, and grown back
  /// without being rewritten. SQLite never produces this.
  lemma RestoresCanDisagree()
    ensures var files := [LtxFile(1, 1, 2, map[1 := 'a', 2 := 'b']), LtxFile(2, 2, 1, map[]), LtxFile(3, 3, 2, map[])];
      AllEncodable(files, 262145)
      && NewestFirst(Resize([], 2, '0'), files, 262145) == ['a', 'b']
      && OldestFirst([], files, '0') == ['a', '0']
  {
    var files := [LtxFile(1, 1, 2, map[1 := 'a', 2 := 'b']), LtxFile(2, 2, 1, map[]), LtxFile(3, 3, 2, map[])];
    assert files[..2] == [files[0], files[1]] && files[..2][..1] == [files[0]] && [files[0]][..0] == [];
    assert OldestFirst([], [files[0]], '0') == ['a', 'b'];
    assert OldestFirst([], files[..2], '0') == ['a'];
    assert Resolve([files[0]], 1) == Version('a') && Resolve([files[0]], 2) == Version('b');
    assert Resolve(files[..2], 1) == Version('a') && Resolve(files[..2], 2) == Version('b');
  }

  // --- Plans over a history ----------------------------------------------------------------

  /// `files` are the files of a chain from TXID `t`: each extends what came before it.
  ghost predicate ChainFrom<V>(t: nat, files: seq<LtxFile<V>>)
    decreases |files|
  {
    files == [] || (files[0].min <= t + 1 && t < files[0].max && ChainFrom(files[0].max, files[1..]))
  }

  ghost function EndOf<V>(t: nat, files: seq<LtxFile<V>>): nat {
    if files == [] then t else files[|files| - 1].max
  }

  lemma DescribedIsEncodable<V>(h: History<V>, lock: nat, f: LtxFile<V>, zero: V)
    requires WellFormed(h, lock) && Describes(h, f)
    ensures Encodable(f, lock)
  {
    forall p: nat { SummaryPage(h, lock, f.min, f.max, p, zero); }
  }

  /// A file contiguous with or straddling `t` carries every page by which the database
  /// grew since `t`.
  lemma DescribedCarriesGrowth<V>(h: History<V>, lock: nat, t: nat, f: LtxFile<V>, zero: V)
    requires WellFormed(h, lock) && Describes(h, f) && f.min <= t + 1 && t <= f.max
    ensures CarriesGrowth(f, CommitAt(h, t), lock)
  {
    forall p: nat | CommitAt(h, t) < p <= f.commit && p != lock ensures p in f.pages {
      SummaryPage(h, lock, f.min, f.max, p, zero);
      if LastWrite(h, p, f.max) <= t {
        AliveSinceLastWrite(h, lock, p, t, f.max);
      }
    }
  }

  /// Replaying a chain of a history's files over `State(t)` gives the state at the TXID
  /// the chain reaches, and the chain is encodable and growth-carrying throughout.
  lemma {:induction false} ChainReplays<V>(h: History<V>, lock: nat, t: nat, files: seq<LtxFile<V>>, zero: V)
    requires WellFormed(h, lock) && t <= |h|
    requires AllDescribe(h, files) && ChainFrom(t, files)
    ensures t <= EndOf(t, files) <= |h|
    ensures files != [] ==> files[|files| - 1].commit == CommitAt(h, EndOf(t, files))
    ensures OldestFirst(State(h, t, zero), files, zero) == State(h, EndOf(t, files), zero)
    ensures AllEncodable(files, lock) && GrowthCarried(CommitAt(h, t), files, lock)
    decreases |files|
  {
    if files != [] {
      var n := |files| - 1;
      ChainSplit(t, files);
      var init, last := files[..n], files[n];
      ChainReplays(h, lock, t, init, zero);
      var s := EndOf(t, init);
      ApplySummary(h, lock, s, last.min, last.max, zero);
      DescribedIsEncodable(h, lock, last, zero);
      DescribedCarriesGrowth(h, lock, s, last, zero);
      forall i | 0 <= i < |files|
        ensures Encodable(files[i], lock)
        ensures GrowthCarriedAt(CommitAt(h, t), files, lock, i)
      {
        if i < n {
          assert Encodable(init[i], lock);
          assert GrowthCarriedAt(CommitAt(h, t), init, lock, i);
        }
      }
    }
  }

  lemma {:induction false} ChainSplit<V>(t: nat, files: seq<LtxFile<V>>)
    requires files != [] && ChainFrom(t, files)
    ensures var n := |files| - 1;
      && ChainFrom(t, files[..n])
      && files[n].min <= EndOf(t, files[..n]) + 1
      && EndOf(t, files[..n]) < files[n].max
    decreases |files|
  {
    var n := |files| - 1;
    if n > 0 {
      var rest := files[1..];
      ChainSplit(files[0].max, rest);
      assert rest[..n - 1] == files[..n][1..];
      assert rest[n - 1] == files[n];
      assert EndOf(files[0].max, rest[..n - 1]) == EndOf(t, files[..n]);
    }
  }

  /// Catching up: an image of `State(t)` truncated to the delta's smallest size, grown to
  /// its final size and written newest-first is `State` at the delta's end, byte for byte
  /// what a full restore of any chain to that TXID gives. The delta's first file may
  /// straddle `t`, and the database may shrink and regrow inside it.
  lemma DeltaEqualsFullRestore<V>(h: History<V>, lock: nat, t: nat, delta: seq<LtxFile<V>>, full: seq<LtxFile<V>>,
    zero: V)
    requires WellFormed(h, lock) && 1 <= lock && t <= |h|
    requires delta != [] && AllDescribe(h, delta) && ChainFrom(t, delta)
    requires full != [] && AllDescribe(h, full) && ChainFrom(0, full) && EndOf(0, full) == EndOf(t, delta)
    ensures var final := delta[|delta| - 1].commit;
      var caughtUp := NewestFirst(Resize(Resize(State(h, t, zero), LeastCommit(delta), zero), final, zero), delta,
        lock);
      && caughtUp == State(h, EndOf(t, delta), zero)
      && caughtUp == OldestFirst([], full, zero)
      && caughtUp == NewestFirst(Resize([], final, zero), full, lock)
  {
    ChainRestores(h, lock, t, delta, zero);
    ChainRestores(h, lock, 0, full, zero);
    ChainReplays(h, lock, 0, full, zero);
    ChainReplays(h, lock, t, delta, zero);
    FromScratch(full, delta[|delta| - 1].commit, zero);
  }

  lemma ChainRestores<V>(h: History<V>, lock: nat, t: nat, files: seq<LtxFile<V>>, zero: V)
    requires WellFormed(h, lock) && 1 <= lock && t <= |h|
    requires files != [] && AllDescribe(h, files) && ChainFrom(t, files)
    ensures EndOf(t, files) <= |h| && files[|files| - 1].commit == CommitAt(h, EndOf(t, files))
    ensures NewestFirst(Resize(Resize(State(h, t, zero), LeastCommit(files), zero), files[|files| - 1].commit,
      zero), files, lock)
      == State(h, EndOf(t, files), zero)
  {
    ChainReplays(h, lock, t, files, zero);
    if lock <= CommitAt(h, t) {
      StateIsLastWrite(h, lock, t, lock, zero);
    }
    NewestEqualsOldest(State(h, t, zero), files, lock, zero);
  }

  /// Starting from nothing there is nothing to truncate.
  lemma FromScratch<V>(files: seq<LtxFile<V>>, final: nat, zero: V)
    requires files != []
    ensures Resize(Resize([], LeastCommit(files), zero), final, zero) == Resize([], final, zero)
  {
  }
}
