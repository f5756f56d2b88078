/// The restore planners of src/sync/restore.rs: a greedy interval cover over the files
/// a replica lists, shared by full, point-in-time and incremental restores.

module Planner {

  /// The level of full snapshots, above every level of the cascade.
  const SNAPSHOT_LEVEL: nat := 9

  /// A listed file: its level and the TXIDs it covers.
  datatype FileKey = FileKey(level: nat, min: nat, max: nat)

  datatype SyncError =
    | NoSnapshot
    | ChainGap(from: nat)
    | TxidTooOld(requested: nat)
    | InvalidPageSize(size: nat)
    | MissingFile(key: FileKey)

  datatype Result<+T> = Ok(value: T) | Err(error: SyncError)

  // --- What a plan is ------------------------------------------------------------------

  /// `f` begins contiguously with (or before) `pos + 1` and reaches past `pos`.
  predicate Extends(f: FileKey, pos: nat) {
    f.min <= pos + 1 && pos < f.max
  }

  /// The TXID a plan starting at `from` reaches.
  function Reached(plan: seq<FileKey>, from: nat): nat {
    if plan == [] then from else plan[|plan| - 1].max
  }

  /// `plan` is a chain of listed files, each extending what the ones before it reach.
  ghost predicate IsChain(files: seq<FileKey>, from: nat, plan: seq<FileKey>)
    decreases |plan|
  {
    plan == [] || (plan[0] in files && Extends(plan[0], from) && IsChain(files, plan[0].max, plan[1..]))
  }

  ghost predicate Covered(files: seq<FileKey>, t: nat) {
    exists f :: f in files && f.min <= t <= f.max
  }

  function Head(files: seq<FileKey>): (head: nat)
    ensures forall f :: f in files ==> f.max <= head
    ensures head == 0 || exists f :: f in files && f.max == head
  {
    if files == [] then 0
    else
      var rest := Head(files[1..]);
      assert files == [files[0]] + files[1..];
      if files[0].max > rest then files[0].max else rest
  }

  // --- The greedy cover ------------------------------------------------------------------

  /// `a` is no better than `b`: compare reach first, then level.
  predicate NoBetter(a: FileKey, b: FileKey) {
    a.max < b.max || (a.max == b.max && a.level <= b.level)
  }

  /// The best next file at `pos`: the furthest-reaching, the highest level on ties, and
  /// (as `max_by` does) the last listed among equals. Returns `files[i]` as an index.
  function Best(files: seq<FileKey>, pos: nat): (best: int)
    ensures -1 <= best < |files|
    ensures best >= 0 ==> Extends(files[best], pos)
    ensures forall i :: 0 <= i < |files| && Extends(files[i], pos) ==>
      best >= 0 && NoBetter(files[i], files[best]) && (i > best ==> !NoBetter(files[best], files[i]))
  {
    var n := |files| - 1;
    if n < 0 then -1
    else
      var b := Best(files[..n], pos);
      assert forall i :: 0 <= i < n ==> files[..n][i] == files[i];
      if Extends(files[n], pos) && (b < 0 || NoBetter(files[b], files[n])) then n else b
  }

  /// The cover the loop of `greedy_cover` computes.
  ghost function Greedy(files: seq<FileKey>, pos: nat): seq<FileKey>
    decreases Head(files) - pos
  {
    var b := Best(files, pos);
    if b < 0 then [] else
      assert files[b] in files;
      [files[b]] + Greedy(files, files[b].max)
  }

  method GreedyCover(files: seq<FileKey>, from: nat) returns (plan: seq<FileKey>, pos: nat)
    ensures plan == Greedy(files, from)
    ensures pos == Reached(plan, from)
  {
    plan, pos := [], from;
    var b := Best(files, pos);
    while b >= 0
      invariant b == Best(files, pos)
      invariant plan + Greedy(files, pos) == Greedy(files, from)
      invariant pos == Reached(plan, from)
      decreases Head(files) - pos
    {
      var next := files[b];
      assert next in files;
      MoveOver(plan, next, Greedy(files, next.max));
      pos, plan := next.max, plan + [next];
      b := Best(files, pos);
    }
  }

  lemma MoveOver(plan: seq<FileKey>, next: FileKey, rest: seq<FileKey>)
    ensures plan + ([next] + rest) == (plan + [next]) + rest
  {
  }

  /// Of the listed files that extend what the plan reaches so far, the next one planned reaches
  /// furthest, and has the highest level of those that reach as far.
  lemma {:induction false} FurthestThenCoarsest(files: seq<FileKey>, from: nat, k: nat, f: FileKey)
    requires k < |Greedy(files, from)| && f in files
    requires f.min <= Reached(Greedy(files, from)[..k], from) + 1 && Reached(Greedy(files, from)[..k], from) < f.max
    ensures var taken := Greedy(files, from)[k];
      f.max < taken.max || (f.max == taken.max && f.level <= taken.level)
    decreases k
  {
    var g := Greedy(files, from);
    if k == 0 {
      var i :| 0 <= i < |files| && files[i] == f;
      assert Extends(files[i], from);
    } else {
      assert g[1..] == Greedy(files, g[0].max);
      assert g[..k] == [g[0]] + g[1..][..k - 1];
      FurthestThenCoarsest(files, g[0].max, k - 1, f);
    }
  }

  // --- Optimality -------------------------------------------------------------------------

  lemma {:induction false} GreedyIsChain(files: seq<FileKey>, pos: nat)
    ensures IsChain(files, pos, Greedy(files, pos))
    ensures pos <= Reached(Greedy(files, pos), pos)
    decreases Head(files) - pos
  {
    var g := Greedy(files, pos);
    if g != [] {
      assert g[0] in files;
      GreedyIsChain(files, g[0].max);
      assert g[1..] == Greedy(files, g[0].max);
    }
  }

  lemma {:induction false} PrefixWithinReach(files: seq<FileKey>, pos: nat, k: nat)
    requires k <= |Greedy(files, pos)|
    ensures Reached(Greedy(files, pos)[..k], pos) <= Reached(Greedy(files, pos), pos)
    decreases k
  {
    var g := Greedy(files, pos);
    if k < |g| {
      StrictlyAscends(files, pos, k);
    } else {
      assert g[..k] == g;
    }
  }

  /// The exchange argument: started no earlier, greedy never falls behind any chain, file
  /// for file.
  lemma {:induction false} GreedyStaysAhead(files: seq<FileKey>, p: nat, q: nat, chain: seq<FileKey>)
    requires p <= q && IsChain(files, p, chain)
    ensures var g := Greedy(files, q);
      Reached(chain, p) <= Reached(g[..if |chain| < |g| then |chain| else |g|], q)
    decreases |chain|
  {
    var g := Greedy(files, q);
    var n := if |chain| < |g| then |chain| else |g|;
    if chain == [] {
      return;
    }
    var f, rest := chain[0], chain[1..];
    assert Reached(chain, p) == Reached(rest, f.max);
    if f.max <= q {
      GreedyStaysAhead(files, f.max, q, rest);
      var m := if |rest| < |g| then |rest| else |g|;
      PrefixesAscend(files, q, m, n);
    } else {
      var i :| 0 <= i < |files| && files[i] == f;
      assert Extends(files[i], q);
      var next := g[0];
      GreedyStaysAhead(files, f.max, next.max, rest);
      var tail := g[1..];
      assert tail == Greedy(files, next.max);
      assert g[..n] == [next] + tail[..n - 1];
    }
  }

  lemma {:induction false} PrefixesAscend(files: seq<FileKey>, pos: nat, m: nat, n: nat)
    requires m <= n <= |Greedy(files, pos)|
    ensures Reached(Greedy(files, pos)[..m], pos) <= Reached(Greedy(files, pos)[..n], pos)
    decreases m
  {
    var g := Greedy(files, pos);
    if n > 0 {
      var tail := g[1..];
      assert g[0] in files && tail == Greedy(files, g[0].max);
      assert g[..n] == [g[0]] + tail[..n - 1];
      if m > 0 {
        assert g[..m] == [g[0]] + tail[..m - 1];
        PrefixesAscend(files, g[0].max, m - 1, n - 1);
      } else {
        PrefixesAscend0(files, g[0].max, n - 1);
      }
    }
  }

  lemma {:induction false} PrefixesAscend0(files: seq<FileKey>, pos: nat, n: nat)
    requires n <= |Greedy(files, pos)|
    ensures pos <= Reached(Greedy(files, pos)[..n], pos)
    decreases n
  {
    var g := Greedy(files, pos);
    if n > 0 {
      var tail := g[1..];
      assert g[..n] == [g[0]] + tail[..n - 1];
      PrefixesAscend0(files, g[0].max, n - 1);
    }
  }

  /// The greedy cover reaches the furthest TXID any chain reaches, and no chain that
  /// reaches as far uses fewer files.
  lemma GreedyIsOptimal(files: seq<FileKey>, from: nat, chain: seq<FileKey>)
    requires IsChain(files, from, chain)
    ensures Reached(chain, from) <= Reached(Greedy(files, from), from)
    ensures Reached(chain, from) == Reached(Greedy(files, from), from) ==> |Greedy(files, from)| <= |chain|
  {
    var g := Greedy(files, from);
    GreedyStaysAhead(files, from, from, chain);
    PrefixWithinReach(files, from, if |chain| < |g| then |chain| else |g|);
    if |chain| < |g| {
      StrictlyAscends(files, from, |chain|);
    } else {
      assert g[..|g|] == g;
    }
  }

  lemma {:induction false} StrictlyAscends(files: seq<FileKey>, pos: nat, k: nat)
    requires k < |Greedy(files, pos)|
    ensures Reached(Greedy(files, pos)[..k], pos) < Reached(Greedy(files, pos), pos)
    decreases k
  {
    var g := Greedy(files, pos);
    var tail := g[1..];
    assert tail == Greedy(files, g[0].max);
    if k > 0 {
      assert g[..k] == [g[0]] + tail[..k - 1];
      StrictlyAscends(files, g[0].max, k - 1);
    } else {
      GreedyIsChain(files, g[0].max);
    }
  }

  /// The TXID reached is exactly the end of the covered run after `from`: everything up
  /// to it is covered by some file, and the next TXID is covered by none.
  lemma {:induction false} GreedyReachesCoveredRun(files: seq<FileKey>, from: nat)
    ensures var r := Reached(Greedy(files, from), from);
      && from <= r
      && (r <= Head(files) || r == from)
      && (forall t :: from < t <= r ==> Covered(files, t))
      && !Covered(files, r + 1)
    decreases Head(files) - from
  {
    var b := Best(files, from);
    var r := Reached(Greedy(files, from), from);
    if b < 0 {
      forall f | f in files ensures !(f.min <= from + 1 <= f.max) {
        var i :| 0 <= i < |files| && files[i] == f;
        assert !Extends(files[i], from);
      }
    } else {
      var f := files[b];
      assert f in files;
      GreedyReachesCoveredRun(files, f.max);
      forall t | from < t <= r ensures Covered(files, t) {
        if t <= f.max { assert f.min <= t <= f.max; }
      }
    }
  }

  // --- The planners -----------------------------------------------------------------------

  /// A chain from `from` that reaches as far as any does, with as few files as any that does.
  ghost predicate IsBest(files: seq<FileKey>, from: nat, plan: seq<FileKey>) {
    && IsChain(files, from, plan)
    && forall chain :: IsChain(files, from, chain) ==>
        && Reached(chain, from) <= Reached(plan, from)
        && (Reached(chain, from) == Reached(plan, from) ==> |plan| <= |chain|)
  }

  lemma GreedyIsBest(files: seq<FileKey>, from: nat)
    ensures IsBest(files, from, Greedy(files, from))
  {
    GreedyIsChain(files, from);
    forall chain | IsChain(files, from, chain)
      ensures Reached(chain, from) <= Reached(Greedy(files, from), from)
      ensures Reached(chain, from) == Reached(Greedy(files, from), from) ==> |Greedy(files, from)| <= |chain|
    {
      GreedyIsOptimal(files, from, chain);
    }
  }

  /// A restore plan for the whole chain, from TXID 1: there is one exactly when TXID 1 is in
  /// some file, and it is the best, up to the first TXID that is in none.
  method PlanRestore(files: seq<FileKey>) returns (r: Result<seq<FileKey>>)
    ensures r == FullPlan(files)
    ensures r.Err? ==> r.error == NoSnapshot
    ensures ValidKeys(files) ==> (r.Ok? <==> Covered(files, 1))
    ensures r.Ok? ==>
      && r.value != [] && r.value[0].min == 1 && IsBest(files, 0, r.value)
      && (forall t :: 1 <= t <= Reached(r.value, 0) ==> Covered(files, t)) && !Covered(files, Reached(r.value, 0) + 1)
  {
    GreedyIsBest(files, 0);
    GreedyReachesCoveredRun(files, 0);
    if ValidKeys(files) {
      FullPlanExact(files);
    }
    var plan, _ := GreedyCover(files, 0);
    if plan == [] || plan[0].min != 1 {
      return Err(NoSnapshot);
    }
    return Ok(plan);
  }

  /// The delta an image at `from` needs to become current: nothing if it is, a gap exactly
  /// when some TXID it lacks is in no file, and otherwise the shortest chain to HEAD.
  method PlanRestoreFrom(files: seq<FileKey>, from: nat) returns (r: Result<seq<FileKey>>)
    ensures r == DeltaPlan(files, from)
    ensures r.Err? <==> exists t :: from < t <= Head(files) && !Covered(files, t)
    ensures r.Err? ==> r.error == ChainGap(from)
    ensures r.Ok? && from >= Head(files) ==> r.value == []
    ensures r.Ok? && from < Head(files) ==> IsBest(files, from, r.value) && Reached(r.value, from) == Head(files)
  {
    GreedyIsBest(files, from);
    ChainGapExact(files, from);
    var head := Head(files);
    if from >= head {
      return Ok([]);
    }
    var plan, reached := GreedyCover(files, from);
    if reached < head {
      return Err(ChainGap(from));
    }
    return Ok(plan);
  }

  ghost predicate EndBy(chain: seq<FileKey>, target: nat) {
    forall f :: f in chain ==> f.max <= target
  }

  /// A restore plan that never overshoots `target`: there is one exactly when TXID 1 is in a
  /// file ending by `target`, and no chain of such files reaches further.
  method PlanRestoreTo(files: seq<FileKey>, target: nat) returns (r: Result<seq<FileKey>>)
    ensures r == FullPlan(EndingBy(files, target))
    ensures r.Err? ==> r.error == NoSnapshot
    ensures ValidKeys(files) ==> (r.Ok? <==> exists f :: f in files && f.max <= target && f.min <= 1)
    ensures r.Ok? ==>
      && r.value != [] && r.value[0].min == 1 && IsChain(files, 0, r.value) && EndBy(r.value, target)
      && forall chain :: IsChain(files, 0, chain) && EndBy(chain, target) ==> Reached(chain, 0) <= Reached(r.value, 0)
  {
    var fs := EndingBy(files, target);
    r := PlanRestore(fs);
    if r.Ok? {
      ChainMembers(fs, 0, r.value);
      ChainWithin(fs, files, 0, r.value);
      forall chain | IsChain(files, 0, chain) && EndBy(chain, target)
        ensures Reached(chain, 0) <= Reached(r.value, 0)
      {
        ChainWithin(files, fs, 0, chain);
      }
    }
  }

  function EndingBy(files: seq<FileKey>, target: nat): (r: seq<FileKey>)
    ensures forall f :: f in r <==> f in files && f.max <= target
  {
    if files == [] then [] else
      assert files == [files[0]] + files[1..];
      (if files[0].max <= target then [files[0]] else []) + EndingBy(files[1..], target)
  }

  ghost function FullPlan(files: seq<FileKey>): Result<seq<FileKey>> {
    var plan := Greedy(files, 0);
    if plan == [] || plan[0].min != 1 then Err(NoSnapshot) else Ok(plan)
  }

  ghost function DeltaPlan(files: seq<FileKey>, from: nat): Result<seq<FileKey>> {
    if from >= Head(files) then Ok([])
    else
      var plan := Greedy(files, from);
      if Reached(plan, from) < Head(files) then Err(ChainGap(from)) else Ok(plan)
  }

  /// TXIDs start at 1 and ranges are not empty.
  ghost predicate ValidKeys(files: seq<FileKey>) {
    forall f :: f in files ==> 1 <= f.min <= f.max
  }

  /// A full plan exists exactly when TXID 1 is covered. It then reaches HEAD exactly when
  /// no TXID up to HEAD is uncovered: `plan_restore`, unlike `plan_restore_from`, does not
  /// refuse a hole but silently plans up to it.
  lemma FullPlanExact(files: seq<FileKey>)
    requires ValidKeys(files)
    ensures FullPlan(files).Ok? <==> Covered(files, 1)
    ensures FullPlan(files).Err? ==> FullPlan(files).error == NoSnapshot
    ensures FullPlan(files).Ok? ==>
      && IsChain(files, 0, FullPlan(files).value)
      && (Reached(FullPlan(files).value, 0) == Head(files) <==>
          forall t :: 1 <= t <= Head(files) ==> Covered(files, t))
  {
    var g := Greedy(files, 0);
    GreedyIsChain(files, 0);
    GreedyReachesCoveredRun(files, 0);
    if g != [] {
      assert g[0] in files;
    }
    if Covered(files, 1) {
      var f :| f in files && f.min <= 1 <= f.max;
    }
  }

  /// `plan_restore_from` reports a gap exactly when some TXID the local image lacks is
  /// covered by no file, and otherwise plans all the way to HEAD.
  lemma ChainGapExact(files: seq<FileKey>, from: nat)
    ensures DeltaPlan(files, from).Err? <==> exists t :: from < t <= Head(files) && !Covered(files, t)
    ensures DeltaPlan(files, from).Err? ==> DeltaPlan(files, from).error == ChainGap(from)
    ensures DeltaPlan(files, from).Ok? ==>
      && IsChain(files, from, DeltaPlan(files, from).value)
      && (from < Head(files) ==>
          DeltaPlan(files, from).value != [] && Reached(DeltaPlan(files, from).value, from) == Head(files))
  {
    GreedyIsChain(files, from);
    GreedyReachesCoveredRun(files, from);
  }

  /// A point-in-time plan ends at the newest TXID not after `target` that a chain of files
  /// ending by `target` reaches, and there is none exactly when no file ending by `target`
  /// starts the chain.
  lemma PointInTimeExact(files: seq<FileKey>, target: nat, chain: seq<FileKey>)
    requires ValidKeys(files)
    requires IsChain(files, 0, chain) && EndBy(chain, target)
    ensures var r := FullPlan(EndingBy(files, target));
      && (chain != [] ==> r.Ok?)
      && (r.Ok? ==>
          && IsChain(EndingBy(files, target), 0, r.value)
          && Reached(chain, 0) <= Reached(r.value, 0) <= target)
  {
    var fs := EndingBy(files, target);
    ChainWithin(files, fs, 0, chain);
    FullPlanExact(fs);
    GreedyIsOptimal(fs, 0, chain);
    GreedyReachesCoveredRun(fs, 0);
    if chain != [] {
      assert chain[0] in fs && chain[0].min <= 1 <= chain[0].max;
    }
    assert Head(fs) <= target;
  }

  lemma {:induction false} ChainMembers(keys: seq<FileKey>, from: nat, plan: seq<FileKey>)
    requires IsChain(keys, from, plan)
    ensures forall k :: k in plan ==> k in keys
    decreases |plan|
  {
    if plan != [] {
      assert plan == [plan[0]] + plan[1..];
      ChainMembers(keys, plan[0].max, plan[1..]);
    }
  }

  lemma {:induction false} ChainWithin(files: seq<FileKey>, fs: seq<FileKey>, from: nat, chain: seq<FileKey>)
    requires IsChain(files, from, chain)
    requires forall f :: f in chain ==> f in files ==> f in fs
    ensures IsChain(fs, from, chain)
    decreases |chain|
  {
    if chain != [] {
      assert chain[0] in chain;
      assert forall f :: f in chain[1..] ==> f in chain;
      ChainWithin(files, fs, chain[0].max, chain[1..]);
    }
  }
}
