/// An idle database stops producing files (src/sync/driver.rs:165-193).

module Quiescence {
  // Once the application stops writing, every further level-0 file is accounted for: at most
  // two that were due, one for each sequence bump that does not restart the WAL short, and one
  // for each reopening that finds no WAL (also src/db/mod.rs:239-249, src/sync/mod.rs:381-418).

  import opened Checkpoint
  import opened Ticks
  import opened Lapses

  /// The next build will make a file: the chain does not capture every commit yet, or the
  /// process has resumed with no WAL to resume from.
  ghost predicate Behind<V>(s: Sys<V>) {
    Chain(s) == [] || ChainCapture(s) < |s.app| || (s.genStart == |s.app| && !ChainAtEnd(s))
  }

  /// The WAL has grown past the checkpoint threshold.
  ghost predicate Long<V>(s: Sys<V>, minFrames: nat)
    requires s.genStart <= |s.app|
  {
    FrameCount(Wal(s)) >= minFrames
  }

  /// Files still to come: the one staged, one for the commits not captured, and one for the
  /// bookkeeping commit of the checkpoint a long WAL calls for.
  ghost function Due<V>(s: Sys<V>, minFrames: nat): nat
    requires s.genStart <= |s.app|
  {
    (if s.pending.Some? then 1 else 0) + (if Behind(s) then 1 else 0) + (if Long(s, minFrames) then 1 else 0)
  }

  /// A move with no application write in it.
  ghost predicate Quiet<V>(m: Move<V>) {
    m.Do? ==> !m.e.AppCommit?
  }

  /// The file a move brings about that was not due: of a sequence bump that does not restart
  /// the WAL (a reader may pin it) or not below the threshold, and of a reopening with no WAL.
  ghost function Extra<V>(d: Drv<V>, m: Move<V>, minFrames: nat): nat {
    match m
    case Do(BumpSeq(c, restart)) => if restart && c.frames < minFrames then 0 else 1
    case Do(_) => 0
    case End => 0
    case Reboot => if Chain(d.sys) != [] && d.sys.genStart == |d.sys.app| && ChainAtEnd(d.sys) then 1 else 0
  }

  ghost function Extras<V>(ds: seq<Drv<V>>, ms: seq<Move<V>>, n: nat, minFrames: nat): nat
    requires n <= |ms| < |ds|
  {
    if n == 0 then 0 else Extras(ds, ms, n - 1, minFrames) + Extra(ds[n - 1], ms[n - 1], minFrames)
  }

  ghost predicate Settled<V>(s: Sys<V>, lock: nat) {
    && CommitsOk(s.app, lock) && s.genStart <= s.folded <= |s.app|
    && (s.genStart == |s.app| && Chain(s) != [] && ChainAtEnd(s) ==> ChainPos(s).gen == s.gen)
    && Positioned(s) && Recoverable(s)
  }

  /// What each phase of a quiet run relies on.
  ghost predicate QuietInv<V>(d: Drv<V>, lock: nat, minFrames: nat) {
    var s := d.sys;
    && Settled(s, lock)
    && match s.phase
       case Idle => s.pending.None? && (d.ticked ==> !Behind(s))
       case Syncing => s.pending.Some? && !Behind(s)
       case Staged(synced, bump) => !Behind(s) && synced == FrameCount(Wal(s)) && (bump ==> Long(s, minFrames))
       case Folded(synced, result, bump) => !Behind(s) && result <= synced && (bump ==> Long(s, minFrames))
       case Uploading(synced, result) => Chain(s) != [] && result <= synced
       case Judging(synced, result) => Chain(s) != [] && result <= synced && s.pending.None?
       case Resnapping => false
  }

  /// Building captures everything, and stages a file exactly if something was missing.
  lemma BuildSettles<V>(s: Sys<V>, lock: nat, zero: V)
    requires Settled(s, lock) && s.pending.None?
    ensures var after := s.(pending := Build(s, lock, zero));
      && (Build(s, lock, zero).Some? <==> Behind(s))
      && !Behind(after) && Settled(after, lock) && ChainPos(after) == Here(s)
  {
    assert s.app[s.genStart..|s.app|] == Wal(s);
    if s.ships != [] && (Wal(s) != [] || s.atEnd) {
      BaseIsCapture(s, lock);
      if s.captured < |s.app| {
        NewCommitsShip(s.app, s.captured, lock, zero);
      }
    }
  }

  /// A sequence bump, restarting the WAL or not, is itself a commit to ship; only if it
  /// restarts the WAL short does the WAL's length stop calling for another checkpoint.
  lemma BumpSettles<V>(s: Sys<V>, c: Commit<V>, restart: bool, lock: nat, minFrames: nat)
    requires Settled(s, lock) && !Behind(s) && Long(s, minFrames) && CommitsOk(s.app + [c], lock)
    requires restart ==> s.folded == |s.app|
    ensures var after := Append(s, c, restart);
      && Settled(after, lock)
      && Due(after, minFrames) == Due(s, minFrames) + if restart && c.frames < minFrames then 0 else 1
  {
    var after := Append(s, c, restart);
    assert Chain(after) == Chain(s) && ChainPos(after) == ChainPos(s);
    assert ChainCapture(after) == ChainCapture(s) == |s.app|;
    assert s.app[s.genStart..|s.app|] == Wal(s);
    if restart {
      assert Wal(after) == [c];
      assert [c][1..] == [];
      assert FrameCount(Wal(after)) == c.frames;
    } else {
      WalBefore(s, c);
      WalFramesOrdered(after, lock, |s.app|, |after.app|);
    }
  }

  lemma WalBefore<V>(s: Sys<V>, c: Commit<V>)
    requires s.genStart <= |s.app|
    ensures var after := Append(s, c, false);
      after.app[s.genStart..|s.app|] == Wal(s) && after.app[s.genStart..|after.app|] == Wal(after)
  {
    SliceToEnd(s.app + [c], s.genStart);
  }

  lemma SliceToEnd<V>(app: seq<Commit<V>>, i: nat)
    requires i <= |app|
    ensures app[i..|app|] == app[i..]
  {
  }

  /// What an upload makes of the file that was staged.
  lemma UploadSettles<V>(s: Sys<V>, next: Phase, lock: nat, minFrames: nat)
    requires Settled(s, lock)
    ensures Settled(Upload(s, next), lock) && Behind(Upload(s, next)) == Behind(s)
    ensures |Upload(s, next).ships| + Due(Upload(s, next), minFrames) == |s.ships| + Due(s, minFrames)
  {
  }

  lemma FoldSettles<V>(s: Sys<V>, upTo: nat, lock: nat, zero: V, minFrames: nat)
    requires Settled(s, lock) && Enabled(s, Fold(upTo)) && !Behind(s) && s.phase.synced == FrameCount(Wal(s))
    ensures var after := Step(s, Fold(upTo), lock, zero);
      Settled(after, lock) && after.phase.result <= after.phase.synced && Due(after, minFrames) == Due(s, minFrames)
  {
    WalFramesOrdered(s, lock, upTo, |s.app|);
    assert s.app[s.genStart..|s.app|] == Wal(s);
  }

  /// The move keeps the invariant, and accounts for every file made or brought about.
  ghost predicate Conserves<V>(d: Drv<V>, m: Move<V>, after: Drv<V>, lock: nat, minFrames: nat)
    requires d.sys.genStart <= |d.sys.app|
  {
    && QuietInv(after, lock, minFrames)
    && |after.sys.ships| + Due(after.sys, minFrames)
      == |d.sys.ships| + Due(d.sys, minFrames) + Extra(d, m, minFrames)
  }

  lemma QuietBuild<V>(d: Drv<V>, e: Event<V>, lock: nat, zero: V, minFrames: nat)
    requires QuietInv(d, lock, minFrames) && Scheduled(d, e, lock, minFrames) && (e.SyncBuild? || e.Stage?)
    ensures Conserves(d, Do(e), Tick(d, e, lock, zero), lock, minFrames)
  {
    BuildSettles(d.sys, lock, zero);
  }

  lemma QuietFold<V>(d: Drv<V>, upTo: nat, lock: nat, zero: V, minFrames: nat)
    requires QuietInv(d, lock, minFrames) && Scheduled(d, Fold(upTo), lock, minFrames)
    ensures Conserves(d, Do(Fold(upTo)), Tick(d, Fold(upTo), lock, zero), lock, minFrames)
  {
    FoldSettles(d.sys, upTo, lock, zero, minFrames);
  }

  lemma QuietBump<V>(d: Drv<V>, c: Commit<V>, restart: bool, lock: nat, zero: V, minFrames: nat)
    requires QuietInv(d, lock, minFrames) && Scheduled(d, BumpSeq(c, restart), lock, minFrames)
    ensures Conserves(d, Do(BumpSeq(c, restart)), Tick(d, BumpSeq(c, restart), lock, zero), lock, minFrames)
  {
    BumpSettles(d.sys, c, restart, lock, minFrames);
  }

  lemma QuietSkip<V>(d: Drv<V>, lock: nat, zero: V, minFrames: nat)
    requires QuietInv(d, lock, minFrames) && Scheduled(d, SkipBump, lock, minFrames)
    ensures Conserves(d, Do(SkipBump), Tick(d, SkipBump, lock, zero), lock, minFrames)
  {
  }

  lemma QuietUpload<V>(d: Drv<V>, e: Event<V>, lock: nat, zero: V, minFrames: nat)
    requires QuietInv(d, lock, minFrames) && Scheduled(d, e, lock, minFrames) &&
      (e.SyncUpload? || e.UploadStaged? || e.Judge?)
    ensures Conserves(d, Do(e), Tick(d, e, lock, zero), lock, minFrames)
  {
    match e {
      case SyncUpload => UploadSettles(d.sys, Idle, lock, minFrames);
      case UploadStaged => UploadSettles(d.sys, Judging(d.sys.phase.synced, d.sys.phase.result), lock, minFrames);
      case Judge =>
    }
  }

  lemma QuietStep<V>(d: Drv<V>, e: Event<V>, lock: nat, zero: V, minFrames: nat)
    requires QuietInv(d, lock, minFrames) && Scheduled(d, e, lock, minFrames) && Quiet(Do(e))
    ensures Conserves(d, Do(e), Tick(d, e, lock, zero), lock, minFrames)
  {
    match e {
      case SyncBuild => QuietBuild(d, e, lock, zero, minFrames);
      case Stage(_) => QuietBuild(d, e, lock, zero, minFrames);
      case Fold(upTo) => QuietFold(d, upTo, lock, zero, minFrames);
      case BumpSeq(c, restart) => QuietBump(d, c, restart, lock, zero, minFrames);
      case SkipBump => QuietSkip(d, lock, zero, minFrames);
      case SyncUpload => QuietUpload(d, e, lock, zero, minFrames);
      case UploadStaged => QuietUpload(d, e, lock, zero, minFrames);
      case Judge => QuietUpload(d, e, lock, zero, minFrames);
      case UploadSnapshot =>
    }
  }

  lemma QuietMove<V>(d: Drv<V>, m: Move<V>, next: Drv<V>, lock: nat, zero: V, minFrames: nat)
    requires QuietInv(d, lock, minFrames) && Follows(d, m, next, lock, zero, minFrames, NEITHER) && Quiet(m)
    ensures Conserves(d, m, next, lock, minFrames)
  {
    match m {
      case Do(e) => QuietStep(d, e, lock, zero, minFrames);
      case End =>
      case Reboot => ReopenSettles(d.sys, lock, minFrames);
    }
  }

  /// Reopening ships what was staged; with no WAL, the next sync cannot know that it is
  /// caught up.
  lemma ReopenSettles<V>(s: Sys<V>, lock: nat, minFrames: nat)
    requires Settled(s, lock)
    ensures Settled(Reopen(s), lock)
    ensures |Reopen(s).ships| + Due(Reopen(s), minFrames) == |s.ships| + Due(s, minFrames)
      + if Chain(s) != [] && s.genStart == |s.app| && ChainAtEnd(s) then 1 else 0
  {
    var after := Reopen(s);
    assert Chain(after) == Chain(s) && ChainPos(after) == ChainPos(s) && ChainCapture(after) == ChainCapture(s);
  }

  lemma {:induction false} QuietRun<V>(ds: seq<Drv<V>>, ms: seq<Move<V>>, n: nat, lock: nat, zero: V, minFrames: nat)
    requires DriverRun(ds, ms, lock, zero, minFrames, NEITHER) && n < |ds|
    requires forall i :: 0 <= i < |ms| ==> Quiet(ms[i])
    requires QuietInv(ds[0], lock, minFrames)
    ensures QuietInv(ds[n], lock, minFrames)
    ensures |ds[n].sys.ships| + Due(ds[n].sys, minFrames)
      == |ds[0].sys.ships| + Due(ds[0].sys, minFrames) + Extras(ds, ms, n, minFrames)
  {
    if n > 0 {
      QuietRun(ds, ms, n - 1, lock, zero, minFrames);
      assert FollowsAt(ds, ms, n - 1, lock, zero, minFrames, NEITHER);
      assert Quiet(ms[n - 1]);
      QuietMove(ds[n - 1], ms[n - 1], ds[n], lock, zero, minFrames);
    }
  }

  /// From any state between ticks, once the application is quiet, the level-0 files made and
  /// those still due are those there were, those due, and one for each sequence bump that
  /// does not restart the WAL short and each reopening with no WAL. At most two are due: one
  /// for commits not yet captured, and one more only if the WAL has grown past the threshold.
  /// So if every bump restarts the WAL short and no reopening finds it missing, at most two
  /// more files are ever made, however many ticks follow, and none once the chain has caught
  /// up with a short WAL.
  lemma IdleStopsShipping<V>(ds: seq<Drv<V>>, ms: seq<Move<V>>, n: nat, lock: nat, zero: V, minFrames: nat)
    requires DriverRun(ds, ms, lock, zero, minFrames, NEITHER) && n < |ds|
    requires forall i :: 0 <= i < |ms| ==> Quiet(ms[i])
    requires Inv(ds[0].sys, lock, zero) && ds[0].sys.phase.Idle? && !ds[0].ticked
    ensures ds[n].sys.genStart <= |ds[n].sys.app|
    ensures |ds[n].sys.ships| + Due(ds[n].sys, minFrames)
      == |ds[0].sys.ships| + Due(ds[0].sys, minFrames) + Extras(ds, ms, n, minFrames)
    ensures Due(ds[0].sys, minFrames) <= 2
    ensures Extras(ds, ms, n, minFrames) == 0 ==> |ds[n].sys.ships| <= |ds[0].sys.ships| + 2
    ensures Extras(ds, ms, n, minFrames) == 0 && !Behind(ds[0].sys) && !Long(ds[0].sys, minFrames) ==>
      |ds[n].sys.ships| == |ds[0].sys.ships|
  {
    QuietRun(ds, ms, n, lock, zero, minFrames);
    ShipsOnlyGrow(ds, ms, n, lock, zero, minFrames);
  }

  lemma {:induction false} ShipsOnlyGrow<V>(ds: seq<Drv<V>>, ms: seq<Move<V>>, n: nat, lock: nat, zero: V,
    minFrames: nat)
    requires DriverRun(ds, ms, lock, zero, minFrames, NEITHER) && n < |ds|
    ensures |ds[0].sys.ships| <= |ds[n].sys.ships|
  {
    if n > 0 {
      ShipsOnlyGrow(ds, ms, n - 1, lock, zero, minFrames);
      assert FollowsAt(ds, ms, n - 1, lock, zero, minFrames, NEITHER);
    }
  }

  // --- A log that cannot restart ----------------------------------------------------------------

  /// Everything is in the chain, the position is at the threshold, and a reader keeps the log
  /// from being folded to its end.
  ghost predicate PinnedLong<V>(d: Drv<V>, lock: nat, zero: V, minFrames: nat) {
    CaughtUp(d, lock, zero) && d.sys.pos.frames >= minFrames && d.sys.folded < |d.sys.app|
  }

  ghost predicate NoWrites<V>(ms: seq<Move<V>>) {
    forall m :: m in ms ==> Quiet(m) && !m.Reboot?
  }

  /// Then the files do not stop: each tick's PASSIVE checkpoint appends a sequence bump, which
  /// the next tick ships, and the log is no shorter. (TRUNCATE checkpoints, which take over
  /// once it is long enough, do not bump.)
  lemma {:induction false} PinnedLogNeverStops<V>(d: Drv<V>, n: nat, lock: nat, zero: V, minFrames: nat)
    returns (ds: seq<Drv<V>>, ms: seq<Move<V>>)
    requires PinnedLong(d, lock, zero, minFrames) && lock != 1
    ensures DriverRun(ds, ms, lock, zero, minFrames, BOTH) && ds[0] == d && NoWrites(ms)
    ensures PinnedLong(Final(ds), lock, zero, minFrames) && |Final(ds).sys.ships| == |d.sys.ships| + n
  {
    if n == 0 {
      ds, ms := [d], [];
    } else {
      ds, ms := PinnedLogNeverStops(d, n - 1, lock, zero, minFrames);
      ds, ms := BumpedTick(ds, ms, lock, zero, minFrames);
    }
  }

  /// A checkpoint that folds nothing more and appends a bump, and the next tick's sync.
  lemma BumpedTick<V>(ds: seq<Drv<V>>, ms: seq<Move<V>>, lock: nat, zero: V, minFrames: nat)
    returns (longer: seq<Drv<V>>, moves: seq<Move<V>>)
    requires DriverRun(ds, ms, lock, zero, minFrames, BOTH) && NoWrites(ms)
    requires PinnedLong(Final(ds), lock, zero, minFrames) && lock != 1
    ensures DriverRun(longer, moves, lock, zero, minFrames, BOTH) && longer[0] == ds[0] && NoWrites(moves)
    ensures PinnedLong(Final(longer), lock, zero, minFrames)
    ensures |Final(longer).sys.ships| == |Final(ds).sys.ships| + 1
  {
    var s := Final(ds).sys;
    var c := RewriteFirstPage(s.app, lock, zero);
    longer, moves := AppendedBump(ds, ms, c, lock, zero, minFrames);
    var t := Final(longer).sys;
    BehindBuilds(t, lock, zero);
    WalFramesOrdered(t, lock, |s.app|, |t.app|);
    WalBefore(s, c);
    longer, moves := SyncAll(longer, moves, lock, zero, minFrames, BOTH);
  }

  lemma BehindBuilds<V>(s: Sys<V>, lock: nat, zero: V)
    requires Inv(s, lock, zero) && s.phase.Idle? && Behind(s)
    ensures Build(s, lock, zero).Some?
  {
    BuildSettles(s, lock, zero);
  }

  lemma AppendedBump<V>(ds: seq<Drv<V>>, ms: seq<Move<V>>, c: Commit<V>, lock: nat, zero: V, minFrames: nat)
    returns (longer: seq<Drv<V>>, moves: seq<Move<V>>)
    requires DriverRun(ds, ms, lock, zero, minFrames, BOTH) && NoWrites(ms)
    requires PinnedLong(Final(ds), lock, zero, minFrames) && CommitsOk(Final(ds).sys.app + [c], lock)
    ensures DriverRun(longer, moves, lock, zero, minFrames, BOTH) && longer[0] == ds[0] && NoWrites(moves)
    ensures var s, t := Final(ds).sys, Final(longer);
      && Inv(t.sys, lock, zero) && t.sys.phase.Idle? && !t.ticked
      && t.sys == s.(app := s.app + [c])
  {
    longer, moves := FoldNothing(ds, ms, lock, zero, minFrames);
    AppendKeepsInv(Final(longer).sys, c, false, lock, zero);
    longer, moves := TakeStep(longer, moves, BumpSeq(c, false), lock, zero, minFrames, BOTH);
    longer, moves := FinishQuietly(longer, moves, lock, zero, minFrames);
  }

  lemma FoldNothing<V>(ds: seq<Drv<V>>, ms: seq<Move<V>>, lock: nat, zero: V, minFrames: nat)
    returns (longer: seq<Drv<V>>, moves: seq<Move<V>>)
    requires DriverRun(ds, ms, lock, zero, minFrames, BOTH) && NoWrites(ms)
    requires PinnedLong(Final(ds), lock, zero, minFrames)
    ensures DriverRun(longer, moves, lock, zero, minFrames, BOTH) && longer[0] == ds[0] && NoWrites(moves)
    ensures var s, t := Final(ds).sys, Final(longer).sys;
      && Inv(t, lock, zero) && t.phase.Folded? && t.phase.bump && t.phase.result <= t.phase.synced
      && t.(phase := Idle) == s && !Final(longer).timed
  {
    var s := Final(ds).sys;
    BuildCaptures(s, lock, zero);
    NothingToBuild(s, lock, zero);
    StepKeepsInv(s, Stage(true), lock, zero);
    longer, moves := TakeStep(ds, ms, Stage(true), lock, zero, minFrames, BOTH);
    FoldKeepsInv(Final(longer).sys, s.folded, lock, zero);
    longer, moves := TakeStep(longer, moves, Fold(s.folded), lock, zero, minFrames, BOTH);
  }

  lemma FinishQuietly<V>(ds: seq<Drv<V>>, ms: seq<Move<V>>, lock: nat, zero: V, minFrames: nat)
    returns (longer: seq<Drv<V>>, moves: seq<Move<V>>)
    requires DriverRun(ds, ms, lock, zero, minFrames, BOTH) && NoWrites(ms) && !Final(ds).timed
    requires var s := Final(ds).sys;
      Inv(s, lock, zero) && s.phase.Uploading? && s.phase.result <= s.phase.synced && s.pending.None?
    ensures DriverRun(longer, moves, lock, zero, minFrames, BOTH) && longer[0] == ds[0] && NoWrites(moves)
    ensures var t := Final(longer);
      Inv(t.sys, lock, zero) && t.sys == Final(ds).sys.(phase := Idle) && !t.ticked
  {
    StepKeepsInv(Final(ds).sys, UploadStaged, lock, zero);
    longer, moves := TakeStep(ds, ms, UploadStaged, lock, zero, minFrames, BOTH);
    StepKeepsInv(Final(longer).sys, Judge, lock, zero);
    longer, moves := TakeStep(longer, moves, Judge, lock, zero, minFrames, BOTH);
  }
}
