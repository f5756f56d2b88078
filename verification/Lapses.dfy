/// The driver schedules that can lose a commit, and that there are no others.

module Lapses {
  // `Ticks.DriverNeverLoses` has two provisos: time-based checkpoints are timely, and crashes
  // are survivable. Both are exact: what comes after such a checkpoint or crash never loses a
  // commit if and only if it was, and runs from an empty replica break each.

  import opened Options
  import opened History
  import opened Checkpoint
  import opened Ticks

  ghost function Final<V>(ds: seq<Drv<V>>): Drv<V>
    requires ds != []
  {
    ds[|ds| - 1]
  }

  // --- Extending runs --------------------------------------------------------------------------

  lemma Extend<V>(ds: seq<Drv<V>>, ms: seq<Move<V>>, m: Move<V>, next: Drv<V>, lock: nat, zero: V, minFrames: nat,
    held: Provisos)
    returns (longer: seq<Drv<V>>, moves: seq<Move<V>>)
    requires DriverRun(ds, ms, lock, zero, minFrames, held)
    requires Follows(Final(ds), m, next, lock, zero, minFrames, held)
    ensures DriverRun(longer, moves, lock, zero, minFrames, held)
    ensures longer[0] == ds[0] && Final(longer) == next && moves == ms + [m]
  {
    longer, moves := ds + [next], ms + [m];
    forall i | 0 <= i < |moves| ensures FollowsAt(longer, moves, i, lock, zero, minFrames, held) {
      assert i < |ms| ==> FollowsAt(ds, ms, i, lock, zero, minFrames, held);
    }
  }

  lemma TakeStep<V>(ds: seq<Drv<V>>, ms: seq<Move<V>>, e: Event<V>, lock: nat, zero: V, minFrames: nat, held: Provisos)
    returns (longer: seq<Drv<V>>, moves: seq<Move<V>>)
    requires DriverRun(ds, ms, lock, zero, minFrames, held)
    requires var d := Final(ds);
      && d.sys.genStart <= d.sys.folded <= |d.sys.app| && Scheduled(d, e, lock, minFrames)
      && (held.timely ==> Timely(d, e, minFrames))
    ensures DriverRun(longer, moves, lock, zero, minFrames, held)
    ensures longer[0] == ds[0] && Final(longer) == Tick(Final(ds), e, lock, zero) && moves == ms + [Do(e)]
  {
    longer, moves := Extend(ds, ms, Do(e), Tick(Final(ds), e, lock, zero), lock, zero, minFrames, held);
  }

  /// A tick has synced: everything committed so far is in the chain.
  ghost predicate CaughtUp<V>(d: Drv<V>, lock: nat, zero: V) {
    var s := d.sys;
    && Inv(s, lock, zero) && s.phase.Idle? && d.ticked && s.ships != []
    && s.captured == |s.app| && s.pos == Here(s)
  }

  ghost predicate SameLog<V>(s: Sys<V>, t: Sys<V>) {
    s.app == t.app && s.genStart == t.genStart && s.gen == t.gen && s.folded == t.folded
  }

  /// A tick's sync, which ships a file only if there is something to ship.
  lemma SyncAll<V>(ds: seq<Drv<V>>, ms: seq<Move<V>>, lock: nat, zero: V, minFrames: nat, held: Provisos)
    returns (longer: seq<Drv<V>>, moves: seq<Move<V>>)
    requires DriverRun(ds, ms, lock, zero, minFrames, held)
    requires Inv(Final(ds).sys, lock, zero) && Final(ds).sys.phase.Idle? && !Final(ds).ticked
    ensures DriverRun(longer, moves, lock, zero, minFrames, held) && longer[0] == ds[0]
    ensures CaughtUp(Final(longer), lock, zero) && SameLog(Final(longer).sys, Final(ds).sys)
    ensures Final(ds).sys.ships == [] ==> Final(longer).syncedSince
    ensures var s := Final(ds).sys;
      |Final(longer).sys.ships| == |s.ships| + if Build(s, lock, zero).Some? then 1 else 0
    ensures forall m :: m in moves ==> m in ms || m == Do(SyncBuild) || m == Do(SyncUpload)
  {
    SyncCatchesUp(Final(ds), lock, zero);
    var shipping := Build(Final(ds).sys, lock, zero).Some?;
    longer, moves := TakeStep(ds, ms, SyncBuild, lock, zero, minFrames, held);
    if shipping {
      longer, moves := TakeStep(longer, moves, SyncUpload, lock, zero, minFrames, held);
    }
  }

  lemma SyncCatchesUp<V>(d: Drv<V>, lock: nat, zero: V)
    requires Inv(d.sys, lock, zero) && d.sys.phase.Idle? && !d.ticked
    ensures var built := Tick(d, SyncBuild, lock, zero);
      && Inv(built.sys, lock, zero)
      && if Build(d.sys, lock, zero).None? then built == d.(ticked := true) && CaughtUp(built, lock, zero)
        else built.sys.phase.Syncing? && ShipsOne(d, Tick(built, SyncUpload, lock, zero), lock, zero)
  {
    BuildCaptures(d.sys, lock, zero);
    StepKeepsInv(d.sys, SyncBuild, lock, zero);
    if Build(d.sys, lock, zero).Some? {
      StepKeepsInv(Tick(d, SyncBuild, lock, zero).sys, SyncUpload, lock, zero);
    }
  }

  ghost predicate ShipsOne<V>(d: Drv<V>, after: Drv<V>, lock: nat, zero: V) {
    && CaughtUp(after, lock, zero) && SameLog(after.sys, d.sys) && after.syncedSince
    && |after.sys.ships| == |d.sys.ships| + 1
  }

  /// A sync with nothing to ship changes nothing.
  lemma SyncNothing<V>(ds: seq<Drv<V>>, ms: seq<Move<V>>, lock: nat, zero: V, minFrames: nat, held: Provisos)
    returns (longer: seq<Drv<V>>, moves: seq<Move<V>>)
    requires DriverRun(ds, ms, lock, zero, minFrames, held)
    requires Inv(Final(ds).sys, lock, zero) && Final(ds).sys.phase.Idle? && !Final(ds).ticked
    requires var s := Final(ds).sys; s.ships != [] && s.captured == |s.app| && Wal(s) != []
    ensures DriverRun(longer, moves, lock, zero, minFrames, held) && longer[0] == ds[0]
    ensures CaughtUp(Final(longer), lock, zero) && Final(longer) == Final(ds).(ticked := true)
  {
    var d := Final(ds);
    BuildCaptures(d.sys, lock, zero);
    NothingToBuild(d.sys, lock, zero);
    longer, moves := Extend(ds, ms, Do(SyncBuild), Tick(d, SyncBuild, lock, zero), lock, zero, minFrames, held);
  }

  /// A checkpoint of everything that also folds everything, up to the end of the PRAGMA.
  lemma FoldAll<V>(ds: seq<Drv<V>>, ms: seq<Move<V>>, bump: bool, lock: nat, zero: V, minFrames: nat, held: Provisos)
    returns (longer: seq<Drv<V>>, moves: seq<Move<V>>)
    requires DriverRun(ds, ms, lock, zero, minFrames, held)
    requires var d := Final(ds);
      Inv(d.sys, lock, zero) && d.sys.phase.Idle? && Startable(d.sys) && Scheduled(d, Stage(bump), lock, minFrames)
    ensures DriverRun(longer, moves, lock, zero, minFrames, held) && longer[0] == ds[0]
    ensures var s, t := Final(ds).sys, Final(longer).sys;
      && Inv(t, lock, zero) && SameLog(t, s.(folded := |s.app|)) && Recoverable(t)
      && t.phase.Folded? && t.phase.bump == bump && t.phase.result <= t.phase.synced
      && Chain(t) != [] && ChainCapture(t) == |s.app| && ChainPos(t) == Here(s)
  {
    var d := Final(ds);
    BuildCaptures(d.sys, lock, zero);
    StageKeepsInv(d.sys, bump, lock, zero);
    var staged := Tick(d, Stage(bump), lock, zero);
    longer, moves := Extend(ds, ms, Do(Stage(bump)), staged, lock, zero, minFrames, held);
    FoldKeepsInv(staged.sys, |d.sys.app|, lock, zero);
    var folded := Tick(staged, Fold(|d.sys.app|), lock, zero);
    longer, moves := Extend(longer, moves, Do(Fold(|d.sys.app|)), folded, lock, zero, minFrames, held);
  }

  /// The rest of a checkpoint that bumps nothing and notices nothing.
  lemma FinishUnnoticed<V>(ds: seq<Drv<V>>, ms: seq<Move<V>>, lock: nat, zero: V, minFrames: nat, held: Provisos)
    returns (longer: seq<Drv<V>>, moves: seq<Move<V>>)
    requires DriverRun(ds, ms, lock, zero, minFrames, held) && !held.timely
    requires var s := Final(ds).sys;
      Inv(s, lock, zero) && s.phase.Folded? && !s.phase.bump && s.phase.result <= s.phase.synced
    ensures DriverRun(longer, moves, lock, zero, minFrames, held) && longer[0] == ds[0]
    ensures var s, d := Final(ds).sys, Final(longer);
      && Inv(d.sys, lock, zero) && d.sys.phase.Idle? && !d.ticked && SameLog(d.sys, s)
      && d.sys.ships == Chain(s)
  {
    var d := Final(ds);
    var skipped := Tick(d, SkipBump, lock, zero);
    StepKeepsInv(d.sys, SkipBump, lock, zero);
    longer, moves := Extend(ds, ms, Do(SkipBump), skipped, lock, zero, minFrames, held);
    var uploaded := Tick(skipped, UploadStaged, lock, zero);
    StepKeepsInv(skipped.sys, UploadStaged, lock, zero);
    longer, moves := Extend(longer, moves, Do(UploadStaged), uploaded, lock, zero, minFrames, held);
    var done := Tick(uploaded, Judge, lock, zero);
    StepKeepsInv(uploaded.sys, Judge, lock, zero);
    longer, moves := Extend(longer, moves, Do(Judge), done, lock, zero, minFrames, held);
  }

  // --- A checkpoint that starts with everything folded -------------------------------------------

  /// What a tick needs to start a checkpoint that cannot notice its over-fold.
  ghost predicate AtRisk<V>(d: Drv<V>, lock: nat, zero: V, minFrames: nat) {
    && CaughtUp(d, lock, zero) && !Startable(d.sys)
    && (d.sys.pos.frames >= minFrames || d.syncedSince)
  }

  /// The commits that slip through: `c` restarts the WAL in the window and is no longer than
  /// the WAL it replaces, `b` restarts it again.
  ghost predicate SlipThrough<V>(s: Sys<V>, c: Commit<V>, b: Commit<V>, lock: nat)
    requires s.genStart <= |s.app|
  {
    CommitsOk(s.app + [c], lock) && CommitsOk(s.app + [c, b], lock) && c.frames <= FrameCount(Wal(s))
  }

  /// Whichever checkpoint the tick then starts, time-based or not, `c` ends up in no file.
  lemma Lapse<V>(ds: seq<Drv<V>>, ms: seq<Move<V>>, c: Commit<V>, b: Commit<V>, lock: nat, zero: V, minFrames: nat,
    held: Provisos)
    returns (longer: seq<Drv<V>>, moves: seq<Move<V>>)
    requires DriverRun(ds, ms, lock, zero, minFrames, held)
    requires AtRisk(Final(ds), lock, zero, minFrames) && SlipThrough(Final(ds).sys, c, b, lock)
    ensures DriverRun(longer, moves, lock, zero, minFrames, held) && longer[0] == ds[0]
    ensures LogOk(Final(longer).sys) && Skipped(Final(longer).sys, |Final(ds).sys.app| + 1)
  {
    var d := Final(ds);
    var bump := d.sys.pos.frames >= minFrames;
    longer, moves := RaceAndFold(ds, ms, bump, c, lock, zero, minFrames, held);
    var resume := if bump then BumpSeq(b, true) else SkipBump;
    var folded, resumed, uploaded, judged := MissedCommitIsLost(d.sys, bump, c, b, lock, zero);
    assert d.sys.app + [c] + [b] == d.sys.app + [c, b];
    longer, moves := TakeStep(longer, moves, resume, lock, zero, minFrames, held);
    longer, moves := JudgedQuietly(longer, moves, lock, zero, minFrames, held);
    if !bump {
      longer, moves := TakeStep(longer, moves, AppCommit(b, true), lock, zero, minFrames, held);
    }
  }

  /// The upload and the judging of a checkpoint whose frame counts show nothing.
  lemma JudgedQuietly<V>(ds: seq<Drv<V>>, ms: seq<Move<V>>, lock: nat, zero: V, minFrames: nat, held: Provisos)
    returns (longer: seq<Drv<V>>, moves: seq<Move<V>>)
    requires DriverRun(ds, ms, lock, zero, minFrames, held)
    requires var d := Final(ds);
      && d.sys.genStart <= d.sys.folded <= |d.sys.app| && d.sys.phase.Uploading?
      && d.sys.phase.result <= d.sys.phase.synced && (d.timed ==> ChainPos(d.sys).frames < minFrames)
    ensures DriverRun(longer, moves, lock, zero, minFrames, held) && longer[0] == ds[0]
    ensures var s, t := Final(ds).sys, Final(longer).sys;
      var uploaded := Step(s, UploadStaged, lock, zero);
      uploaded.genStart <= uploaded.folded <= |uploaded.app| && t == Step(uploaded, Judge, lock, zero)
  {
    longer, moves := TakeStep(ds, ms, UploadStaged, lock, zero, minFrames, held);
    longer, moves := TakeStep(longer, moves, Judge, lock, zero, minFrames, held);
  }

  lemma RaceAndFold<V>(ds: seq<Drv<V>>, ms: seq<Move<V>>, bump: bool, c: Commit<V>, lock: nat, zero: V,
    minFrames: nat, held: Provisos)
    returns (longer: seq<Drv<V>>, moves: seq<Move<V>>)
    requires DriverRun(ds, ms, lock, zero, minFrames, held)
    requires AtRisk(Final(ds), lock, zero, minFrames) && bump == (Final(ds).sys.pos.frames >= minFrames)
    requires CommitsOk(Final(ds).sys.app + [c], lock)
    ensures DriverRun(longer, moves, lock, zero, minFrames, held) && longer[0] == ds[0]
    ensures var s, w := Final(ds).sys, Window(Final(ds).sys, bump, [(c, true)], lock, zero);
      && w.genStart <= w.folded <= |w.app| && Enabled(w, Fold(|w.app|)) && w.app == s.app + [c]
      && Final(longer).sys == Step(w, Fold(|w.app|), lock, zero)
      && Final(longer).timed == !bump && ChainPos(Final(longer).sys) == s.pos
  {
    var d := Final(ds);
    BuildCaptures(d.sys, lock, zero);
    NothingToBuild(d.sys, lock, zero);
    var staged := Tick(d, Stage(bump), lock, zero);
    longer, moves := Extend(ds, ms, Do(Stage(bump)), staged, lock, zero, minFrames, held);
    var raced := Tick(staged, AppCommit(c, true), lock, zero);
    longer, moves := Extend(longer, moves, Do(AppCommit(c, true)), raced, lock, zero, minFrames, held);
    assert [(c, true)][1..] == [] && Land(raced.sys, []) == raced.sys;
    assert raced.sys == Window(d.sys, bump, [(c, true)], lock, zero);
    var folded := Tick(raced, Fold(|raced.sys.app|), lock, zero);
    longer, moves := Extend(longer, moves, Do(Fold(|raced.sys.app|)), folded, lock, zero, minFrames, held);
  }

  lemma NothingToBuild<V>(s: Sys<V>, lock: nat, zero: V)
    requires Inv(s, lock, zero) && s.phase.Idle? && s.ships != [] && s.captured == |s.app| && Wal(s) != []
    ensures Build(s, lock, zero).None?
  {
    BaseIsCapture(s, lock);
  }

  /// There are always commits that can slip through.
  lemma SomeSlipThrough<V>(s: Sys<V>, lock: nat, zero: V) returns (c: Commit<V>, b: Commit<V>)
    requires Inv(s, lock, zero) && Wal(s) != [] && lock != 1
    ensures SlipThrough(s, c, b, lock)
  {
    c := RewriteFirstPage(s.app, lock, zero);
    b := RewriteFirstPage(s.app + [c], lock, zero);
    assert s.app + [c] + [b] == s.app + [c, b];
    WalLands(s, lock);
    assert LandsAt(Wal(s), 0);
  }

  // --- Exactly when nothing is ever lost --------------------------------------------------------

  /// No run of this driver within both provisos ever skips a commit.
  ghost predicate NeverSkips<V(!new)>(d: Drv<V>, lock: nat, zero: V, minFrames: nat) {
    forall ds: seq<Drv<V>>, ms: seq<Move<V>>, k: nat ::
      DriverRun(ds, ms, lock, zero, minFrames, BOTH) && ds[0] == d && LogOk(Final(ds).sys) ==>
        !Skipped(Final(ds).sys, k)
  }

  /// Between checkpoints: no later run ever loses a commit if and only if the next checkpoint
  /// the driver may start without syncing anything new would start in time.
  lemma OnTimeExactly<V(!new)>(d: Drv<V>, lock: nat, zero: V, minFrames: nat)
    requires Inv(d.sys, lock, zero) && d.sys.phase.Idle? && minFrames >= 1 && lock != 1
    ensures OnTime(d, minFrames) <==> NeverSkips(d, lock, zero, minFrames)
  {
    if OnTime(d, minFrames) {
      forall ds: seq<Drv<V>>, ms: seq<Move<V>>, k: nat
        | DriverRun(ds, ms, lock, zero, minFrames, BOTH) && ds[0] == d && LogOk(Final(ds).sys)
        ensures !Skipped(Final(ds).sys, k)
      {
        DriverNeverLoses(ds, ms, |ds| - 1, lock, zero, minFrames);
      }
    } else {
      var ds, ms, k := LateLoses(d, lock, zero, minFrames);
    }
  }

  lemma LateLoses<V>(d: Drv<V>, lock: nat, zero: V, minFrames: nat)
    returns (ds: seq<Drv<V>>, ms: seq<Move<V>>, k: nat)
    requires Inv(d.sys, lock, zero) && d.sys.phase.Idle? && lock != 1 && !OnTime(d, minFrames)
    ensures DriverRun(ds, ms, lock, zero, minFrames, BOTH) && ds[0] == d
    ensures LogOk(Final(ds).sys) && Skipped(Final(ds).sys, k)
  {
    ds, ms := [d], [];
    if d.ticked {
      ds, ms := Extend(ds, ms, End, EndTick(d), lock, zero, minFrames, BOTH);
    }
    if d.sys.ships == [] {
      ds, ms := SyncAll(ds, ms, lock, zero, minFrames, BOTH);
    } else {
      ds, ms := SyncNothing(ds, ms, lock, zero, minFrames, BOTH);
    }
    var c, b := SomeSlipThrough(Final(ds).sys, lock, zero);
    k := |Final(ds).sys.app| + 1;
    ds, ms := Lapse(ds, ms, c, b, lock, zero, minFrames, BOTH);
  }

  /// The last step of a time-based checkpoint is harmless to every later run if and only if,
  /// should it leave the position at the frame threshold, some commit is unfolded.
  lemma TimedIsSafeExactly<V(!new)>(d: Drv<V>, e: Event<V>, lock: nat, zero: V, minFrames: nat)
    requires DInv(d, lock, zero, minFrames) && lock != 1
    requires Scheduled(d, e, lock, minFrames) && d.timed && Finishes(d, e)
    ensures NextInTime(d.sys, minFrames) <==> NeverSkips(Tick(d, e, lock, zero), lock, zero, minFrames)
  {
    StepKeepsInv(d.sys, e, lock, zero);
    OnTimeExactly(Tick(d, e, lock, zero), lock, zero, minFrames);
  }

  /// Dying at any point of any run is harmless to every later run if and only if no commit is
  /// lost on the spot and the next driver cannot start its first checkpoint with everything
  /// folded.
  lemma RebootIsSafeExactly<V(!new)>(d: Drv<V>, lock: nat, zero: V, minFrames: nat)
    requires DInv(d, lock, zero, minFrames) && lock != 1
    ensures Survivable(d.sys, minFrames) <==> NeverSkips(Reopened(d), lock, zero, minFrames)
  {
    if Recoverable(d.sys) {
      ReopenKeepsInv(d.sys, lock, zero);
      OnTimeExactly(Reopened(d), lock, zero, minFrames);
    } else {
      var ds, ms, k := UnrecoverableLoses(d, lock, zero, minFrames);
    }
  }

  lemma UnrecoverableLoses<V>(d: Drv<V>, lock: nat, zero: V, minFrames: nat)
    returns (ds: seq<Drv<V>>, ms: seq<Move<V>>, k: nat)
    requires DInv(d, lock, zero, minFrames) && lock != 1 && !Recoverable(d.sys)
    ensures DriverRun(ds, ms, lock, zero, minFrames, BOTH) && ds[0] == Reopened(d)
    ensures LogOk(Final(ds).sys) && Skipped(Final(ds).sys, k)
  {
    ds, ms := [Reopened(d)], [];
    var c := RewriteFirstPage(d.sys.app, lock, zero);
    var cs: seq<(Commit<V>, bool)>;
    cs, k := CrashLoses(d.sys, c, lock, zero);
    if cs != [] {
      var next := Tick(ds[0], AppCommit(c, true), lock, zero);
      assert cs[1..] == [] && Land(next.sys, []) == next.sys;
      ds, ms := Extend(ds, ms, Do(AppCommit(c, true)), next, lock, zero, minFrames, BOTH);
    }
  }

  // --- Runs from an empty replica that lose a commit ---------------------------------------------------

  /// The first proviso is needed. After the first sync, `big` lands before the time-based
  /// checkpoint stages, taking the position past the threshold; the checkpoint folds
  /// everything and bumps nothing. The next tick's sync finds nothing new, but the frame
  /// threshold is met, so a checkpoint starts with the WAL fully folded, and `c` is lost.
  lemma OvershootingTimedCheckpoint<V>(d: Drv<V>, big: Commit<V>, c: Commit<V>, b: Commit<V>, lock: nat, zero: V,
    minFrames: nat)
    returns (ds: seq<Drv<V>>, ms: seq<Move<V>>)
    requires DriverInit(d, lock) && Wal(d.sys) != [] && FrameCount(Wal(d.sys)) < minFrames
    requires var s := Append(d.sys, big, false);
      CommitsOk(s.app, lock) && FrameCount(Wal(s)) >= minFrames && SlipThrough(s, c, b, lock)
    ensures DriverRun(ds, ms, lock, zero, minFrames, Provisos(false, true)) && ds[0] == d
    ensures LogOk(Final(ds).sys) && Skipped(Final(ds).sys, |d.sys.app| + 2)
  {
    InitIsInv(d.sys, lock, zero);
    ds, ms := SyncAll([d], [], lock, zero, minFrames, Provisos(false, true));
    var synced := Final(ds);
    AppendKeepsInv(synced.sys, big, false, lock, zero);
    var landed := Tick(synced, AppCommit(big, false), lock, zero);
    ds, ms := Extend(ds, ms, Do(AppCommit(big, false)), landed, lock, zero, minFrames, Provisos(false, true));
    ds, ms := FoldAll(ds, ms, false, lock, zero, minFrames, Provisos(false, true));
    ds, ms := FinishUnnoticed(ds, ms, lock, zero, minFrames, Provisos(false, true));
    ds, ms := SyncAll(ds, ms, lock, zero, minFrames, Provisos(false, true));
    ds, ms := Lapse(ds, ms, c, b, lock, zero, minFrames, Provisos(false, true));
  }

  /// So is the second. The first sync finds a long WAL, its checkpoint folds everything, and
  /// the process dies before the sequence bump. The next driver finds nothing to sync, but
  /// the threshold is met: again a checkpoint starts with the WAL fully folded.
  lemma CrashBeforeBump<V>(d: Drv<V>, c: Commit<V>, b: Commit<V>, lock: nat, zero: V, minFrames: nat)
    returns (ds: seq<Drv<V>>, ms: seq<Move<V>>)
    requires DriverInit(d, lock) && Wal(d.sys) != [] && FrameCount(Wal(d.sys)) >= minFrames
    requires SlipThrough(d.sys, c, b, lock)
    ensures DriverRun(ds, ms, lock, zero, minFrames, Provisos(true, false)) && ds[0] == d
    ensures LogOk(Final(ds).sys) && Skipped(Final(ds).sys, |d.sys.app| + 1)
  {
    InitIsInv(d.sys, lock, zero);
    ds, ms := SyncAll([d], [], lock, zero, minFrames, Provisos(true, false));
    ds, ms := FoldAll(ds, ms, true, lock, zero, minFrames, Provisos(true, false));
    var folded := Final(ds);
    ReopenKeepsInv(folded.sys, lock, zero);
    ds, ms := Extend(ds, ms, Reboot, Reopened(folded), lock, zero, minFrames, Provisos(true, false));
    ds, ms := SyncAll(ds, ms, lock, zero, minFrames, Provisos(true, false));
    ds, ms := Lapse(ds, ms, c, b, lock, zero, minFrames, Provisos(true, false));
  }

  // --- One run of each ------------------------------------------------------------------------------

  /// A new replica of a one-page database, whose only commit took `frames` frames.
  ghost function NewReplica(frames: nat): Drv<char> {
    Drv(Sys([Rewrite(frames)], 0, 0, 0, [], Pos(0, 0), 0, false, None, Idle), false, false, false)
  }

  ghost function Rewrite(frames: nat): Commit<char> {
    Commit(Tx(map[1 := 'a'], 1), frames)
  }

  ghost predicate Rewrites(cs: seq<Commit<char>>) {
    forall i :: 0 <= i < |cs| ==> cs[i].frames >= 1 && cs[i] == Rewrite(cs[i].frames)
  }

  lemma RewritesOk(cs: seq<Commit<char>>, lock: nat)
    requires Rewrites(cs) && lock >= 2
    ensures CommitsOk(cs, lock)
  {
    var h := Txs(cs);
    forall t | 1 <= t <= |h| ensures WellFormedAt(h, lock, t) {
      assert h[t - 1] == cs[t - 1].tx;
      assert forall p :: Writes(h, t, p) <==> p == 1;
    }
    forall i | 0 <= i < |cs| ensures LandsAt(cs, i) {
      assert 1 <= 1 <= cs[i].tx.commit && 1 in cs[i].tx.pages;
    }
  }

  lemma FramesOf(cs: seq<Commit<char>>)
    ensures |cs| == 1 ==> FrameCount(cs) == cs[0].frames
    ensures |cs| == 2 ==> FrameCount(cs) == cs[0].frames + cs[1].frames
  {
    if |cs| == 1 {
      assert cs[1..] == [];
    }
    if |cs| == 2 {
      FramesOf(cs[1..]);
    }
  }

  /// Each proviso is broken, the other kept, by a run from an empty replica that loses a
  /// commit, whatever the threshold.
  lemma BothProvisosNeeded(minFrames: nat, lock: nat)
    returns (ds: seq<Drv<char>>, ms: seq<Move<char>>, es: seq<Drv<char>>, ns: seq<Move<char>>)
    requires minFrames >= 2 && lock >= 2
    ensures DriverRun(ds, ms, lock, 'z', minFrames, Provisos(false, true)) && DriverInit(ds[0], lock)
    ensures LogOk(Final(ds).sys) && Skipped(Final(ds).sys, 3)
    ensures DriverRun(es, ns, lock, 'z', minFrames, Provisos(true, false)) && DriverInit(es[0], lock)
    ensures LogOk(Final(es).sys) && Skipped(Final(es).sys, 2)
  {
    var one, big := Rewrite(1), Rewrite(minFrames);
    ds, ms := OvershootingRun(minFrames, lock, one, big);
    es, ns := CrashingRun(minFrames, lock, one, big);
  }

  lemma OvershootingRun(minFrames: nat, lock: nat, one: Commit<char>, big: Commit<char>)
    returns (ds: seq<Drv<char>>, ms: seq<Move<char>>)
    requires minFrames >= 2 && lock >= 2 && one == Rewrite(1) && big == Rewrite(minFrames)
    ensures DriverRun(ds, ms, lock, 'z', minFrames, Provisos(false, true)) && DriverInit(ds[0], lock)
    ensures LogOk(Final(ds).sys) && Skipped(Final(ds).sys, 3)
  {
    var d := NewReplica(1);
    var s := Append(d.sys, big, false);
    RewritesOk(d.sys.app, lock);
    RewritesOk(s.app, lock);
    RewritesOk(s.app + [one], lock);
    RewritesOk(s.app + [one, one], lock);
    FramesOf(Wal(d.sys));
    FramesOf(Wal(s));
    ds, ms := OvershootingTimedCheckpoint(d, big, one, one, lock, 'z', minFrames);
  }

  lemma CrashingRun(minFrames: nat, lock: nat, one: Commit<char>, big: Commit<char>)
    returns (ds: seq<Drv<char>>, ms: seq<Move<char>>)
    requires minFrames >= 2 && lock >= 2 && one == Rewrite(1) && big == Rewrite(minFrames)
    ensures DriverRun(ds, ms, lock, 'z', minFrames, Provisos(true, false)) && DriverInit(ds[0], lock)
    ensures LogOk(Final(ds).sys) && Skipped(Final(ds).sys, 2)
  {
    var d := NewReplica(minFrames);
    RewritesOk(d.sys.app, lock);
    RewritesOk(d.sys.app + [one], lock);
    RewritesOk(d.sys.app + [one, one], lock);
    FramesOf(Wal(d.sys));
    ds, ms := CrashBeforeBump(d, one, one, lock, 'z', minFrames);
  }
}
