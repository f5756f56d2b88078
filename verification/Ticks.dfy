/// How `Driver::tick` sequences syncs and checkpoints (src/sync/driver.rs:165-193).

module Ticks {
  // Whether its checkpoints always start in time for their over-folds to be detected, across
  // crashes and reopenings.

  import opened History
  import opened Checkpoint

  /// The replication system under a driver: whether this tick has synced, whether data was
  /// synced since the last checkpoint, and whether the running checkpoint is the
  /// time-based one (which does not bump the sequence row).
  datatype Drv<V> = Drv(sys: Sys<V>, ticked: bool, syncedSince: bool, timed: bool)

  /// What a tick may do next. `minFrames` is `min_checkpoint_frames`; TRUNCATE checkpoints and
  /// outside checkpointers are not part of this machine. A crash is a move of its own.
  ghost predicate Scheduled<V>(d: Drv<V>, e: Event<V>, lock: nat, minFrames: nat) {
    && Enabled(d.sys, e)
    && match e
       case AppCommit(c, _) => CommitsOk(d.sys.app + [c], lock)
       case BumpSeq(c, _) => CommitsOk(d.sys.app + [c], lock)
       case SyncBuild => !d.ticked
       case Stage(bump) =>
         && d.ticked && d.sys.ships != []
         && if bump then d.sys.pos.frames >= minFrames
            else d.sys.pos.frames < minFrames && d.syncedSince && d.sys.genStart < |d.sys.app|
       case Crash => false
       case _ => true
  }

  ghost function Tick<V>(d: Drv<V>, e: Event<V>, lock: nat, zero: V): Drv<V>
    requires d.sys.genStart <= d.sys.folded <= |d.sys.app| && Enabled(d.sys, e)
  {
    var next := Step(d.sys, e, lock, zero);
    match e
    case SyncBuild => Drv(next, next.phase.Idle?, d.syncedSince, d.timed)
    case SyncUpload => Drv(next, true, true, d.timed)
    case Stage(bump) => Drv(next, true, d.syncedSince, !bump)
    case Judge => if next.phase.Idle? then Drv(next, false, false, d.timed) else d.(sys := next)
    case UploadSnapshot => Drv(next, false, false, d.timed)
    case _ => d.(sys := next)
  }

  /// A tick that finds nothing to checkpoint just ends.
  ghost function EndTick<V>(d: Drv<V>): Drv<V> {
    d.(ticked := false)
  }

  /// The last step of a checkpoint.
  ghost predicate Finishes<V>(d: Drv<V>, e: Event<V>) {
    e.UploadSnapshot? || (e.Judge? && d.sys.phase.Judging? && d.sys.phase.result <= d.sys.phase.synced)
  }

  /// If the position is at the frame threshold, so that the next tick checkpoints again even
  /// if it has nothing to sync, some commit is unfolded by then.
  ghost predicate NextInTime<V>(s: Sys<V>, minFrames: nat) {
    ChainPos(s).frames >= minFrames ==> Startable(s)
  }

  /// A time-based checkpoint that `e` finishes leaves the next one in time.
  ghost predicate Timely<V>(d: Drv<V>, e: Event<V>, minFrames: nat) {
    d.timed && Finishes(d, e) ==> NextInTime(d.sys, minFrames)
  }

  /// When each phase may rely on an unfolded commit.
  ghost predicate OnTime<V>(d: Drv<V>, minFrames: nat) {
    && (d.sys.phase.Idle? && (d.syncedSince || d.sys.ships == [] || d.sys.pos.frames >= minFrames) ==>
        Startable(d.sys))
    && (d.sys.phase.Syncing? ==> Startable(d.sys))
    && ((d.sys.phase.Staged? || d.sys.phase.Folded?) ==> d.sys.phase.bump == !d.timed)
    && ((d.sys.phase.Uploading? || d.sys.phase.Judging? || d.sys.phase.Resnapping?) && !d.timed ==> Startable(d.sys))
  }

  ghost predicate DInv<V>(d: Drv<V>, lock: nat, zero: V, minFrames: nat) {
    Inv(d.sys, lock, zero) && OnTime(d, minFrames) && minFrames >= 1
  }

  lemma TickKeepsOnTime<V>(d: Drv<V>, e: Event<V>, lock: nat, zero: V, minFrames: nat)
    requires d.sys.genStart <= d.sys.folded <= |d.sys.app| && minFrames >= 1
    requires d.sys.phase.Judging? ==> d.sys.pending.None? && d.sys.ships != []
    requires d.sys.phase.Resnapping? ==> d.sys.pending.Some?
    requires e.SyncBuild? && d.sys.ships != [] && Build(d.sys, lock, zero).Some? ==> Startable(d.sys)
    requires OnTime(d, minFrames) && Scheduled(d, e, lock, minFrames) && Timely(d, e, minFrames)
    ensures OnTime(Tick(d, e, lock, zero), minFrames)
  {
  }

  /// A step of the driver keeps its invariant, and a checkpoint it starts is startable.
  lemma TickKeepsDInv<V>(d: Drv<V>, e: Event<V>, lock: nat, zero: V, minFrames: nat)
    requires DInv(d, lock, zero, minFrames) && Scheduled(d, e, lock, minFrames) && Timely(d, e, minFrames)
    ensures e.Stage? ==> Startable(d.sys)
    ensures DInv(Tick(d, e, lock, zero), lock, zero, minFrames)
  {
    StepKeepsInv(d.sys, e, lock, zero);
    if e.SyncBuild? && d.sys.ships != [] {
      BaseIsCapture(d.sys, lock);
    }
    TickKeepsOnTime(d, e, lock, zero, minFrames);
  }

  /// The process dies and the next `open` ships what was staged: a new driver, remembering
  /// nothing, over the same chain.
  ghost function Reopened<V>(d: Drv<V>): Drv<V> {
    Drv(Reopen(d.sys), false, false, false)
  }

  /// When a crash is harmless: no commit is lost by it, and if the next driver's first tick
  /// may start a checkpoint without syncing anything new, some commit is still unfolded.
  ghost predicate Survivable<V>(s: Sys<V>, minFrames: nat) {
    Recoverable(s) && (Chain(s) == [] ==> Startable(s)) && NextInTime(s, minFrames)
  }

  datatype Move<V> = Do(e: Event<V>) | End | Reboot

  /// What a run may be held to: time-based checkpoints are timely, crashes are survivable.
  datatype Provisos = Provisos(timely: bool, survivable: bool)

  const BOTH := Provisos(true, true)
  const NEITHER := Provisos(false, false)

  /// `next` follows `d` by move `m`, within the provisos held to.
  ghost predicate Follows<V>(d: Drv<V>, m: Move<V>, next: Drv<V>, lock: nat, zero: V, minFrames: nat, held: Provisos) {
    match m
    case End => d.sys.phase.Idle? && next == EndTick(d)
    case Reboot => (held.survivable ==> Survivable(d.sys, minFrames)) && next == Reopened(d)
    case Do(e) =>
      && d.sys.genStart <= d.sys.folded <= |d.sys.app|
      && Scheduled(d, e, lock, minFrames) && (held.timely ==> Timely(d, e, minFrames))
      && next == Tick(d, e, lock, zero)
  }

  ghost predicate FollowsAt<V>(ds: seq<Drv<V>>, ms: seq<Move<V>>, i: nat, lock: nat, zero: V, minFrames: nat,
    held: Provisos)
    requires |ds| == |ms| + 1 && i < |ms|
  {
    Follows(ds[i], ms[i], ds[i + 1], lock, zero, minFrames, held)
  }

  /// A run of the driver: its states and the moves between them.
  ghost predicate DriverRun<V>(ds: seq<Drv<V>>, ms: seq<Move<V>>, lock: nat, zero: V, minFrames: nat, held: Provisos) {
    |ds| == |ms| + 1 && forall i :: 0 <= i < |ms| ==> FollowsAt(ds, ms, i, lock, zero, minFrames, held)
  }

  /// A driver on a new replica, its database's bookkeeping commit still in the WAL, as the
  /// first `Db::open` leaves it.
  ghost predicate DriverInit<V>(d: Drv<V>, lock: nat) {
    Init(d.sys, lock) && !d.ticked && !d.syncedSince && Startable(d.sys)
  }

  /// A driver just opened over a chain of any length.
  ghost predicate DriverOpen<V>(d: Drv<V>, lock: nat, zero: V, minFrames: nat) {
    Inv(d.sys, lock, zero) && d.sys.phase.Idle? && !d.ticked && !d.syncedSince && Survivable(d.sys, minFrames)
  }

  lemma InitIsOpen<V>(d: Drv<V>, lock: nat, zero: V, minFrames: nat)
    requires DriverInit(d, lock)
    ensures DriverOpen(d, lock, zero, minFrames)
  {
    InitIsInv(d.sys, lock, zero);
  }

  /// A driver opened over any chain, the empty one included, starts with the invariant.
  lemma OpenIsDInv<V>(d: Drv<V>, lock: nat, zero: V, minFrames: nat)
    requires DriverOpen(d, lock, zero, minFrames) && minFrames >= 1
    ensures DInv(d, lock, zero, minFrames)
  {
  }

  lemma RebootKeepsDInv<V>(d: Drv<V>, lock: nat, zero: V, minFrames: nat)
    requires DInv(d, lock, zero, minFrames) && Survivable(d.sys, minFrames)
    ensures DriverOpen(Reopened(d), lock, zero, minFrames) && DInv(Reopened(d), lock, zero, minFrames)
  {
    ReopenKeepsInv(d.sys, lock, zero);
  }

  lemma MoveKeepsDInv<V>(d: Drv<V>, m: Move<V>, next: Drv<V>, lock: nat, zero: V, minFrames: nat)
    requires DInv(d, lock, zero, minFrames) && Follows(d, m, next, lock, zero, minFrames, BOTH)
    ensures DInv(next, lock, zero, minFrames)
  {
    match m {
      case End =>
      case Reboot => RebootKeepsDInv(d, lock, zero, minFrames);
      case Do(e) => TickKeepsDInv(d, e, lock, zero, minFrames);
    }
  }

  /// Over every interleaving of application commits with the driver's steps, survivable
  /// crashes and reopenings: as long as no time-based checkpoint ends with the position at the
  /// frame threshold and everything folded, every checkpoint starts in time to detect its
  /// over-folds, no commit is ever skipped, and the chain plus the WAL past the saved position
  /// is the live database. The run may start wherever the invariant holds; see `OpenIsDInv`.
  lemma {:induction false} DriverNeverLoses<V>(ds: seq<Drv<V>>, ms: seq<Move<V>>, n: nat, lock: nat, zero: V,
    minFrames: nat)
    requires DriverRun(ds, ms, lock, zero, minFrames, BOTH) && n < |ds|
    requires DInv(ds[0], lock, zero, minFrames)
    ensures DInv(ds[n], lock, zero, minFrames)
    ensures n < |ms| && ms[n].Do? && ms[n].e.Stage? ==> Startable(ds[n].sys)
    ensures forall k: nat :: !Skipped(ds[n].sys, k)
    ensures var s := ds[n].sys;
      Chain(s) != [] && Recoverable(s) ==> Recovered(s, zero) == State(Txs(s.app), |s.app|, zero)
  {
    if n > 0 {
      DriverNeverLoses(ds, ms, n - 1, lock, zero, minFrames);
      assert FollowsAt(ds, ms, n - 1, lock, zero, minFrames, BOTH);
      MoveKeepsDInv(ds[n - 1], ms[n - 1], ds[n], lock, zero, minFrames);
    }
    if n < |ms| && ms[n].Do? {
      assert FollowsAt(ds, ms, n, lock, zero, minFrames, BOTH);
      TickKeepsDInv(ds[n], ms[n].e, lock, zero, minFrames);
    }
    AtEveryState(ds[n].sys, lock, zero);
  }

  lemma AtEveryState<V>(s: Sys<V>, lock: nat, zero: V)
    requires Inv(s, lock, zero)
    ensures forall k: nat :: !Skipped(s, k)
    ensures Chain(s) != [] && Recoverable(s) ==> Recovered(s, zero) == State(Txs(s.app), |s.app|, zero)
  {
    assert AllAllowed(s, [], lock, zero);
    EveryRunRecovers(s, [], lock, zero);
    forall k: nat | Skipped(s, k) ensures false {
      BaseIsCapture(s, lock);
    }
  }
}
