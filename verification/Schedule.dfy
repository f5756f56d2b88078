/// When the driver compacts, snapshots and prunes (src/sync/level.rs:168-185,
/// src/sync/driver.rs:195-232): once per wall-clock interval boundary, whatever the clock does.

module Schedule {

  import opened Bytes
  import opened Planner

  // --- Boundaries ---------------------------------------------------------------------------

  /// `truncate`, in nanoseconds since the epoch. A clock before the epoch counts as the
  /// epoch, and the result is cut to 64 bits.
  function Truncate(now: int, interval: nat): int {
    if interval == 0 then now
    else
      var since := if now < 0 then 0 else now;
      (since / interval * interval) % U64
  }

  ghost predicate IsTimes(b: int, k: int, interval: nat) {
    b == interval * k
  }

  /// `b` is the interval boundary current at `now`: the multiple it has last passed.
  ghost predicate IsBoundary(b: int, now: int, interval: nat) {
    (exists k :: IsTimes(b, k, interval)) && b <= now < b + interval
  }

  lemma FloorIsBoundary(now: nat, interval: nat)
    requires interval > 0
    ensures IsBoundary(now / interval * interval, now, interval)
  {
    assert now == interval * (now / interval) + now % interval;
    assert IsTimes(now / interval * interval, now / interval, interval);
  }

  lemma TimesAscend(interval: nat, i: int, j: int)
    requires i < j
    ensures interval * i + interval <= interval * j
  {
    assert interval * j == interval * i + interval * (j - i);
    assert interval * (j - i) == interval + interval * (j - i - 1);
    NonNegative(interval, j - i - 1);
  }

  lemma NonNegative(a: nat, b: nat)
    ensures a * b >= 0
  {
  }

  /// Only one boundary is current at any instant.
  lemma BoundaryUnique(a: int, b: int, now: int, interval: nat)
    requires IsBoundary(a, now, interval) && IsBoundary(b, now, interval)
    ensures a == b
  {
    var i :| IsTimes(a, i, interval);
    var j :| IsTimes(b, j, interval);
    if i < j {
      TimesAscend(interval, i, j);
    } else if j < i {
      TimesAscend(interval, j, i);
    }
  }

  /// Truncating finds the current boundary if and only if the clock is not before the epoch
  /// and the boundary fits in 64-bit nanoseconds; before the epoch it finds the epoch.
  lemma TruncateIsBoundary(now: int, interval: nat)
    requires interval > 0
    ensures IsBoundary(Truncate(now, interval), now, interval) <==> 0 <= now && now - now % interval < U64
    ensures now < 0 ==> Truncate(now, interval) == 0
    ensures 0 <= now && now - now % interval < U64 ==>
      forall b :: IsBoundary(b, now, interval) ==> b == Truncate(now, interval)
  {
    if now < 0 {
      EpochIsZero(interval);
    } else {
      var floor := now / interval * interval;
      FloorIsBoundary(now, interval);
      NonNegative(now / interval, interval);
      assert floor == now - now % interval;
      forall b | IsBoundary(b, now, interval) ensures b == floor {
        BoundaryUnique(b, floor, now, interval);
      }
    }
  }

  lemma EpochIsZero(interval: nat)
    requires interval > 0
    ensures 0 / interval * interval == 0
  {
    assert 0 / interval == 0;
  }

  // --- The driver's slots ---------------------------------------------------------------------

  /// A level and how often it is compacted.
  datatype CompactionLevel = CompactionLevel(level: nat, interval: nat)

  /// `CompactionLevels::validate`.
  predicate Validated(levels: seq<CompactionLevel>) {
    && levels != []
    && forall i :: 0 <= i < |levels| ==>
        levels[i].level == i && i <= SNAPSHOT_LEVEL - 1 && (i == 0 <==> levels[i].interval == 0)
  }

  /// What the driver does on a boundary.
  datatype Task = Compaction(level: nat) | Snapshotting | L0Retention

  datatype Firing = Firing(task: Task, boundary: int)

  /// The last boundary a task fired at; it starts at the epoch.
  ghost function LastOf(fired: seq<Firing>, task: Task): int {
    if fired == [] then 0
    else if fired[|fired| - 1].task == task then fired[|fired| - 1].boundary
    else LastOf(fired[..|fired| - 1], task)
  }

  ghost predicate FiredBefore(fired: seq<Firing>, i: nat, j: nat)
    requires i < j < |fired|
  {
    fired[i].task == fired[j].task ==> fired[i].boundary < fired[j].boundary
  }

  /// Every task fires at strictly increasing boundaries after the epoch, so at each at most once.
  ghost predicate Increasing(fired: seq<Firing>) {
    && (forall i, j :: 0 <= i < j < |fired| ==> FiredBefore(fired, i, j))
    && (forall i :: 0 <= i < |fired| ==> NotPastLast(fired, i))
  }

  ghost predicate NotPastLast(fired: seq<Firing>, i: nat)
    requires i < |fired|
  {
    0 < fired[i].boundary <= LastOf(fired, fired[i].task)
  }

  lemma FiringKeepsIncreasing(fired: seq<Firing>, f: Firing) returns (next: seq<Firing>)
    requires Increasing(fired) && LastOf(fired, f.task) < f.boundary && 0 < f.boundary
    ensures next == fired + [f] && Increasing(next)
    ensures Turn(fired, next, f.task, f.boundary)
  {
    next := fired + [f];
    assert next[..|fired|] == fired;
    forall i, j | 0 <= i < j < |next| ensures FiredBefore(next, i, j) {
      if j < |fired| { assert FiredBefore(fired, i, j); } else { assert NotPastLast(fired, i); }
    }
    forall i | 0 <= i < |next| ensures NotPastLast(next, i) {
      if i < |fired| { assert NotPastLast(fired, i); }
    }
  }

  /// How one tick extends the log of firings: a task fires exactly if the boundary current at
  /// `now` is past every boundary it fired at before.
  ghost predicate FiresAt(was: seq<Firing>, fired: seq<Firing>, task: Task, now: int, interval: nat) {
    LastOf(fired, task) ==
      if interval > 0 && Truncate(now, interval) > LastOf(was, task) then Truncate(now, interval) else LastOf(was, task)
  }

  /// A task is due when its current boundary is past every boundary it fired at before.
  ghost predicate Due(was: seq<Firing>, task: Task, now: int, interval: nat) {
    interval > 0 && Truncate(now, interval) > LastOf(was, task)
  }

  ghost predicate Unmoved(was: seq<Firing>, fired: seq<Firing>, task: Task) {
    LastOf(fired, task) == LastOf(was, task)
  }

  /// Tick order: the levels upward, the snapshot, L0 retention.
  ghost function Rank(task: Task): int {
    match task
    case Compaction(level) => level
    case Snapshotting => SNAPSHOT_LEVEL
    case L0Retention => SNAPSHOT_LEVEL + 1
  }

  /// What was fired since `was` was fired in tick order, by tasks ranked from `low` to `high`.
  ghost predicate InOrder(was: seq<Firing>, fired: seq<Firing>, low: int, high: int) {
    && was <= fired
    && (forall i :: |was| <= i < |fired| ==> low <= Rank(fired[i].task) <= high)
    && (forall i, j :: |was| <= i < j < |fired| ==> Rank(fired[i].task) < Rank(fired[j].task))
  }

  lemma OrderExtends(was: seq<Firing>, mid: seq<Firing>, fired: seq<Firing>, low: int, between: int, high: int)
    requires InOrder(was, mid, low, between) && InOrder(mid, fired, between + 1, high) && low <= between + 1 <= high + 1
    ensures InOrder(was, fired, low, high)
  {
    forall i | |was| <= i < |fired| ensures low <= Rank(fired[i].task) <= high {
      assert i < |mid| ==> fired[i] == mid[i];
    }
    forall i, j | |was| <= i < j < |fired| ensures Rank(fired[i].task) < Rank(fired[j].task) {
      assert i < |mid| ==> fired[i] == mid[i];
      assert j < |mid| ==> fired[j] == mid[j];
    }
  }

  function Later(boundary: int, last: int): int {
    if boundary > last then boundary else last
  }

  /// The log after `task` had its turn with `boundary` current.
  ghost predicate Turn(was: seq<Firing>, fired: seq<Firing>, task: Task, boundary: int) {
    && InOrder(was, fired, Rank(task), Rank(task))
    && LastOf(fired, task) == Later(boundary, LastOf(was, task))
    && forall t {:trigger LastOf(fired, t)} :: t != task ==> LastOf(fired, t) == LastOf(was, t)
  }

  /// The log after the levels below `n` had their turns.
  ghost predicate Turns(was: seq<Firing>, fired: seq<Firing>, boundaries: seq<int>, n: nat)
    requires 1 <= n <= |boundaries|
  {
    && InOrder(was, fired, 1, n - 1)
    && forall t {:trigger LastOf(fired, t)} :: LastOf(fired, t) ==
        if t.Compaction? && 1 <= t.level < n then Later(boundaries[t.level], LastOf(was, t)) else LastOf(was, t)
  }

  lemma TurnsExtend(was: seq<Firing>, mid: seq<Firing>, fired: seq<Firing>, boundaries: seq<int>, n: nat)
    requires 1 <= n < |boundaries| && Turns(was, mid, boundaries, n)
    requires Turn(mid, fired, Compaction(n), boundaries[n])
    ensures Turns(was, fired, boundaries, n + 1)
    ensures LastOf(mid, Compaction(n)) == LastOf(was, Compaction(n))
  {
    OrderExtends(was, mid, fired, 1, n - 1, n);
    forall t ensures LastOf(fired, t) ==
      if t.Compaction? && 1 <= t.level < n + 1 then Later(boundaries[t.level], LastOf(was, t)) else LastOf(was, t)
    {
      assert LastOf(mid, t) == LastOf(mid, t);
    }
  }

  /// What the turns of the first levels mean for each task.
  lemma TurnsAreFirings(levels: seq<CompactionLevel>, was: seq<Firing>, fired: seq<Firing>, boundaries: seq<int>,
    n: nat, now: int)
    requires Validated(levels) && |boundaries| == |levels| && 1 <= n <= |levels|
    requires forall l :: 1 <= l < |levels| ==> boundaries[l] == Truncate(now, levels[l].interval)
    requires Turns(was, fired, boundaries, n)
    ensures InOrder(was, fired, 1, SNAPSHOT_LEVEL - 1)
    ensures forall l :: 1 <= l < n ==> FiresAt(was, fired, Compaction(l), now, levels[l].interval)
    ensures forall l :: n <= l < |levels| ==> Unmoved(was, fired, Compaction(l))
    ensures Unmoved(was, fired, Snapshotting) && Unmoved(was, fired, L0Retention)
  {
    assert levels[|levels| - 1].level == |levels| - 1;
    OrderWidens(was, fired, 1, n - 1, SNAPSHOT_LEVEL - 1);
    forall l | 1 <= l < n ensures FiresAt(was, fired, Compaction(l), now, levels[l].interval) {
      assert LastOf(fired, Compaction(l)) == Later(boundaries[l], LastOf(was, Compaction(l)));
      assert levels[l].interval > 0;
    }
  }

  lemma OrderWidens(was: seq<Firing>, fired: seq<Firing>, low: int, high: int, higher: int)
    requires InOrder(was, fired, low, high) && high <= higher
    ensures InOrder(was, fired, low, higher)
  {
  }

  /// A task whose boundary is not past its last has its turn without firing.
  lemma TurnWithoutFiring(fired: seq<Firing>, task: Task, boundary: int)
    requires boundary <= LastOf(fired, task)
    ensures Turn(fired, fired, task, boundary)
  {
  }

  /// Every level had its turn.
  ghost predicate LevelsFire(levels: seq<CompactionLevel>, was: seq<Firing>, fired: seq<Firing>, now: int) {
    forall l :: 1 <= l < |levels| ==> FiresAt(was, fired, Compaction(l), now, levels[l].interval)
  }

  lemma LevelsStay(levels: seq<CompactionLevel>, was: seq<Firing>, mid: seq<Firing>, fired: seq<Firing>, now: int,
    task: Task)
    requires LevelsFire(levels, was, mid, now) && !task.Compaction?
    requires forall t :: t != task ==> Unmoved(mid, fired, t)
    ensures LevelsFire(levels, was, fired, now)
  {
    forall l | 1 <= l < |levels| ensures FiresAt(was, fired, Compaction(l), now, levels[l].interval) {
      assert FiresAt(was, mid, Compaction(l), now, levels[l].interval) && Unmoved(mid, fired, Compaction(l));
    }
  }

  /// The slots of the levels say when each last fired.
  ghost predicate Recorded(last: seq<int>, fired: seq<Firing>) {
    forall l :: 0 <= l < |last| ==> RecordedAt(last, fired, l)
  }

  ghost predicate RecordedAt(last: seq<int>, fired: seq<Firing>, l: nat)
    requires l < |last|
  {
    0 <= last[l] == LastOf(fired, Compaction(l))
  }

  lemma SlotsStay(last: seq<int>, was: seq<Firing>, fired: seq<Firing>, task: Task, boundary: int)
    requires Recorded(last, was) && !task.Compaction? && Turn(was, fired, task, boundary)
    ensures Recorded(last, fired)
  {
    forall l | 0 <= l < |last| ensures RecordedAt(last, fired, l) { assert RecordedAt(last, was, l); }
  }

  lemma SlotMoves(last: seq<int>, was: seq<Firing>, fired: seq<Firing>, l: nat, boundary: int)
    requires Recorded(last, was) && l < |last| && boundary > last[l] && Turn(was, fired, Compaction(l), boundary)
    ensures Recorded(last[l := boundary], fired)
  {
    var next := last[l := boundary];
    forall k | 0 <= k < |next| ensures RecordedAt(next, fired, k) { assert RecordedAt(last, was, k); }
  }

  class Driver {
    const levels: seq<CompactionLevel>
    const snapshotInterval: nat
    const l0Retention: nat
    const l0RetentionInterval: nat
    var lastCompaction: seq<int>
    var lastSnapshot: int
    var lastL0Retention: int
    ghost var fired: seq<Firing>

    ghost predicate Valid()
      reads this
    {
      && Validated(levels) && Increasing(fired)
      && |lastCompaction| == |levels|
      && Recorded(lastCompaction, fired)
      && lastSnapshot == LastOf(fired, Snapshotting) && lastL0Retention == LastOf(fired, L0Retention)
      && 0 <= lastSnapshot && 0 <= lastL0Retention
    }

    constructor (levels: seq<CompactionLevel>, snapshotInterval: nat, l0Retention: nat, l0RetentionInterval: nat)
      requires Validated(levels)
      ensures Valid() && fired == []
      ensures this.levels == levels && this.snapshotInterval == snapshotInterval
      ensures this.l0Retention == l0Retention && this.l0RetentionInterval == l0RetentionInterval
    {
      this.levels, this.snapshotInterval := levels, snapshotInterval;
      this.l0Retention, this.l0RetentionInterval := l0Retention, l0RetentionInterval;
      lastCompaction, lastSnapshot, lastL0Retention, fired := seq(|levels|, _ => 0), 0, 0, [];
    }

    /// The compaction part of a tick, of which a failing compaction cuts the rest short
    /// (`stopAt` is the level whose compaction fails, if any). The boundary is spent first.
    method TickCompactions(now: int, stopAt: int) returns (stopped: bool)
      requires Valid()
      modifies this`lastCompaction, this`fired
      ensures Valid() && InOrder(old(fired), fired, 1, SNAPSHOT_LEVEL - 1)
      ensures stopped <==>
        1 <= stopAt < |levels| && Due(old(fired), Compaction(stopAt), now, levels[stopAt].interval)
      ensures forall l :: 1 <= l < |levels| ==>
        if stopped && stopAt < l then Unmoved(old(fired), fired, Compaction(l))
        else FiresAt(old(fired), fired, Compaction(l), now, levels[l].interval)
      ensures Unmoved(old(fired), fired, Snapshotting) && Unmoved(old(fired), fired, L0Retention)
    {
      var boundaries := seq(|levels|, l requires 0 <= l < |levels| => Truncate(now, levels[l].interval));
      ghost var was := fired;
      stopped := CompactDue(boundaries, stopAt);
      TurnsAreFirings(levels, was, fired, boundaries, if stopped then stopAt + 1 else |levels|, now);
    }

    /// Each level in turn, upward, at the boundaries now current.
    method CompactDue(boundaries: seq<int>, stopAt: int) returns (stopped: bool)
      requires Valid() && |boundaries| == |levels|
      modifies this`lastCompaction, this`fired
      ensures stopped <==>
        1 <= stopAt < |levels| && boundaries[stopAt] > LastOf(old(fired), Compaction(stopAt))
      ensures Valid() && Turns(old(fired), fired, boundaries, if stopped then stopAt + 1 else |levels|)
    {
      stopped := false;
      for l := 1 to |levels|
        invariant Valid() && Turns(old(fired), fired, boundaries, l)
        invariant 1 <= stopAt < l ==> boundaries[stopAt] <= LastOf(old(fired), Compaction(stopAt))
      {
        ghost var was := fired;
        var due := CompactIfDue(l, boundaries[l]);
        TurnsExtend(old(fired), was, fired, boundaries, l);
        if due && l == stopAt {
          return true;
        }
      }
    }

    /// One level's turn.
    method CompactIfDue(l: nat, boundary: int) returns (due: bool)
      requires Valid() && 1 <= l < |levels|
      modifies this`lastCompaction, this`fired
      ensures Valid() && Turn(old(fired), fired, Compaction(l), boundary)
      ensures due <==> boundary > LastOf(old(fired), Compaction(l))
    {
      assert RecordedAt(lastCompaction, fired, l);
      due := boundary > lastCompaction[l];
      if !due {
        TurnWithoutFiring(fired, Compaction(l), boundary);
        return;
      }
      ghost var next := FiringKeepsIncreasing(fired, Firing(Compaction(l), boundary));
      SlotMoves(lastCompaction, fired, next, l, boundary);
      lastCompaction := lastCompaction[l := boundary];
      fired := next;
    }

    /// The snapshot part of a tick.
    method TickSnapshot(now: int, fails: bool) returns (stopped: bool)
      requires Valid()
      modifies this`lastSnapshot, this`fired
      ensures Valid() && InOrder(old(fired), fired, SNAPSHOT_LEVEL, SNAPSHOT_LEVEL)
      ensures stopped <==> fails && Due(old(fired), Snapshotting, now, snapshotInterval)
      ensures FiresAt(old(fired), fired, Snapshotting, now, snapshotInterval)
      ensures forall t :: t != Snapshotting ==> Unmoved(old(fired), fired, t)
    {
      stopped := false;
      if snapshotInterval != 0 {
        var boundary := Truncate(now, snapshotInterval);
        if boundary > lastSnapshot {
          ghost var next := FiringKeepsIncreasing(fired, Firing(Snapshotting, boundary));
          SlotsStay(lastCompaction, fired, next, Snapshotting, boundary);
          lastSnapshot := boundary;
          fired := next;
          stopped := fails;
        }
      }
    }

    /// The L0-retention part of a tick.
    method TickL0Retention(now: int)
      requires Valid()
      modifies this`lastL0Retention, this`fired
      ensures Valid() && InOrder(old(fired), fired, SNAPSHOT_LEVEL + 1, SNAPSHOT_LEVEL + 1)
      ensures FiresAt(old(fired), fired, L0Retention, now, if l0Retention == 0 then 0 else l0RetentionInterval)
      ensures forall t :: t != L0Retention ==> Unmoved(old(fired), fired, t)
    {
      if l0Retention != 0 && l0RetentionInterval != 0 {
        var boundary := Truncate(now, l0RetentionInterval);
        if boundary > lastL0Retention {
          ghost var next := FiringKeepsIncreasing(fired, Firing(L0Retention, boundary));
          SlotsStay(lastCompaction, fired, next, L0Retention, boundary);
          lastL0Retention := boundary;
          fired := next;
        }
      }
    }

    /// `tick`: compactions, then snapshots, then L0 retention (if there is any), each on its
    /// own boundaries. A failing step ends the tick; `stopAt` 9 is the snapshot. The tick is cut
    /// short exactly when the step that would fail is due: that step has spent its boundary, the
    /// ones before it fired if due, and the ones after it did not move.
    method Tick(now: int, stopAt: int) returns (stopped: bool)
      requires Valid()
      modifies this`lastCompaction, this`lastSnapshot, this`lastL0Retention, this`fired
      ensures Valid() && InOrder(old(fired), fired, 1, SNAPSHOT_LEVEL + 1)
      ensures stopped <==>
        || (1 <= stopAt < |levels| && levels[stopAt].interval > 0 &&
            Truncate(now, levels[stopAt].interval) > LastOf(old(fired), Compaction(stopAt)))
        || (stopAt == SNAPSHOT_LEVEL && snapshotInterval > 0 &&
            Truncate(now, snapshotInterval) > LastOf(old(fired), Snapshotting))
      ensures forall l :: 1 <= l < |levels| ==>
        if stopped && stopAt < l then Unmoved(old(fired), fired, Compaction(l))
        else FiresAt(old(fired), fired, Compaction(l), now, levels[l].interval)
      ensures
        if stopped && stopAt < SNAPSHOT_LEVEL then Unmoved(old(fired), fired, Snapshotting)
        else FiresAt(old(fired), fired, Snapshotting, now, snapshotInterval)
      ensures
        if stopped then Unmoved(old(fired), fired, L0Retention)
        else FiresAt(old(fired), fired, L0Retention, now, if l0Retention == 0 then 0 else l0RetentionInterval)
    {
      ghost var was := fired;
      stopped := TickCompactions(now, stopAt);
      if stopped {
        return;
      }
      ghost var mid := fired;
      stopped := TickSnapshot(now, stopAt == SNAPSHOT_LEVEL);
      LevelsStay(levels, was, mid, fired, now, Snapshotting);
      OrderExtends(was, mid, fired, 1, SNAPSHOT_LEVEL - 1, SNAPSHOT_LEVEL);
      if stopped {
        return;
      }
      mid := fired;
      TickL0Retention(now);
      LevelsStay(levels, was, mid, fired, now, L0Retention);
      OrderExtends(was, mid, fired, 1, SNAPSHOT_LEVEL, SNAPSHOT_LEVEL + 1);
    }

    /// Any number of ticks, on a clock that may stand still, jump or go backwards, with any
    /// compaction failing in any of them. After a last tick that nothing could fail in, every task
    /// has fired at the boundary then current or past it.
    method TickRepeatedly(nows: seq<int>, stopAt: seq<int>)
      requires Valid() && |stopAt| == |nows|
      modifies this`lastCompaction, this`lastSnapshot, this`lastL0Retention, this`fired
      ensures Valid() && old(fired) <= fired && Increasing(fired)
      ensures nows != [] && stopAt[|nows| - 1] == -1 ==> UpToDate(nows[|nows| - 1])
    {
      for i := 0 to |nows|
        invariant Valid() && old(fired) <= fired
        invariant i > 0 && stopAt[i - 1] == -1 ==> UpToDate(nows[i - 1])
      {
        var _ := Tick(nows[i], stopAt[i]);
      }
    }

    ghost predicate UpToDate(now: int)
      reads this
    {
      && (forall l :: 1 <= l < |levels| ==> Caught(Compaction(l), now, levels[l].interval))
      && Caught(Snapshotting, now, snapshotInterval)
      && Caught(L0Retention, now, if l0Retention == 0 then 0 else l0RetentionInterval)
    }

    ghost predicate Caught(task: Task, now: int, interval: nat)
      reads this
    {
      interval > 0 ==> LastOf(fired, task) >= Truncate(now, interval)
    }
  }
}
