/// Checkpointing a live database without losing a commit (src/sync/mod.rs:617-663).

module Checkpoint {
  // The interleaving of the application's commits with the stage, checkpoint, seq-bump, upload
  // and over-fold snapshot steps of `run_checkpoint` and `Db::checkpoint`
  // (src/db/mod.rs:217-255).
  //
  // SQLite is modelled by what it does to the log: commits are appended to the current WAL
  // generation, or restart it (a new salt) once every frame of the old one has been folded
  // into the database file; a PASSIVE checkpoint folds any further part of the log up to a
  // commit boundary. A log with no commit in it has no header either: that is how SQLite
  // leaves it when it has removed the file. There is no outside checkpointer and no upload
  // error.

  import opened History
  import opened Options

  /// A committed transaction and how many WAL frames it took.
  datatype Commit<V> = Commit(tx: Tx<V>, frames: nat)

  /// A replication position: the WAL generation (its salts) and the frames synced in it.
  datatype Pos = Pos(gen: nat, frames: nat)

  /// A staged LTX file and the position its header records. `upTo` is how many commits
  /// the chain captures once it is uploaded.
  datatype Pending<V> = Pending(tx: Tx<V>, pos: Pos, upTo: nat)

  datatype Phase =
    | Idle
    | Syncing
    | Staged(synced: nat, bump: bool)                // step 1 done: staged, not yet checkpointed
    | Folded(synced: nat, result: nat, bump: bool)   // the PRAGMA returned
    | Uploading(synced: nat, result: nat)            // `Db::checkpoint` returned
    | Judging(synced: nat, result: nat)              // step 3 done
    | Resnapping                                     // step 4: catch-up snapshot staged

  /// `app` is every commit so far; the current WAL generation holds `app[genStart..]`, the
  /// database file the first `folded` commits. `ships` are the uploaded level-0 files,
  /// which capture the first `captured` commits. `atEnd` is the position's
  /// `synced_to_wal_end`, which only matters while the WAL is empty.
  datatype Sys<V> = Sys(
    app: seq<Commit<V>>, genStart: nat, gen: nat, folded: nat,
    ships: History<V>, pos: Pos, captured: nat, atEnd: bool,
    pending: Option<Pending<V>>, phase: Phase)

  ghost function Txs<V>(cs: seq<Commit<V>>): (h: History<V>)
    ensures |h| == |cs|
  {
    seq(|cs|, i requires 0 <= i < |cs| => cs[i].tx)
  }

  ghost function FrameCount<V>(cs: seq<Commit<V>>): nat {
    if cs == [] then 0 else cs[0].frames + FrameCount(cs[1..])
  }

  /// How many whole commits lie within the first `frames` frames.
  ghost function CommitsWithin<V>(cs: seq<Commit<V>>, frames: nat): (n: nat)
    ensures n <= |cs|
  {
    if cs == [] || cs[0].frames > frames then 0 else 1 + CommitsWithin(cs[1..], frames - cs[0].frames)
  }

  /// A commit takes at least one frame and leaves a page inside the database.
  ghost predicate Lands<V>(c: Commit<V>) {
    c.frames >= 1 && exists p :: 1 <= p <= c.tx.commit && p in c.tx.pages
  }

  ghost predicate LandsAt<V>(cs: seq<Commit<V>>, i: nat)
    requires i < |cs|
  {
    Lands(cs[i])
  }

  ghost predicate CommitsOk<V>(cs: seq<Commit<V>>, lock: nat) {
    WellFormed(Txs(cs), lock) && forall i :: 0 <= i < |cs| ==> LandsAt(cs, i)
  }

  // --- What the code reads and builds ------------------------------------------------------

  ghost function Wal<V>(s: Sys<V>): seq<Commit<V>>
    requires s.genStart <= |s.app|
  {
    s.app[s.genStart..]
  }

  /// Where `plan` starts the next incremental: right after the saved position if the salts
  /// still match, else at the start of the new generation.
  ghost function Base<V>(s: Sys<V>): (b: nat)
    requires s.genStart <= |s.app|
    ensures b <= |s.app|
  {
    if s.pos.gen == s.gen then s.genStart + CommitsWithin(Wal(s), s.pos.frames) else s.genStart
  }

  ghost function Here<V>(s: Sys<V>): Pos
    requires s.genStart <= |s.app|
  {
    Pos(s.gen, FrameCount(Wal(s)))
  }

  /// `build_snapshot`: every page but the lock page, from the WAL where it has one and
  /// from the database file otherwise.
  ghost function SnapshotTx<V>(s: Sys<V>, lock: nat, zero: V): Tx<V>
    requires s.genStart <= |s.app| && s.folded <= |s.app|
  {
    var h := Txs(s.app);
    var wal, db := Summary(h, s.genStart + 1, |h|), State(h, s.folded, zero);
    var commit := if Wal(s) != [] then CommitAt(h, |h|) else |db|;
    Tx(map p | 1 <= p <= commit && p != lock ::
         if p in wal then wal[p] else if p <= |db| then db[p - 1] else zero,
       commit)
  }

  ghost function Snapshot<V>(s: Sys<V>, lock: nat, zero: V): Pending<V>
    requires s.genStart <= |s.app| && s.folded <= |s.app|
  {
    Pending(SnapshotTx(s, lock, zero), Here(s), |s.app|)
  }

  /// `build_under_lock`: a snapshot first, then the newest pages of each tail of the WAL. With
  /// no WAL there is nothing to do, unless the process has just resumed and cannot know.
  ghost function Build<V>(s: Sys<V>, lock: nat, zero: V): Option<Pending<V>>
    requires s.genStart <= |s.app| && s.folded <= |s.app|
  {
    if s.ships == [] || (Wal(s) == [] && !s.atEnd) then Some(Snapshot(s, lock, zero))
    else
      var h, b := Txs(s.app), Base(s);
      var pages := if b < |h| then Summary(h, b + 1, |h|) else map[];
      if pages == map[] then None else Some(Pending(Tx(pages, CommitAt(h, |h|)), Here(s), |h|))
  }

  // --- Steps ---------------------------------------------------------------------------------

  datatype Event<V> =
    | AppCommit(c: Commit<V>, restart: bool)
    | SyncBuild
    | SyncUpload
    | Stage(bump: bool)
    | Fold(upTo: nat)
    | BumpSeq(c: Commit<V>, restart: bool)
    | SkipBump
    | UploadStaged
    | Judge
    | UploadSnapshot
    | Crash

  /// The chain, the position and the capture once what is staged has been uploaded.
  ghost function Chain<V>(s: Sys<V>): History<V> {
    if s.pending.Some? then s.ships + [s.pending.value.tx] else s.ships
  }

  ghost function ChainPos<V>(s: Sys<V>): Pos {
    if s.pending.Some? then s.pending.value.pos else s.pos
  }

  ghost function ChainCapture<V>(s: Sys<V>): nat {
    if s.pending.Some? then s.pending.value.upTo else s.captured
  }

  ghost predicate ChainAtEnd<V>(s: Sys<V>) {
    s.pending.Some? || s.atEnd
  }

  ghost predicate Enabled<V>(s: Sys<V>, e: Event<V>) {
    match e
    case AppCommit(c, restart) => restart ==> s.folded == |s.app|
    case SyncBuild => s.phase.Idle?
    case SyncUpload => s.phase.Syncing?
    case Stage(_) => s.phase.Idle?
    case Fold(upTo) => s.phase.Staged? && s.folded <= upTo <= |s.app|
    case BumpSeq(c, restart) => s.phase.Folded? && s.phase.bump && (restart ==> s.folded == |s.app|)
    case SkipBump => s.phase.Folded? && !s.phase.bump
    case UploadStaged => s.phase.Uploading?
    case Judge => s.phase.Judging?
    case UploadSnapshot => s.phase.Resnapping?
    case Crash => true
  }

  ghost function Append<V>(s: Sys<V>, c: Commit<V>, restart: bool): Sys<V> {
    if restart then s.(app := s.app + [c], genStart := |s.app|, gen := s.gen + 1) else s.(app := s.app + [c])
  }

  ghost function Upload<V>(s: Sys<V>, next: Phase): Sys<V> {
    s.(ships := Chain(s), pos := ChainPos(s), captured := ChainCapture(s), atEnd := ChainAtEnd(s),
       pending := None, phase := next)
  }

  /// The process dies; the next `open` ships what was staged and derives the position.
  ghost function Reopen<V>(s: Sys<V>): Sys<V> {
    Upload(s, Idle).(atEnd := false)
  }

  ghost function Step<V>(s: Sys<V>, e: Event<V>, lock: nat, zero: V): Sys<V>
    requires s.genStart <= s.folded <= |s.app| && Enabled(s, e)
  {
    match e
    case AppCommit(c, restart) => Append(s, c, restart)
    case SyncBuild =>
      var built := Build(s, lock, zero);
      if built.None? then s else s.(pending := built, phase := Syncing)
    case SyncUpload => Upload(s, Idle)
    case Stage(bump) =>
      var staged := s.(pending := Build(s, lock, zero));
      staged.(phase := Staged(ChainPos(staged).frames, bump))
    case Fold(upTo) =>
      s.(folded := upTo,
         phase := Folded(s.phase.synced, FrameCount(s.app[s.genStart..upTo]), s.phase.bump))
    case BumpSeq(c, restart) => Append(s, c, restart).(phase := Uploading(s.phase.synced, s.phase.result))
    case SkipBump => s.(phase := Uploading(s.phase.synced, s.phase.result))
    case UploadStaged => Upload(s, Judging(s.phase.synced, s.phase.result))
    case Judge =>
      if s.phase.result > s.phase.synced then s.(pending := Some(Snapshot(s, lock, zero)), phase := Resnapping)
      else s.(phase := Idle)
    case UploadSnapshot => Upload(s, Idle)
    case Crash => Reopen(s)
  }

  // --- The invariant ------------------------------------------------------------------------------

  /// What the position stands for: in its own WAL generation it counts the captured frames;
  /// from an earlier one, nothing of the current generation is captured.
  ghost predicate Positioned<V>(s: Sys<V>)
    requires s.genStart <= |s.app|
  {
    Chain(s) != [] ==>
      var pos, n := ChainPos(s), ChainCapture(s);
      && n <= |s.app| && pos.gen <= s.gen
      && (pos.gen == s.gen ==> s.genStart <= n && pos.frames == FrameCount(s.app[s.genStart..n]))
      && (pos.gen != s.gen ==> n <= s.genStart)
  }

  /// Every commit the chain lacks is still in the WAL, and either none of them is folded into
  /// the database or not all are, so that the WAL cannot restart over them.
  ghost predicate Recoverable<V>(s: Sys<V>) {
    Chain(s) != [] ==> s.genStart <= ChainCapture(s) && (s.folded <= ChainCapture(s) || s.folded < |s.app|)
  }

  /// The chain replays to the commits it captures.
  ghost predicate ChainReplaysTo<V>(s: Sys<V>, lock: nat, zero: V) {
    Chain(s) != [] ==>
      && ChainCapture(s) <= |s.app|
      && WellFormed(Chain(s), lock)
      && State(Chain(s), |Chain(s)|, zero) == State(Txs(s.app), ChainCapture(s), zero)
  }

  /// At the moment the checkpoint may fold, the WAL still has an unfolded captured frame (so
  /// it cannot restart) or none captured at all, and the frame count taken is that of the
  /// capture.
  ghost predicate Guarded<V>(s: Sys<V>) {
    && s.phase.Staged? && Chain(s) != []
    && s.genStart <= ChainCapture(s) <= |s.app|
    && s.phase.synced == FrameCount(s.app[s.genStart..ChainCapture(s)])
    && (s.folded < ChainCapture(s) || s.genStart == ChainCapture(s))
  }

  /// The frame counts show an over-fold, which takes a WAL with frames in it.
  ghost predicate OverFolded<V>(s: Sys<V>, synced: nat, result: nat) {
    result > synced && s.genStart < |s.app|
  }

  ghost predicate PhaseOk<V>(s: Sys<V>) {
    match s.phase
    case Idle => Recoverable(s) && s.pending.None?
    case Syncing => Recoverable(s) && s.pending.Some?
    case Resnapping => Recoverable(s) && s.pending.Some?
    case Staged(synced, bump) => Recoverable(s) && Guarded(s)
    case Folded(synced, result, bump) => Chain(s) != [] && (Recoverable(s) || OverFolded(s, synced, result))
    case Uploading(synced, result) => Chain(s) != [] && (Recoverable(s) || OverFolded(s, synced, result))
    case Judging(synced, result) =>
      Chain(s) != [] && s.pending.None? && (Recoverable(s) || OverFolded(s, synced, result))
  }

  ghost predicate Inv<V>(s: Sys<V>, lock: nat, zero: V) {
    && 1 <= lock && CommitsOk(s.app, lock)
    && s.genStart <= s.folded <= |s.app|
    && (s.genStart == |s.app| && Chain(s) != [] && ChainAtEnd(s) ==> ChainPos(s).gen == s.gen)
    && Positioned(s) && ChainReplaysTo(s, lock, zero)
    && PhaseOk(s)
  }

  // --- Counting frames -------------------------------------------------------------------------------

  lemma RestLands<V>(cs: seq<Commit<V>>)
    requires cs != [] && forall k :: 0 <= k < |cs| ==> LandsAt(cs, k)
    ensures forall k :: 0 <= k < |cs[1..]| ==> LandsAt(cs[1..], k)
  {
    forall k | 0 <= k < |cs[1..]| ensures LandsAt(cs[1..], k) { assert LandsAt(cs, k + 1); }
  }

  lemma WalLands<V>(s: Sys<V>, lock: nat)
    requires CommitsOk(s.app, lock) && s.genStart <= |s.app|
    ensures forall k :: 0 <= k < |Wal(s)| ==> LandsAt(Wal(s), k)
  {
    forall k | 0 <= k < |Wal(s)| ensures LandsAt(Wal(s), k) { assert LandsAt(s.app, s.genStart + k); }
  }

  /// Frames up to commit `i` of the log against frames up to commit `j`.
  lemma WalFramesOrdered<V>(s: Sys<V>, lock: nat, i: nat, j: nat)
    requires CommitsOk(s.app, lock) && s.genStart <= i <= j <= |s.app|
    ensures FrameCount(s.app[s.genStart..i]) <= FrameCount(s.app[s.genStart..j])
    ensures i < j ==> FrameCount(s.app[s.genStart..i]) < FrameCount(s.app[s.genStart..j])
  {
    WalLands(s, lock);
    assert Wal(s)[..i - s.genStart] == s.app[s.genStart..i];
    assert Wal(s)[..j - s.genStart] == s.app[s.genStart..j];
    MoreCommitsMoreFrames(Wal(s), i - s.genStart, j - s.genStart);
  }

  lemma {:induction false} MoreCommitsMoreFrames<V>(cs: seq<Commit<V>>, i: nat, j: nat)
    requires i <= j <= |cs| && forall k :: 0 <= k < |cs| ==> LandsAt(cs, k)
    ensures FrameCount(cs[..i]) <= FrameCount(cs[..j])
    ensures i < j ==> FrameCount(cs[..i]) < FrameCount(cs[..j])
    decreases |cs|
  {
    if j > 0 {
      var rest := cs[1..];
      RestLands(cs);
      assert cs[..j][1..] == rest[..j - 1];
      assert LandsAt(cs, 0);
      if i > 0 {
        assert cs[..i][1..] == rest[..i - 1];
        MoreCommitsMoreFrames(rest, i - 1, j - 1);
      }
    }
  }

  lemma {:induction false} CommitsWithinExact<V>(cs: seq<Commit<V>>, n: nat)
    requires n <= |cs| && forall k :: 0 <= k < |cs| ==> LandsAt(cs, k)
    ensures CommitsWithin(cs, FrameCount(cs[..n])) == n
    decreases |cs|
  {
    if cs != [] {
      assert LandsAt(cs, 0);
      if n > 0 {
        var rest := cs[1..];
        RestLands(cs);
        assert cs[..n][1..] == rest[..n - 1];
        CommitsWithinExact(rest, n - 1);
      }
    }
  }

  /// The next incremental starts exactly where the chain ends.
  lemma BaseIsCapture<V>(s: Sys<V>, lock: nat)
    requires CommitsOk(s.app, lock) && s.pending.None? && s.ships != [] && s.genStart <= |s.app|
    requires Positioned(s) && Recoverable(s)
    ensures Base(s) == s.captured
  {
    if s.pos.gen == s.gen {
      var n := s.captured - s.genStart;
      assert Wal(s)[..n] == s.app[s.genStart..s.captured];
      WalLands(s, lock);
      CommitsWithinExact(Wal(s), n);
    }
  }

  // --- What a build ships ---------------------------------------------------------------------------------

  /// Two chains at the same state stay at the same state under the same transaction.
  lemma ExtendAlike<V>(h: History<V>, k: History<V>, t: nat, tx: Tx<V>, zero: V)
    requires t <= |k| && State(h, |h|, zero) == State(k, t, zero)
    ensures State(h + [tx], |h| + 1, zero) == Overlay(State(k, t, zero), tx.pages, tx.commit, zero)
  {
    PrefixStable(h, h + [tx], 1, |h|, zero);
  }

  lemma ExtendWellFormed<V>(h: History<V>, tx: Tx<V>, lock: nat)
    requires WellFormed(h, lock) && 0 !in tx.pages && lock !in tx.pages
    requires HoldsGrowth(tx.pages, CommitAt(h, |h|), tx.commit, lock)
    ensures WellFormed(h + [tx], lock)
  {
    var k := h + [tx];
    forall t | 1 <= t <= |k| ensures WellFormedAt(k, lock, t) {
      if t <= |h| {
        assert WellFormedAt(h, lock, t);
        assert CommitAt(k, t - 1) == CommitAt(h, t - 1);
        assert forall p :: Writes(k, t, p) <==> Writes(h, t, p);
      } else {
        assert CommitAt(k, t - 1) == CommitAt(h, |h|);
        assert forall p :: Writes(k, t, p) <==> p in tx.pages;
      }
    }
  }

  /// An incremental over what the chain captures brings it to the end of the log.
  lemma IncrementalCaptures<V>(ships: History<V>, h: History<V>, b: nat, lock: nat, zero: V)
    requires WellFormed(h, lock) && WellFormed(ships, lock) && b <= |h|
    requires State(ships, |ships|, zero) == State(h, b, zero)
    ensures var k := ships + [Tx(Summary(h, b + 1, |h|), CommitAt(h, |h|))];
      WellFormed(k, lock) && State(k, |k|, zero) == State(h, |h|, zero)
  {
    var tx := Tx(Summary(h, b + 1, |h|), CommitAt(h, |h|));
    assert CommitAt(ships, |ships|) == |State(ships, |ships|, zero)| == CommitAt(h, b);
    IncrementalIsWellFormed(h, b, lock, zero);
    ExtendWellFormed(ships, tx, lock);
    ExtendAlike(ships, h, b, tx, zero);
    ApplySummary(h, lock, b, b + 1, |h|, zero);
  }

  ghost predicate HoldsGrowth<V>(pages: map<nat, V>, was: nat, now: nat, lock: nat) {
    forall p :: was < p <= now && p != lock ==> p in pages
  }

  lemma IncrementalIsWellFormed<V>(h: History<V>, b: nat, lock: nat, zero: V)
    requires WellFormed(h, lock) && b <= |h|
    ensures 0 !in Summary(h, b + 1, |h|) && lock !in Summary(h, b + 1, |h|)
    ensures HoldsGrowth(Summary(h, b + 1, |h|), CommitAt(h, b), CommitAt(h, |h|), lock)
  {
    var pages := Summary(h, b + 1, |h|);
    SummaryPage(h, lock, b + 1, |h|, 0, zero);
    SummaryPage(h, lock, b + 1, |h|, lock, zero);
    forall p: nat | CommitAt(h, b) < p <= CommitAt(h, |h|) && p != lock ensures p in pages {
      SummaryPage(h, lock, b + 1, |h|, p, zero);
      if LastWrite(h, p, |h|) <= b {
        AliveSinceLastWrite(h, lock, p, b, |h|);
      }
    }
  }

  /// Every page of `live` but the lock page.
  ghost predicate Complete<V>(tx: Tx<V>, live: seq<V>, lock: nat) {
    && tx.commit == |live|
    && (forall p :: p in tx.pages <==> 1 <= p <= tx.commit && p != lock)
    && (forall p :: p in tx.pages ==> tx.pages[p] == live[p - 1])
  }

  /// Where the snapshot finds a page, it is the live one.
  lemma SnapshotPage<V>(s: Sys<V>, lock: nat, p: nat, zero: V)
    requires CommitsOk(s.app, lock) && s.genStart <= s.folded <= |s.app|
    requires 1 <= p <= CommitAt(Txs(s.app), |s.app|) && p != lock
    ensures var h := Txs(s.app);
      var wal, db, live := Summary(h, s.genStart + 1, |h|), State(h, s.folded, zero), State(h, |h|, zero);
      if p in wal then wal[p] == live[p - 1] else p <= |db| && db[p - 1] == live[p - 1]
  {
    var h := Txs(s.app);
    SummaryPage(h, lock, s.genStart + 1, |h|, p, zero);
    if LastWrite(h, p, |h|) <= s.genStart {
      UnwrittenPage(h, lock, s.folded, |h|, p, zero);
    }
  }

  /// The snapshot reads only pages that are there, and they are the live database's.
  lemma SnapshotIsLive<V>(s: Sys<V>, lock: nat, zero: V)
    requires CommitsOk(s.app, lock) && s.genStart <= s.folded <= |s.app|
    ensures Complete(SnapshotTx(s, lock, zero), State(Txs(s.app), |s.app|, zero), lock)
    ensures forall p :: p in SnapshotTx(s, lock, zero).pages && p !in Summary(Txs(s.app), s.genStart + 1, |s.app|) ==>
      p <= CommitAt(Txs(s.app), s.folded)
  {
    var h := Txs(s.app);
    forall p | 1 <= p <= CommitAt(h, |h|) && p != lock
      ensures p in SnapshotTx(s, lock, zero).pages && SnapshotTx(s, lock, zero).pages[p] == State(h, |h|, zero)[p - 1]
      ensures p !in Summary(h, s.genStart + 1, |h|) ==> p <= CommitAt(h, s.folded)
    {
      SnapshotPage(s, lock, p, zero);
    }
  }

  /// Whatever the chain held, it is at the live state after a snapshot.
  lemma SnapshotCaptures<V>(s: Sys<V>, lock: nat, zero: V)
    requires CommitsOk(s.app, lock) && s.genStart <= s.folded <= |s.app|
    requires WellFormed(s.ships, lock)
    ensures var k := s.ships + [SnapshotTx(s, lock, zero)];
      WellFormed(k, lock) && State(k, |k|, zero) == State(Txs(s.app), |s.app|, zero)
  {
    SnapshotIsLive(s, lock, zero);
    CompleteTxCaptures(s.ships, SnapshotTx(s, lock, zero), Txs(s.app), lock, zero);
  }

  /// A transaction of every live page makes any chain live.
  lemma CompleteTxCaptures<V>(ships: History<V>, tx: Tx<V>, h: History<V>, lock: nat, zero: V)
    requires WellFormed(ships, lock) && WellFormed(h, lock) && Complete(tx, State(h, |h|, zero), lock)
    ensures WellFormed(ships + [tx], lock) && State(ships + [tx], |ships| + 1, zero) == State(h, |h|, zero)
  {
    CompleteIsWellFormed(ships, tx, State(h, |h|, zero), lock);
    ExtendAlike(ships, ships, |ships|, tx, zero);
    if 1 <= lock <= tx.commit {
      LockStaysZero(ships + [tx], lock, zero);
      LockStaysZero(h, lock, zero);
    }
    CompleteOverlay(State(ships, |ships|, zero), tx, State(h, |h|, zero), lock, zero);
  }

  lemma CompleteIsWellFormed<V>(ships: History<V>, tx: Tx<V>, live: seq<V>, lock: nat)
    requires WellFormed(ships, lock) && Complete(tx, live, lock)
    ensures WellFormed(ships + [tx], lock)
  {
    ExtendWellFormed(ships, tx, lock);
  }

  lemma LockStaysZero<V>(h: History<V>, lock: nat, zero: V)
    requires WellFormed(h, lock) && 1 <= lock <= CommitAt(h, |h|)
    ensures State(h, |h|, zero)[lock - 1] == zero
  {
    StateIsLastWrite(h, lock, |h|, lock, zero);
  }

  lemma CompleteOverlay<V>(base: seq<V>, tx: Tx<V>, live: seq<V>, lock: nat, zero: V)
    requires Complete(tx, live, lock)
    requires 1 <= lock <= tx.commit ==>
      live[lock - 1] == zero && Overlay(base, tx.pages, tx.commit, zero)[lock - 1] == zero
    ensures Overlay(base, tx.pages, tx.commit, zero) == live
  {
    var over := Overlay(base, tx.pages, tx.commit, zero);
    forall i | 0 <= i < |live| ensures over[i] == live[i] {
      if i + 1 != lock {
        assert i + 1 in tx.pages;
      }
    }
  }

  /// After a build, staged or not needed, the chain captures every commit so far.
  lemma BuildCaptures<V>(s: Sys<V>, lock: nat, zero: V)
    requires Inv(s, lock, zero) && s.phase.Idle?
    ensures var after := s.(pending := Build(s, lock, zero));
      && Chain(after) != [] && ChainCapture(after) == |s.app|
      && ChainReplaysTo(after, lock, zero) && Positioned(after) && Recoverable(after)
      && ChainPos(after) == Here(s)
  {
    assert s.app[s.genStart..|s.app|] == Wal(s);
    if s.ships == [] {
      SnapshotCaptures(s, lock, zero);
    } else {
      LaterBuildCaptures(s, lock, zero);
    }
  }

  lemma LaterBuildCaptures<V>(s: Sys<V>, lock: nat, zero: V)
    requires Inv(s, lock, zero) && s.phase.Idle? && s.ships != []
    ensures var after := s.(pending := Build(s, lock, zero));
      && ChainCapture(after) == |s.app| && ChainReplaysTo(after, lock, zero) && Positioned(after) &&
        Recoverable(after) && ChainPos(after) == Here(s)
  {
    assert s.app[s.genStart..|s.app|] == Wal(s);
    if Wal(s) == [] && !s.atEnd {
      SnapshotCaptures(s, lock, zero);
    } else {
      var built := IncrementalBuild(s, lock, zero);
      IncrementalCaptures(s.ships, Txs(s.app), s.captured, lock, zero);
    }
  }

  /// With a chain already, a build stages exactly the commits past its capture, or nothing.
  lemma IncrementalBuild<V>(s: Sys<V>, lock: nat, zero: V) returns (built: Option<Pending<V>>)
    requires CommitsOk(s.app, lock) && s.genStart <= s.folded <= |s.app| && s.pending.None? && s.ships != []
    requires Positioned(s) && Recoverable(s) && (Wal(s) != [] || s.atEnd)
    ensures built == Build(s, lock, zero)
    ensures s.captured <= |s.app| && (built.None? <==> s.captured == |s.app|)
    ensures built.Some? ==>
      built.value == Pending(Tx(Summary(Txs(s.app), s.captured + 1, |s.app|), CommitAt(Txs(s.app), |s.app|)),
        Here(s), |s.app|)
  {
    built := Build(s, lock, zero);
    BaseIsCapture(s, lock);
    if s.captured < |s.app| {
      NewCommitsShip(s.app, s.captured, lock, zero);
    }
  }

  /// Unshipped commits always leave something to ship.
  lemma NewCommitsShip<V>(app: seq<Commit<V>>, b: nat, lock: nat, zero: V)
    requires CommitsOk(app, lock) && b < |app|
    ensures Summary(Txs(app), b + 1, |app|) != map[]
  {
    var h := Txs(app);
    assert LandsAt(app, |app| - 1);
    var p :| 1 <= p <= app[|app| - 1].tx.commit && p in app[|app| - 1].tx.pages;
    assert Writes(h, |h|, p) && WellFormedAt(h, lock, |h|);
    SummaryPage(h, lock, b + 1, |h|, p, zero);
  }

  // --- Every step keeps the invariant ---------------------------------------------------------------------

  /// At this moment a checkpoint may start: some commit is not folded yet, so the WAL
  /// cannot restart until the checkpoint has run; or the WAL is empty, so every frame the
  /// checkpoint folds is one too many.
  ghost predicate Startable<V>(s: Sys<V>) {
    s.folded < |s.app| || s.genStart == |s.app|
  }

  ghost predicate Allowed<V>(s: Sys<V>, e: Event<V>, lock: nat) {
    && Enabled(s, e)
    && (e.AppCommit? || e.BumpSeq? ==> CommitsOk(s.app + [e.c], lock))
    && (e.Stage? ==> Startable(s))
    && (e.Crash? ==> Recoverable(s))
  }

  lemma TxsExtend<V>(app: seq<Commit<V>>, c: Commit<V>, n: nat, zero: V)
    requires n <= |app|
    ensures State(Txs(app + [c]), n, zero) == State(Txs(app), n, zero)
  {
    PrefixStable(Txs(app), Txs(app + [c]), 1, n, zero);
  }

  /// A commit landing at any moment.
  lemma AppendKeepsInv<V>(s: Sys<V>, c: Commit<V>, restart: bool, lock: nat, zero: V)
    requires Inv(s, lock, zero) && CommitsOk(s.app + [c], lock)
    requires restart ==> s.folded == |s.app|
    ensures Inv(Append(s, c, restart), lock, zero)
  {
    var after := Append(s, c, restart);
    assert Chain(after) == Chain(s) && ChainCapture(after) == ChainCapture(s) && ChainPos(after) == ChainPos(s);
    if Chain(s) != [] {
      TxsExtend(s.app, c, ChainCapture(s), zero);
      if s.genStart <= ChainCapture(s) {
        assert after.app[s.genStart..ChainCapture(s)] == s.app[s.genStart..ChainCapture(s)];
      }
      if Recoverable(s) {
        assert Recoverable(after);
      }
    }
  }

  lemma FoldKeepsInv<V>(s: Sys<V>, upTo: nat, lock: nat, zero: V)
    requires Inv(s, lock, zero) && Enabled(s, Fold(upTo))
    ensures Inv(Step(s, Fold(upTo), lock, zero), lock, zero)
    ensures var after := Step(s, Fold(upTo), lock, zero);
      after.folded > ChainCapture(after) <==> after.phase.result > after.phase.synced
  {
    var n := ChainCapture(s);
    if upTo <= n {
      WalFramesOrdered(s, lock, upTo, n);
    } else {
      WalFramesOrdered(s, lock, n, upTo);
    }
  }

  lemma StageKeepsInv<V>(s: Sys<V>, bump: bool, lock: nat, zero: V)
    requires Inv(s, lock, zero) && Allowed(s, Stage(bump), lock)
    ensures Inv(Step(s, Stage(bump), lock, zero), lock, zero)
  {
    BuildCaptures(s, lock, zero);
    assert s.app[s.genStart..|s.app|] == Wal(s);
  }

  lemma JudgeKeepsInv<V>(s: Sys<V>, lock: nat, zero: V)
    requires Inv(s, lock, zero) && s.phase.Judging?
    ensures Inv(Step(s, Judge, lock, zero), lock, zero)
  {
    if s.phase.result > s.phase.synced {
      var after := Step(s, Judge, lock, zero);
      assert Chain(after) == s.ships + [SnapshotTx(s, lock, zero)];
      SnapshotCaptures(s, lock, zero);
      assert s.app[s.genStart..|s.app|] == Wal(s);
      assert Recoverable(after);
    }
  }

  /// Uploading what is staged changes nothing about the chain that will be.
  lemma UploadKeepsInv<V>(s: Sys<V>, next: Phase, lock: nat, zero: V)
    requires Inv(s, lock, zero)
    requires next == Idle ==> Recoverable(s)
    requires next != Idle ==> s.phase.Uploading? && next == Judging(s.phase.synced, s.phase.result)
    ensures Inv(Upload(s, next), lock, zero)
  {
    var after := Upload(s, next);
    assert Chain(after) == Chain(s) && ChainPos(after) == ChainPos(s) && ChainCapture(after) == ChainCapture(s);
  }

  lemma ReopenKeepsInv<V>(s: Sys<V>, lock: nat, zero: V)
    requires Inv(s, lock, zero) && Recoverable(s)
    ensures Inv(Reopen(s), lock, zero)
  {
    UploadKeepsInv(s, Idle, lock, zero);
    var after, u := Reopen(s), Upload(s, Idle);
    assert Chain(after) == Chain(u) && ChainPos(after) == ChainPos(u) && ChainCapture(after) == ChainCapture(u);
  }

  lemma StepKeepsInv<V>(s: Sys<V>, e: Event<V>, lock: nat, zero: V)
    requires Inv(s, lock, zero) && Allowed(s, e, lock)
    ensures Inv(Step(s, e, lock, zero), lock, zero)
  {
    match e {
      case AppCommit(c, restart) => AppendKeepsInv(s, c, restart, lock, zero);
      case SyncBuild => BuildKeepsInv(s, lock, zero);
      case SyncUpload => UploadKeepsInv(s, Idle, lock, zero);
      case Stage(bump) => StageKeepsInv(s, bump, lock, zero);
      case Fold(upTo) => FoldKeepsInv(s, upTo, lock, zero);
      case BumpSeq(c, restart) => BumpKeepsInv(s, c, restart, lock, zero);
      case SkipBump => SkipKeepsInv(s, lock, zero);
      case UploadStaged => UploadKeepsInv(s, Judging(s.phase.synced, s.phase.result), lock, zero);
      case Judge => JudgeKeepsInv(s, lock, zero);
      case UploadSnapshot => UploadKeepsInv(s, Idle, lock, zero);
      case Crash => ReopenKeepsInv(s, lock, zero);
    }
  }

  lemma BuildKeepsInv<V>(s: Sys<V>, lock: nat, zero: V)
    requires Inv(s, lock, zero) && s.phase.Idle?
    ensures Inv(Step(s, SyncBuild, lock, zero), lock, zero)
  {
    BuildCaptures(s, lock, zero);
  }

  lemma BumpKeepsInv<V>(s: Sys<V>, c: Commit<V>, restart: bool, lock: nat, zero: V)
    requires Inv(s, lock, zero) && Allowed(s, BumpSeq(c, restart), lock)
    ensures Inv(Step(s, BumpSeq(c, restart), lock, zero), lock, zero)
  {
    AppendKeepsInv(s, c, restart, lock, zero);
    MovesOn(Append(s, c, restart), lock, zero);
  }

  lemma SkipKeepsInv<V>(s: Sys<V>, lock: nat, zero: V)
    requires Inv(s, lock, zero) && Enabled(s, SkipBump)
    ensures Inv(Step(s, SkipBump, lock, zero), lock, zero)
  {
    MovesOn(s, lock, zero);
  }

  /// `Db::checkpoint` returning changes nothing but the phase.
  lemma MovesOn<V>(s: Sys<V>, lock: nat, zero: V)
    requires Inv(s, lock, zero) && s.phase.Folded?
    ensures Inv(s.(phase := Uploading(s.phase.synced, s.phase.result)), lock, zero)
  {
  }

  // --- Every run -------------------------------------------------------------------------------------------

  /// Replication begins on any database, in any checkpoint state, with a WAL or without one,
  /// and with an empty replica.
  ghost predicate Init<V>(s: Sys<V>, lock: nat) {
    && 1 <= lock && CommitsOk(s.app, lock)
    && s.genStart <= s.folded <= |s.app|
    && s.ships == [] && s.pending.None? && s.phase.Idle?
  }

  ghost function After<V>(s: Sys<V>, es: seq<Event<V>>, lock: nat, zero: V): Sys<V>
    requires Inv(s, lock, zero) && AllAllowed(s, es, lock, zero)
    decreases |es|
  {
    if es == [] then s
    else
      StepKeepsInv(s, es[0], lock, zero);
      After(Step(s, es[0], lock, zero), es[1..], lock, zero)
  }

  ghost predicate AllAllowed<V>(s: Sys<V>, es: seq<Event<V>>, lock: nat, zero: V)
    requires Inv(s, lock, zero)
    decreases |es|
  {
    es == [] ||
    (Allowed(s, es[0], lock) &&
     (StepKeepsInv(s, es[0], lock, zero); AllAllowed(Step(s, es[0], lock, zero), es[1..], lock, zero)))
  }

  lemma {:induction false} TailReplays<V>(ships: History<V>, h: History<V>, t: nat, zero: V)
    requires t <= |h| && State(ships, |ships|, zero) == State(h, t, zero)
    ensures State(ships + h[t..], |ships| + |h| - t, zero) == State(h, |h|, zero)
    decreases |h| - t
  {
    if t == |h| {
      assert ships + h[t..] == ships;
    } else {
      ExtendAlike(ships, h, t, h[t], zero);
      TailReplays(ships + [h[t]], h, t + 1, zero);
      assert ships + h[t..] == ships + [h[t]] + h[t + 1..];
    }
  }

  /// What a restore of the chain followed by the WAL frames past the saved position gives,
  /// once whatever is staged has been shipped (as the next `open` does after a crash).
  ghost function Recovered<V>(s: Sys<V>, zero: V): seq<V>
    requires s.genStart <= |s.app|
  {
    var u := Upload(s, Idle);
    var chain := u.ships + Txs(u.app)[Base(u)..];
    State(chain, |chain|, zero)
  }

  /// No commit is ever lost: in every state of every run, if a chain exists at all and no
  /// over-fold is awaiting its snapshot, chain plus WAL tail is the live database.
  lemma {:induction false} EveryRunRecovers<V>(s: Sys<V>, es: seq<Event<V>>, lock: nat, zero: V)
    requires Inv(s, lock, zero) && AllAllowed(s, es, lock, zero)
    ensures var end := After(s, es, lock, zero);
      && Inv(end, lock, zero)
      && (Chain(end) != [] && Recoverable(end) ==> Recovered(end, zero) == State(Txs(end.app), |end.app|, zero))
    decreases |es|
  {
    if es == [] {
      if Chain(s) != [] && Recoverable(s) {
        var u := Upload(s, Idle);
        UploadKeepsInv(s, Idle, lock, zero);
        BaseIsCapture(u, lock);
        TailReplays(u.ships, Txs(u.app), u.captured, zero);
      }
    } else {
      StepKeepsInv(s, es[0], lock, zero);
      EveryRunRecovers(Step(s, es[0], lock, zero), es[1..], lock, zero);
    }
  }

  lemma InitIsInv<V>(s: Sys<V>, lock: nat, zero: V)
    requires Init(s, lock)
    ensures Inv(s, lock, zero)
  {
  }

  // --- Exactly when an over-fold is detected -----------------------------------------------------------------

  /// A checkpoint started from `s`: stage, commits landing in the window, then the fold.
  ghost function Window<V>(s: Sys<V>, bump: bool, cs: seq<(Commit<V>, bool)>, lock: nat, zero: V): Sys<V>
    requires Inv(s, lock, zero) && s.phase.Idle?
  {
    Land(Step(s, Stage(bump), lock, zero), cs)
  }

  ghost function Land<V>(s: Sys<V>, cs: seq<(Commit<V>, bool)>): Sys<V>
    decreases |cs|
  {
    if cs == [] then s else Land(Append(s, cs[0].0, cs[0].1), cs[1..])
  }

  ghost predicate MayLand<V>(s: Sys<V>, cs: seq<(Commit<V>, bool)>, lock: nat)
    decreases |cs|
  {
    cs == [] ||
    (CommitsOk(s.app + [cs[0].0], lock) && (cs[0].1 ==> s.folded == |s.app|) &&
      MayLand(Append(s, cs[0].0, cs[0].1), cs[1..], lock))
  }

  /// The fold reaches past the capture, and the frame counts do not show it.
  ghost predicate Missed<V>(s: Sys<V>, upTo: nat, lock: nat, zero: V)
    requires s.genStart <= s.folded <= |s.app| && Enabled(s, Fold(upTo))
  {
    var after := Step(s, Fold(upTo), lock, zero);
    after.folded > ChainCapture(after) && after.phase.result <= after.phase.synced
  }

  lemma {:induction false} LandKeepsInv<V>(s: Sys<V>, cs: seq<(Commit<V>, bool)>, lock: nat, zero: V)
    requires Inv(s, lock, zero) && MayLand(s, cs, lock)
    ensures Inv(Land(s, cs), lock, zero) && Land(s, cs).phase == s.phase
    decreases |cs|
  {
    if cs != [] {
      AppendKeepsInv(s, cs[0].0, cs[0].1, lock, zero);
      LandKeepsInv(Append(s, cs[0].0, cs[0].1), cs[1..], lock, zero);
    }
  }

  /// Started with a commit still unfolded, no window of commits and no fold is missed.
  lemma DetectedWhenStartable<V>(s: Sys<V>, bump: bool, cs: seq<(Commit<V>, bool)>, upTo: nat, lock: nat, zero: V)
    requires Inv(s, lock, zero) && s.phase.Idle? && Startable(s)
    requires MayLand(Step(s, Stage(bump), lock, zero), cs, lock)
    requires var w := Window(s, bump, cs, lock, zero); w.folded <= upTo <= |w.app|
    ensures var w := Window(s, bump, cs, lock, zero);
      && Inv(w, lock, zero) && Enabled(w, Fold(upTo)) && !Missed(w, upTo, lock, zero)
  {
    StageKeepsInv(s, bump, lock, zero);
    LandKeepsInv(Step(s, Stage(bump), lock, zero), cs, lock, zero);
    FoldKeepsInv(Window(s, bump, cs, lock, zero), upTo, lock, zero);
  }

  /// Started with everything already folded, one small commit in the window restarts the
  /// WAL, is folded, and goes unnoticed.
  lemma MissedWhenFullyFolded<V>(s: Sys<V>, bump: bool, c: Commit<V>, lock: nat, zero: V)
    requires Inv(s, lock, zero) && s.phase.Idle? && !Startable(s)
    requires CommitsOk(s.app + [c], lock) && c.frames <= FrameCount(Wal(s))
    ensures MayLand(Step(s, Stage(bump), lock, zero), [(c, true)], lock)
    ensures var w := Window(s, bump, [(c, true)], lock, zero);
      && w.genStart <= w.folded <= |w.app| && Enabled(w, Fold(|w.app|)) && Missed(w, |w.app|, lock, zero)
  {
    BuildCaptures(s, lock, zero);
    var staged := Step(s, Stage(bump), lock, zero);
    var w := Append(staged, c, true);
    assert Land(w, []) == w;
    assert [(c, true)][1..] == [];
    assert w.app[w.genStart..|w.app|] == [c];
    assert FrameCount([c]) == c.frames + FrameCount([c][1..]) == c.frames;
  }

  /// The comparison in `run_checkpoint` detects every fold of an uncaptured frame if and
  /// only if, when the checkpoint starts, some commit in the WAL is not folded yet.
  lemma OverFoldDetectedExactly<V>(s: Sys<V>, bump: bool, lock: nat, zero: V)
    requires Inv(s, lock, zero) && s.phase.Idle? && lock != 1
    ensures Startable(s) <==>
      forall cs: seq<(Commit<V>, bool)>, upTo: nat ::
        MayLand(Step(s, Stage(bump), lock, zero), cs, lock) ==>
          var w := Window(s, bump, cs, lock, zero);
          w.genStart <= w.folded <= upTo <= |w.app| && w.phase.Staged? ==> !Missed(w, upTo, lock, zero)
  {
    if Startable(s) {
      forall cs: seq<(Commit<V>, bool)>, upTo: nat
        | MayLand(Step(s, Stage(bump), lock, zero), cs, lock)
        && Window(s, bump, cs, lock, zero).genStart <= Window(s, bump, cs, lock, zero).folded <= upTo
        && upTo <= |Window(s, bump, cs, lock, zero).app| && Window(s, bump, cs, lock, zero).phase.Staged?
        ensures !Missed(Window(s, bump, cs, lock, zero), upTo, lock, zero)
      {
        DetectedWhenStartable(s, bump, cs, upTo, lock, zero);
      }
    } else {
      var c := RewriteFirstPage(s.app, lock, zero);
      WalLands(s, lock);
      assert LandsAt(Wal(s), 0);
      MissedWhenFullyFolded(s, bump, c, lock, zero);
    }
  }

  /// There is always a one-frame commit that could land next.
  lemma RewriteFirstPage<V>(app: seq<Commit<V>>, lock: nat, zero: V) returns (c: Commit<V>)
    requires CommitsOk(app, lock) && app != [] && lock != 1
    ensures c.frames == 1 && CommitsOk(app + [c], lock)
  {
    var n := |app|;
    assert LandsAt(app, n - 1);
    c := Commit(Tx(map[1 := zero], app[n - 1].tx.commit), 1);
    assert Lands(c) by { assert 1 <= 1 <= c.tx.commit && 1 in c.tx.pages; }
    ExtendWellFormed(Txs(app), c.tx, lock);
    assert Txs(app + [c]) == Txs(app) + [c.tx];
    forall i | 0 <= i <= n ensures LandsAt(app + [c], i) {
      assert i < n ==> LandsAt(app, i);
    }
  }

  // --- What a crash costs ---------------------------------------------------------------------

  /// Commit number `n` (1-based) is in no file of the chain, and every later incremental
  /// starts after it.
  ghost predicate Skipped<V>(s: Sys<V>, n: nat)
    requires s.genStart <= |s.app|
  {
    s.phase.Idle? && s.ships != [] && Wal(s) != [] && s.captured < n <= Base(s)
  }

  /// No commit is skipped now, nor will one be by the commits that may land before the next
  /// sync or checkpoint.
  ghost predicate Lossless<V(!new)>(s: Sys<V>, lock: nat) {
    forall cs: seq<(Commit<V>, bool)>, n: nat :: MayLand(s, cs, lock) && LogOk(Land(s, cs)) ==> !Skipped(Land(s, cs), n)
  }

  ghost predicate LogOk<V>(s: Sys<V>) {
    s.genStart <= |s.app|
  }

  /// At whatever point of whatever run the process dies, no commit is lost if and only if
  /// every commit the chain lacks is still in the WAL and either none of them is folded or
  /// not all are.
  lemma CrashLosesExactly<V(!new)>(s: Sys<V>, lock: nat, zero: V)
    requires Inv(s, lock, zero) && lock != 1
    ensures Recoverable(s) <==> Lossless(Step(s, Crash, lock, zero), lock)
    ensures Recoverable(s) ==> Inv(Step(s, Crash, lock, zero), lock, zero)
  {
    var x := Step(s, Crash, lock, zero);
    assert Chain(x) == Chain(s) && ChainPos(x) == ChainPos(s) && ChainCapture(x) == ChainCapture(s);
    if Recoverable(s) {
      ReopenKeepsInv(s, lock, zero);
      forall cs: seq<(Commit<V>, bool)>, n: nat | MayLand(x, cs, lock) && LogOk(Land(x, cs))
        ensures !Skipped(Land(x, cs), n)
      {
        NothingSkipped(x, cs, n, lock, zero);
      }
    } else {
      var c := RewriteFirstPage(s.app, lock, zero);
      var cs, n := CrashLoses(s, c, lock, zero);
    }
  }

  /// A system at rest skips nothing, whatever lands.
  lemma NothingSkipped<V>(s: Sys<V>, cs: seq<(Commit<V>, bool)>, n: nat, lock: nat, zero: V)
    requires Inv(s, lock, zero) && s.phase.Idle? && MayLand(s, cs, lock)
    ensures LogOk(Land(s, cs)) && !Skipped(Land(s, cs), n)
  {
    LandKeepsInv(s, cs, lock, zero);
    if Land(s, cs).ships != [] {
      BaseIsCapture(Land(s, cs), lock);
    }
  }

  /// Otherwise the first commit the chain lacks is lost: at once if the WAL has restarted
  /// over it, and with the next commit, which may restart the WAL, if everything is folded.
  lemma CrashLoses<V>(s: Sys<V>, d: Commit<V>, lock: nat, zero: V) returns (cs: seq<(Commit<V>, bool)>, n: nat)
    requires Inv(s, lock, zero) && !Recoverable(s) && CommitsOk(s.app + [d], lock)
    ensures cs == if s.genStart > ChainCapture(s) then [] else [(d, true)]
    ensures n == ChainCapture(s) + 1 <= |s.app|
    ensures var x := Step(s, Crash, lock, zero); MayLand(x, cs, lock) && LogOk(Land(x, cs)) && Skipped(Land(x, cs), n)
  {
    var x := Step(s, Crash, lock, zero);
    n := ChainCapture(s) + 1;
    if s.genStart > ChainCapture(s) {
      cs := [];
      assert Land(x, cs) == x;
    } else {
      cs := [(d, true)];
      var y := Append(x, d, true);
      assert cs[1..] == [] && Land(y, []) == y && MayLand(y, [], lock);
      assert Land(x, cs) == y;
    }
  }

  ghost predicate MayFold<V>(s: Sys<V>, bump: bool, cs: seq<(Commit<V>, bool)>, upTo: nat, lock: nat, zero: V)
    requires Inv(s, lock, zero) && s.phase.Idle?
  {
    && MayLand(Step(s, Stage(bump), lock, zero), cs, lock)
    && var w := Window(s, bump, cs, lock, zero);
    w.genStart <= w.folded <= upTo <= |w.app| && w.phase.Staged?
  }

  /// A checkpoint's window of commits and its fold.
  ghost function FoldedWindow<V>(s: Sys<V>, bump: bool, cs: seq<(Commit<V>, bool)>, upTo: nat, lock: nat,
    zero: V): Sys<V>
    requires Inv(s, lock, zero) && s.phase.Idle? && MayFold(s, bump, cs, upTo, lock, zero)
  {
    Step(Window(s, bump, cs, lock, zero), Fold(upTo), lock, zero)
  }

  lemma FoldedWindowIs<V>(s: Sys<V>, bump: bool, cs: seq<(Commit<V>, bool)>, upTo: nat, lock: nat, zero: V)
    requires Inv(s, lock, zero) && s.phase.Idle? && Startable(s) && MayFold(s, bump, cs, upTo, lock, zero)
    ensures var w := FoldedWindow(s, bump, cs, upTo, lock, zero);
      && Inv(w, lock, zero) && w.phase.Folded? && w.phase.bump == bump
      && w.genStart == s.genStart && w.folded == upTo && |w.app| == |s.app| + |cs|
      && Chain(w) != [] && ChainCapture(w) == |s.app|
  {
    StageKeepsInv(s, bump, lock, zero);
    BuildCaptures(s, lock, zero);
    var staged := Step(s, Stage(bump), lock, zero);
    LandKeepsInv(staged, cs, lock, zero);
    LandsInWindow(staged, cs, lock, zero);
    FoldKeepsInv(Window(s, bump, cs, lock, zero), upTo, lock, zero);
  }

  /// Dying after the fold of a checkpoint, for every window and fold, loses a commit exactly
  /// when the fold went past what was staged and reached the end of the log.
  lemma CrashInWindow<V(!new)>(s: Sys<V>, bump: bool, cs: seq<(Commit<V>, bool)>, upTo: nat, lock: nat, zero: V)
    requires Inv(s, lock, zero) && s.phase.Idle? && Startable(s) && lock != 1
    requires MayFold(s, bump, cs, upTo, lock, zero)
    ensures var w := FoldedWindow(s, bump, cs, upTo, lock, zero);
      && w.genStart <= w.folded <= |w.app|
      && (Lossless(Step(w, Crash, lock, zero), lock) <==> !(|s.app| < upTo == |s.app| + |cs|))
  {
    FoldedWindowIs(s, bump, cs, upTo, lock, zero);
    CrashLosesExactly(FoldedWindow(s, bump, cs, upTo, lock, zero), lock, zero);
  }

  /// Dying after the sequence bump loses one exactly when the fold went past what was staged
  /// and the bump restarted the WAL; a bump merely appended keeps the WAL from restarting.
  lemma CrashAfterBump<V(!new)>(s: Sys<V>, cs: seq<(Commit<V>, bool)>, upTo: nat, b: Commit<V>, restart: bool,
    lock: nat, zero: V)
    requires Inv(s, lock, zero) && s.phase.Idle? && Startable(s) && lock != 1
    requires MayFold(s, true, cs, upTo, lock, zero)
    requires var w := FoldedWindow(s, true, cs, upTo, lock, zero);
      CommitsOk(w.app + [b], lock) && (restart ==> w.folded == |w.app|)
    ensures var w := FoldedWindow(s, true, cs, upTo, lock, zero);
      && w.genStart <= w.folded <= |w.app| && Enabled(w, BumpSeq(b, restart))
      && var bumped := Step(w, BumpSeq(b, restart), lock, zero);
      && bumped.genStart <= bumped.folded <= |bumped.app|
      && (Lossless(Step(bumped, Crash, lock, zero), lock) <==> !(|s.app| < upTo && restart))
  {
    FoldedWindowIs(s, true, cs, upTo, lock, zero);
    var w := FoldedWindow(s, true, cs, upTo, lock, zero);
    AppendKeepsInv(w, b, restart, lock, zero);
    var bumped := Step(w, BumpSeq(b, restart), lock, zero);
    CrashLosesExactly(bumped, lock, zero);
  }

  /// Such windows exist: one commit that the fold takes in.
  lemma OneCommitRaces<V>(s: Sys<V>, bump: bool, c: Commit<V>, lock: nat, zero: V)
    requires Inv(s, lock, zero) && s.phase.Idle? && Startable(s) && CommitsOk(s.app + [c], lock)
    ensures MayFold(s, bump, [(c, false)], |s.app| + 1, lock, zero)
    ensures FoldedWindow(s, bump, [(c, false)], |s.app| + 1, lock, zero).app == s.app + [c]
  {
    StageKeepsInv(s, bump, lock, zero);
    var staged := Step(s, Stage(bump), lock, zero);
    var w := Append(staged, c, false);
    assert [(c, false)][1..] == [] && MayLand(w, [], lock) && Land(w, []) == w;
    assert Window(s, bump, [(c, false)], lock, zero) == w;
  }

  /// Commits landing in a window leave what was staged alone and, with a commit unfolded,
  /// cannot restart the WAL.
  lemma {:induction false} LandsInWindow<V>(s: Sys<V>, cs: seq<(Commit<V>, bool)>, lock: nat, zero: V)
    requires Inv(s, lock, zero) && s.phase.Staged? && MayLand(s, cs, lock)
    ensures var w := Land(s, cs);
      && Chain(w) == Chain(s) && ChainCapture(w) == ChainCapture(s) && |w.app| == |s.app| + |cs|
      && w.folded == s.folded && w.genStart == s.genStart
    decreases |cs|
  {
    if cs != [] {
      AppendKeepsInv(s, cs[0].0, cs[0].1, lock, zero);
      LandsInWindow(Append(s, cs[0].0, cs[0].1), cs[1..], lock, zero);
    }
  }

  // --- What a missed over-fold costs ------------------------------------------------------------

  /// A commit that lands in the window of a checkpoint started fully folded is lost: at once
  /// if the checkpoint bumps, or else as soon as one more commit `d` restarts the WAL.
  lemma MissedCommitIsLost<V>(s: Sys<V>, bump: bool, c: Commit<V>, d: Commit<V>, lock: nat, zero: V)
    returns (folded: Sys<V>, resumed: Sys<V>, uploaded: Sys<V>, judged: Sys<V>)
    requires Inv(s, lock, zero) && s.phase.Idle? && s.ships != [] && !Startable(s)
    requires CommitsOk(s.app + [c], lock) && CommitsOk(s.app + [c, d], lock) && c.frames <= FrameCount(Wal(s))
    ensures var w := Window(s, bump, [(c, true)], lock, zero);
      && w.genStart <= w.folded <= |w.app| && Enabled(w, Fold(|w.app|)) && folded == Step(w, Fold(|w.app|), lock, zero)
    ensures var resume := if bump then BumpSeq(d, true) else SkipBump;
      && folded.genStart <= folded.folded <= |folded.app| && Enabled(folded, resume)
      && resumed == Step(folded, resume, lock, zero)
    ensures resumed.genStart <= resumed.folded <= |resumed.app| && Enabled(resumed, UploadStaged)
    ensures uploaded == Step(resumed, UploadStaged, lock, zero)
    ensures uploaded.genStart <= uploaded.folded <= |uploaded.app| && Enabled(uploaded, Judge)
    ensures judged == Step(uploaded, Judge, lock, zero) && judged.phase.Idle?
    ensures if bump then Skipped(judged, |s.app| + 1)
      else Enabled(judged, AppCommit(d, true)) && Skipped(Append(judged, d, true), |s.app| + 1)
  {
    MissedWhenFullyFolded(s, bump, c, lock, zero);
    BuildCaptures(s, lock, zero);
    var staged := Step(s, Stage(bump), lock, zero);
    assert Land(Append(staged, c, true), []) == Append(staged, c, true);
    assert [(c, true)][1..] == [];
    var w := Window(s, bump, [(c, true)], lock, zero);
    assert w == Append(staged, c, true);
    folded := Step(w, Fold(|w.app|), lock, zero);
    resumed := Step(folded, if bump then BumpSeq(d, true) else SkipBump, lock, zero);
    uploaded := Step(resumed, UploadStaged, lock, zero);
    judged := Step(uploaded, Judge, lock, zero);
  }
}
