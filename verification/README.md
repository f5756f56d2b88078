# The replication chain of literstream, modelled and proved in Dafny

literstream copies a live SQLite database to object storage. It reads the frames the
application commits to SQLite's write-ahead log (WAL), writes them as LTX files, and
keeps a *chain* of those files in a replica: level 0 has one file a sync, levels 1 to 8
hold files merged from the level below, level 9 holds full snapshots. A database is
rebuilt, or an old local copy caught up, by planning over the files a replica lists and
replaying a plan.

Everything rests on one claim: whatever files the code has left in a replica, the plan it
picks replays to exactly the database at some TXID. This project states that claim and
proves it of a model that follows the source operation by operation.

Run `dafny verify dfyconfig.toml` in this directory to check it all.

## How the model is built

A *history* (`History.dfy`) is a sequence of transactions, each a partial map from page
number to contents and the database size in pages it commits. `State(h, t)` is the image
after transaction `t`; `Summary(h, a, b)` is the newest version of each page written in
`a..b`, without the pages past the size at `b`. A history is *well formed* when a
transaction that grows the database writes every page it adds except SQLite's lock page,
which is never written: the assumption src/sync/restore.rs:601-604 names. The page type is
a parameter, so the same algebra serves page images, page bytes and WAL offsets.

| file | what it covers |
|---|---|
| `History`, `LtxFiles` | the semantic base; merging files; any cascade of merges |
| `Planner` | the greedy interval cover and the three planners |
| `Apply` | the replay algorithms as functions on images, and when they agree |
| `Restore` | restores in memory and onto a disk whose power can fail; the position marker; `catch_up` |
| `Retention`, `Replica`, `Effects`, `Engine`, `Stall`, `Maintenance` | the replica as a state machine, exactly what each of its steps does, the `Syncer` class that drives it, where its cascade stalls, and what it keeps for the staging protocol |
| `Checkpoint`, `Ticks`, `Lapses`, `Quiescence` | application commits interleaved with staging, checkpoints, bumps, uploads and crashes; the driver's sequencing; the schedules that lose a commit; idleness |
| `Staging` | the staging directory across crashes, recovery, and the resume position |
| `Schedule` | interval boundaries on any clock |
| `Options`, `Bytes`, `Wal`, `WalExact`, `Capture` | the WAL, byte by byte: checksum, frames, page map, resuming; which bytes make a frame and what the checksum is as a number; and that what it reads is what the checkpoint machine builds |
| `Merge` | the heap merge |
| `Crc`, `Varint`, `Codec`, `Packing`, `Decoder`, `FormatExact`, `Reader` | CRC-64, varints, the LTX encoder and readers, what the file checksum depends on, the format byte by byte, and serving single pages |

Code that the source writes as objects changing step by step is a `class` here with the
same fields (`Engine.Syncer`, `Restore.Disk`, `Restore.PageSet`, `Wal.WalReader`,
`Codec.Encoder`, `Crc.Hasher`, `Reader.ReplicaReader`, `Staging.Site`, `Schedule.Driver`)
or a method with the source's loop. The protocol modules (`Checkpoint`, `Ticks`,
`Lapses`, `Quiescence`, `Replica`) are state machines over values, so that statements about every
run are lemmas.

## Main results

- After any run of sync, compaction, snapshot, snapshot retention and L0 retention, with
  deletions failing after any prefix, the replica restores to exactly the database it
  replicated, by either restore algorithm (`Replica.RunIsRestorable`); `Engine.Syncer`
  performs those steps with the source's loops.
- Catching up an image of any TXID equals a full restore, byte for byte and length for
  length, through shrinks and regrowths (`Apply.DeltaEqualsFullRestore`), and on a disk
  that can lose power at any operation a clean marker is never wrong
  (`Restore.CatchUp`, `Restore.CatchUpAcrossBoots`). Which of its outcomes `catch_up` has
  is exact in the marker, the file and the listing.
- What each maintenance step does to a valid replica is exact: when a compaction acts, the
  file it adds, and what retention removes (`Effects.CompactionExactly`,
  `Effects.SnapshotPassExactly`, `Effects.L0PassExactly`).
- The greedy plan reaches the furthest TXID any chain reaches with the fewest files
  (`Planner.GreedyIsOptimal`), and `ChainGap` is reported exactly when a TXID the image
  lacks is in no file (`Planner.ChainGapExact`).
- Any cascade of merges over the same TXIDs gives the same file
  (`LtxFiles.CompactionIsConfluent`), the heap merge computes that file's frames
  (`Merge.MergeToWriter`), and the encoder accepts every one of them
  (`Reader.DescribedIsWritable`).
- Every file the encoder writes reads back as the header, pages and trailer written
  (`Decoder.WriteThenRead`), and single pages read through a growing index cache are the
  restored ones (`Reader.ReplicaReader.ReadPage`, `Reader.ResolvedPageIsRestored`).
- The frames read from a WAL are exactly the longest run laid out as SQLite lays them out
  (`WalExact.FramesExactly`). Reading a growing WAL in slices, seeded from stored checksums,
  finds what one read of the whole WAL would (`Wal.ReadInSlices`), and the pages it reads are
  exactly the next file (`Capture.BuildIncremental`).
- Under a driver, over any interleaving of commits, ticks, crashes and reopenings, no commit is
  lost as long as every time-based checkpoint is timely and every crash survivable
  (`Ticks.DriverNeverLoses`). Both provisos are exact: what follows such a checkpoint, or such
  a crash, never loses a commit if and only if it was (`Lapses.TimedIsSafeExactly`,
  `Lapses.RebootIsSafeExactly`), and runs from an empty replica break each
  (`Lapses.BothProvisosNeeded`).
- Dying at any point of any run loses a commit exactly when a commit the chain lacks has left
  the WAL, or is folded with all the rest of the log (`Checkpoint.CrashLosesExactly`).
- Once the application stops writing, every further file is accounted for: at most two that
  were due, one for each sequence bump that does not restart the WAL short, and one for each
  reopening with no WAL (`Quiescence.IdleStopsShipping`).
- Over any number of boots dying at any operation, every durably staged file is shipped
  and the position derived is the one the newest of them records (`Staging.Boots`,
  `Staging.Open`).

## What the proofs found

Where a property is false of the code, the model keeps the code and the exact condition is
proved instead.

1. **The over-fold check can miss.** `checkpointed_frames > synced_frames`
   (src/sync/mod.rs:656) detects every fold of an uncaptured frame if and only if, when the
   checkpoint staged its file, some commit was not yet folded into the database file or the
   WAL was empty: `Checkpoint.OverFoldDetectedExactly`. If everything in a WAL was folded
   already, a commit in the window may restart it, and a short new WAL folds fewer frames than
   were synced; that commit is then in no file, at once if the checkpoint bumps the sequence
   and otherwise with the next restart (`Checkpoint.MissedCommitIsLost`). The driver starts
   such a checkpoint in two ways only (`Ticks.DriverNeverLoses`): after a time-based
   checkpoint that ends with the position at the frame threshold and everything folded
   (`Lapses.OvershootingTimedCheckpoint`), and after a crash that leaves everything folded
   with no chain yet or a position at the threshold, such as one between a checkpoint's
   PRAGMA and its sequence bump (`Lapses.CrashBeforeBump`). Both are exact: the checkpoint is
   harmless to every later run if and only if it does not end so
   (`Lapses.TimedIsSafeExactly`), and the crash if and only if it leaves no such state and
   loses nothing itself (`Lapses.RebootIsSafeExactly`).
2. **A crash between fold and catch-up snapshot can lose a raced commit.** The comment at
   src/sync/mod.rs:584-595 and docs/how-it-works.md:135-157 say a crash cannot lose frames.
   That holds of staged frames. A commit that landed in the window and is not staged yet
   survives if and only if it is still in the WAL and the log is not folded to its end
   (`Checkpoint.CrashLosesExactly`): dying after the fold loses one exactly when the fold went
   past what was staged and reached the end of the log (`Checkpoint.CrashInWindow`), dying
   after the sequence bump exactly when the fold went past it and the bump restarted the WAL
   (`Checkpoint.CrashAfterBump`).
3. **Snapshot retention can stall the cascade.** It prunes L0 below the oldest snapshot
   kept while keeping L1's newest file, which can leave a hole in L1; compaction into L2 is
   then refused (`Stall.CascadeCanStall`). A compaction is refused exactly when two files it
   would merge leave a TXID uncovered (`Replica.CompactionRefusedExactly`), and never once
   the destination reaches the newest snapshot (`Replica.StallsOnlyBelowSnapshot`). Restores
   are unaffected.
4. **`plan_restore` does not refuse holes.** Unlike `plan_restore_from`, it plans up to the
   first uncovered TXID and succeeds (`Planner.FullPlanExact`).
5. **`restore` and `restore_to_path` agree only on plans without stale pages.** On any plan
   the encoder could have written, they give the same image if and only if every page
   version the plan drops in a shrink and never rewrites is zero
   (`Apply.RestoresAgreeExactly`, `Apply.RestoresCanDisagree`). Chains of a well-formed
   history have no such page.
6. **`end_offset` is the end of the last commit frame exactly when that frame's page is
   inside the size it commits** (`Wal.EndOffsetExact`).
7. **The file checksum depends on the codec.** The comment at src/ltx/encoder.rs:3-8 calls it
   independent of compression, but the hashed index holds offsets and sizes of compressed
   frames. Under two codecs the bytes it covers are the same if and only if every page packs to
   the same length (`Packing.HashedBytesAgreeExactly`), and there are lossless codecs under
   which they differ for every file with a page (`Packing.LosslessCodecsDisagree`).

8. **An idle database need not stop making files.** The comment at src/db/mod.rs:213-216 says
   a PASSIVE checkpoint bumps the sequence when it folded the whole WAL; the code bumps
   whenever it was not busy (src/db/mod.rs:247-249). While a reader keeps a long log from being
   folded to its end, the bump only appends, the next tick ships it and checkpoints again: one
   file a tick until the log is long enough for TRUNCATE checkpoints
   (`Quiescence.PinnedLogNeverStops`). `Quiescence.IdleStopsShipping` is the exact account.

## Model

| member | source | states |
|---|---|---|
| History.AliveSinceLastWrite | src/sync/restore.rs:596-604 | a page inside the database at TXID b has been inside it at every TXID since its last write: growth never leaves a page unwritten |
| History.StateIsLastWrite | src/sync/restore.rs:157-174 | every page of an image is the version of its last write whatever shrinks and regrowths came between, and the lock page is zero |
| History.ApplySummary | src/sync/restore.rs:157-174 | laying a file for TXIDs a to b over the image of any TXID it is contiguous with or straddles gives exactly the image at b |
| History.GroupingPreservesState | src/sync/mod.rs:504-582 | one sync may ship many application commits as one transaction: the grouped history is well formed and ends in the same image |
| LtxFiles.MergeIsSummary | src/ltx/compactor.rs:38-84 | the merge of files accepted by the range check, overlapping or not, holds exactly the newest pages of the whole range they reach, without those past the final size |
| LtxFiles.MergeDescribes | src/ltx/compactor.rs:64-81 | labelled with its first input's min, the merged file is exactly what the history did in its labelled range, when no input reaches back before the first |
| LtxFiles.CompactionIsConfluent | src/sync/mod.rs:758-818 | two cascades of compactions over the same TXIDs produce the same file, whatever was merged in which order through however many levels |
| LtxFiles.FramesListPages | src/ltx/encoder.rs:96-140 | a file's frames are strictly ascending and are its pages, each once |
| Planner.GreedyCover | src/sync/restore.rs:74-86 | the loop computes the greedy cover and the TXID it reaches |
| Planner.GreedyIsOptimal | src/sync/restore.rs:60-86 | no contiguous chain of the listed files reaches further, and none that reaches as far has fewer files |
| Planner.FurthestThenCoarsest | src/sync/restore.rs:74-86 | of all files extending what the plan reaches so far, the next one planned reaches furthest and has the highest level of those that reach as far |
| Planner.GreedyReachesCoveredRun | src/sync/restore.rs:74-86 | the TXID reached ends the covered run: every TXID up to it is in some file, the next is in none |
| Planner.PlanRestore | src/sync/restore.rs:89-95 | a plan exists exactly when TXID 1 is in some file; it starts at TXID 1, no chain reaches further or as far with fewer files, and it ends right before the first TXID in no file |
| Planner.PlanRestoreFrom | src/sync/restore.rs:115-130 | empty at or past HEAD; ChainGap exactly when a TXID past the image is in no file; otherwise the shortest chain of files to HEAD |
| Planner.PlanRestoreTo | src/sync/restore.rs:136-146 | a plan exists exactly when TXID 1 is in a file ending by the target; it never passes the target, and no chain that does not reaches further |
| Planner.FullPlanExact | src/sync/restore.rs:89-95 | a full plan exists exactly when TXID 1 is covered, and reaches HEAD exactly when no TXID up to HEAD is uncovered |
| Planner.ChainGapExact | src/sync/restore.rs:115-130 | ChainGap is returned exactly when some TXID past the image is in no file; otherwise the plan is a chain that reaches HEAD |
| Planner.PointInTimeExact | src/sync/restore.rs:136-146 | a point-in-time plan never passes its target and reaches as far as any chain of files ending by it |
| Apply.OldestFirstPage | src/sync/restore.rs:157-174 | a page of an oldest-first apply is its newest version in the plan, or the base's page if no file has it and the plan never shrank below it |
| Apply.NewestEqualsOldest | src/sync/restore.rs:301-319 | truncating to the plan's smallest size, growing to its final size and writing each page once newest-first equals applying oldest-first with a resize at each file, when files carry their growth |
| Apply.RestoresAgreeExactly | src/sync/restore.rs:181-257 | with no growth promise, the two restores give the same image if and only if every page version dropped in a shrink and never rewritten is zero |
| Apply.RestoresCanDisagree | src/sync/restore.rs:181-257 | a plan the encoder accepts on which the two restores differ |
| Apply.DescribedCarriesGrowth | src/sync/restore.rs:596-604 | a file of a well-formed history carries every non-lock page by which the database grew since any TXID it is contiguous with or straddles |
| Apply.ChainReplays | src/sync/restore.rs:157-174 | replaying a chain of a history's files over the image at t gives the image at the TXID the chain reaches |
| Apply.DeltaEqualsFullRestore | src/sync/restore.rs:591-649 | a caught-up image equals the state at the delta's end and both full restores to it, for any straddling first file and any shrinks and regrowths inside |
| Restore.ApplyPlan | src/sync/restore.rs:157-174 | the in-memory apply computes the oldest-first image, and fails exactly when a planned object is gone |
| Restore.RestoreLatest | src/sync/restore.rs:181-185 | a completed restore is exactly the state at the TXID the plan reaches |
| Restore.RestoreToTxid | src/sync/restore.rs:365-387 | a point-in-time restore is the state at the TXID it reports; TxidTooOld exactly when no plan ends by the target |
| Restore.PageSet.Claim | src/sync/restore.rs:260-293 | both sets grant each page exactly once, a dense set only pages it has a flag for |
| Restore.ApplyNewestFirst | src/sync/restore.rs:301-319 | onto disk, the newest-first apply leaves the image of module Apply, or crashes, or reports a missing object; pages past the final size are never written |
| Restore.ApplyPlanToPath | src/sync/restore.rs:214-257 | power failing anywhere, the marker stays honest; completed, the file is exactly the state it is stamped with |
| Restore.RestoreToPath | src/sync/restore.rs:196-210 | a completed restore leaves the state at the TXID the greedy cover reaches, synced and stamped |
| Restore.ReadDeltaShape | src/sync/restore.rs:563-589 | one page size throughout, the final size and the plan's smallest size; refused exactly on a missing object or two page sizes |
| Restore.ApplyDeltaToPath | src/sync/restore.rs:607-649 | over an image of TXID from, a completed delta leaves exactly the state at the plan's end; any crash, or an object gone since its header was read, leaves an honest marker, and only such an object fails it |
| Restore.CatchUp | src/sync/restore.rs:763-818 | which outcome a completed run has, exactly, from the marker, the file and the listing: NoMarker, DirtyMarker, LengthMismatch, LocalAhead, up to date, ChainGap when a TXID past the image is in no file, PageSizeChanged, or incremental in all that remains; up to date changes nothing; a completed run leaves exactly the state it reports, at HEAD unless a full restore met a hole; every run leaves an honest marker, fails only on a planned object that is gone or with no plan, and crashes only with less power than writing the file takes |
| Restore.CatchUpAcrossBoots | src/sync/restore.rs:429-437 | over any number of boots, crashes, replica advances and length-changing foreign writes, a clean marker whose recorded length matches names exactly the file's state; the last boot ends at the state it reports, short of power, or with an object missing |
| Retention.SnapshotExpired | src/sync/retention.rs:40-55 | of a listed level, in order, exactly the snapshots known to be created before the cutoff other than the newest, and the smallest max kept by age |
| Retention.MinRetainedIsLeast | src/sync/retention.rs:40-55 | the minimum returned is the end of a snapshot kept by age and none kept by age ends before it; it is zero exactly when none is |
| Retention.L0Expired | src/sync/retention.rs:57-88 | of a listed level a prefix: a file is deleted if and only if L1 has progress, it is folded into L1, it is not the newest, and neither it nor any file before it is known to be created after the cutoff |
| Retention.BelowTxid | src/sync/retention.rs:93-97 | of a listed level a prefix, and exactly the files ending below the TXID other than the newest |
| Retention.KeepsNewest | src/sync/retention.rs:26-34 | keep-newest removes from any selection the level's newest file and nothing else |
| Retention.L0ExpiredIsPrefix | src/sync/retention.rs:57-88 | on an ordered level, what L0 retention deletes is a proper prefix whose length is exact in L1's reach, the cutoff and the newest file |
| Retention.BelowTxidIsPrefix | src/sync/retention.rs:90-97 | TXID retention deletes a proper prefix |
| Replica.SyncKeepsValid | src/sync/mod.rs:271-302 | a sync keeps the invariant: L0 a contiguous run to HEAD, every file exactly the summary of its range, no level past the snapshot with a hole |
| Replica.CompactKeepsValid | src/sync/mod.rs:766-818 | a compaction keeps the invariant whether it writes, finds nothing or is refused |
| Replica.CompactionRefusedExactly | src/sync/mod.rs:766-818 | a compaction is refused exactly when two of the files it would merge leave a TXID between them uncovered |
| Replica.StallsOnlyBelowSnapshot | src/sync/mod.rs:766-818 | no compaction is refused once its destination reaches the newest snapshot |
| Replica.DeleteKeepsValid | src/sync/mod.rs:949-1013 | any deletion retention may make keeps the invariant |
| Replica.ExpireSnapshotsKeepsValid | src/sync/mod.rs:949-984 | snapshot retention with its cascade keeps the invariant, stopped after any number of deletions |
| Replica.ExpireL0KeepsValid | src/sync/mod.rs:990-1013 | L0 retention keeps the invariant, stopped after any number of deletions |
| Replica.SnapshotKeepsValid | src/sync/mod.rs:828-880 | a snapshot is refused only when one stands at HEAD or nothing was synced, and is exactly the summary of the whole history |
| Replica.EveryTxidCovered | src/sync/mod.rs:139-176 | no TXID up to HEAD is ever in no file |
| Replica.ValidIsRestorable | src/sync/restore.rs:89-95 | the full plan over a valid replica reaches HEAD and both restore algorithms give the state there |
| Replica.EveryCopyCatchesUp | src/sync/restore.rs:115-130 | no local copy, however old, ever meets a chain gap on a valid replica |
| Replica.StepKeepsValid | src/sync/driver.rs:164-247 | every step of the machine keeps the invariant |
| Replica.RunIsRestorable | src/sync/driver.rs:164-247 | after any run at all, a restore yields exactly the database replicated |
| Stall.PrunedPastL1Stalls | src/sync/mod.rs:949-984 | once L0 is pruned past where L1 reaches, compaction into L1 leaves a hole and compaction into L2 is refused |
| Stall.CascadeCanStall | src/sync/mod.rs:949-984 | at any page size, a valid run of six operations after which compaction into L2 is refused |
| Effects.SyncExactly | src/sync/mod.rs:290-302 | a sync adds to L0 exactly one file, what its transaction left inside the database, and changes nothing else |
| Effects.CompactionExactly | src/sync/mod.rs:766-818 | on any valid replica and any level: nothing happens if and only if no source file starts past the destination's reach; a file is written if and only if there is one and no TXID is missing between two of them; it is exactly the history from the first of them to the end of the source, created as given, and the only change |
| Effects.SnapshotExactly | src/sync/mod.rs:828-880 | a snapshot is taken if and only if something was replicated and none stands at HEAD; it is exactly the whole history in one file, and the only change |
| Effects.L0PassExactly | src/sync/mod.rs:990-1013 | the files L0 retention removes, the deletions it uses and whether it goes through, from L1's reach, the cutoff, the newest file and the deletions the store allows |
| Effects.SnapshotPassExactly | src/sync/mod.rs:949-984 | with deletions to spare, snapshot retention removes exactly the snapshots known to be older than the cutoff and, at each level up to max_level, the files ending before the oldest snapshot kept by age, each level's newest excepted; other levels are unchanged |
| Engine.Syncer.constructor | src/sync/mod.rs:210-243 | a syncer over an empty replica is the machine's initial state |
| Engine.Syncer.Open | src/sync/mod.rs:222-242 | a syncer over whatever an earlier process left continues from exactly that |
| Engine.Syncer.Sync | src/sync/mod.rs:290-302 | an uploaded sync is the machine's sync step |
| Engine.Syncer.MaxTxid | src/sync/mod.rs:777-784 | the largest max of a level is how far it reaches |
| Engine.Syncer.CompactLevel | src/sync/mod.rs:766-818 | the levels become those of the machine's compaction step, and the outcome is its outcome; the reported range and input count are those of the source files past the destination's reach; an invalid level, or a store that fails to serve or take a file, changes nothing |
| Engine.Syncer.Snapshot | src/sync/mod.rs:828-880 | the levels become those of the machine's snapshot step, through the planner, the store and the heap merge, and TXIDs 1 to HEAD and the plan's length are reported; a store that fails changes nothing |
| Engine.Syncer.DeleteFiles | src/sync/mod.rs:978-983 | deletions happen in order until the store fails, and the level is the old one without exactly those |
| Engine.Syncer.EnforceRetentionByTxid | src/sync/mod.rs:972-984 | any level loses exactly the selected prefix, as far as the store let it; the invariant holds if the TXID is not past the newest snapshot |
| Engine.Syncer.EnforceSnapshotRetention | src/sync/mod.rs:949-968 | the whole cascade, for any max_level, is the machine's snapshot-retention step, failures and the deletions left included |
| Engine.Syncer.EnforceL0Retention | src/sync/mod.rs:990-1013 | the machine's L0-retention step, or nothing for a zero window, failures and the deletions left included |
| Checkpoint.BaseIsCapture | src/sync/mod.rs:381-418 | the plan's starting point is exactly the first commit the chain lacks, resumed, restarted or with no WAL at all |
| Checkpoint.SnapshotIsLive | src/sync/mod.rs:420-492 | the snapshot reads only pages that are there, from WAL or file, and they are the live database's |
| Checkpoint.BuildCaptures | src/sync/mod.rs:347-395 | after a build, staged or skipped, with a WAL or without one, the chain replays to the live database and its recorded position is the WAL's end |
| Checkpoint.StepKeepsInv | src/sync/mod.rs:627-663 | every step keeps the invariant, an application commit at any moment and any crash that can be recovered from included, when checkpoints start with a commit unfolded or no WAL |
| Checkpoint.EveryRunRecovers | src/sync/mod.rs:584-663 | over every such run, whenever every commit the chain lacks is still in a WAL that cannot restart over it, the chain plus the WAL past the saved position replays to the live database |
| Checkpoint.OverFoldDetectedExactly | src/sync/mod.rs:652-660 | the over-fold test misses no folded uncaptured commit, for every window and fold, if and only if some commit was unfolded, or the WAL was empty, when the file was staged |
| Checkpoint.MissedCommitIsLost | src/sync/mod.rs:399-411 | otherwise a commit can be folded, judged captured, and skipped by the next incremental: at once if the checkpoint bumps the sequence, else as soon as the WAL restarts |
| Checkpoint.CrashInWindow | src/sync/mod.rs:584-595 | dying after the fold, for every window of commits and every fold, loses a commit exactly when the fold went past what was staged and reached the end of the log |
| Checkpoint.CrashAfterBump | src/db/mod.rs:239-249 | dying after the sequence bump loses one exactly when the fold went past what was staged and the bump restarted the WAL |
| Checkpoint.CrashLosesExactly | src/sync/mod.rs:584-663 | dying at any point of any run loses no commit if and only if every commit the chain lacks is still in the WAL and none or not all of them are folded |
| Ticks.TickKeepsDInv | src/sync/driver.rs:165-193 | a checkpoint the driver starts always finds an unfolded commit or an empty WAL, so its over-folds are detected; every step keeps the driver's invariant unless it ends a time-based checkpoint at the threshold with everything folded |
| Ticks.MoveKeepsDInv | src/sync/driver.rs:165-193 | so does every move, crashing where it is survivable and reopening included |
| Ticks.DriverNeverLoses | src/sync/driver.rs:165-193 | wherever the driver's invariant holds, over every interleaving of commits, driver steps, survivable crashes and reopenings, unless a time-based checkpoint ends at the threshold with everything folded, no commit is ever skipped and chain plus WAL is the live database |
| Ticks.OpenIsDInv | src/sync/mod.rs:210-243 | the invariant holds of a driver opened over any chain it can recover, the empty one included, whose next checkpoint is in time |
| Lapses.OnTimeExactly | src/sync/driver.rs:165-193 | between checkpoints, no later run loses a commit if and only if the checkpoint the driver may start without syncing anything new would find an unfolded commit or an empty WAL |
| Lapses.TimedIsSafeExactly | src/sync/driver.rs:176-193 | the last step of a time-based checkpoint is harmless to every later run if and only if, should it leave the position at the threshold, some commit is unfolded or the WAL empty |
| Lapses.OvershootingTimedCheckpoint | src/sync/driver.rs:176-193 | breaking the first proviso: from an empty replica, a run with one time-based checkpoint ending at the threshold with everything folded, which ends with a commit in no file |
| Lapses.CrashBeforeBump | src/db/mod.rs:217-255 | breaking the second: from an empty replica, a run with one crash between the PRAGMA and the sequence bump that ends with a commit in no file |
| Lapses.RebootIsSafeExactly | src/sync/driver.rs:165-193 | dying at any point of any run is harmless to every later run if and only if it loses nothing on the spot and, with no chain or a position at the threshold, some commit is unfolded or the WAL empty |
| Lapses.BothProvisosNeeded | src/sync/driver.rs:165-193 | concrete runs from a one-page database, at every threshold from two frames up, breaking one proviso each and losing a commit |
| Quiescence.QuietStep | src/sync/driver.rs:165-193 | with no application write, a step makes only files that were due, and brings about one more exactly if it is a sequence bump that does not restart the WAL below the threshold |
| Quiescence.IdleStopsShipping | src/db/mod.rs:239-249 | from any state between ticks, once writes stop, the files made and due are those there were, at most two due, one for each bump that does not restart the WAL short, and one for each reopening with no WAL; so with neither, at most two more, and none from a caught-up chain with a short WAL |
| Quiescence.PinnedLogNeverStops | src/db/mod.rs:247-249 | with a reader keeping a long log from being folded to its end, any number of further files with no application write, one a tick, while checkpoints are PASSIVE |
| Merge.Peek | src/ltx/compactor.rs:109-125 | the least page number, lowest input on ties |
| Merge.ConsumePage | src/ltx/compactor.rs:121-138 | every input at the page is consumed and the highest-numbered of them wins |
| Merge.NextPage | src/ltx/compactor.rs:121-152 | each turn yields the next page any input has, in its newest version, and skips none |
| Merge.MergeToWriter | src/ltx/compactor.rs:94-157 | the frames emitted are exactly those of the merged file: ascending, each page once, newest version, none past the final size |
| Merge.CompactToWriter | src/ltx/compactor.rs:38-84 | refused exactly with no inputs or at the first input of another page size or whose range does not adjoin, and which; otherwise the merged file's header range, size and frames |
| Wal.WalChecksum | src/wal/format.rs:43-52 | the loop computes the two-word running sum, every addition wrapping at 32 bits, in either byte order |
| Wal.ChecksumComposes | src/wal/format.rs:39-52 | checksumming a concatenation is checksumming its parts in turn |
| WalExact.ChecksumIsWeighted | src/wal/format.rs:43-52 | the two sums are those of the words weighted by Fibonacci numbers, the largest on the first, modulo 2^32, in either byte order |
| Wal.ParsedHeaderIsExact | src/wal/format.rs:78-119 | a header is accepted exactly when its bytes are the ones that encode it and end in their own checksum |
| Wal.ChecksumSpansTheWal | src/wal/reader.rs:180-188 | a valid frame's checksum is that of the header and every frame so far as one run from zero |
| Wal.WalReader.ReadFrame | src/wal/reader.rs:157-198 | the next frame of the longest valid run, or none at its end, with nothing moved; `WalExact.FramesExactly` is what that run is in bytes |
| WalExact.FramesExactly | src/wal/reader.rs:157-198 | a sequence of frames is the one read if and only if its frames lie end to end behind the header, each with its page number, its database size, the header's two salts and the checksum of both and the page continued from the frame before, and no such frame follows |
| WalExact.FrameNamesItsPage | src/wal/format.rs:137-145 | each frame's page number and database size are the first and second four bytes at its offset |
| Wal.WalReader.ReadPageMap | src/wal/reader.rs:205-235 | the page map is the summary of the committed transactions, although staged offsets are never cleared |
| Wal.PageMapIsNewestOffsets | src/wal/reader.rs:200-235 | frame by frame: the newest offset of each page among the frames up to the last commit frame, restricted to the size it commits |
| Wal.EndOffsetExact | src/wal/reader.rs:223-229 | end_offset never passes the last commit frame, and is its end exactly when that frame's page is inside the size it commits |
| Wal.TailIsTheRest | src/wal/reader.rs:73-96 | a tail read from a frame boundary with the right seed finds exactly the frames still to come |
| Wal.StoredSumIsSeed | src/sync/mod.rs:516-529 | the checksum stored in the frame before is the right seed, and its salts match |
| Wal.ReadSlice | src/sync/mod.rs:504-537 | one seeded tail read yields the page map of the frames past its offset |
| Wal.ReadInSlices | src/sync/mod.rs:504-582 | any number of tail reads of a growing WAL, laid over each other, equal one page map of the whole |
| Capture.PageMapIsBuild | src/sync/mod.rs:504-537 | the page contents read at a tail read's offsets are exactly the file the checkpoint machine builds next, or nothing when it builds none |
| Capture.PageBehindHeader | src/wal/reader.rs:150-153 | the page read at a frame's offset is the one its checksum covers, right behind its 24-byte header |
| Capture.BuildIncremental | src/sync/mod.rs:504-582 | from the WAL's bytes and the position's frame count, the next file's pages and size, and the offset the next read resumes at |
| Crc.BuildTable | src/ltx/checksum.rs:20-38 | each table entry is the eight-bit division of its index |
| Crc.PolyIsIso | src/ltx/checksum.rs:15 | the polynomial divided by is the reflected ISO 3309 one, as a number |
| Crc.TableStep | src/ltx/checksum.rs:65-71 | one lookup and shift equals eight steps of the division, by linearity |
| Crc.Hasher.Update | src/ltx/checksum.rs:65-71 | the register holds the bitwise remainder of everything fed |
| Crc.DivisionComposes | src/ltx/checksum.rs:40-71 | feeding in chunks equals feeding the whole |
| Crc.ChecksumPage | src/ltx/checksum.rs:113-118 | a page checksum is that of its big-endian number and data as one string |
| Crc.NothingSumsToFlag | src/ltx/checksum.rs:59-82 | with the register complemented at start and end, the checksum of nothing is the bare flag |
| Crc.RollingIgnoresOrder | src/ltx/checksum.rs:109-112 | the database checksum depends only on the bag of page checksums |
| Crc.RollingReplaces | src/ltx/checksum.rs:109-112 | replacing one page is one xor out and one xor in |
| Varint.AppendUvarint | src/ltx/encoder.rs:221-227 | the loop appends exactly the varint of its argument |
| FormatExact.VarintIsLeb128 | src/ltx/encoder.rs:221-227 | a varint is its number's base-128 digits, least significant first and none to spare, the high bit set on all but the last |
| Varint.UvarintRoundTrip | src/ltx/decoder.rs:317-337 | a varint reads back as its value and length whatever follows it |
| Varint.ReadUvarint | src/ltx/decoder.rs:317-337 | the value modulo 2^64 of the leading varint; out of bytes exactly when at most ten bytes are left and all continue |
| Codec.HeaderRoundTrip | src/ltx/format.rs:77-141 | every representable header reads back from the front of its file, signed fields included |
| FormatExact.HeaderIsExact | src/ltx/format.rs:77-141 | a header is decoded from exactly the bytes that hold the magic and its twelve fields, each big-endian in its place, if its page size is valid |
| Codec.Encoder.EncodeHeader | src/ltx/encoder.rs:76-84 | refused exactly when the header is invalid; otherwise its bytes are written and hashed |
| Codec.Encoder.EncodePage | src/ltx/encoder.rs:96-167 | accepted exactly when every check passes, framed, hashed uncompressed and indexed after the pages before; a refused page changes nothing |
| Codec.Encoder.EncodePageIndex | src/ltx/encoder.rs:196-217 | the index bytes, end marker and length are appended and hashed |
| Codec.Encoder.Finish | src/ltx/encoder.rs:171-194 | the finished bytes are the file of the header and pages accepted, with the flagged CRC-64 of what was hashed |
| FormatExact.FileShape | src/ltx/encoder.rs:171-217 | a finished file is, at exact offsets, its header, its frames, six zero bytes, the index, a zero, the index length, the rolling checksum and its own |
| FormatExact.SlotsInRow | src/ltx/encoder.rs:142-166 | the slots in the index lie end to end from the header to the end of the frames |
| FormatExact.EntryNumbers | src/ltx/encoder.rs:204-211 | an index entry is three varints: page number, offset, size |
| FormatExact.HashedIsUnpackedFile | src/ltx/encoder.rs:142-194 | the file checksum covers the file itself up to that checksum, its frames replaced by what they would be if packing changed nothing |
| Codec.AcceptedAscend | src/ltx/encoder.rs:120-140 | the order checks, snapshot or not, imply strictly ascending pages, so sorting the index changes nothing |
| FormatExact.WritableExactly | src/ltx/encoder.rs:76-140 | a file is accepted if and only if its header is valid, every page has the page size, is inside the database and is not the lock page, pages ascend, and a snapshot's are the consecutive pages from 1 with only the lock page skipped |
| Packing.HashedBytesAgreeExactly | src/ltx/encoder.rs:202-207 | under two codecs the file checksum covers the same bytes if and only if every page packs to the same length |
| Packing.LosslessCodecsDisagree | src/ltx/encoder.rs:3-8 | two lossless codecs under which it covers different bytes for every file with a page |
| Decoder.PageRoundTrip | src/ltx/decoder.rs:195-223 | a frame decodes to its own page, for any lossless LZ4 |
| FormatExact.BlockFrameReads | src/ltx/decoder.rs:195-234 | a frame in the block framing, with any odd flag and anything behind it, decodes to the page unpacked from exactly the length it states |
| Decoder.DecodePageIndex | src/ltx/decoder.rs:298-314 | on any bytes, the entries up to the end marker or the first error: an intact index gives exactly its entries, one cut short anywhere is refused |
| Decoder.IntactIndex | src/ltx/decoder.rs:298-314 | an index followed by its end marker and anything decodes to exactly its entries |
| Decoder.TruncatedIndex | src/ltx/decoder.rs:298-314 | every proper prefix of an index and its end marker runs out of bytes |
| Decoder.SlotDecodes | src/ltx/decoder.rs:256-268 | the bytes at every index entry decode to that entry's own page |
| Decoder.FooterLocatesIndex | src/ltx/decoder.rs:241-251 | the footer's length field leads back to exactly the index |
| FormatExact.IndexRegionExactly | src/ltx/decoder.rs:281-296 | the index is found if and only if the file has room for a header and a footer and the length stated fits, and is exactly that many bytes before the footer |
| Decoder.WrittenIsReadable | src/ltx/decoder.rs:232-276 | whatever the encoder accepts and writes has its header, index, trailer and slots where the reader looks |
| Decoder.ReadFile | src/ltx/decoder.rs:237-276 | on any bytes, the header, the index, the trailer and the page in every slot, or the first error; on a file of given header, pages and trailer, exactly those |
| Decoder.WriteFile | src/ltx/encoder.rs:76-194 | a whole file is written exactly when header and pages pass every check |
| Decoder.WriteThenRead | src/ltx/decoder.rs:232-276 | for every header and page sequence the encoder accepts, reading returns exactly what was written |
| Reader.DescribedIsWritable | src/ltx/encoder.rs:115-140 | every file of a history, merged or not, passes every check of the encoder; a file from TXID 1 is contiguous with the skip over the lock page |
| Reader.StoreFile | src/ltx/encoder.rs:76-194 | every file of a history, encoded, can be read back page by page through its index |
| Reader.ReplicaReader.LoadIndex | src/sync/reader.rs:87-111 | read or cached, a file's index is exactly its own |
| Reader.ReplicaReader.ReadPage | src/sync/reader.rs:69-84 | after any sequence of reads, the page returned is the newest version in the plan; the only failure is an object that is gone, met when every newer file is there and lacks the page |
| Reader.ResolvedPageIsRestored | src/sync/reader.rs:66-84 | for every non-lock page inside the final size, that version is the page a full restore holds |
| Staging.Site.Stage | src/sync/mod.rs:316-340 | a crash, only for want of power, leaves either no new staged file or the complete one |
| Staging.Site.UploadLtxFile | src/sync/mod.rs:1080-1102 | shipped, then removed; a conflicting small object is never overwritten and is reported exactly then; a crash, only for want of power, loses nothing |
| Staging.Site.RecoverStaging | src/sync/mod.rs:1106-1141 | completed recovery has shipped every staged file and no temporary one; it reports an equivocation only if a small staged file's key holds other contents, and succeeds only if none does; files go first to last, an equivocation names the first left, and dying takes less power than two operations a file |
| Staging.RecoverRepeatedly | src/sync/mod.rs:1104-1141 | however often power fails during recovery, completing it leaves what one uninterrupted run would |
| Staging.DerivePosition | src/sync/mod.rs:1201-1228 | the newest TXID at any level and the WAL state of the newest L0 file, zeros where there is none |
| Staging.Open | src/sync/mod.rs:210-243 | with a single writer recovery never reports an equivocation, dies only for want of power, and derives the position recorded by the newest L0 file ever made durable |
| Staging.SyncOne | src/sync/mod.rs:271-302 | one sync ships the next TXID; a crash inside leaves either nothing or the complete staged file |
| Staging.Boots | src/sync/mod.rs:210-302 | over any number of boots, syncs, maintenance steps and crashes, every durable file is staged or shipped and the position in memory is the one it records; the files are those of each boot's first syncs in order, all of them for a boot with power enough |
| Maintenance.StepMaintains | src/sync/mod.rs:766-1013 | every step of the replica machine but a sync, however files are encoded, keeps the newest L0 file, adds and changes none at L0, and reaches no further: maintenance as the boots allow it |
| Schedule.BoundaryUnique | src/sync/level.rs:175-185 | only one interval boundary is current at any instant |
| Schedule.TruncateIsBoundary | src/sync/level.rs:175-185 | truncating an instant finds the current boundary if and only if the clock is not before the epoch and the boundary fits in 64-bit nanoseconds; before the epoch it finds the epoch |
| Schedule.Driver.Tick | src/sync/driver.rs:195-232 | each task fires, in order, exactly if the boundary current now is past every one it fired at; the tick is cut short if and only if the step that would fail is due, which spends its boundary, and the steps after it do not move |
| Schedule.Driver.TickRepeatedly | src/sync/driver.rs:195-232 | over any ticks, on a clock that may go backwards, each task fires at strictly increasing boundaries, so at most once each, and a last tick in which nothing fails leaves none behind the boundary then current |

## Left out

- SQLite itself: modelled only by what it does to the log (commits append to the WAL or
  restart it once it is fully folded; a PASSIVE checkpoint folds a further part of it). A
  crash is followed by an `open` that ships what was staged and writes nothing to the log.
  Commits are atomic: a log that has a header has a commit in it.
- TRUNCATE checkpoints, outside checkpointers (so also a PASSIVE checkpoint that reports
  busy), and transactions that spill uncommitted frames into a fresh WAL.
- Object-store clients, async plumbing, multipart chunking, retries, file locking, the CLI:
  the store is a map from keys to files and an operation on it happens or fails.
- LZ4: a parameter that is only assumed to unpack what it packed.
- The streaming `Decoder` (src/ltx/decoder.rs:87-186), which refuses the page framing the
  encoder writes, and `read_snapshot`, which uses it.
- Integer limits of page numbers, TXIDs and offsets where overflow would need a database,
  chain or file of absurd size; widths are modelled in checksums, varints, headers and clocks.
- Directory fsync failing after a rename, and a removed staging file reappearing after power
  loss: renames and removals are durable once done.
- `record_position`, `restore_incremental` (which takes its TXID on faith) and
  `restore_to_timestamp`.
- `Syncer::compact` (src/sync/mod.rs:693-756), which the driver never calls and which labels
  its output from TXID 1 even when no base exists.
- An upload error followed by another sync in the same process: an upload error ends the
  process and `open` is the next step.
- Pages a reader asks for past the final size (src/sync/reader.rs:69-83), where older files
  are not filtered.
- A foreign write that keeps the recorded file length, and a replica reset to another history.
- `CompactionLevels`' default values and the time-based part of checkpoint scheduling beyond
  its order within a tick.
- Engine.Syncer.Sync: takes the transaction the sync captured as a parameter; which pages a
  sync captures is modelled in `Checkpoint`, `Wal` and `Capture`.
- Engine.Syncer.CompactLevel: works on decoded files; that files survive encoding is proved
  in `Decoder` and `Reader`. An upload that fails after all may have left its object in the
  store, which the index does not list until the next `open`.
- Engine.Syncer.Snapshot: takes the store and the in-memory index as one structure, since a
  single writer keeps them in step, so a listed object is always there to fetch.
- Effects.SnapshotPassExactly: says what a pass removes that the store lets through; a pass cut
  short removes the first of the same files, in the order of `Engine.Syncer.DeleteFiles`.
- Varint.ReadUvarint: reports an eleventh byte as an error of its own, where the source would
  shift past the width of its register.
- Decoder.ReadFile: returns an error where the source does, and also where the source would
  stop with a subtraction out of range.
- Wal.ReadInSlices: assumes the WAL is not restarted between the slices; what a restart means
  for the position is in `Checkpoint`.
- Staging.Boots: says of maintenance only that it keeps the newest L0 file, changes none at
  L0 and reaches no further, which is what `Maintenance.StepMaintains` proves of the replica.
- Nothing was executed; the original program and its tests were only read.
