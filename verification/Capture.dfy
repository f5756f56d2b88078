/// An incremental read from the WAL's bytes is the file the checkpoint machine builds
/// (src/sync/mod.rs:504-582).

module Capture {
  // `Wal` finds at which offsets a tail read of the WAL has the newest page versions, and
  // `Checkpoint` builds the next file from the commits the chain lacks. Here the page contents
  // read at those offsets are shown to be exactly that file's.

  import opened Options
  import opened Bytes
  import opened History
  import opened Wal
  import C = Checkpoint

  type Reader = nat -> seq<Byte>

  ghost function ReadPages(pages: map<nat, nat>, read: Reader): map<nat, seq<Byte>> {
    map p | p in pages :: read(pages[p])
  }

  /// A history of offsets as the history of the contents there.
  ghost function ReadAll(h: History<nat>, read: Reader): (k: History<seq<Byte>>)
    ensures |k| == |h|
  {
    seq(|h|, i requires 0 <= i < |h| => Tx(ReadPages(h[i].pages, read), h[i].commit))
  }

  /// Summing up and reading commute.
  lemma SummaryReads(h: History<nat>, read: Reader, b: nat)
    requires b <= |h|
    ensures Summary(ReadAll(h, read), 1, b) == ReadPages(Summary(h, 1, b), read)
    ensures CommitAt(ReadAll(h, read), b) == CommitAt(h, b)
  {
    NewestReads(h, read, b);
  }

  lemma {:induction false} NewestReads(h: History<nat>, read: Reader, b: nat)
    requires b <= |h|
    ensures Newest(ReadAll(h, read), 1, b) == ReadPages(Newest(h, 1, b), read)
  {
    if b > 0 {
      NewestReads(h, read, b - 1);
      LaidOverReads(Newest(h, 1, b - 1), h[b - 1].pages, read);
    }
  }

  lemma LaidOverReads(older: map<nat, nat>, newer: map<nat, nat>, read: Reader)
    ensures ReadPages(older + newer, read) == ReadPages(older, read) + ReadPages(newer, read)
  {
  }

  // --- The WAL holds the commits ----------------------------------------------------------------

  /// The first `n` frames are one transaction, and it is `c`.
  ghost predicate IsCommit(c: C.Commit<seq<Byte>>, frames: seq<WalFrame>, read: Reader) {
    && 0 < c.frames <= |frames|
    && Scan(frames[..c.frames]).pending == map[]
    && CommittedCount(frames[..c.frames]) == c.frames
    && ReadAll(Transactions(frames[..c.frames]), read) == [c.tx]
  }

  /// The frames are those of the commits, in order, then perhaps some not committed yet.
  ghost predicate Laid(cs: seq<C.Commit<seq<Byte>>>, frames: seq<WalFrame>, read: Reader)
    decreases |cs|
  {
    if cs == [] then CommittedCount(frames) == 0
    else IsCommit(cs[0], frames, read) && Laid(cs[1..], frames[cs[0].frames..], read)
  }

  /// Past the frames of the first `n` commits are those of the rest.
  lemma {:induction false} LaidFrom(cs: seq<C.Commit<seq<Byte>>>, frames: seq<WalFrame>, read: Reader, n: nat)
    requires Laid(cs, frames, read) && n <= |cs|
    ensures C.FrameCount(cs[..n]) <= |frames| && Laid(cs[n..], frames[C.FrameCount(cs[..n])..], read)
    decreases n
  {
    if n == 0 {
      assert cs[..0] == [] && cs[0..] == cs && frames[0..] == frames;
    } else {
      var k := cs[0].frames;
      LaidFrom(cs[1..], frames[k..], read, n - 1);
      OneFewer(cs, n);
      DropDrop(frames, k, C.FrameCount(cs[1..][..n - 1]));
    }
  }

  lemma OneFewer(cs: seq<C.Commit<seq<Byte>>>, n: nat)
    requires 0 < n <= |cs|
    ensures C.FrameCount(cs[..n]) == cs[0].frames + C.FrameCount(cs[1..][..n - 1]) && cs[n..] == cs[1..][n - 1..]
  {
    assert cs[..n][1..] == cs[1..][..n - 1];
  }

  lemma DropDrop(frames: seq<WalFrame>, k: nat, j: nat)
    requires k + j <= |frames|
    ensures frames[k..][j..] == frames[k + j..]
  {
  }

  /// Read back, the transactions in the frames are the commits, and take as many frames.
  lemma {:induction false} LaidReads(cs: seq<C.Commit<seq<Byte>>>, frames: seq<WalFrame>, read: Reader)
    requires Laid(cs, frames, read)
    ensures ReadAll(Transactions(frames), read) == C.Txs(cs) && CommittedCount(frames) == C.FrameCount(cs)
    decreases |cs|
  {
    if cs == [] {
      UncommittedDropped(frames);
    } else {
      var k := cs[0].frames;
      var first, rest := frames[..k], frames[k..];
      LaidReads(cs[1..], rest, read);
      ScanSplit(first, rest);
      assert first + rest == frames;
      ReadsSplit(Transactions(first), Transactions(rest), read);
      assert C.Txs(cs) == [cs[0].tx] + C.Txs(cs[1..]);
    }
  }

  lemma ReadsSplit(a: History<nat>, b: History<nat>, read: Reader)
    ensures ReadAll(a + b, read) == ReadAll(a, read) + ReadAll(b, read)
  {
  }

  // --- The next file -------------------------------------------------------------------------------

  /// `page_data_at`: the page behind the frame header at an offset.
  function PageDataAt(wal: seq<Byte>, pageSize: nat): Reader {
    (offset: nat) =>
      if offset + FRAME_HEADER_SIZE + pageSize <= |wal| then
        wal[offset + FRAME_HEADER_SIZE..offset + FRAME_HEADER_SIZE + pageSize]
      else []
  }

  /// At a frame's offset it is the page that follows the frame's header, the one its checksum
  /// covers.
  lemma PageBehindHeader(wal: seq<Byte>, h: WalHeader, i: nat)
    requires |wal| >= WAL_HEADER_SIZE && i < |FramesOf(wal, h)|
    ensures OffsetOf(h, i + 1) <= |wal|
    ensures PageDataAt(wal, h.pageSize)(FramesOf(wal, h)[i].offset) == wal[OffsetOf(h, i) + 24..OffsetOf(h, i + 1)]
    ensures |wal[OffsetOf(h, i) + 24..OffsetOf(h, i + 1)]| == h.pageSize
  {
    FrameOffset(wal, h, i);
    ChunkAt(wal, h, i);
  }

  /// How many frames of the current WAL the position has behind it.
  ghost function SyncedFrames(s: C.Sys<seq<Byte>>): nat {
    if s.pos.gen == s.gen then s.pos.frames else 0
  }

  /// What the machine builds is what the page map of the frames past the position reads.
  lemma PageMapIsBuild(s: C.Sys<seq<Byte>>, frames: seq<WalFrame>, read: Reader, frameSize: nat, m: PageMap,
    lock: nat, zero: seq<Byte>)
    requires C.CommitsOk(s.app, lock) && s.genStart <= s.folded <= |s.app| && s.pending.None? && s.ships != []
    requires C.Positioned(s) && C.Recoverable(s) && Laid(C.Wal(s), frames, read) && (C.Wal(s) != [] || s.atEnd)
    requires SyncedFrames(s) <= |frames| ==> IsPageMap(m, frames[SyncedFrames(s)..], frameSize)
    ensures SyncedFrames(s) <= |frames|
    ensures C.Build(s, lock, zero) ==
      if m.pages == map[] then None else Some(C.Pending(Tx(ReadPages(m.pages, read), m.commit), C.Here(s), |s.app|))
  {
    RestIsLaid(s, frames, read, lock);
    PageMapReads(s.app[s.captured..], frames[SyncedFrames(s)..], read, frameSize, m);
    C.BaseIsCapture(s, lock);
    BuildIsRest(s, ReadPages(m.pages, read), m.commit, lock, zero);
  }

  /// The next file is the summary of the commits the chain lacks, if there is anything in it.
  lemma BuildIsRest(s: C.Sys<seq<Byte>>, pages: map<nat, seq<Byte>>, commit: nat, lock: nat, zero: seq<Byte>)
    requires s.genStart <= |s.app| && s.folded <= |s.app| && s.ships != []
    requires s.captured <= |s.app| && C.Base(s) == s.captured && (C.Wal(s) != [] || s.atEnd)
    requires var rest := C.Txs(s.app[s.captured..]);
      pages == Summary(rest, 1, |rest|) && commit == CommitAt(rest, |rest|)
    ensures C.Build(s, lock, zero) ==
      if pages == map[] then None else Some(C.Pending(Tx(pages, commit), C.Here(s), |s.app|))
  {
    RestOfHistory(s.app, s.captured);
  }

  /// The frames past the position are those of the commits the chain lacks.
  lemma RestIsLaid(s: C.Sys<seq<Byte>>, frames: seq<WalFrame>, read: Reader, lock: nat)
    requires C.CommitsOk(s.app, lock) && s.genStart <= |s.app| && s.pending.None? && s.ships != []
    requires C.Positioned(s) && C.Recoverable(s) && Laid(C.Wal(s), frames, read)
    ensures SyncedFrames(s) <= |frames| && s.captured <= |s.app|
    ensures Laid(s.app[s.captured..], frames[SyncedFrames(s)..], read)
  {
    SyncedIsCaptured(s, lock);
    LaidFrom(C.Wal(s), frames, read, s.captured - s.genStart);
  }

  /// The position counts exactly the frames of the commits captured in this generation.
  lemma SyncedIsCaptured(s: C.Sys<seq<Byte>>, lock: nat)
    requires C.CommitsOk(s.app, lock) && s.genStart <= |s.app| && s.pending.None? && s.ships != []
    requires C.Positioned(s) && C.Recoverable(s)
    ensures s.genStart <= s.captured <= |s.app|
    ensures var n := s.captured - s.genStart;
      SyncedFrames(s) == C.FrameCount(C.Wal(s)[..n]) && C.Wal(s)[n..] == s.app[s.captured..]
  {
    assert C.Wal(s)[..s.captured - s.genStart] == s.app[s.genStart..s.captured];
  }

  lemma PageMapReads(cs: seq<C.Commit<seq<Byte>>>, frames: seq<WalFrame>, read: Reader, frameSize: nat, m: PageMap)
    requires Laid(cs, frames, read) && IsPageMap(m, frames, frameSize)
    ensures ReadPages(m.pages, read) == Summary(C.Txs(cs), 1, |cs|) && m.commit == CommitAt(C.Txs(cs), |cs|)
    ensures m.pages == map[] <==> ReadPages(m.pages, read) == map[]
  {
    LaidReads(cs, frames, read);
    SummaryReads(Transactions(frames), read, |Transactions(frames)|);
    if m.pages != map[] {
      var p :| p in m.pages;
      assert p in ReadPages(m.pages, read);
    }
  }

  lemma RestOfHistory<V>(app: seq<C.Commit<V>>, b: nat)
    requires b <= |app|
    ensures var h, rest := C.Txs(app), C.Txs(app[b..]);
      && (b < |h| ==> Summary(rest, 1, |rest|) == Summary(h, b + 1, |h|) && CommitAt(rest, |rest|) == CommitAt(h, |h|))
      && (b == |h| ==> Summary(rest, 1, |rest|) == map[])
  {
    var h, rest := C.Txs(app), C.Txs(app[b..]);
    assert h == h[..b] + rest;
    NewestShift(h[..b], rest, |rest|);
  }

  lemma CommittedFrom(frames: seq<WalFrame>, k: nat)
    requires k <= |frames| && CommittedCount(frames[k..]) > 0
    ensures CommittedCount(frames) == k + CommittedCount(frames[k..])
  {
    var j := k + CommittedCount(frames[k..]);
    assert frames[j - 1] == frames[k..][j - 1 - k];
    forall i | j <= i < |frames| ensures frames[i].commit == 0 {
      assert frames[i] == frames[k..][i - k];
    }
  }

  /// The position the next file records is the end of the log.
  lemma EndsHere(cs: seq<C.Commit<seq<Byte>>>, h: WalHeader, wal: seq<Byte>, read: Reader, n: nat, m: PageMap)
    requires Laid(cs, FramesOf(wal, h), read) && n <= |FramesOf(wal, h)| && CommitsInside(FramesOf(wal, h))
    requires IsPageMap(m, FramesOf(wal, h)[n..], FrameSize(h))
    ensures m.pages != map[] ==> m.endOffset == OffsetOf(h, C.FrameCount(cs))
  {
    SliceEnds(h, wal, n, m);
    EndOfRest(cs, FramesOf(wal, h), read, n);
  }

  lemma EndOfRest(cs: seq<C.Commit<seq<Byte>>>, frames: seq<WalFrame>, read: Reader, n: nat)
    requires Laid(cs, frames, read) && n <= |frames|
    ensures CommittedCount(frames[n..]) > 0 ==> n + CommittedCount(frames[n..]) == C.FrameCount(cs)
  {
    LaidReads(cs, frames, read);
    if CommittedCount(frames[n..]) > 0 {
      CommittedFrom(frames, n);
    }
  }

  /// `build_incremental`: read the tail from the position on and collect the pages there;
  /// nothing new, no file. The offset returned is where the next read resumes.
  method BuildIncremental(h: WalHeader, wal: seq<Byte>, frames: nat, ghost s: C.Sys<seq<Byte>>, ghost lock: nat,
    ghost zero: seq<Byte>)
    returns (built: Option<Tx<seq<Byte>>>, end: nat)
    requires C.CommitsOk(s.app, lock) && s.genStart <= s.folded <= |s.app| && s.pending.None? && s.ships != []
    requires C.Positioned(s) && C.Recoverable(s) && frames == SyncedFrames(s) && (C.Wal(s) != [] || s.atEnd)
    requires |wal| >= WAL_HEADER_SIZE && Laid(C.Wal(s), FramesOf(wal, h), PageDataAt(wal, h.pageSize))
    ensures C.Build(s, lock, zero) ==
      if built.None? then None else Some(C.Pending(built.value, C.Here(s), |s.app|))
    ensures built.Some? && CommitsInside(FramesOf(wal, h)) ==> end == OffsetOf(h, C.Here(s).frames)
  {
    ghost var read := PageDataAt(wal, h.pageSize);
    RestIsLaid(s, FramesOf(wal, h), read, lock);
    var slice := ReadTail(h, wal, frames);
    PageMapIsBuild(s, FramesOf(wal, h), read, FrameSize(h), slice, lock, zero);
    if slice.pages == map[] {
      return None, slice.endOffset;
    }
    if CommitsInside(FramesOf(wal, h)) {
      EndsHere(C.Wal(s), h, wal, read, frames, slice);
    }
    var readAt := PageDataAt(wal, h.pageSize);
    return Some(Tx(map p | p in slice.pages :: readAt(slice.pages[p]), slice.commit)), slice.endOffset;
  }

  method ReadTail(h: WalHeader, wal: seq<Byte>, n: nat) returns (m: PageMap)
    requires |wal| >= WAL_HEADER_SIZE && n <= |FramesOf(wal, h)|
    ensures IsPageMap(m, FramesOf(wal, h)[n..], FrameSize(h))
  {
    OffsetIsAligned(h, n);
    ChunksFrom(wal, h, n);
    var slice := ReadSlice(h, wal, OffsetOf(h, n));
    m := slice.value;
  }
}
