/// Reading a SQLite WAL, byte by byte (src/wal/format.rs, src/wal/reader.rs).

module Wal {
  // The running checksum, the frames it vouches for, the committed page map, and resuming in
  // the middle; sections 4.1 and 4.2 of the SQLite file format.

  import opened Bytes
  import opened History
  import opened LtxFiles
  import opened Options

  const U32: nat := 0x1_0000_0000
  const WAL_HEADER_SIZE: nat := 32
  const FRAME_HEADER_SIZE: nat := 24
  const MAGIC_LE: nat := 0x377f_0682
  const MAGIC_BE: nat := 0x377f_0683
  const WAL_VERSION: nat := 3_007_000

  // --- The checksum ----------------------------------------------------------------------

  datatype ByteOrder = Little | Big

  datatype Sum = Sum(s0: nat, s1: nat)

  /// A 32-bit word in the order the header's magic selects.
  function Word(order: ByteOrder, b: seq<Byte>): nat
    requires |b| == 4
  {
    match order
    case Big => FromBe(b)
    case Little => FromBe([b[3], b[2], b[1], b[0]])
  }

  /// One eight-byte step; every addition wraps at 32 bits.
  function Mix(order: ByteOrder, c: Sum, b: seq<Byte>): Sum
    requires |b| == 8
  {
    var s0 := (c.s0 + (Word(order, b[..4]) + c.s1) % U32) % U32;
    var s1 := (c.s1 + (Word(order, b[4..]) + s0) % U32) % U32;
    Sum(s0, s1)
  }

  /// The checksum of `b` continued from `c`.
  function Checksum(order: ByteOrder, c: Sum, b: seq<Byte>): Sum
    decreases |b|
  {
    if |b| < 8 then c else Checksum(order, Mix(order, c, b[..8]), b[8..])
  }

  /// `wal_checksum`.
  method WalChecksum(order: ByteOrder, seed: Sum, b: seq<Byte>) returns (c: Sum)
    ensures c == Checksum(order, seed, b)
  {
    c := seed;
    var i := 0;
    while i + 8 <= |b|
      invariant 0 <= i <= |b|
      invariant Checksum(order, c, b[i..]) == Checksum(order, seed, b)
    {
      assert b[i..][..8] == b[i..i + 8] && b[i..][8..] == b[i + 8..];
      var s0 := (c.s0 + (Word(order, b[i..i + 4]) + c.s1) % U32) % U32;
      var s1 := (c.s1 + (Word(order, b[i + 4..i + 8]) + s0) % U32) % U32;
      assert b[i..i + 8][..4] == b[i..i + 4] && b[i..i + 8][4..] == b[i + 4..i + 8];
      c := Sum(s0, s1);
      i := i + 8;
    }
  }

  /// Checksumming in pieces is checksumming the whole.
  lemma {:induction false} ChecksumComposes(order: ByteOrder, c: Sum, a: seq<Byte>, b: seq<Byte>)
    requires |a| % 8 == 0
    ensures Checksum(order, c, a + b) == Checksum(order, Checksum(order, c, a), b)
    decreases |a|
  {
    if a == [] {
      assert a + b == b;
    } else {
      assert (a + b)[..8] == a[..8] && (a + b)[8..] == a[8..] + b;
      ChecksumComposes(order, Mix(order, c, a[..8]), a[8..], b);
    }
  }

  // --- Headers ---------------------------------------------------------------------------

  datatype WalHeader = WalHeader(order: ByteOrder, pageSize: nat, seqNo: nat, salt1: nat, salt2: nat, sum: Sum)

  datatype WalError = Incomplete | InvalidMagic | UnsupportedVersion | InvalidWalPageSize | HeaderChecksumMismatch
    | UnalignedOffset | PrevFrameMismatch

  datatype Parsed<+T> = Good(value: T) | Bad(error: WalError)

  /// `WalHeader::parse`.
  function ParseHeader(b: seq<Byte>): Parsed<WalHeader> {
    if |b| < WAL_HEADER_SIZE then Bad(Incomplete)
    else if Field(b, 0, 4) != MAGIC_LE && Field(b, 0, 4) != MAGIC_BE then Bad(InvalidMagic)
    else if Field(b, 4, 4) != WAL_VERSION then Bad(UnsupportedVersion)
    else if !IsPageSize(Field(b, 8, 4)) then Bad(InvalidWalPageSize)
    else
      var order := if Field(b, 0, 4) == MAGIC_LE then Little else Big;
      var sum := Sum(Field(b, 24, 4), Field(b, 28, 4));
      if Checksum(order, Sum(0, 0), b[..24]) != sum then Bad(HeaderChecksumMismatch)
      else Good(WalHeader(order, Field(b, 8, 4), Field(b, 12, 4), Field(b, 16, 4), Field(b, 20, 4), sum))
  }

  /// The fields of a WAL header that its checksum covers.
  ghost function HeaderFields(h: WalHeader): (fs: seq<Fixed>)
    requires IsPageSize(h.pageSize) && h.seqNo < Limit(4) && h.salt1 < Limit(4) && h.salt2 < Limit(4)
    ensures Fits(fs)
  {
    Limits();
    [Fixed(if h.order.Little? then MAGIC_LE else MAGIC_BE, 4), Fixed(WAL_VERSION, 4), Fixed(h.pageSize, 4),
     Fixed(h.seqNo, 4), Fixed(h.salt1, 4), Fixed(h.salt2, 4)]
  }

  lemma HeaderStarts(fs: seq<Fixed>)
    requires |fs| == 6 && forall k :: 0 <= k < 6 ==> fs[k].n == 4
    ensures forall k :: 0 <= k <= 6 ==> Start(fs, k) == 4 * k
  {
    assert Start(fs, 1) == 4; assert Start(fs, 2) == 8; assert Start(fs, 3) == 12;
    assert Start(fs, 4) == 16; assert Start(fs, 5) == 20; assert Start(fs, 6) == 24;
  }

  /// A header is accepted exactly when its first 24 bytes are those SQLite writes for the
  /// header parsed, and its last 8 are their checksum.
  lemma ParsedHeaderIsExact(b: seq<Byte>, h: WalHeader)
    requires IsPageSize(h.pageSize) && h.seqNo < Limit(4) && h.salt1 < Limit(4) && h.salt2 < Limit(4)
    ensures ParseHeader(b) == Good(h) <==>
      && |b| >= WAL_HEADER_SIZE && b[..24] == Pack(HeaderFields(h))
      && Sum(Field(b, 24, 4), Field(b, 28, 4)) == h.sum && Checksum(h.order, Sum(0, 0), b[..24]) == h.sum
  {
    if |b| >= WAL_HEADER_SIZE {
      HeaderFieldsRead(b, h);
    }
  }

  lemma HeaderFieldsRead(b: seq<Byte>, h: WalHeader)
    requires IsPageSize(h.pageSize) && h.seqNo < Limit(4) && h.salt1 < Limit(4) && h.salt2 < Limit(4)
    requires |b| >= WAL_HEADER_SIZE
    ensures b[..24] == Pack(HeaderFields(h)) <==>
      && Field(b, 0, 4) == (if h.order.Little? then MAGIC_LE else MAGIC_BE) && Field(b, 4, 4) == WAL_VERSION
      && Field(b, 8, 4) == h.pageSize && Field(b, 12, 4) == h.seqNo
      && Field(b, 16, 4) == h.salt1 && Field(b, 20, 4) == h.salt2
  {
    var fs := HeaderFields(h);
    HeaderStarts(fs);
    PackStandsExactly(b, 0, fs, Pack(fs));
    FourByteFields(b, fs);
    assert b[0..24] == b[..24];
  }

  lemma FourByteFields(b: seq<Byte>, fs: seq<Fixed>)
    requires |fs| == 6 && forall k :: 0 <= k < 6 ==> fs[k].n == 4 && Start(fs, k) == 4 * k
    requires |b| >= 24
    ensures (forall k :: 0 <= k < 6 ==> ReadsAt(b, 0, fs, k)) <==>
      && Field(b, 0, 4) == fs[0].v && Field(b, 4, 4) == fs[1].v && Field(b, 8, 4) == fs[2].v
      && Field(b, 12, 4) == fs[3].v && Field(b, 16, 4) == fs[4].v && Field(b, 20, 4) == fs[5].v
  {
    if forall k :: 0 <= k < 6 ==> ReadsAt(b, 0, fs, k) {
      assert ReadsAt(b, 0, fs, 0) && ReadsAt(b, 0, fs, 1) && ReadsAt(b, 0, fs, 2);
      assert ReadsAt(b, 0, fs, 3) && ReadsAt(b, 0, fs, 4) && ReadsAt(b, 0, fs, 5);
    }
  }

  // --- Frames ----------------------------------------------------------------------------

  /// A validated frame: `offset` is that of its header, `sum` the running checksum after it.
  datatype WalFrame = WalFrame(pgno: nat, commit: nat, offset: nat, sum: Sum)

  function FrameSize(h: WalHeader): nat {
    FRAME_HEADER_SIZE + h.pageSize
  }

  /// Where frame `n` starts in the WAL.
  function OffsetOf(h: WalHeader, n: nat): (offset: nat)
    ensures offset >= WAL_HEADER_SIZE
  {
    if n == 0 then WAL_HEADER_SIZE else OffsetOf(h, n - 1) + FrameSize(h)
  }

  /// It is the `n`-th multiple of the frame size past the header, and only that.
  lemma {:induction false} OffsetIsAligned(h: WalHeader, n: nat)
    ensures OffsetOf(h, n) - WAL_HEADER_SIZE == n * FrameSize(h)
    ensures (OffsetOf(h, n) - WAL_HEADER_SIZE) % FrameSize(h) == 0
    ensures (OffsetOf(h, n) - WAL_HEADER_SIZE) / FrameSize(h) == n
  {
    if n > 0 {
      OffsetIsAligned(h, n - 1);
      NextMultiple(OffsetOf(h, n - 1) - WAL_HEADER_SIZE, FrameSize(h), n - 1);
    }
  }

  lemma NextMultiple(x: nat, d: nat, k: nat)
    requires d > 0 && x == k * d
    ensures x + d == (k + 1) * d && (x + d) % d == 0 && (x + d) / d == k + 1
  {
    var q, r := (x + d) / d, (x + d) % d;
    assert x + d == d * q + r && 0 <= r < d;
    Distributes(k, 1, d);
    if q <= k {
      Distributes(q, k - q, d);
    } else if q > k + 1 {
      Distributes(k + 2, q - k - 2, d);
      Distributes(k, 2, d);
    }
  }

  lemma Distributes(a: nat, b: nat, d: nat)
    ensures (a + b) * d == a * d + b * d && b * d >= 0
  {
  }

  lemma {:induction false} OffsetsAscend(h: WalHeader, m: nat, n: nat)
    requires m <= n
    ensures OffsetOf(h, m) + (n - m) <= OffsetOf(h, n)
    decreases n
  {
    if m < n {
      OffsetsAscend(h, m, n - 1);
    }
  }

  /// The frame whose bytes are `b`, if its salts and its checksum continued from `c` hold.
  function CheckFrame(h: WalHeader, b: seq<Byte>, offset: nat, c: Sum): Option<WalFrame>
    requires |b| == FrameSize(h)
  {
    var sum := Checksum(h.order, Checksum(h.order, c, b[..8]), b[FRAME_HEADER_SIZE..]);
    if Field(b, 8, 4) != h.salt1 || Field(b, 12, 4) != h.salt2 then None
    else if Sum(Field(b, 16, 4), Field(b, 20, 4)) != sum then None
    else Some(WalFrame(Field(b, 0, 4), Field(b, 4, 4), offset, sum))
  }

  /// The bytes of a frame that checksums cover.
  function Covered(b: seq<Byte>): seq<Byte>
    requires |b| >= FRAME_HEADER_SIZE
  {
    b[..8] + b[FRAME_HEADER_SIZE..]
  }

  /// A stretch of a WAL cut at frame boundaries; a torn last frame is left off.
  ghost function Chunks(data: seq<Byte>, size: nat): (chunks: seq<seq<Byte>>)
    requires size > 0
    ensures forall i :: 0 <= i < |chunks| ==> |chunks[i]| == size
    decreases |data|
  {
    if |data| < size then [] else [data[..size]] + Chunks(data[size..], size)
  }

  /// The longest run of valid frames in `chunks`, the first of which is frame `n`.
  ghost function ValidFrames(chunks: seq<seq<Byte>>, h: WalHeader, n: nat, c: Sum): (frames: seq<WalFrame>)
    requires forall i :: 0 <= i < |chunks| ==> |chunks[i]| == FrameSize(h)
    ensures |frames| <= |chunks|
  {
    if chunks == [] then []
    else
      match CheckFrame(h, chunks[0], OffsetOf(h, n), c)
      case None => []
      case Some(f) => [f] + ValidFrames(chunks[1..], h, n + 1, f.sum)
  }

  /// The valid frames of a whole WAL.
  ghost function FramesOf(wal: seq<Byte>, h: WalHeader): seq<WalFrame> {
    if |wal| < WAL_HEADER_SIZE then [] else ValidFrames(ChunksOf(wal, h), h, 0, h.sum)
  }

  ghost function ChunksOf(wal: seq<Byte>, h: WalHeader): (chunks: seq<seq<Byte>>)
    requires |wal| >= WAL_HEADER_SIZE
    ensures forall i :: 0 <= i < |chunks| ==> |chunks[i]| == FrameSize(h)
  {
    Chunks(wal[WAL_HEADER_SIZE..], FrameSize(h))
  }

  /// The first `k` of a list of byte strings, end to end.
  ghost function Joined(parts: seq<seq<Byte>>, k: nat): seq<Byte>
    requires k <= |parts|
  {
    if k == 0 then [] else Joined(parts, k - 1) + parts[k - 1]
  }

  // --- The reader --------------------------------------------------------------------------

  /// The committed contents of a WAL: the newest committed frame of each page.
  datatype PageMap = PageMap(pages: map<nat, nat>, commit: nat, endOffset: nat)

  /// `end` is one past the highest frame in the map, or 0 for an empty map.
  ghost predicate EndsAt(pages: map<nat, nat>, frameSize: nat, end: nat) {
    if pages == map[] then end == 0
    else exists p :: p in pages && end == pages[p] + frameSize && forall q :: q in pages ==> pages[q] <= pages[p]
  }

  class WalReader {
    const data: seq<Byte>
    const base: nat
    const header: WalHeader
    var frameN: nat
    var chksum: Sum

    ghost predicate Valid()
      reads this
    {
      base <= OffsetOf(header, frameN) <= base + |data|
    }

    /// What is still to be read.
    ghost function Rest(): seq<WalFrame>
      requires Valid()
      reads this
    {
      ValidFrames(Chunks(data[OffsetOf(header, frameN) - base..], FrameSize(header)), header, frameN, chksum)
    }

    /// `from_tail` at a frame boundary.
    constructor FromTail(header: WalHeader, data: seq<Byte>, n: nat, seed: Sum)
      ensures Valid() && this.header == header && this.data == data && base == OffsetOf(header, n)
      ensures frameN == n && chksum == seed
    {
      this.header, this.data, this.base := header, data, OffsetOf(header, n);
      this.frameN, this.chksum := n, seed;
    }

    /// `read_frame`: the next valid frame, or none, in which case nothing moves.
    method ReadFrame() returns (frame: Option<WalFrame>)
      requires Valid()
      modifies this
      ensures Valid()
      ensures frame.None? ==> old(Rest()) == [] && frameN == old(frameN) && chksum == old(chksum)
      ensures frame.Some? ==> old(Rest()) == [frame.value] + Rest() && frameN == old(frameN) + 1
    {
      var frameSize := FrameSize(header);
      var offset := OffsetOf(header, frameN) - base;
      ghost var ahead := data[offset..];
      if offset + frameSize > |data| {
        return None;
      }
      var b := data[offset..offset + frameSize];
      assert ahead[..frameSize] == b && ahead[frameSize..] == data[offset + frameSize..];
      if Field(b, 8, 4) != header.salt1 || Field(b, 12, 4) != header.salt2 {
        return None;
      }
      var c := WalChecksum(header.order, chksum, b[..8]);
      c := WalChecksum(header.order, c, b[FRAME_HEADER_SIZE..]);
      if c.s0 != Field(b, 16, 4) || c.s1 != Field(b, 20, 4) {
        return None;
      }
      frame := Some(WalFrame(Field(b, 0, 4), Field(b, 4, 4), OffsetOf(header, frameN), c));
      chksum := c;
      frameN := frameN + 1;
    }

    /// `page_map`: the summary of the transactions in the frames left to read. The map of
    /// staged offsets is never cleared at a commit, which makes no difference.
    method ReadPageMap() returns (m: PageMap)
      requires Valid()
      modifies this
      ensures IsPageMap(m, old(Rest()), FrameSize(header))
    {
      ghost var all, done: seq<WalFrame> := Rest(), [];
      var pages: map<nat, nat>, tx: map<nat, nat>, commit := map[], map[], 0;
      var more := true;
      while more
        invariant Valid() && (if more then done + Rest() == all else done == all)
        invariant Staged(done, pages, tx, commit)
        decreases more, |Rest()|
      {
        var next := ReadFrame();
        if next.None? {
          more := false;
          assert done + [] == done;
        } else {
          var f := next.value;
          assert done + ([f] + Rest()) == (done + [f]) + Rest();
          pages, tx, commit := StageFrame(done, f, pages, tx, commit);
          done := done + [f];
        }
      }
      pages := Trim(pages, commit);
      var end := HighestEnd(pages, FrameSize(header));
      m := PageMap(pages, commit, end);
    }
  }

  /// One frame staged; a commit frame promotes what is staged.
  method StageFrame(ghost done: seq<WalFrame>, f: WalFrame, pagesIn: map<nat, nat>, txIn: map<nat, nat>, commitIn: nat)
    returns (pages: map<nat, nat>, tx: map<nat, nat>, commit: nat)
    requires Staged(done, pagesIn, txIn, commitIn)
    ensures Staged(done + [f], pages, tx, commit)
  {
    StagedStep(done, f, pagesIn, txIn, commitIn);
    pages, tx, commit := pagesIn, txIn[f.pgno := f.offset], commitIn;
    if f.commit != 0 {
      pages, commit := pages + tx, f.commit;
    }
  }

  method HighestEnd(pages: map<nat, nat>, frameSize: nat) returns (end: nat)
    ensures EndsAt(pages, frameSize, end)
  {
    if pages == map[] {
      return 0;
    }
    var p :| p in pages;
    var best, rest := p, pages.Keys - {p};
    while rest != {}
      invariant best in pages && rest <= pages.Keys
      invariant forall q :: q in pages && q !in rest ==> pages[q] <= pages[best]
      decreases rest
    {
      var q :| q in rest;
      if pages[q] > pages[best] {
        best := q;
      }
      rest := rest - {q};
    }
    end := pages[best] + frameSize;
  }

  // --- Transactions --------------------------------------------------------------------------

  /// Frames grouped into transactions: those committed, and the pages of one still open.
  datatype Log = Log(txs: History<nat>, pending: map<nat, nat>)

  ghost function Absorb(log: Log, f: WalFrame): Log {
    var tx := log.pending[f.pgno := f.offset];
    if f.commit == 0 then Log(log.txs, tx) else Log(log.txs + [Tx(tx, f.commit)], map[])
  }

  ghost function Scan(frames: seq<WalFrame>): Log {
    if frames == [] then Log([], map[]) else Absorb(Scan(frames[..|frames| - 1]), frames[|frames| - 1])
  }

  ghost function Transactions(frames: seq<WalFrame>): History<nat> {
    Scan(frames).txs
  }

  ghost predicate IsPageMap(m: PageMap, frames: seq<WalFrame>, frameSize: nat) {
    var h := Transactions(frames);
    m.pages == Summary(h, 1, |h|) && m.commit == CommitAt(h, |h|) && EndsAt(m.pages, frameSize, m.endOffset)
  }

  /// The loop state of `page_map` after the frames `done`.
  ghost predicate Staged(done: seq<WalFrame>, pages: map<nat, nat>, tx: map<nat, nat>, commit: nat) {
    var log := Scan(done);
    && pages == Newest(log.txs, 1, |log.txs|)
    && tx == pages + log.pending
    && commit == CommitAt(log.txs, |log.txs|)
  }

  lemma StagedStep(done: seq<WalFrame>, f: WalFrame, pages: map<nat, nat>, tx: map<nat, nat>, commit: nat)
    requires Staged(done, pages, tx, commit)
    ensures f.commit == 0 ==> Staged(done + [f], pages, tx[f.pgno := f.offset], commit)
    ensures f.commit != 0 ==> Staged(done + [f], pages + tx[f.pgno := f.offset], tx[f.pgno := f.offset], f.commit)
  {
    var log, next := Scan(done), tx[f.pgno := f.offset];
    var open := log.pending[f.pgno := f.offset];
    assert (done + [f])[..|done|] == done;
    assert Scan(done + [f]) == Absorb(log, f);
    LaidOver(pages, log.pending, f.pgno, f.offset);
    if f.commit != 0 {
      NewestOfOneMore(log.txs, Tx(open, f.commit));
    }
  }

  lemma LaidOver(pages: map<nat, nat>, pending: map<nat, nat>, p: nat, offset: nat)
    ensures (pages + pending)[p := offset] == pages + pending[p := offset]
    ensures pages + (pages + pending[p := offset]) == pages + pending[p := offset]
    ensures pages + map[] == pages
  {
  }

  lemma NewestOfOneMore(h: History<nat>, tx: Tx<nat>)
    ensures Newest(h + [tx], 1, |h| + 1) == Newest(h, 1, |h|) + tx.pages
  {
    PrefixStable(h, h + [tx], 1, |h|, 0);
  }

  // --- The frames of a WAL, and of its tails ---------------------------------------------------

  /// The running checksum before frame `i` of a run seeded with `c`.
  ghost function SumBefore(frames: seq<WalFrame>, i: nat, c: Sum): Sum
    requires i <= |frames|
  {
    if i == 0 then c else frames[i - 1].sum
  }

  lemma {:induction false} FrameAt(chunks: seq<seq<Byte>>, h: WalHeader, n: nat, c: Sum, i: nat)
    requires forall i :: 0 <= i < |chunks| ==> |chunks[i]| == FrameSize(h)
    requires i < |ValidFrames(chunks, h, n, c)|
    ensures var frames := ValidFrames(chunks, h, n, c);
      && frames[i].offset == OffsetOf(h, n + i)
      && CheckFrame(h, chunks[i], OffsetOf(h, n + i), SumBefore(frames, i, c)) == Some(frames[i])
    decreases i
  {
    if i > 0 {
      FrameAt(chunks[1..], h, n + 1, ValidFrames(chunks, h, n, c)[0].sum, i - 1);
    }
  }

  /// Starting in the middle with the right seed reads exactly the remaining frames.
  lemma {:induction false} ResumeReadsTheRest(chunks: seq<seq<Byte>>, h: WalHeader, n: nat, c: Sum, k: nat)
    requires forall i :: 0 <= i < |chunks| ==> |chunks[i]| == FrameSize(h)
    requires k <= |ValidFrames(chunks, h, n, c)|
    ensures var frames := ValidFrames(chunks, h, n, c);
      ValidFrames(chunks[k..], h, n + k, SumBefore(frames, k, c)) == frames[k..]
    decreases k
  {
    if k > 0 {
      var frames := ValidFrames(chunks, h, n, c);
      ResumeReadsTheRest(chunks[1..], h, n + 1, frames[0].sum, k - 1);
      assert chunks[1..][k - 1..] == chunks[k..] && frames[1..][k - 1..] == frames[k..];
    }
  }

  /// A WAL that keeps the bytes of the first `k` frames keeps the frames.
  lemma {:induction false} FramesKept(was: seq<seq<Byte>>, chunks: seq<seq<Byte>>, h: WalHeader, n: nat, c: Sum, k: nat)
    requires forall i :: 0 <= i < |was| ==> |was[i]| == FrameSize(h)
    requires forall i :: 0 <= i < |chunks| ==> |chunks[i]| == FrameSize(h)
    requires k <= |ValidFrames(was, h, n, c)| && k <= |chunks| && forall i :: 0 <= i < k ==> was[i] == chunks[i]
    ensures k <= |ValidFrames(chunks, h, n, c)|
    ensures ValidFrames(chunks, h, n, c)[..k] == ValidFrames(was, h, n, c)[..k]
    decreases k
  {
    if k > 0 {
      FramesKept(was[1..], chunks[1..], h, n + 1, ValidFrames(was, h, n, c)[0].sum, k - 1);
    }
  }

  /// Chunk `i` of a WAL is its bytes from frame offset `i` on, and a tail has the chunks
  /// from there.
  lemma {:induction false} ChunksFrom(wal: seq<Byte>, h: WalHeader, k: nat)
    requires |wal| >= WAL_HEADER_SIZE && (OffsetOf(h, k) <= |wal| || k <= |ChunksOf(wal, h)|)
    ensures OffsetOf(h, k) <= |wal| && k <= |ChunksOf(wal, h)|
    ensures ChunksOf(wal, h)[k..] == Chunks(wal[OffsetOf(h, k)..], FrameSize(h))
  {
    if k > 0 {
      ChunksFrom(wal, h, k - 1);
      var at, size := OffsetOf(h, k - 1), FrameSize(h);
      assert wal[at..][size..] == wal[at + size..];
      var rest := ChunksOf(wal, h)[k - 1..];
      if rest != [] {
        assert rest[1..] == ChunksOf(wal, h)[k..];
      }
    }
  }

  lemma ChunkAt(wal: seq<Byte>, h: WalHeader, i: nat)
    requires |wal| >= WAL_HEADER_SIZE && i < |ChunksOf(wal, h)|
    ensures OffsetOf(h, i + 1) <= |wal| && ChunksOf(wal, h)[i] == wal[OffsetOf(h, i)..OffsetOf(h, i + 1)]
  {
    ChunksFrom(wal, h, i + 1);
    ChunksFrom(wal, h, i);
    assert ChunksOf(wal, h)[i] == ChunksOf(wal, h)[i..][0];
  }

  lemma ChunksKept(was: seq<Byte>, wal: seq<Byte>, h: WalHeader, k: nat)
    requires WAL_HEADER_SIZE <= |was| && WAL_HEADER_SIZE <= |wal|
    requires OffsetOf(h, k) <= |was| && OffsetOf(h, k) <= |wal| && was[..OffsetOf(h, k)] == wal[..OffsetOf(h, k)]
    ensures k <= |ChunksOf(was, h)| && k <= |ChunksOf(wal, h)|
    ensures forall i :: 0 <= i < k ==> ChunksOf(was, h)[i] == ChunksOf(wal, h)[i]
  {
    ChunksFrom(was, h, k);
    ChunksFrom(wal, h, k);
    forall i | 0 <= i < k ensures ChunksOf(was, h)[i] == ChunksOf(wal, h)[i] {
      ChunkAt(was, h, i);
      ChunkAt(wal, h, i);
      OffsetsAscend(h, i + 1, k);
      SubSlice(was, 0, OffsetOf(h, k), OffsetOf(h, i), OffsetOf(h, i + 1));
      SubSlice(wal, 0, OffsetOf(h, k), OffsetOf(h, i), OffsetOf(h, i + 1));
    }
  }

  /// The checksum stored with the frame before frame `k` is the seed to resume from.
  lemma StoredSumIsSeed(wal: seq<Byte>, h: WalHeader, k: nat)
    requires 0 < k <= |FramesOf(wal, h)|
    ensures var at := OffsetOf(h, k - 1);
      && at + FRAME_HEADER_SIZE <= |wal|
      && Field(wal, at + 8, 4) == h.salt1 && Field(wal, at + 12, 4) == h.salt2
      && Sum(Field(wal, at + 16, 4), Field(wal, at + 20, 4)) == FramesOf(wal, h)[k - 1].sum
  {
    var frames, chunk, at := FramesOf(wal, h), ChunksOf(wal, h)[k - 1], OffsetOf(h, k - 1);
    FrameAt(ChunksOf(wal, h), h, 0, h.sum, k - 1);
    StoredFields(h, chunk, at, SumBefore(frames, k - 1, h.sum), frames[k - 1]);
    ChunkAt(wal, h, k - 1);
    FieldsInPlace(wal, at, FrameSize(h));
  }

  lemma StoredFields(h: WalHeader, b: seq<Byte>, offset: nat, c: Sum, f: WalFrame)
    requires |b| == FrameSize(h) && CheckFrame(h, b, offset, c) == Some(f)
    ensures Field(b, 8, 4) == h.salt1 && Field(b, 12, 4) == h.salt2
    ensures Sum(Field(b, 16, 4), Field(b, 20, 4)) == f.sum
  {
  }

  lemma FieldsInPlace(wal: seq<Byte>, at: nat, size: nat)
    requires at + size <= |wal| && size >= FRAME_HEADER_SIZE
    ensures var b := wal[at..at + size];
      && Field(b, 8, 4) == Field(wal, at + 8, 4) && Field(b, 12, 4) == Field(wal, at + 12, 4)
      && Field(b, 16, 4) == Field(wal, at + 16, 4) && Field(b, 20, 4) == Field(wal, at + 20, 4)
  {
    SubSlice(wal, at, at + size, 8, 12);
    SubSlice(wal, at, at + size, 12, 16);
    SubSlice(wal, at, at + size, 16, 20);
    SubSlice(wal, at, at + size, 20, 24);
  }

  lemma FrameExtendsSum(h: WalHeader, b: seq<Byte>, offset: nat, c: Sum, f: WalFrame)
    requires |b| == FrameSize(h) && CheckFrame(h, b, offset, c) == Some(f)
    ensures f.sum == Checksum(h.order, c, Covered(b))
  {
    ChecksumComposes(h.order, c, b[..8], b[FRAME_HEADER_SIZE..]);
  }

  /// Each frame's checksum continues that of the frame before over its own bytes.
  /// Frame `i` stores the checksum of what it covers, continued from the frame before.
  ghost predicate SumAt(header: Sum, order: ByteOrder, frames: seq<WalFrame>, covered: seq<seq<Byte>>, i: nat)
    requires i < |frames| <= |covered|
  {
    frames[i].sum == Checksum(order, SumBefore(frames, i, header), covered[i])
  }

  ghost predicate SumsChain(header: Sum, order: ByteOrder, frames: seq<WalFrame>, covered: seq<seq<Byte>>)
    requires |frames| <= |covered|
  {
    forall i :: 0 <= i < |frames| ==> SumAt(header, order, frames, covered, i)
  }

  function CoveredAll(chunks: seq<seq<Byte>>): seq<seq<Byte>>
    requires forall i :: 0 <= i < |chunks| ==> |chunks[i]| >= FRAME_HEADER_SIZE
  {
    seq(|chunks|, i requires 0 <= i < |chunks| => Covered(chunks[i]))
  }

  lemma FramesChain(chunks: seq<seq<Byte>>, h: WalHeader)
    requires forall i :: 0 <= i < |chunks| ==> |chunks[i]| == FrameSize(h)
    ensures SumsChain(h.sum, h.order, ValidFrames(chunks, h, 0, h.sum), CoveredAll(chunks))
  {
    var frames := ValidFrames(chunks, h, 0, h.sum);
    forall i | 0 <= i < |frames| ensures SumAt(h.sum, h.order, frames, CoveredAll(chunks), i) {
      FrameAt(chunks, h, 0, h.sum, i);
      FrameExtendsSum(h, chunks[i], OffsetOf(h, i), SumBefore(frames, i, h.sum), frames[i]);
    }
  }

  ghost predicate Aligned(parts: seq<seq<Byte>>) {
    forall i :: 0 <= i < |parts| ==> AlignedAt(parts, i)
  }

  ghost predicate AlignedAt(parts: seq<seq<Byte>>, i: nat)
    requires i < |parts|
  {
    |parts[i]| % 8 == 0
  }

  lemma {:induction false} JoinedAligned(parts: seq<seq<Byte>>, k: nat)
    requires k <= |parts| && Aligned(parts)
    ensures |Joined(parts, k)| % 8 == 0
  {
    if k > 0 {
      JoinedAligned(parts, k - 1);
      assert AlignedAt(parts, k - 1);
    }
  }

  lemma ChainStep(header: Sum, order: ByteOrder, frames: seq<WalFrame>, covered: seq<seq<Byte>>, i: nat,
    sofar: seq<Byte>,
    next: seq<Byte>)
    requires i < |frames| <= |covered| && SumAt(header, order, frames, covered, i) && |sofar| % 8 == 0
    requires next == sofar + covered[i]
    requires SumBefore(frames, i, header) == Checksum(order, header, sofar)
    ensures frames[i].sum == Checksum(order, header, next)
  {
    ChecksumComposes(order, header, sofar, covered[i]);
  }

  lemma {:induction false} ChainedSum(
    header: Sum, order: ByteOrder, frames: seq<WalFrame>, covered: seq<seq<Byte>>, k: nat, joined: seq<Byte>)
    requires k <= |frames| <= |covered| && SumsChain(header, order, frames, covered)
    requires Aligned(covered)
    requires joined == Joined(covered, k)
    ensures SumBefore(frames, k, header) == Checksum(order, header, joined)
    decreases k
  {
    if k > 0 {
      var sofar := Joined(covered, k - 1);
      ChainedSum(header, order, frames, covered, k - 1, sofar);
      JoinedAligned(covered, k - 1);
      assert SumAt(header, order, frames, covered, k - 1);
      ChainStep(header, order, frames, covered, k - 1, sofar, joined);
    }
  }

  /// Reading only the tail of the file, from a frame boundary and with the right seed, finds
  /// exactly the frames still to come.
  lemma TailIsTheRest(wal: seq<Byte>, h: WalHeader, n: nat, seed: Sum)
    requires WAL_HEADER_SIZE <= |wal| && n <= |FramesOf(wal, h)| && seed == SumBefore(FramesOf(wal, h), n, h.sum)
    ensures OffsetOf(h, n) <= |wal|
    ensures ValidFrames(Chunks(wal[OffsetOf(h, n)..], FrameSize(h)), h, n, seed) == FramesOf(wal, h)[n..]
  {
    ResumeReadsTheRest(ChunksOf(wal, h), h, 0, h.sum, n);
    ChunksFrom(wal, h, n);
  }

  /// What vouches for a frame: its checksum is that of the header's first 24 bytes and of
  /// every frame so far, as one run from zero.
  lemma ChecksumSpansTheWal(wal: seq<Byte>, h: WalHeader, k: nat)
    requires |wal| >= WAL_HEADER_SIZE && h.pageSize % 8 == 0 && h.sum == Checksum(h.order, Sum(0, 0), wal[..24])
    requires 0 < k <= |FramesOf(wal, h)|
    ensures FramesOf(wal, h)[k - 1].sum ==
      Checksum(h.order, Sum(0, 0), wal[..24] + Joined(CoveredAll(ChunksOf(wal, h)), k))
  {
    FramesChain(ChunksOf(wal, h), h);
    var covered := CoveredAll(ChunksOf(wal, h));
    ChainedSum(h.sum, h.order, FramesOf(wal, h), covered, k, Joined(covered, k));
    ChecksumComposes(h.order, Sum(0, 0), wal[..24], Joined(CoveredAll(ChunksOf(wal, h)), k));
  }

  // --- What the page map holds -------------------------------------------------------------------

  /// How many frames there are up to and including the last commit frame.
  ghost function CommittedCount(frames: seq<WalFrame>): (k: nat)
    ensures k <= |frames|
    ensures k > 0 ==> frames[k - 1].commit != 0
    ensures forall i :: k <= i < |frames| ==> frames[i].commit == 0
  {
    if frames == [] then 0
    else if frames[|frames| - 1].commit != 0 then |frames|
    else CommittedCount(frames[..|frames| - 1])
  }

  /// The newest frame of each page.
  ghost function Offsets(frames: seq<WalFrame>): map<nat, nat> {
    if frames == [] then map[]
    else Offsets(frames[..|frames| - 1])[frames[|frames| - 1].pgno := frames[|frames| - 1].offset]
  }

  /// Frames after the last commit frame belong to no transaction.
  lemma {:induction false} UncommittedDropped(frames: seq<WalFrame>)
    ensures var done := frames[..CommittedCount(frames)];
      Transactions(frames) == Transactions(done) && Scan(done).pending == map[]
    ensures Transactions(frames) == [] <==> CommittedCount(frames) == 0
    ensures CommittedCount(frames) > 0 ==>
      CommitAt(Transactions(frames), |Transactions(frames)|) == frames[CommittedCount(frames) - 1].commit
  {
    if frames != [] {
      var init := frames[..|frames| - 1];
      UncommittedDropped(init);
      if frames[|frames| - 1].commit == 0 {
        assert init[..CommittedCount(frames)] == frames[..CommittedCount(frames)];
      } else {
        assert frames[..|frames|] == frames;
      }
    }
  }

  lemma {:induction false} OffsetsAreNewest(frames: seq<WalFrame>)
    ensures Offsets(frames) == Newest(Transactions(frames), 1, |Transactions(frames)|) + Scan(frames).pending
  {
    if frames != [] {
      var init, f := frames[..|frames| - 1], frames[|frames| - 1];
      OffsetsAreNewest(init);
      var log := Scan(init);
      var older := Newest(log.txs, 1, |log.txs|);
      LaidOver(older, log.pending, f.pgno, f.offset);
      if f.commit != 0 {
        NewestOfOneMore(log.txs, Tx(log.pending[f.pgno := f.offset], f.commit));
        LaidOver(older + log.pending[f.pgno := f.offset], map[], f.pgno, f.offset);
      }
    }
  }

  /// Frame by frame: `page_map` holds the newest offset of each page among the frames up to
  /// the last commit frame, without the pages past the size it commits.
  lemma PageMapIsNewestOffsets(m: PageMap, frames: seq<WalFrame>, frameSize: nat)
    requires IsPageMap(m, frames, frameSize)
    ensures var k := CommittedCount(frames);
      && m.commit == (if k == 0 then 0 else frames[k - 1].commit)
      && m.pages == Trim(Offsets(frames[..k]), m.commit)
  {
    var k := CommittedCount(frames);
    UncommittedDropped(frames);
    OffsetsAreNewest(frames[..k]);
    var txs := Transactions(frames);
    assert Newest(txs, 1, |txs|) + map[] == Newest(txs, 1, |txs|);
  }

  ghost predicate Ascending(frames: seq<WalFrame>) {
    forall i, j :: 0 <= i < j < |frames| ==> frames[i].offset < frames[j].offset
  }

  lemma {:induction false} OffsetsBounded(frames: seq<WalFrame>, last: nat)
    requires forall i :: 0 <= i < |frames| ==> frames[i].offset <= last
    ensures forall p :: p in Offsets(frames) ==> Offsets(frames)[p] <= last
    ensures frames != [] ==>
      && frames[|frames| - 1].pgno in Offsets(frames)
      && Offsets(frames)[frames[|frames| - 1].pgno] == frames[|frames| - 1].offset
    ensures forall p :: p in Offsets(frames) ==> exists i :: 0 <= i < |frames| && IsAt(frames, i, p, Offsets(frames)[p])
  {
    if frames != [] {
      var n := |frames| - 1;
      var init := frames[..n];
      OffsetsBounded(init, last);
      forall p | p in Offsets(frames) ensures exists i :: 0 <= i < |frames| && IsAt(frames, i, p, Offsets(frames)[p]) {
        if p == frames[n].pgno {
          assert IsAt(frames, n, p, Offsets(frames)[p]);
        } else {
          var i :| 0 <= i < |init| && IsAt(init, i, p, Offsets(init)[p]);
          assert IsAt(frames, i, p, Offsets(frames)[p]);
        }
      }
    }
  }

  ghost predicate IsAt(frames: seq<WalFrame>, i: nat, p: nat, offset: nat)
    requires i < |frames|
  {
    frames[i].pgno == p && frames[i].offset == offset
  }

  /// `end_offset` never passes the last commit frame, and is exactly its end if and only if
  /// that frame's page lies inside the database it commits.
  lemma EndOffsetExact(m: PageMap, frames: seq<WalFrame>, frameSize: nat)
    requires IsPageMap(m, frames, frameSize) && Ascending(frames) && CommittedCount(frames) > 0
    requires frameSize > 0
    ensures var last := frames[CommittedCount(frames) - 1];
      && m.endOffset <= last.offset + frameSize
      && (m.endOffset == last.offset + frameSize <==> last.pgno <= last.commit)
  {
    var k := CommittedCount(frames);
    var last, done := frames[k - 1], frames[..k];
    PageMapIsNewestOffsets(m, frames, frameSize);
    OffsetsBounded(done, last.offset);
    assert last.pgno in Offsets(done) && Offsets(done)[last.pgno] == last.offset;
    assert last.pgno <= last.commit <==> last.pgno in m.pages;
    if m.pages != map[] {
      var p :| p in m.pages && m.endOffset == m.pages[p] + frameSize &&
        forall q :: q in m.pages ==> m.pages[q] <= m.pages[p];
      LastIfHighest(frames, k, p, m.pages[p]);
    }
  }

  /// Only the last of ascending frames has the offset it has.
  lemma LastIfHighest(frames: seq<WalFrame>, k: nat, p: nat, offset: nat)
    requires Ascending(frames) && 0 < k <= |frames| && p in Offsets(frames[..k]) && offset == Offsets(frames[..k])[p]
    ensures offset == frames[k - 1].offset ==> p == frames[k - 1].pgno
  {
    OffsetsBounded(frames[..k], frames[k - 1].offset);
    var i :| 0 <= i < k && IsAt(frames[..k], i, p, offset);
    assert frames[..k][i] == frames[i];
  }

  // --- Reading in slices -----------------------------------------------------------------------------

  /// SQLite's promise: a commit frame carries a page inside the database it commits.
  ghost predicate CommitsInside(frames: seq<WalFrame>) {
    forall f :: f in frames && f.commit != 0 ==> 1 <= f.pgno <= f.commit
  }

  /// Appending to a WAL keeps its committed frames.
  ghost predicate Extended(wal: seq<Byte>, next: seq<Byte>, h: WalHeader) {
    var end := OffsetOf(h, CommittedCount(FramesOf(wal, h)));
    WAL_HEADER_SIZE <= end <= |wal| && end <= |next| && wal[..end] == next[..end]
  }

  ghost predicate ExtendedAt(wals: seq<seq<Byte>>, i: nat, h: WalHeader)
    requires 0 < i < |wals|
  {
    Extended(wals[i - 1], wals[i], h)
  }

  lemma {:induction false} ScanSplit(a: seq<WalFrame>, b: seq<WalFrame>)
    requires Scan(a).pending == map[] && CommittedCount(a) == |a|
    ensures Transactions(a + b) == Transactions(a) + Transactions(b)
    ensures Scan(a + b).pending == Scan(b).pending
    ensures CommittedCount(a + b) == |a| + CommittedCount(b)
  {
    if b == [] {
      assert a + b == a;
    } else {
      var n := |b| - 1;
      assert (a + b)[..|a| + n] == a + b[..n];
      ScanSplit(a, b[..n]);
    }
  }

  lemma {:induction false} NewestShift<V>(a: History<V>, b: History<V>, j: nat)
    requires j <= |b|
    ensures Newest(a + b, |a| + 1, |a| + j) == Newest(b, 1, j)
    ensures j > 0 ==> CommitAt(a + b, |a| + j) == CommitAt(b, j)
  {
    if j > 0 {
      NewestShift(a, b, j - 1);
    }
  }

  /// Laying the next slice over what the earlier ones gave, within one history.
  lemma OverlaySlice(h: History<nat>, lock: nat, t: nat)
    requires WellFormed(h, lock) && 2 <= t < |h|
    ensures Trim(Summary(h, 2, t) + Summary(h, t + 1, |h|), CommitAt(h, |h|)) == Summary(h, 2, |h|)
  {
    var a := LtxFile(2, t, CommitAt(h, t), Summary(h, 2, t));
    var b := LtxFile(t + 1, |h|, CommitAt(h, |h|), Summary(h, t + 1, |h|));
    var files := [a, b];
    assert files[..1] == [a] && [a][..0] == [];
    assert Override([a]) == map[] + a.pages;
    assert AdjoinsAt(files, 1);
    MergeIsSummary(h, lock, files, 0);
  }

  lemma SummaryWithin(a: History<nat>, b: History<nat>, c: History<nat>)
    ensures Summary(a + (b + c), |a| + 1, |a| + |b|) == Summary(b, 1, |b|)
    ensures b != [] ==> CommitAt(a + (b + c), |a| + |b|) == CommitAt(b, |b|)
  {
    NewestShift(a, b, |b|);
    assert a + (b + c) == (a + b) + c;
    PrefixStable(a + b, a + (b + c), |a| + 1, |a| + |b|, 0);
  }

  lemma Regrouped(a: History<nat>, b: History<nat>, c: History<nat>)
    ensures a + (b + c) == (a + b) + (c + []) && a + (b + c) == a + ((b + c) + [])
  {
  }

  lemma SlicesOverlay(database: Tx<nat>, txs: History<nat>, more: History<nat>, lock: nat)
    requires WellFormed([database] + (txs + more), lock) && more != []
    ensures Trim(Summary(txs, 1, |txs|) + Summary(more, 1, |more|), CommitAt(more, |more|))
      == Summary(txs + more, 1, |txs + more|)
  {
    var h := [database] + (txs + more);
    if txs == [] {
      assert txs + more == more;
      assert Summary(txs, 1, 0) == map[];
    } else {
      Regrouped([database], txs, more);
      SummaryWithin([database], txs, more);
      SummaryWithin([database] + txs, more, []);
      SummaryWithin([database], txs + more, []);
      OverlaySlice(h, lock, |txs| + 1);
    }
  }

  /// One `from_tail` read of a WAL from frame boundary `offset` on, as `build_incremental`
  /// makes it: seeded with the checksum stored in the frame before.
  method ReadSlice(h: WalHeader, wal: seq<Byte>, offset: nat) returns (r: Parsed<PageMap>)
    requires WAL_HEADER_SIZE <= offset <= |wal|
    ensures r.Bad? ==>
      (offset - WAL_HEADER_SIZE) % FrameSize(h) != 0 ||
      |FramesOf(wal, h)| < (offset - WAL_HEADER_SIZE) / FrameSize(h)
    ensures r.Good? ==> (offset - WAL_HEADER_SIZE) % FrameSize(h) == 0
    ensures r.Good? && (offset - WAL_HEADER_SIZE) / FrameSize(h) <= |FramesOf(wal, h)| ==>
      IsPageMap(r.value, FramesOf(wal, h)[(offset - WAL_HEADER_SIZE) / FrameSize(h)..], FrameSize(h))
  {
    var size := FrameSize(h);
    if (offset - WAL_HEADER_SIZE) % size != 0 {
      return Bad(UnalignedOffset);
    }
    var n := (offset - WAL_HEADER_SIZE) / size;
    OffsetIsAligned(h, n);
    assert offset == OffsetOf(h, n);
    var seed := h.sum;
    if n > 0 {
      if n <= |FramesOf(wal, h)| {
        StoredSumIsSeed(wal, h, n);
      }
      var at := offset - size;
      if Field(wal, at + 8, 4) != h.salt1 || Field(wal, at + 12, 4) != h.salt2 {
        return Bad(PrevFrameMismatch);
      }
      seed := Sum(Field(wal, at + 16, 4), Field(wal, at + 20, 4));
    }
    if n <= |FramesOf(wal, h)| {
      TailIsTheRest(wal, h, n, seed);
    }
    var reader := new WalReader.FromTail(h, wal[offset..], n, seed);
    assert reader.data[OffsetOf(h, n) - reader.base..] == wal[offset..];
    var m := reader.ReadPageMap();
    return Good(m);
  }

  /// `m` is what the transactions `txs` leave, read up to `offset`.
  ghost predicate CapturedAs(m: PageMap, txs: History<nat>, offset: nat) {
    m.pages == Summary(txs, 1, |txs|) && m.commit == CommitAt(txs, |txs|) && m.endOffset == offset
  }

  /// What has been captured of a WAL: all its committed frames.
  ghost predicate Captured(wal: seq<Byte>, h: WalHeader, m: PageMap) {
    CapturedAs(m, Transactions(FramesOf(wal, h)), OffsetOf(h, CommittedCount(FramesOf(wal, h))))
  }

  /// The next read of the WAL, laid over what was captured before.
  method CaptureMore(h: WalHeader, ghost was: seq<Byte>, wal: seq<Byte>, sofar: PageMap, ghost database: Tx<nat>,
    ghost lock: nat)
    returns (r: Parsed<PageMap>)
    requires Captured(was, h, sofar) && Extended(was, wal, h)
    requires CommitsInside(FramesOf(wal, h)) && WellFormed([database] + Transactions(FramesOf(wal, h)), lock)
    ensures r.Good? && Captured(wal, h, r.value)
  {
    ghost var k := ResumesAtBoundary(h, was, wal, sofar);
    var slice := ReadSlice(h, wal, sofar.endOffset);
    SliceCaptures(h, wal, k, Transactions(FramesOf(was, h)), sofar, slice.value, database, lock);
    return Good(LaidTogether(sofar, slice.value));
  }

  lemma ResumesAtBoundary(h: WalHeader, was: seq<Byte>, wal: seq<Byte>, sofar: PageMap) returns (k: nat)
    requires Captured(was, h, sofar) && Extended(was, wal, h)
    ensures k == CommittedCount(FramesOf(was, h)) <= |FramesOf(wal, h)|
    ensures var rest := FramesOf(wal, h)[k..];
      && Transactions(FramesOf(wal, h)) == Transactions(FramesOf(was, h)) + Transactions(rest)
      && CommittedCount(FramesOf(wal, h)) == k + CommittedCount(rest)
    ensures WAL_HEADER_SIZE <= sofar.endOffset <= |wal|
    ensures (sofar.endOffset - WAL_HEADER_SIZE) % FrameSize(h) == 0 &&
      (sofar.endOffset - WAL_HEADER_SIZE) / FrameSize(h) == k
  {
    k := CommittedCount(FramesOf(was, h));
    CapturedIsKept(h, was, wal);
    OffsetIsAligned(h, k);
  }

  lemma SliceCaptures(h: WalHeader, wal: seq<Byte>, k: nat, txs: History<nat>, sofar: PageMap, m: PageMap,
    database: Tx<nat>, lock: nat)
    requires CapturedAs(sofar, txs, OffsetOf(h, k)) && k <= |FramesOf(wal, h)|
    requires Transactions(FramesOf(wal, h)) == txs + Transactions(FramesOf(wal, h)[k..])
    requires CommittedCount(FramesOf(wal, h)) == k + CommittedCount(FramesOf(wal, h)[k..])
    requires CommitsInside(FramesOf(wal, h)) && WellFormed([database] + Transactions(FramesOf(wal, h)), lock)
    requires IsPageMap(m, FramesOf(wal, h)[k..], FrameSize(h))
    ensures Captured(wal, h, LaidTogether(sofar, m))
  {
    var frames := FramesOf(wal, h);
    SliceEnds(h, wal, k, m);
    SliceJoins(h, sofar, m, txs, Transactions(frames[k..]), Transactions(frames), k, CommittedCount(frames[k..]),
      database, lock);
  }

  lemma SliceJoins(h: WalHeader, sofar: PageMap, m: PageMap, txs: History<nat>, more: History<nat>,
    whole: History<nat>, k: nat, j: nat,
    database: Tx<nat>, lock: nat)
    requires CapturedAs(sofar, txs, OffsetOf(h, k)) && m.pages == Summary(more, 1, |more|) &&
      m.commit == CommitAt(more, |more|)
    requires m.pages == map[] <==> more == []
    requires more == [] ==> j == 0
    requires more != [] ==> m.endOffset == OffsetOf(h, k + j)
    requires whole == txs + more && WellFormed([database] + whole, lock)
    ensures CapturedAs(LaidTogether(sofar, m), whole, OffsetOf(h, k + j))
  {
    SlicesJoin(sofar, m, txs, more, whole, database, lock);
  }

  /// A later slice over the pages so far; an empty slice changes nothing.
  function LaidTogether(sofar: PageMap, m: PageMap): PageMap {
    if m.pages == map[] then sofar else PageMap(Trim(sofar.pages + m.pages, m.commit), m.commit, m.endOffset)
  }

  lemma SlicesJoin(sofar: PageMap, m: PageMap, txs: History<nat>, more: History<nat>, whole: History<nat>,
    database: Tx<nat>, lock: nat)
    requires CapturedAs(sofar, txs, sofar.endOffset) && CapturedAs(m, more, m.endOffset)
    requires m.pages == map[] <==> more == []
    requires whole == txs + more && WellFormed([database] + whole, lock)
    ensures CapturedAs(LaidTogether(sofar, m), whole, if more == [] then sofar.endOffset else m.endOffset)
  {
    if more == [] {
      assert whole == txs;
    } else {
      SlicesOverlay(database, txs, more, lock);
      NewestShift(txs, more, |more|);
    }
  }

  /// The frames of a longer WAL are those captured, then those still to be read.
  lemma CapturedIsKept(h: WalHeader, was: seq<Byte>, wal: seq<Byte>)
    requires Extended(was, wal, h)
    ensures var k, frames := CommittedCount(FramesOf(was, h)), FramesOf(wal, h);
      && k <= |frames|
      && Transactions(frames) == Transactions(FramesOf(was, h)) + Transactions(frames[k..])
      && CommittedCount(frames) == k + CommittedCount(frames[k..])
  {
    var k, frames := CommittedCount(FramesOf(was, h)), FramesOf(wal, h);
    ChunksKept(was, wal, h, k);
    FramesKept(ChunksOf(was, h), ChunksOf(wal, h), h, 0, h.sum, k);
    UncommittedDropped(FramesOf(was, h));
    assert CommittedCount(frames[..k]) == k;
    ScanSplit(frames[..k], frames[k..]);
    assert frames[..k] + frames[k..] == frames;
  }

  /// A slice is empty exactly when nothing more was committed, and otherwise ends exactly
  /// with the last commit frame.
  lemma SliceEnds(h: WalHeader, wal: seq<Byte>, k: nat, m: PageMap)
    requires k <= |FramesOf(wal, h)| && CommitsInside(FramesOf(wal, h))
    requires IsPageMap(m, FramesOf(wal, h)[k..], FrameSize(h))
    ensures var rest := FramesOf(wal, h)[k..];
      && (m.pages == map[] <==> Transactions(rest) == [])
      && (m.pages == map[] <==> CommittedCount(rest) == 0)
      && (m.pages != map[] ==> m.endOffset == OffsetOf(h, k + CommittedCount(rest)))
  {
    var rest := FramesOf(wal, h)[k..];
    UncommittedDropped(rest);
    PageMapIsNewestOffsets(m, rest, FrameSize(h));
    if CommittedCount(rest) > 0 {
      RestAscends(wal, h, k);
      FrameOffset(wal, h, k + CommittedCount(rest) - 1);
      LastCommitInside(rest, m, FrameSize(h));
    }
  }

  lemma LastCommitInside(frames: seq<WalFrame>, m: PageMap, frameSize: nat)
    requires IsPageMap(m, frames, frameSize) && Ascending(frames) && CommittedCount(frames) > 0 && frameSize > 0
    requires CommitsInside(frames)
    ensures m.pages != map[] && m.endOffset == frames[CommittedCount(frames) - 1].offset + frameSize
  {
    var j := CommittedCount(frames);
    assert frames[j - 1] in frames;
    EndOffsetExact(m, frames, frameSize);
    PageMapIsNewestOffsets(m, frames, frameSize);
    OffsetsBounded(frames[..j], frames[j - 1].offset);
    assert frames[..j][j - 1].pgno in m.pages;
  }

  lemma FrameOffset(wal: seq<Byte>, h: WalHeader, i: nat)
    requires i < |FramesOf(wal, h)|
    ensures FramesOf(wal, h)[i].offset == OffsetOf(h, i)
  {
    FrameAt(ChunksOf(wal, h), h, 0, h.sum, i);
  }

  lemma FramesAscend(wal: seq<Byte>, h: WalHeader, i: nat, j: nat)
    requires i < j < |FramesOf(wal, h)|
    ensures FramesOf(wal, h)[i].offset < FramesOf(wal, h)[j].offset
  {
    FrameOffset(wal, h, i);
    FrameOffset(wal, h, j);
    OffsetsAscend(h, i, j);
  }

  lemma RestAscends(wal: seq<Byte>, h: WalHeader, k: nat)
    requires k <= |FramesOf(wal, h)|
    ensures Ascending(FramesOf(wal, h)[k..])
  {
    var rest := FramesOf(wal, h)[k..];
    forall a, b | 0 <= a < b < |rest| ensures rest[a].offset < rest[b].offset {
      FramesAscend(wal, h, k + a, k + b);
    }
  }

  /// Reading a growing WAL in any number of slices, each starting where the last one ended
  /// and seeded with the checksum stored there, and laying each slice over the earlier ones,
  /// finds exactly what one read of the whole WAL would.
  method ReadInSlices(h: WalHeader, wals: seq<seq<Byte>>, ghost database: Tx<nat>, ghost lock: nat)
    returns (r: Parsed<PageMap>)
    requires wals != [] && forall i :: 0 < i < |wals| ==> ExtendedAt(wals, i, h)
    requires |wals[0]| >= WAL_HEADER_SIZE
    requires forall i :: 0 <= i < |wals| ==> CommitsInside(FramesOf(wals[i], h))
    requires forall i :: 0 <= i < |wals| ==> WellFormed([database] + Transactions(FramesOf(wals[i], h)), lock)
    ensures r.Good? && Captured(wals[|wals| - 1], h, r.value)
  {
    ghost var was := wals[0][..WAL_HEADER_SIZE];
    var m := PageMap(map[], 0, WAL_HEADER_SIZE);
    assert FramesOf(was, h) == [];
    for i := 0 to |wals|
      invariant Captured(was, h, m)
      invariant i < |wals| ==> Extended(was, wals[i], h)
      invariant i > 0 ==> was == wals[i - 1]
    {
      var slice := CaptureMore(h, was, wals[i], m, database, lock);
      m := slice.value;
      was := wals[i];
      assert i + 1 < |wals| ==> ExtendedAt(wals, i + 1, h);
    }
    return Good(m);
  }
}
