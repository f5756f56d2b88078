/// The LTX format pinned byte by byte (src/ltx/format.rs, src/ltx/encoder.rs,
/// src/ltx/decoder.rs): what each part of a file looks like, and exactly what is accepted.

module FormatExact {
  import opened Bytes
  import opened LtxFiles
  import opened Options
  import opened Varint
  import opened Codec
  import opened Decoder

  // --- Varints -------------------------------------------------------------------------------

  /// The number whose base-128 digits, least significant first, are the low seven bits.
  ghost function Weigh(b: seq<Byte>): nat {
    if b == [] then 0 else b[0] % 128 + 128 * Weigh(b[1..])
  }

  /// A number is written in its base-128 digits, least significant first and none to spare;
  /// the high bit is set on all but the last.
  lemma {:induction false} VarintIsLeb128(v: nat)
    ensures Weigh(Uvarint(v)) == v
    ensures forall i :: 0 <= i < |Uvarint(v)| ==> (Uvarint(v)[i] >= 128 <==> i < |Uvarint(v)| - 1)
    ensures |Uvarint(v)| > 1 ==> Uvarint(v)[|Uvarint(v)| - 1] > 0
    decreases v
  {
    if v >= 128 {
      VarintIsLeb128(v / 128);
      var b, rest := Uvarint(v), Uvarint(v / 128);
      assert b[1..] == rest;
      forall i | 0 <= i < |b| ensures b[i] >= 128 <==> i < |b| - 1 {
        assert i > 0 ==> b[i] == rest[i - 1];
      }
    } else {
      assert Uvarint(v)[1..] == [];
    }
  }

  /// An index entry is its page number, its offset and its size, in that order.
  lemma EntryNumbers(e: Frame<Slot>)
    ensures var (b, n, m) := (EntryBytes(e), |Uvarint(e.pgno)|, |Uvarint(e.data.offset)|);
      && n + m <= |b|
      && Uvalue(b) == Some((e.pgno, n))
      && Uvalue(b[n..]) == Some((e.data.offset, m))
      && Uvalue(b[n + m..]) == Some((e.data.size, |b| - n - m))
  {
    var p, o, s := Uvarint(e.pgno), Uvarint(e.data.offset), Uvarint(e.data.size);
    UvarintRoundTrip(e.pgno, o + s);
    UvarintRoundTrip(e.data.offset, s);
    UvarintRoundTrip(e.data.size, []);
    Associates(p, o, s);
    assert s + [] == s;
    assert (p + o + s)[|p| + |o|..] == s;
  }

  // --- The header ------------------------------------------------------------------------------

  /// Signed fields are two's complement.
  lemma TwosComplement(v: int)
    requires -I64 <= v < I64
    ensures AsUnsigned(v) == v % 0x1_0000_0000_0000_0000 && AsSigned(AsUnsigned(v)) == v
  {
  }

  /// A header is read from exactly the bytes that start with the magic and its fields, each
  /// big-endian and in its place, with 20 reserved bytes behind them, if the page size is valid.
  lemma HeaderIsExact(b: seq<Byte>, h: Header)
    requires Representable(h)
    ensures DecodeHeader(b) == Fine(h) <==>
      && |b| >= HEADER_SIZE && IsPageSize(h.pageSize)
      && b[..4] == [0x4C, 0x54, 0x58, 0x31] && b[4..80] == Pack(HeaderFields(h))
  {
    if |b| >= HEADER_SIZE {
      var fs := HeaderFields(h);
      HeaderStarts(h);
      PackStandsExactly(b, 4, fs, Pack(fs));
      FieldsAre(b, h);
      assert b[0..4] == b[..4];
    }
  }

  ghost predicate FieldsOf(b: seq<Byte>, h: Header)
    requires |b| >= HEADER_SIZE
  {
    && Field(b, 4, 4) == h.flags && Field(b, 8, 4) == h.pageSize && Field(b, 12, 4) == h.commit
    && Field(b, 16, 8) == h.minTxid && Field(b, 24, 8) == h.maxTxid && AsSigned(Field(b, 32, 8)) == h.timestamp
    && Field(b, 40, 8) == h.preApply && AsSigned(Field(b, 48, 8)) == h.walOffset
    && AsSigned(Field(b, 56, 8)) == h.walSize
    && Field(b, 64, 4) == h.salt1 && Field(b, 68, 4) == h.salt2 && Field(b, 72, 8) == h.nodeId
  }

  lemma FieldsAre(b: seq<Byte>, h: Header)
    requires Representable(h) && |b| >= HEADER_SIZE
    ensures var fs := HeaderFields(h);
      (forall k :: 0 <= k < 12 ==> ReadsAt(b, 4, fs, k)) <==> FieldsOf(b, h)
  {
    var fs := HeaderFields(h);
    HeaderStarts(h);
    Limits();
    if forall k :: 0 <= k < 12 ==> ReadsAt(b, 4, fs, k) {
      HeaderFieldsRead(h, b);
    }
    if FieldsOf(b, h) {
      SignedReads(Field(b, 32, 8), h.timestamp);
      SignedReads(Field(b, 48, 8), h.walOffset);
      SignedReads(Field(b, 56, 8), h.walSize);
      forall k | 0 <= k < 12 ensures ReadsAt(b, 4, fs, k) {
        FieldIsAt(b, h, k);
      }
    }
  }

  lemma SignedReads(u: nat, v: int)
    requires u < U64 && -I64 <= v < I64 && AsSigned(u) == v
    ensures u == AsUnsigned(v)
  {
  }

  lemma FieldIsAt(b: seq<Byte>, h: Header, k: nat)
    requires Representable(h) && |b| >= HEADER_SIZE && k < 12 && FieldsOf(b, h)
    requires Field(b, 32, 8) == AsUnsigned(h.timestamp)
    requires Field(b, 48, 8) == AsUnsigned(h.walOffset) && Field(b, 56, 8) == AsUnsigned(h.walSize)
    ensures ReadsAt(b, 4, HeaderFields(h), k)
  {
    HeaderStarts(h);
  }

  // --- What the encoder accepts ------------------------------------------------------------------

  /// The page a snapshot has at place `i`: the `i`-th, the lock page not counted.
  function SnapshotPgno(lock: nat, i: nat): nat {
    if i + 1 < lock then i + 1 else i + 2
  }

  /// Exactly these files are written: a valid page size, TXIDs in order and none of them 0, no
  /// checksum before a snapshot; every page of full length, inside the database, not the lock
  /// page, and further on than the one before; and a snapshot's pages one after the other from
  /// page 1, only the lock page skipped.
  lemma WritableExactly(h: Header, pages: seq<Page>)
    ensures Writable(h, pages) <==>
      && IsPageSize(h.pageSize) && 1 <= h.minTxid <= h.maxTxid && (h.minTxid == 1 ==> h.preApply == 0)
      && (forall i :: 0 <= i < |pages| ==>
          && |pages[i].data| == h.pageSize && 1 <= pages[i].pgno <= h.commit
          && pages[i].pgno != LockPgno(h.pageSize))
      && (forall i, j :: 0 <= i < j < |pages| ==> pages[i].pgno < pages[j].pgno)
      && (h.minTxid == 1 ==>
          forall i :: 0 <= i < |pages| ==> pages[i].pgno == SnapshotPgno(LockPgno(h.pageSize), i))
  {
    if Writable(h, pages) {
      AcceptedAscend(h, pages);
      forall i | 0 <= i < |pages|
        ensures |pages[i].data| == h.pageSize && 1 <= pages[i].pgno <= h.commit
        ensures pages[i].pgno != LockPgno(h.pageSize)
      {
        assert PageAccepted(h, pages, i);
      }
      if h.minTxid == 1 {
        SnapshotPages(h, pages);
      }
    } else if IsPageSize(h.pageSize) && Validate(h).Fine? {
      var i :| 0 <= i < |pages| && !PageAccepted(h, pages, i);
      LockIsLarge(h.pageSize);
      RefusedPage(h, pages, i);
    }
  }

  /// A refused page is not what a file like this has in its place.
  lemma RefusedPage(h: Header, pages: seq<Page>, i: nat)
    requires IsPageSize(h.pageSize) && i < |pages| && !PageAccepted(h, pages, i) && LockPgno(h.pageSize) > 2
    ensures var lock := LockPgno(h.pageSize);
      || |pages[i].data| != h.pageSize || pages[i].pgno == 0 || pages[i].pgno > h.commit || pages[i].pgno == lock
      || (i > 0 && pages[i - 1].pgno >= pages[i].pgno)
      || (h.minTxid == 1 && pages[i].pgno != SnapshotPgno(lock, i))
      || (h.minTxid == 1 && i > 0 && pages[i - 1].pgno != SnapshotPgno(lock, i - 1))
  {
  }

  lemma SnapshotPages(h: Header, pages: seq<Page>)
    requires Writable(h, pages) && h.minTxid == 1
    ensures forall i :: 0 <= i < |pages| ==> pages[i].pgno == SnapshotPgno(LockPgno(h.pageSize), i)
  {
    LockIsLarge(h.pageSize);
    var i := 0;
    while i < |pages|
      invariant i <= |pages|
      invariant forall k :: 0 <= k < i ==> pages[k].pgno == SnapshotPgno(LockPgno(h.pageSize), k)
    {
      assert PageAccepted(h, pages, i);
      i := i + 1;
    }
  }

  // --- Page frames -----------------------------------------------------------------------------------

  /// A written frame is the page number, two zero bytes, and the packed page.
  lemma FrameStarts(lz: Lz4, p: Page)
    requires p.pgno < Limit(4)
    ensures var b := FrameBytes(lz, p);
      |b| >= 6 && Field(b, 0, 4) == p.pgno && b[4] == 0 && b[5] == 0 && b[6..] == lz.pack(p.data)
  {
    PageHeaderReads(p.pgno, lz.pack(p.data));
  }

  /// A frame in the older framing: an odd flag, then the packed length, then the packed page,
  /// whatever follows it.
  lemma BlockFrameReads(lz: Lz4, pgno: nat, flag: nat, packed: seq<Byte>, rest: seq<Byte>, pageSize: nat)
    requires pgno < Limit(4) && flag < Limit(2) && flag % 2 == 1 && |packed| < Limit(4)
    ensures DecodePageFrame(lz, ToBe(pgno, 4) + ToBe(flag, 2) + ToBe(|packed|, 4) + packed + rest, pageSize) ==
      match lz.unpackBlock(packed, pageSize)
      case Some(data) => Fine(Frame(pgno, data))
      case None => Wrong(UnsupportedPage)
  {
    var p, f, n := ToBe(pgno, 4), ToBe(flag, 2), ToBe(|packed|, 4);
    BeRoundTrip(pgno, 4);
    BeRoundTrip(flag, 2);
    BeRoundTrip(|packed|, 4);
    BlockParts(p, f, n, packed, rest);
    BlockReads(lz, p + f + n + packed + rest, n + packed + rest, pgno, flag, packed, pageSize);
  }

  lemma BlockReads(lz: Lz4, frame: seq<Byte>, body: seq<Byte>, pgno: nat, flag: nat, packed: seq<Byte>, pageSize: nat)
    requires |frame| >= 6 && Field(frame, 0, 4) == pgno && Field(frame, 4, 2) == flag && frame[6..] == body
    requires flag % 2 == 1
    requires |body| >= 4 + |packed| && Field(body, 0, 4) == |packed| && body[4..4 + |packed|] == packed
    ensures DecodePageFrame(lz, frame, pageSize) == Unpacked(pgno, lz.unpackBlock(packed, pageSize))
  {
  }

  lemma BlockParts(p: seq<Byte>, f: seq<Byte>, n: seq<Byte>, packed: seq<Byte>, rest: seq<Byte>)
    requires |p| == |n| == 4 && |f| == 2
    ensures var (frame, body) := (p + f + n + packed + rest, n + packed + rest);
      && frame[0..4] == p && frame[4..6] == f && frame[6..] == body
      && body[0..4] == n && body[4..4 + |packed|] == packed
  {
  }

  // --- Whole files ---------------------------------------------------------------------------------------

  /// Frames lie end to end behind the header.
  lemma {:induction false} SlotsInRow(lz: Lz4, pages: seq<Page>, i: nat)
    requires i < |pages|
    ensures var index := IndexOf(lz, pages);
      && index[i].data.offset == (if i == 0 then HEADER_SIZE else index[i - 1].data.offset + index[i - 1].data.size)
      && (i == |pages| - 1 ==> index[i].data.offset + index[i].data.size == HEADER_SIZE + |Body(lz, pages)|)
    decreases |pages|
  {
    var n := |pages| - 1;
    if i < n {
      SlotsInRow(lz, pages[..n], i);
    } else if n > 0 {
      SlotsInRow(lz, pages[..n], n - 1);
    }
  }

  /// A file is its header, its frames, six zero bytes, the index entries, a zero, the length of
  /// the index with that zero, the rolling checksum and the file's own.
  lemma FileShape(lz: Lz4, head: seq<Byte>, pages: seq<Page>, t: Trailer)
    requires |head| == HEADER_SIZE && IsTrailer(t)
    requires |IndexBytes(IndexOf(lz, pages))| + 1 < U64
    ensures Shaped(FileBytes(lz, head, pages, t), head, Body(lz, pages), IndexBytes(IndexOf(lz, pages)), t)
  {
    var body, index := Body(lz, pages), IndexBytes(IndexOf(lz, pages));
    var n := ToBe((|index| + 1) % Limit(8), 8);
    Limits();
    LengthReads(|index| + 1, n);
    BeRoundTrip(t.postApply, 8);
    BeRoundTrip(t.fileChecksum, 8);
    var post, sum := ToBe(t.postApply, 8), ToBe(t.fileChecksum, 8);
    Parts(head, body, Zeros(6), index, n, post, sum);
    ShapeOf(FileBytes(lz, head, pages, t), head, body, index, n, post, sum, t);
  }

  lemma ShapeOf(b: seq<Byte>, head: seq<Byte>, body: seq<Byte>, index: seq<Byte>, n: seq<Byte>, post: seq<Byte>,
    sum: seq<Byte>, t: Trailer)
    requires |head| == HEADER_SIZE && Cut(b, head, body, Zeros(6), index, n, post, sum)
    requires FromBe(n) == |index| + 1 && FromBe(post) == t.postApply && FromBe(sum) == t.fileChecksum
    ensures Shaped(b, head, body, index, t)
  {
    assert Zeros(6) == [0, 0, 0, 0, 0, 0];
  }

  ghost predicate Shaped(b: seq<Byte>, head: seq<Byte>, body: seq<Byte>, index: seq<Byte>, t: Trailer) {
    var at := 100 + |body|;
    && |b| == at + 6 + |index| + 1 + 8 + 8 + 8
    && b[..100] == head && b[100..at] == body && b[at..at + 6] == [0, 0, 0, 0, 0, 0]
    && b[at + 6..at + 6 + |index|] == index && b[at + 6 + |index|] == 0
    && Field(b, |b| - 24, 8) == |index| + 1
    && Field(b, |b| - 16, 8) == t.postApply && Field(b, |b| - 8, 8) == t.fileChecksum
  }

  ghost predicate Cut(b: seq<Byte>, head: seq<Byte>, body: seq<Byte>, zeros: seq<Byte>, index: seq<Byte>, n: seq<Byte>,
    post: seq<Byte>, sum: seq<Byte>)
  {
    var at := |head| + |body|;
    && |zeros| == 6 && |n| == |post| == |sum| == 8 && |b| == at + 6 + |index| + 1 + 24
    && b[..|head|] == head && b[|head|..at] == body && b[at..at + 6] == zeros
    && b[at + 6..at + 6 + |index|] == index && b[at + 6 + |index|] == 0
    && b[|b| - 24..|b| - 16] == n && b[|b| - 16..|b| - 8] == post && b[|b| - 8..|b|] == sum
  }

  lemma Parts(head: seq<Byte>, body: seq<Byte>, zeros: seq<Byte>, index: seq<Byte>, n: seq<Byte>, post: seq<Byte>,
    sum: seq<Byte>)
    requires |zeros| == 6 && |n| == |post| == |sum| == 8
    ensures Cut(head + body + (zeros + ((index + [0]) + n)) + (post + sum), head, body, zeros, index, n, post, sum)
  {
  }

  /// What the file checksum covers is the file itself up to that checksum, its frames replaced by
  /// what they would be if packing changed nothing.
  lemma HashedIsUnpackedFile(lz: Lz4, head: seq<Byte>, pages: seq<Page>, t: Trailer)
    requires |head| == HEADER_SIZE && IsTrailer(t)
    ensures var b := FileBytes(lz, head, pages, t);
      && |b| >= 108 + |Body(lz, pages)|
      && HashedBytes(lz, head, pages, t.postApply) ==
        head + Body(lz.(pack := d => d), pages) + b[100 + |Body(lz, pages)|..|b| - 8]
  {
    UnpackedBody(lz, pages);
    CutTail(head, Body(lz, pages), Middle(IndexOf(lz, pages)), ToBe(t.postApply, 8), ToBe(t.fileChecksum, 8));
    Associates(head + HashedBody(pages), Middle(IndexOf(lz, pages)), ToBe(t.postApply, 8));
  }

  lemma CutTail(head: seq<Byte>, body: seq<Byte>, middle: seq<Byte>, post: seq<Byte>, sum: seq<Byte>)
    ensures var b := head + body + middle + (post + sum);
      b[|head| + |body|..|b| - |sum|] == middle + post
  {
  }

  lemma {:induction false} UnpackedBody(lz: Lz4, pages: seq<Page>)
    ensures HashedBody(pages) == Body(lz.(pack := d => d), pages)
  {
    if pages != [] {
      var last := pages[|pages| - 1];
      UnpackedBody(lz, pages[..|pages| - 1]);
      Associates(HashedBody(pages[..|pages| - 1]), PageHeader(last.pgno), last.data);
    }
  }

  /// The index is found exactly where a footer of 24 bytes gives its length.
  lemma IndexRegionExactly(bytes: seq<Byte>, index: seq<Byte>)
    ensures IndexRegion(bytes) == Fine(index) <==>
      && |bytes| >= 124 && |index| + 24 <= |bytes|
      && Field(bytes, |bytes| - 24, 8) == |index|
      && bytes[|bytes| - 24 - |index|..|bytes| - 24] == index
  {
  }
}
