/// The LTX file format and its streaming encoder (src/ltx/format.rs, src/ltx/encoder.rs): the
/// header, the checks a page passes, the frames and the page index, and the hash over them.

module Codec {
  import opened Bytes
  import opened LtxFiles
  import opened Options
  import opened Varint
  import Crc

  const HEADER_SIZE: nat := 100
  const PAGE_HEADER_SIZE: nat := 6
  const TRAILER_SIZE: nat := 16
  const INDEX_FOOTER_SIZE: nat := 24
  const MAGIC: seq<Byte> := [0x4C, 0x54, 0x58, 0x31]

  datatype LtxError = ShortBuffer | InvalidMagic | InvalidPageSize | InvalidTxidRange | SnapshotPreApplyChecksum
    | WrongPageLength | ZeroPageNumber | PageBeyondCommit | LockPageEncoded | PageOutOfOrder
    | UnsupportedPage | Malformed

  datatype Outcome<+T> = Fine(value: T) | Wrong(error: LtxError)

  /// LZ4 is outside this model: only that unpacking what was packed gives it back.
  datatype Lz4 = Lz4(pack: seq<Byte> -> seq<Byte>, unpackFrame: (seq<Byte>, nat) -> Option<seq<Byte>>,
                     unpackBlock: (seq<Byte>, nat) -> Option<seq<Byte>>)

  ghost predicate Lossless(lz: Lz4) {
    forall d: seq<Byte> :: lz.unpackFrame(lz.pack(d), |d|) == Some(d)
  }

  // --- The header -------------------------------------------------------------------------------

  datatype Header = Header(flags: nat, pageSize: nat, commit: nat, minTxid: nat, maxTxid: nat, timestamp: int,
                           preApply: nat, walOffset: int, walSize: int, salt1: nat, salt2: nat, nodeId: nat)

  predicate IsSnapshot(h: Header) {
    h.minTxid == 1
  }

  const I64: int := 0x8000_0000_0000_0000

  /// The two's-complement reading of a signed field.
  function AsUnsigned(v: int): nat
    requires -I64 <= v < I64
  {
    if v >= 0 then v else v + U64
  }

  function AsSigned(v: nat): int {
    if v < I64 then v else v - U64
  }

  /// Every field has the width the format gives it.
  ghost predicate Representable(h: Header) {
    && h.flags < Limit(4) && h.pageSize < Limit(4) && h.commit < Limit(4)
    && h.minTxid < Limit(8) && h.maxTxid < Limit(8) && -I64 <= h.timestamp < I64 && h.preApply < Limit(8)
    && -I64 <= h.walOffset < I64 && -I64 <= h.walSize < I64
    && h.salt1 < Limit(4) && h.salt2 < Limit(4) && h.nodeId < Limit(8)
  }

  function HeaderFields(h: Header): (fs: seq<Fixed>)
    requires Representable(h)
    ensures Fits(fs)
  {
    Limits();
    [Fixed(h.flags, 4), Fixed(h.pageSize, 4), Fixed(h.commit, 4), Fixed(h.minTxid, 8), Fixed(h.maxTxid, 8),
     Fixed(AsUnsigned(h.timestamp), 8), Fixed(h.preApply, 8), Fixed(AsUnsigned(h.walOffset), 8),
     Fixed(AsUnsigned(h.walSize), 8), Fixed(h.salt1, 4), Fixed(h.salt2, 4), Fixed(h.nodeId, 8)]
  }

  function Zeros(n: nat): (b: seq<Byte>)
    ensures |b| == n
  {
    seq(n, _ => 0)
  }

  /// `Header::encode`: magic, fields, and reserved zeros up to 100 bytes.
  function HeaderBytes(h: Header): (b: seq<Byte>)
    requires Representable(h)
    ensures |b| == HEADER_SIZE
  {
    HeaderStarts(h);
    MAGIC + Pack(HeaderFields(h)) + Zeros(20)
  }

  lemma HeaderStarts(h: Header)
    requires Representable(h)
    ensures var fs := HeaderFields(h);
      && Start(fs, 0) == 0 && Start(fs, 1) == 4 && Start(fs, 2) == 8 && Start(fs, 3) == 12 && Start(fs, 4) == 20
      && Start(fs, 5) == 28 && Start(fs, 6) == 36 && Start(fs, 7) == 44 && Start(fs, 8) == 52 && Start(fs, 9) == 60
      && Start(fs, 10) == 64 && Start(fs, 11) == 68 && Start(fs, 12) == 76
  {
    var fs := HeaderFields(h);
    assert Start(fs, 1) == 4; assert Start(fs, 2) == 8; assert Start(fs, 3) == 12; assert Start(fs, 4) == 20;
    assert Start(fs, 5) == 28; assert Start(fs, 6) == 36; assert Start(fs, 7) == 44; assert Start(fs, 8) == 52;
    assert Start(fs, 9) == 60; assert Start(fs, 10) == 64; assert Start(fs, 11) == 68;
  }

  /// `Header::decode`.
  function DecodeHeader(b: seq<Byte>): Outcome<Header> {
    if |b| < HEADER_SIZE then Wrong(ShortBuffer)
    else if b[0..4] != MAGIC then Wrong(InvalidMagic)
    else if !IsPageSize(Field(b, 8, 4)) then Wrong(InvalidPageSize)
    else Fine(Header(Field(b, 4, 4), Field(b, 8, 4), Field(b, 12, 4), Field(b, 16, 8), Field(b, 24, 8),
                     AsSigned(Field(b, 32, 8)), Field(b, 40, 8), AsSigned(Field(b, 48, 8)), AsSigned(Field(b, 56, 8)),
                     Field(b, 64, 4), Field(b, 68, 4), Field(b, 72, 8)))
  }

  /// A header reads back from the front of its file.
  lemma HeaderRoundTrip(h: Header, rest: seq<Byte>)
    requires Representable(h) && IsPageSize(h.pageSize)
    ensures DecodeHeader(HeaderBytes(h) + rest) == Fine(h)
  {
    var b := HeaderBytes(h) + rest;
    HeaderLayout(MAGIC, Pack(HeaderFields(h)), Zeros(20), rest);
    PackStandsExactly(b, 4, HeaderFields(h), Pack(HeaderFields(h)));
    HeaderFieldsRead(h, b);
  }

  lemma HeaderLayout(magic: seq<Byte>, fields: seq<Byte>, zeros: seq<Byte>, rest: seq<Byte>)
    requires |magic| == 4
    ensures ((magic + fields + zeros) + rest)[0..4] == magic
    ensures StandsAt((magic + fields + zeros) + rest, 4, fields)
  {
  }

  lemma HeaderFieldsRead(h: Header, b: seq<Byte>)
    requires Representable(h) && |b| >= HEADER_SIZE
    requires var fs := HeaderFields(h);
      forall k :: 0 <= k < 12 ==> ReadsAt(b, 4, fs, k)
    ensures Field(b, 4, 4) == h.flags && Field(b, 8, 4) == h.pageSize && Field(b, 12, 4) == h.commit
    ensures Field(b, 16, 8) == h.minTxid && Field(b, 24, 8) == h.maxTxid && AsSigned(Field(b, 32, 8)) == h.timestamp
    ensures Field(b, 40, 8) == h.preApply && AsSigned(Field(b, 48, 8)) == h.walOffset &&
      AsSigned(Field(b, 56, 8)) == h.walSize
    ensures Field(b, 64, 4) == h.salt1 && Field(b, 68, 4) == h.salt2 && Field(b, 72, 8) == h.nodeId
  {
    HeaderStarts(h);
    var fs := HeaderFields(h);
    assert ReadsAt(b, 4, fs, 0) && ReadsAt(b, 4, fs, 1) && ReadsAt(b, 4, fs, 2) && ReadsAt(b, 4, fs, 3);
    assert ReadsAt(b, 4, fs, 4) && ReadsAt(b, 4, fs, 5) && ReadsAt(b, 4, fs, 6) && ReadsAt(b, 4, fs, 7);
    assert ReadsAt(b, 4, fs, 8) && ReadsAt(b, 4, fs, 9) && ReadsAt(b, 4, fs, 10) && ReadsAt(b, 4, fs, 11);
  }

  /// `Header::validate`: what the encoder refuses to write.
  function Validate(h: Header): Outcome<()> {
    if !IsPageSize(h.pageSize) then Wrong(InvalidPageSize)
    else if h.minTxid == 0 || h.maxTxid == 0 || h.minTxid > h.maxTxid then Wrong(InvalidTxidRange)
    else if IsSnapshot(h) && h.preApply != 0 then Wrong(SnapshotPreApplyChecksum)
    else Fine(())
  }

  // --- What a file looks like ----------------------------------------------------------------------

  type Page = Frame<seq<Byte>>

  /// Where a page's frame is in its file.
  datatype Slot = Slot(offset: nat, size: nat)

  /// Pages ascend; a snapshot has every page from 1 on but the lock page.
  predicate InOrder(snapshot: bool, lock: nat, prev: nat, pgno: nat) {
    if !snapshot then pgno > prev
    else if prev == 0 then pgno == 1
    else if prev == lock - 1 then pgno == prev + 2
    else pgno == prev + 1
  }

  function CheckPage(h: Header, prev: nat, p: Page): Outcome<()>
    requires h.pageSize > 0
  {
    var lock := LockPgno(h.pageSize);
    if |p.data| != h.pageSize then Wrong(WrongPageLength)
    else if p.pgno == 0 then Wrong(ZeroPageNumber)
    else if p.pgno > h.commit then Wrong(PageBeyondCommit)
    else if p.pgno == lock then Wrong(LockPageEncoded)
    else if !InOrder(IsSnapshot(h), lock, prev, p.pgno) then Wrong(PageOutOfOrder)
    else Fine(())
  }

  ghost function PrevPgno(pages: seq<Page>, i: nat): nat
    requires i <= |pages|
  {
    if i == 0 then 0 else pages[i - 1].pgno
  }

  ghost predicate PageAccepted(h: Header, pages: seq<Page>, i: nat)
    requires i < |pages|
  {
    h.pageSize > 0 && CheckPage(h, PrevPgno(pages, i), pages[i]).Fine?
  }

  /// Everything the encoder checks before writing a file.
  ghost predicate Writable(h: Header, pages: seq<Page>) {
    Validate(h).Fine? && forall i :: 0 <= i < |pages| ==> PageAccepted(h, pages, i)
  }

  function PageHeader(pgno: nat): (b: seq<Byte>)
    ensures |b| == PAGE_HEADER_SIZE
  {
    ToBe(pgno % Limit(4), 4) + [0, 0]
  }

  function FrameBytes(lz: Lz4, p: Page): seq<Byte> {
    PageHeader(p.pgno) + lz.pack(p.data)
  }

  ghost function Body(lz: Lz4, pages: seq<Page>): seq<Byte> {
    if pages == [] then [] else Body(lz, pages[..|pages| - 1]) + FrameBytes(lz, pages[|pages| - 1])
  }

  /// What the file checksum covers of the pages: their uncompressed contents.
  ghost function HashedBody(pages: seq<Page>): seq<Byte> {
    if pages == [] then []
    else HashedBody(pages[..|pages| - 1]) + PageHeader(pages[|pages| - 1].pgno) + pages[|pages| - 1].data
  }

  ghost function IndexOf(lz: Lz4, pages: seq<Page>): (index: seq<Frame<Slot>>)
    ensures |index| == |pages|
  {
    if pages == [] then []
    else
      var init, last := pages[..|pages| - 1], pages[|pages| - 1];
      IndexOf(lz, init) + [Frame(last.pgno, Slot(HEADER_SIZE + |Body(lz, init)|, |FrameBytes(lz, last)|))]
  }

  function EntryBytes(e: Frame<Slot>): seq<Byte> {
    Uvarint(e.pgno) + Uvarint(e.data.offset) + Uvarint(e.data.size)
  }

  function IndexBytes(index: seq<Frame<Slot>>): seq<Byte> {
    if index == [] then [] else EntryBytes(index[0]) + IndexBytes(index[1..])
  }

  datatype Trailer = Trailer(postApply: nat, fileChecksum: nat)

  /// The page index as stored: its entries, the end marker, and the length of both.
  function IndexPart(index: seq<Frame<Slot>>): seq<Byte> {
    (IndexBytes(index) + [0]) + ToBe((|IndexBytes(index)| + 1) % Limit(8), 8)
  }

  /// Between the pages and the trailer: the zero page header and the index.
  function Middle(index: seq<Frame<Slot>>): seq<Byte> {
    Zeros(PAGE_HEADER_SIZE) + IndexPart(index)
  }

  function Checksum64(data: seq<Byte>): (sum: nat)
    ensures sum < Limit(8)
  {
    Crc.ToU64(Crc.ChecksumOf(data))
  }

  ghost predicate IsTrailer(t: Trailer) {
    t.postApply < Limit(8) && t.fileChecksum < Limit(8)
  }

  /// The file whose header is the bytes `head`.
  ghost function FileBytes(lz: Lz4, head: seq<Byte>, pages: seq<Page>, t: Trailer): seq<Byte>
    requires IsTrailer(t)
  {
    head + Body(lz, pages) + Middle(IndexOf(lz, pages)) + (ToBe(t.postApply, 8) + ToBe(t.fileChecksum, 8))
  }

  /// Everything the file checksum covers.
  ghost function HashedBytes(lz: Lz4, head: seq<Byte>, pages: seq<Page>, post: nat): seq<Byte>
    requires post < Limit(8)
  {
    head + HashedBody(pages) + Middle(IndexOf(lz, pages)) + ToBe(post, 8)
  }

  ghost function FileChecksum(lz: Lz4, head: seq<Byte>, pages: seq<Page>, post: nat): (sum: nat)
    requires post < Limit(8)
    ensures sum < Limit(8)
  {
    Checksum64(HashedBytes(lz, head, pages, post))
  }

  // --- The encoder ------------------------------------------------------------------------------------

  datatype EncoderState = AtHeader | AtPage | Closed

  /// The hasher is represented by the bytes it has been fed: feeding it in pieces is feeding
  /// it their concatenation (`Crc.Hasher.Update`, `Crc.DivisionComposes`).
  class Encoder {
    const lz: Lz4
    var out: seq<Byte>
    var state: EncoderState
    var hashed: seq<Byte>
    var n: nat
    var header: Header
    var postApply: nat
    var index: seq<Frame<Slot>>
    var prevPgno: nat
    ghost var head: seq<Byte>
    ghost var pages: seq<Page>

    /// Before the header, nothing has been written, hashed or indexed.
    ghost predicate Fresh()
      reads this
    {
      state.AtHeader? && out == [] && n == 0 && hashed == [] && index == [] && prevPgno == 0 && postApply == 0
    }

    /// Mid-file: everything written, hashed and indexed is that of `pages`.
    ghost predicate Encoding()
      reads this
    {
      && state.AtPage? && Writable(header, pages) && |head| == HEADER_SIZE
      && out == head + Body(lz, pages) && n == |out|
      && hashed == head + HashedBody(pages)
      && index == IndexOf(lz, pages) && prevPgno == PrevPgno(pages, |pages|)
    }

    constructor (lz: Lz4)
      ensures this.lz == lz && Fresh()
    {
      this.lz, state, out, hashed, n := lz, AtHeader, [], [], 0;
      header, postApply, index, prevPgno := Header(0, 0, 0, 0, 0, 0, 0, 0, 0, 0, 0, 0), 0, [], 0;
      head, pages := [], [];
    }

    method WriteHashed(b: seq<Byte>)
      modifies this`out, this`hashed, this`n
      ensures out == old(out) + b && hashed == old(hashed) + b && n == old(n) + |b|
    {
      out := out + b;
      hashed := hashed + b;
      n := n + |b|;
    }

    /// `encode_header`: refused exactly when it is invalid.
    method EncodeHeader(h: Header) returns (r: Outcome<()>)
      requires Fresh() && Representable(h)
      modifies this
      ensures r == Validate(h)
      ensures r.Fine? ==> Encoding() && header == h && head == HeaderBytes(h) && pages == [] && postApply == 0
    {
      r := Validate(h);
      if r.Fine? {
        var b := HeaderBytes(h);
        WriteHashed(b);
        header, state, head, pages := h, AtPage, b, [];
        assert b + [] == b && [] + b == b;
      }
    }

    /// `encode_page`: a page is accepted exactly when every check passes, and then is framed,
    /// hashed and indexed after the ones before it; a refused page changes nothing.
    method EncodePage(p: Page) returns (r: Outcome<()>)
      requires Encoding()
      modifies this
      ensures Encoding() && header == old(header) && head == old(head) && postApply == old(postApply)
      ensures r == CheckPage(old(header), PrevPgno(old(pages), |old(pages)|), p)
      ensures pages == if r.Fine? then old(pages) + [p] else old(pages)
    {
      r := CheckPage(header, prevPgno, p);
      if r.Wrong? {
        return;
      }
      OneMoreAccepted(header, pages, p);
      OneMoreWritten(lz, head, pages, p);
      WriteFrame(p);
      pages := pages + [p];
    }

    /// The packed page goes to the file, the page itself to the checksum.
    method WriteFrame(p: Page)
      modifies this`out, this`hashed, this`n, this`index, this`prevPgno
      ensures out == old(out) + PageHeader(p.pgno) + lz.pack(p.data)
      ensures hashed == old(hashed) + PageHeader(p.pgno) + p.data
      ensures n == old(n) + PAGE_HEADER_SIZE + |lz.pack(p.data)|
      ensures index == old(index) + [Frame(p.pgno, Slot(old(n), PAGE_HEADER_SIZE + |lz.pack(p.data)|))]
      ensures prevPgno == p.pgno
    {
      var offset, packed := n, lz.pack(p.data);
      WriteHashed(PageHeader(p.pgno));
      out := out + packed;
      n := n + |packed|;
      hashed := hashed + p.data;
      index := index + [Frame(p.pgno, Slot(offset, n - offset))];
      prevPgno := p.pgno;
    }

    method SetPostApply(c: nat)
      modifies this`postApply
      ensures postApply == c
    {
      postApply := c;
    }

    /// `encode_page_index`: the entries in page order, the end marker, the length of both.
    method EncodePageIndex()
      requires Ascend(index)
      modifies this`out, this`hashed, this`n, this`index
      ensures out == old(out) + IndexPart(old(index)) && n == old(n) + |IndexPart(old(index))|
      ensures hashed == old(hashed) + IndexPart(old(index))
    {
      var entries := SortedByPgno(index);
      SortedUnchanged(index);
      index := [];
      var start := n;
      ghost var out0, hashed0 := out, hashed;
      WriteEntries(entries);
      var marker := AppendUvarint([], 0);
      WriteHashed(marker);
      var length := ToBe((n - start) % Limit(8), 8);
      WriteHashed(length);
      PartAppended(out0, entries, marker, length);
      PartAppended(hashed0, entries, marker, length);
    }

    method WriteEntries(entries: seq<Frame<Slot>>)
      modifies this`out, this`hashed, this`n
      ensures out == old(out) + IndexBytes(entries) && n == old(n) + |IndexBytes(entries)|
      ensures hashed == old(hashed) + IndexBytes(entries)
    {
      assert out + [] == out && hashed + [] == hashed;
      for i := 0 to |entries|
        invariant out == old(out) + IndexBytes(entries[..i]) && n == old(n) + |IndexBytes(entries[..i])|
        invariant hashed == old(hashed) + IndexBytes(entries[..i])
      {
        var buf := EncodeEntry(entries[i]);
        IndexExtends(entries, i);
        Associates(old(out), IndexBytes(entries[..i]), buf);
        Associates(old(hashed), IndexBytes(entries[..i]), buf);
        WriteHashed(buf);
      }
      assert entries[..|entries|] == entries;
    }

    /// `finish`: the terminator, the index and the trailer complete the file.
    method Finish() returns (t: Trailer)
      requires Encoding() && postApply < Limit(8)
      modifies this
      ensures t == Trailer(old(postApply), FileChecksum(lz, old(head), old(pages), old(postApply)))
      ensures state.Closed? && out == FileBytes(lz, old(head), old(pages), t)
    {
      IndexAscends(lz, header, pages);
      ghost var out0, hashed0, part := out, hashed, IndexPart(index);
      WriteHashed(Zeros(PAGE_HEADER_SIZE));
      EncodePageIndex();
      Associates(out0, Zeros(PAGE_HEADER_SIZE), part);
      Associates(hashed0, Zeros(PAGE_HEADER_SIZE), part);
      hashed := hashed + ToBe(postApply, 8);
      t := Trailer(postApply, Checksum64(hashed));
      out := out + (ToBe(t.postApply, 8) + ToBe(t.fileChecksum, 8));
      n := n + TRAILER_SIZE;
      state := Closed;
    }
  }

  method EncodeEntry(e: Frame<Slot>) returns (buf: seq<Byte>)
    ensures buf == EntryBytes(e)
  {
    buf := AppendUvarint([], e.pgno);
    buf := AppendUvarint(buf, e.data.offset);
    buf := AppendUvarint(buf, e.data.size);
  }

  lemma Associates(a: seq<Byte>, b: seq<Byte>, c: seq<Byte>)
    ensures a + b + c == a + (b + c)
  {
  }

  lemma PartAppended(before: seq<Byte>, index: seq<Frame<Slot>>, marker: seq<Byte>, length: seq<Byte>)
    requires marker == [0] && length == ToBe((|IndexBytes(index)| + 1) % Limit(8), 8)
    ensures ((before + IndexBytes(index)) + marker) + length == before + IndexPart(index)
    ensures |IndexPart(index)| == |IndexBytes(index)| + |marker| + |length|
  {
    Associates4(before, IndexBytes(index), marker, length);
  }

  lemma Associates4(a: seq<Byte>, b: seq<Byte>, c: seq<Byte>, d: seq<Byte>)
    ensures ((a + b) + c) + d == a + ((b + c) + d)
  {
  }

  // --- One step of the encoder -----------------------------------------------------------------------

  lemma OneMoreAccepted(h: Header, pages: seq<Page>, p: Page)
    requires Writable(h, pages) && h.pageSize > 0 && CheckPage(h, PrevPgno(pages, |pages|), p).Fine?
    ensures Writable(h, pages + [p])
  {
    var next := pages + [p];
    forall i | 0 <= i < |next| ensures PageAccepted(h, next, i) {
      if i < |pages| { assert PageAccepted(h, pages, i); }
    }
  }

  lemma BodyExtends(lz: Lz4, pages: seq<Page>, p: Page)
    ensures Body(lz, pages + [p]) == Body(lz, pages) + FrameBytes(lz, p)
  {
    assert (pages + [p])[..|pages|] == pages;
  }

  lemma HashedBodyExtends(pages: seq<Page>, p: Page)
    ensures HashedBody(pages + [p]) == HashedBody(pages) + PageHeader(p.pgno) + p.data
  {
    assert (pages + [p])[..|pages|] == pages;
  }

  lemma IndexGrows(lz: Lz4, pages: seq<Page>, p: Page)
    ensures IndexOf(lz, pages + [p])
      == IndexOf(lz, pages) + [Frame(p.pgno, Slot(HEADER_SIZE + |Body(lz, pages)|, |FrameBytes(lz, p)|))]
  {
    assert (pages + [p])[..|pages|] == pages;
  }

  lemma OneMoreWritten(lz: Lz4, head: seq<Byte>, pages: seq<Page>, p: Page)
    ensures head + Body(lz, pages + [p]) == (head + Body(lz, pages) + PageHeader(p.pgno)) + lz.pack(p.data)
    ensures head + HashedBody(pages + [p]) == (head + HashedBody(pages) + PageHeader(p.pgno)) + p.data
    ensures IndexOf(lz, pages + [p])
      == IndexOf(lz, pages)
        + [Frame(p.pgno, Slot(HEADER_SIZE + |Body(lz, pages)|, PAGE_HEADER_SIZE + |lz.pack(p.data)|))]
  {
    BodyExtends(lz, pages, p);
    HashedBodyExtends(pages, p);
    IndexGrows(lz, pages, p);
    Appended(head, Body(lz, pages), PageHeader(p.pgno), lz.pack(p.data));
    Appended(head, HashedBody(pages), PageHeader(p.pgno), p.data);
  }

  lemma Appended(head: seq<Byte>, a: seq<Byte>, x: seq<Byte>, y: seq<Byte>)
    ensures head + (a + (x + y)) == (head + a + x) + y
    ensures head + (a + x + y) == (head + a + x) + y
  {
  }

  lemma {:induction false} IndexBytesSnoc(index: seq<Frame<Slot>>, e: Frame<Slot>)
    ensures IndexBytes(index + [e]) == IndexBytes(index) + EntryBytes(e)
  {
    if index == [] {
      assert [e][1..] == [];
    } else {
      assert (index + [e])[1..] == index[1..] + [e];
      IndexBytesSnoc(index[1..], e);
    }
  }

  lemma IndexExtends(entries: seq<Frame<Slot>>, i: nat)
    requires i < |entries|
    ensures IndexBytes(entries[..i + 1]) == IndexBytes(entries[..i]) + EntryBytes(entries[i])
  {
    assert entries[..i + 1] == entries[..i] + [entries[i]];
    IndexBytesSnoc(entries[..i], entries[i]);
  }

  // --- Page order --------------------------------------------------------------------------------------

  /// `sort_by_key` on page numbers, a stable sort.
  function SortedByPgno<V>(s: seq<Frame<V>>): seq<Frame<V>> {
    if s == [] then [] else InsertByPgno(SortedByPgno(s[..|s| - 1]), s[|s| - 1])
  }

  function InsertByPgno<V>(s: seq<Frame<V>>, f: Frame<V>): seq<Frame<V>> {
    if s == [] || s[|s| - 1].pgno <= f.pgno then s + [f] else InsertByPgno(s[..|s| - 1], f) + [s[|s| - 1]]
  }

  ghost predicate Ascend<V>(s: seq<Frame<V>>) {
    forall i, j :: 0 <= i < j < |s| ==> s[i].pgno < s[j].pgno
  }

  lemma {:induction false} SortedUnchanged<V>(s: seq<Frame<V>>)
    requires Ascend(s)
    ensures SortedByPgno(s) == s
  {
    if s != [] {
      SortedUnchanged(s[..|s| - 1]);
    }
  }

  /// Pages the encoder accepts ascend, whichever kind of file they are in.
  lemma {:induction false} AcceptedAscend(h: Header, pages: seq<Page>)
    requires Writable(h, pages)
    ensures Ascend(pages)
  {
    if pages != [] {
      var n := |pages| - 1;
      var init := pages[..n];
      forall i | 0 <= i < |init| ensures PageAccepted(h, init, i) { assert PageAccepted(h, pages, i); }
      AcceptedAscend(h, init);
      assert PageAccepted(h, pages, n);
      assert pages[n].pgno > PrevPgno(pages, n);
      assert n > 0 ==> init[n - 1] == pages[n - 1];
    }
  }

  lemma {:induction false} IndexPgnos(lz: Lz4, pages: seq<Page>)
    ensures forall i :: 0 <= i < |pages| ==> IndexOf(lz, pages)[i].pgno == pages[i].pgno
  {
    if pages != [] {
      IndexPgnos(lz, pages[..|pages| - 1]);
    }
  }

  lemma IndexAscends(lz: Lz4, h: Header, pages: seq<Page>)
    requires Writable(h, pages)
    ensures Ascend(IndexOf(lz, pages))
  {
    AcceptedAscend(h, pages);
    IndexPgnos(lz, pages);
  }
}
