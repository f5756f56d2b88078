/// Reading LTX files through their page index (src/ltx/decoder.rs), and that it undoes what
/// the encoder did: the same header, pages and trailer come back, and every index entry
/// locates exactly its own frame.

module Decoder {
  import opened Bytes
  import opened LtxFiles
  import opened Options
  import opened Varint
  import opened Codec

  // --- One page --------------------------------------------------------------------------------

  /// `decode_page_frame`, for both LZ4 framings.
  function DecodePageFrame(lz: Lz4, frame: seq<Byte>, pageSize: nat): Outcome<Page> {
    if |frame| < PAGE_HEADER_SIZE then Wrong(ShortBuffer)
    else
      var pgno, flags := Field(frame, 0, 4), Field(frame, 4, 2);
      if pgno == 0 && flags == 0 then Wrong(ZeroPageNumber)
      else if flags % 2 == 1 then DecodeBlock(lz, pgno, frame[PAGE_HEADER_SIZE..], pageSize)
      else Unpacked(pgno, lz.unpackFrame(frame[PAGE_HEADER_SIZE..], pageSize))
  }

  /// The block framing puts a size before the data.
  function DecodeBlock(lz: Lz4, pgno: nat, body: seq<Byte>, pageSize: nat): Outcome<Page> {
    if |body| < 4 then Wrong(ShortBuffer)
    else if 4 + Field(body, 0, 4) > |body| then Wrong(Malformed)
    else Unpacked(pgno, lz.unpackBlock(body[4..4 + Field(body, 0, 4)], pageSize))
  }

  function Unpacked(pgno: nat, data: Option<seq<Byte>>): Outcome<Page> {
    match data
    case Some(d) => Fine(Frame(pgno, d))
    case None => Wrong(UnsupportedPage)
  }

  lemma PageRoundTrip(lz: Lz4, p: Page)
    requires Lossless(lz) && 0 < p.pgno < Limit(4)
    ensures DecodePageFrame(lz, FrameBytes(lz, p), |p.data|) == Fine(p)
  {
    var frame := FrameBytes(lz, p);
    PageHeaderReads(p.pgno, lz.pack(p.data));
    assert frame[PAGE_HEADER_SIZE..] == lz.pack(p.data);
  }

  lemma PageHeaderReads(pgno: nat, rest: seq<Byte>)
    requires pgno < Limit(4)
    ensures Field(PageHeader(pgno) + rest, 0, 4) == pgno && Field(PageHeader(pgno) + rest, 4, 2) == 0
  {
    var b := PageHeader(pgno) + rest;
    assert pgno % Limit(4) == pgno;
    assert b[0..4] == ToBe(pgno, 4) && b[4..6] == [0, 0];
    BeRoundTrip(pgno, 4);
    assert [0, 0][..1] == [0] && [0][..0] == [];
    assert FromBe([0]) == 0;
  }

  // --- The page index ----------------------------------------------------------------------------

  ghost predicate SmallEntry(e: Frame<Slot>) {
    0 < e.pgno < Limit(4) && e.data.offset < U64 && e.data.size < U64
  }

  ghost predicate SmallIndex(index: seq<Frame<Slot>>) {
    forall e :: e in index ==> SmallEntry(e)
  }

  ghost predicate Intact(b: seq<Byte>, index: seq<Frame<Slot>>) {
    SmallIndex(index) && b == IndexBytes(index) + [0]
  }

  ghost predicate Truncated(b: seq<Byte>, index: seq<Frame<Slot>>) {
    SmallIndex(index) && b < IndexBytes(index) + [0]
  }

  /// What `read_uvarint` makes of any bytes: the number they start with and what follows it.
  ghost function TakeOf(b: seq<Byte>): (r: Outcome<(nat, seq<Byte>)>)
    ensures r.Fine? ==> |r.value.1| < |b|
  {
    UvalueBounds(b);
    match Uvalue(b)
    case Some((v, n)) => if n <= 10 then Fine((v % U64, b[n..])) else Wrong(Malformed)
    case None => if |b| <= 10 then Wrong(ShortBuffer) else Wrong(Malformed)
  }

  /// The next entry and what follows it, or the end marker.
  ghost function NextOf(b: seq<Byte>): (r: Outcome<(Option<Frame<Slot>>, seq<Byte>)>)
    ensures r.Fine? ==> |r.value.1| < |b|
  {
    match TakeOf(b)
    case Wrong(e) => Wrong(e)
    case Fine((pgno, b1)) =>
      if pgno == 0 then Fine((None, b1))
      else
        match TakeOf(b1)
        case Wrong(e) => Wrong(e)
        case Fine((offset, b2)) =>
          match TakeOf(b2)
          case Wrong(e) => Wrong(e)
          case Fine((size, b3)) => Fine((Some(Frame(pgno % Limit(4), Slot(offset, size))), b3))
  }

  /// What `decode_page_index` makes of any bytes.
  ghost function EntriesOf(b: seq<Byte>): Outcome<seq<Frame<Slot>>>
    decreases |b|
  {
    match NextOf(b)
    case Wrong(e) => Wrong(e)
    case Fine((None, _)) => Fine([])
    case Fine((Some(entry), rest)) => Before([entry], EntriesOf(rest))
  }

  ghost function Before(out: seq<Frame<Slot>>, rest: Outcome<seq<Frame<Slot>>>): Outcome<seq<Frame<Slot>>> {
    if rest.Fine? then Fine(out + rest.value) else rest
  }

  lemma BeforeEnds(out: seq<Frame<Slot>>, rest: Outcome<seq<Frame<Slot>>>)
    ensures Before([], rest) == rest && Before(out, Fine([])) == Fine(out)
  {
    assert rest.Fine? ==> [] + rest.value == rest.value;
    assert out + [] == out;
  }

  lemma BeforeBefore(out: seq<Frame<Slot>>, entry: Frame<Slot>, rest: Outcome<seq<Frame<Slot>>>)
    ensures Before(out, Before([entry], rest)) == Before(out + [entry], rest)
  {
    if rest.Fine? {
      assert out + ([entry] + rest.value) == (out + [entry]) + rest.value;
    }
  }

  lemma IntactOrTruncated(b: seq<Byte>)
    ensures forall index :: Intact(b, index) ==> EntriesOf(b) == Fine(index)
    ensures forall index :: Truncated(b, index) ==> EntriesOf(b) == Wrong(ShortBuffer)
  {
    forall index | Intact(b, index) ensures EntriesOf(b) == Fine(index) {
      IntactIndex(index, [0]);
    }
    forall index | Truncated(b, index) ensures EntriesOf(b) == Wrong(ShortBuffer) {
      var whole := IndexBytes(index) + [0];
      assert whole[..|b|] == b;
      TruncatedIndex(index, |b|);
    }
  }

  /// `decode_page_index`, on any bytes: every entry up to the end marker, or the error of the
  /// first number that is not there. An intact index gives its entries, a truncated one none.
  method DecodePageIndex(b: seq<Byte>) returns (r: Outcome<seq<Frame<Slot>>>)
    ensures r == EntriesOf(b)
    ensures forall index :: Intact(b, index) ==> r == Fine(index)
    ensures forall index :: Truncated(b, index) ==> r == Wrong(ShortBuffer)
  {
    IntactOrTruncated(b);
    var out: seq<Frame<Slot>>, rest := [], b;
    BeforeEnds(out, EntriesOf(b));
    while true
      invariant EntriesOf(b) == Before(out, EntriesOf(rest))
      decreases |rest|
    {
      var next := DecodeEntry(rest);
      if next.Wrong? { return Wrong(next.error); }
      match next.value.0 {
        case None =>
          BeforeEnds(out, EntriesOf(rest));
          return Fine(out);
        case Some(entry) =>
          BeforeBefore(out, entry, EntriesOf(next.value.1));
          out, rest := out + [entry], next.value.1;
      }
    }
  }

  method DecodeEntry(b: seq<Byte>) returns (r: Outcome<(Option<Frame<Slot>>, seq<Byte>)>)
    ensures r == NextOf(b)
  {
    var pgno := TakeUvarint(b);
    if pgno.Wrong? { return Wrong(pgno.error); }
    if pgno.value.0 == 0 {
      return Fine((None, pgno.value.1));
    }
    var offset := TakeUvarint(pgno.value.1);
    if offset.Wrong? { return Wrong(offset.error); }
    var size := TakeUvarint(offset.value.1);
    if size.Wrong? { return Wrong(size.error); }
    return Fine((Some(Frame(pgno.value.0 % Limit(4), Slot(offset.value.0, size.value.0))), size.value.1));
  }

  /// `read_uvarint`, dropping what it consumed.
  method TakeUvarint(b: seq<Byte>) returns (r: Outcome<(nat, seq<Byte>)>)
    ensures r == TakeOf(b)
  {
    UvalueBounds(b);
    AllContinue(b);
    var read := ReadUvarint(b);
    match read {
      case Got(v, n) => return Fine((v, b[n..]));
      case Bad(OutOfBytes) => return Wrong(ShortBuffer);
      case Bad(Overlong) => return Wrong(Malformed);
    }
  }

  lemma {:induction false} UvalueBounds(b: seq<Byte>)
    ensures Uvalue(b).Some? ==> 0 < Uvalue(b).value.1 <= |b|
    decreases |b|
  {
    if b != [] && b[0] >= 128 {
      UvalueBounds(b[1..]);
    }
  }

  /// Bytes start with a number exactly when one of them ends it.
  lemma {:induction false} AllContinue(b: seq<Byte>)
    ensures Uvalue(b).None? <==> forall i :: 0 <= i < |b| ==> b[i] >= 128
    decreases |b|
  {
    if b != [] && b[0] >= 128 {
      AllContinue(b[1..]);
      assert forall i :: 1 <= i < |b| ==> b[i] == b[1..][i - 1];
    }
  }

  // --- Intact and truncated indexes -----------------------------------------------------------

  lemma TakesWhole(v: nat, rest: seq<Byte>)
    requires v < U64
    ensures TakeOf(Uvarint(v) + rest) == Fine((v, rest))
  {
    UvarintRoundTrip(v, rest);
    SixtyFourBits(v);
  }

  /// A varint cut short runs out of bytes.
  lemma TakesNone(v: nat, k: nat)
    requires v < U64 && k < |Uvarint(v)|
    ensures TakeOf(Uvarint(v)[..k]) == Wrong(ShortBuffer)
  {
    SixtyFourBits(v);
    OnlyLastEnds(v);
    AllContinue(Uvarint(v)[..k]);
  }

  lemma {:induction false} OnlyLastEnds(v: nat)
    ensures forall i :: 0 <= i < |Uvarint(v)| - 1 ==> Uvarint(v)[i] >= 128
    decreases v
  {
    if v >= 128 {
      OnlyLastEnds(v / 128);
      assert forall i :: 1 <= i < |Uvarint(v)| ==> Uvarint(v)[i] == Uvarint(v / 128)[i - 1];
    }
  }

  /// An intact index, up to its end marker, decodes to exactly its entries.
  lemma {:induction false} IntactIndex(index: seq<Frame<Slot>>, tail: seq<Byte>)
    requires SmallIndex(index) && tail != [] && tail[0] == 0
    ensures EntriesOf(IndexBytes(index) + tail) == Fine(index)
    decreases |index|
  {
    if index == [] {
      MarkerEnds(tail);
      assert IndexBytes(index) + tail == tail;
    } else {
      assert index[0] in index && forall e :: e in index[1..] ==> e in index;
      Regroup(EntryBytes(index[0]), IndexBytes(index[1..]), tail);
      NextWhole(index[0], IndexBytes(index[1..]) + tail);
      IntactIndex(index[1..], tail);
      assert index == [index[0]] + index[1..];
    }
  }

  lemma MarkerEnds(tail: seq<Byte>)
    requires tail != [] && tail[0] == 0
    ensures EntriesOf(tail) == Fine([])
  {
    assert Uvalue(tail) == Some((0, 1));
  }

  lemma NextWhole(e: Frame<Slot>, after: seq<Byte>)
    requires SmallEntry(e)
    ensures NextOf(EntryBytes(e) + after) == Fine((Some(e), after))
  {
    var size, offset := Uvarint(e.data.size) + after, Uvarint(e.data.offset) + (Uvarint(e.data.size) + after);
    Limits();
    Regroup3(Uvarint(e.pgno), Uvarint(e.data.offset), Uvarint(e.data.size), after);
    TakesWhole(e.pgno, offset);
    TakesWhole(e.data.offset, size);
    TakesWhole(e.data.size, after);
  }

  lemma Regroup(a: seq<Byte>, b: seq<Byte>, c: seq<Byte>)
    ensures (a + b) + c == a + (b + c)
  {
  }

  lemma Regroup3(a: seq<Byte>, b: seq<Byte>, c: seq<Byte>, d: seq<Byte>)
    ensures (a + b + c) + d == a + (b + (c + d))
  {
  }

  /// An index cut short anywhere is refused.
  lemma {:induction false} TruncatedIndex(index: seq<Frame<Slot>>, k: nat)
    requires SmallIndex(index) && k < |IndexBytes(index) + [0]|
    ensures EntriesOf((IndexBytes(index) + [0])[..k]) == Wrong(ShortBuffer)
    decreases |index|
  {
    var b := (IndexBytes(index) + [0])[..k];
    if index == [] {
      assert b == Uvarint(0)[..0];
      TakesNone(0, 0);
    } else {
      assert index[0] in index && forall e :: e in index[1..] ==> e in index;
      var entry, after := EntryBytes(index[0]), IndexBytes(index[1..]) + [0];
      CutAt(entry, IndexBytes(index[1..]), [0], k);
      if k < |entry| {
        EntryCut(index[0], k);
      } else {
        NextWhole(index[0], after[..k - |entry|]);
        TruncatedIndex(index[1..], k - |entry|);
      }
    }
  }

  lemma CutAt(a: seq<Byte>, b: seq<Byte>, c: seq<Byte>, k: nat)
    requires k <= |a + b + c|
    ensures (a + b + c)[..k] == if k < |a| then a[..k] else a + (b + c)[..k - |a|]
  {
  }

  lemma EntryCut(e: Frame<Slot>, k: nat)
    requires SmallEntry(e) && k < |EntryBytes(e)|
    ensures NextOf(EntryBytes(e)[..k]) == Wrong(ShortBuffer)
  {
    var p, o, s := Uvarint(e.pgno), Uvarint(e.data.offset), Uvarint(e.data.size);
    Limits();
    CutAt(p, o, s, k);
    if k < |p| {
      TakesNone(e.pgno, k);
    } else {
      var j := k - |p|;
      TakesWhole(e.pgno, (o + s)[..j]);
      CutInTwo(o, s, j);
      if j < |o| {
        TakesNone(e.data.offset, j);
      } else {
        TakesWhole(e.data.offset, s[..j - |o|]);
        TakesNone(e.data.size, j - |o|);
      }
    }
  }

  lemma CutInTwo(a: seq<Byte>, b: seq<Byte>, k: nat)
    requires k <= |a + b|
    ensures (a + b)[..k] == if k < |a| then a[..k] else a + b[..k - |a|]
  {
  }

  // --- The footer ------------------------------------------------------------------------------------

  /// The bytes of the page index, as the footer locates them.
  function IndexRegion(bytes: seq<Byte>): Outcome<seq<Byte>> {
    if |bytes| < HEADER_SIZE + INDEX_FOOTER_SIZE then Wrong(ShortBuffer)
    else
      var at := |bytes| - INDEX_FOOTER_SIZE;
      var n := Field(bytes, at, 8);
      if n > at then Wrong(Malformed) else Fine(bytes[at - n..at])
  }

  /// The footer's length field leads back to the start of the index.
  lemma FooterLocatesIndex(before: seq<Byte>, index: seq<Byte>, n: seq<Byte>, trailer: seq<Byte>)
    requires |before| >= HEADER_SIZE && |trailer| == TRAILER_SIZE && |n| == 8 && FromBe(n) == |index|
    ensures IndexRegion(before + index + n + trailer) == Fine(index)
  {
    var bytes := before + index + n + trailer;
    var at := |bytes| - INDEX_FOOTER_SIZE;
    FooterSlices(before, index, n, trailer, at);
    assert Field(bytes, at, 8) == |index|;
  }

  lemma FooterSlices(a: seq<Byte>, b: seq<Byte>, n: seq<Byte>, t: seq<Byte>, at: nat)
    requires at == |a| + |b| && |n| == 8
    ensures (a + b + n + t)[at..at + 8] == n
    ensures (a + b + n + t)[at - |b|..at] == b
  {
  }

  // --- Slots -------------------------------------------------------------------------------------------

  /// Every index entry names its page and exactly the bytes of its frame.
  lemma {:induction false} SlotAt(lz: Lz4, pages: seq<Page>, i: nat)
    requires i < |pages|
    ensures IndexOf(lz, pages)[i].pgno == pages[i].pgno
    ensures var slot := IndexOf(lz, pages)[i].data;
      && slot.size == |FrameBytes(lz, pages[i])|
      && HEADER_SIZE <= slot.offset && slot.offset + slot.size <= HEADER_SIZE + |Body(lz, pages)|
      && Body(lz, pages)[slot.offset - HEADER_SIZE..slot.offset - HEADER_SIZE + slot.size] == FrameBytes(lz, pages[i])
    decreases |pages|
  {
    var n := |pages| - 1;
    if i < n {
      SlotAt(lz, pages[..n], i);
      SliceOfPrefix(Body(lz, pages[..n]), FrameBytes(lz, pages[n]),
        IndexOf(lz, pages)[i].data.offset - HEADER_SIZE, IndexOf(lz, pages)[i].data.size);
    }
  }

  lemma SliceOfPrefix(a: seq<Byte>, b: seq<Byte>, at: nat, n: nat)
    requires at + n <= |a|
    ensures (a + b)[at..at + n] == a[at..at + n]
  {
  }

  lemma SliceOfMiddle(a: seq<Byte>, b: seq<Byte>, c: seq<Byte>, at: nat, n: nat)
    requires |a| <= at && at + n <= |a| + |b|
    ensures (a + b + c)[at..at + n] == b[at - |a|..at - |a| + n]
  {
  }

  /// A ranged read of the slot of page `i` decodes to that page.
  ghost predicate SlotReads(lz: Lz4, bytes: seq<Byte>, pages: seq<Page>, i: nat, pageSize: nat)
    requires i < |pages|
  {
    var e := IndexOf(lz, pages)[i];
    && e.pgno == pages[i].pgno
    && e.data.offset + e.data.size <= |bytes|
    && DecodePageFrame(lz, bytes[e.data.offset..e.data.offset + e.data.size], pageSize) == Fine(pages[i])
  }

  lemma SlotDecodes(lz: Lz4, head: seq<Byte>, pages: seq<Page>, tail: seq<Byte>, i: nat)
    requires Lossless(lz) && |head| == HEADER_SIZE && i < |pages| && 0 < pages[i].pgno < Limit(4)
    ensures SlotReads(lz, head + Body(lz, pages) + tail, pages, i, |pages[i].data|)
  {
    var bytes := SlotInFile(lz, head, pages, tail, i);
    PageRoundTrip(lz, pages[i]);
  }

  lemma SlotInFile(lz: Lz4, head: seq<Byte>, pages: seq<Page>, tail: seq<Byte>, i: nat) returns (bytes: seq<Byte>)
    requires |head| == HEADER_SIZE && i < |pages|
    ensures bytes == head + Body(lz, pages) + tail
    ensures var e := IndexOf(lz, pages)[i];
      && e.pgno == pages[i].pgno && e.data.offset + e.data.size <= |bytes|
      && bytes[e.data.offset..e.data.offset + e.data.size] == FrameBytes(lz, pages[i])
  {
    var slot, body := IndexOf(lz, pages)[i].data, Body(lz, pages);
    SlotAt(lz, pages, i);
    SliceOfMiddle(head, body, tail, slot.offset, slot.size);
    bytes := head + body + tail;
  }

  // --- Whole files ---------------------------------------------------------------------------------------

  /// The bytes are those the encoder writes for header `h` and `pages`.
  ghost predicate IsFile(lz: Lz4, bytes: seq<Byte>, h: Header, pages: seq<Page>, t: Trailer) {
    && Representable(h) && Writable(h, pages) && IsTrailer(t)
    && |bytes| < U64 && bytes == FileBytes(lz, HeaderBytes(h), pages, t)
  }

  ghost predicate EndsWith(bytes: seq<Byte>, t: Trailer) {
    && IsTrailer(t) && |bytes| >= TRAILER_SIZE
    && bytes[|bytes| - TRAILER_SIZE..] == ToBe(t.postApply, 8) + ToBe(t.fileChecksum, 8)
  }

  /// Everything `read_file` looks for is where it looks for it.
  ghost predicate Readable(lz: Lz4, bytes: seq<Byte>, h: Header, pages: seq<Page>, t: Trailer) {
    && DecodeHeader(bytes) == Fine(h)
    && IndexRegion(bytes) == Fine(IndexBytes(IndexOf(lz, pages)) + [0])
    && SmallIndex(IndexOf(lz, pages))
    && EndsWith(bytes, t)
    && Ascend(pages)
    && forall i :: 0 <= i < |pages| ==> SlotReads(lz, bytes, pages, i, h.pageSize)
  }

  /// Whatever the encoder writes can be read back.
  lemma WrittenIsReadable(lz: Lz4, bytes: seq<Byte>, h: Header, pages: seq<Page>, t: Trailer)
    requires Lossless(lz) && IsFile(lz, bytes, h, pages, t)
    ensures Readable(lz, bytes, h, pages, t)
  {
    AcceptedAscend(h, pages);
    PagesInWidth(h, pages);
    var head := HeaderBytes(h);
    HeaderReads(h, head, bytes[HEADER_SIZE..]);
    LaidOut(lz, head, h.pageSize, pages, bytes, t);
  }

  lemma HeaderReads(h: Header, head: seq<Byte>, rest: seq<Byte>)
    requires Representable(h) && IsPageSize(h.pageSize) && head == HeaderBytes(h)
    ensures DecodeHeader(head + rest) == Fine(h)
  {
    HeaderRoundTrip(h, rest);
  }

  ghost predicate InWidth(pages: seq<Page>, pageSize: nat) {
    forall i :: 0 <= i < |pages| ==> 0 < pages[i].pgno < Limit(4) && |pages[i].data| == pageSize
  }

  lemma PagesInWidth(h: Header, pages: seq<Page>)
    requires Representable(h) && Writable(h, pages)
    ensures InWidth(pages, h.pageSize)
  {
    forall i | 0 <= i < |pages| ensures 0 < pages[i].pgno < Limit(4) && |pages[i].data| == h.pageSize {
      assert PageAccepted(h, pages, i);
    }
  }

  /// The index, the trailer and the slots of a file, whatever its header says.
  lemma LaidOut(lz: Lz4, head: seq<Byte>, pageSize: nat, pages: seq<Page>, bytes: seq<Byte>, t: Trailer)
    requires Lossless(lz) && |head| == HEADER_SIZE && InWidth(pages, pageSize)
    requires IsTrailer(t) && |bytes| < U64 && bytes == FileBytes(lz, head, pages, t)
    ensures IndexRegion(bytes) == Fine(IndexBytes(IndexOf(lz, pages)) + [0]) && SmallIndex(IndexOf(lz, pages))
    ensures EndsWith(bytes, t) && bytes == head + bytes[HEADER_SIZE..]
    ensures forall i :: 0 <= i < |pages| ==> SlotReads(lz, bytes, pages, i, pageSize)
  {
    var index := IndexBytes(IndexOf(lz, pages)) + [0];
    var n, trailer := ToBe(|index| % Limit(8), 8), ToBe(t.postApply, 8) + ToBe(t.fileChecksum, 8);
    Limits();
    FileLayout(head, Body(lz, pages), Zeros(PAGE_HEADER_SIZE), index, n, trailer);
    LengthReads(|index|, n);
    FooterLocatesIndex(head + Body(lz, pages) + Zeros(PAGE_HEADER_SIZE), index, n, trailer);
    IndexIsSmall(lz, pages, pageSize, |bytes|);
    var tail := Zeros(PAGE_HEADER_SIZE) + index + n + trailer;
    forall i | 0 <= i < |pages| ensures SlotReads(lz, bytes, pages, i, pageSize) {
      SlotDecodes(lz, head, pages, tail, i);
    }
  }

  lemma LengthReads(v: nat, n: seq<Byte>)
    requires v < Limit(8) && n == ToBe(v % Limit(8), 8)
    ensures FromBe(n) == v
  {
    BeRoundTrip(v, 8);
  }

  lemma FileLayout(a: seq<Byte>, b: seq<Byte>, z: seq<Byte>, index: seq<Byte>, n: seq<Byte>, t: seq<Byte>)
    ensures var file := a + b + (z + (index + n)) + t;
      && file == (a + b + z) + index + n + t
      && file == a + b + (z + index + n + t)
      && file[|a|..] == b + (z + index + n + t)
      && file == a + file[|a|..]
      && file[|file| - |t|..] == t
      && |index| <= |file| && |a + b| <= |file|
  {
    var file := a + b + (z + (index + n)) + t;
    assert file == a + (b + (z + index + n + t));
  }

  lemma IndexIsSmall(lz: Lz4, pages: seq<Page>, pageSize: nat, size: nat)
    requires InWidth(pages, pageSize) && HEADER_SIZE + |Body(lz, pages)| <= size < U64
    ensures SmallIndex(IndexOf(lz, pages))
  {
    var index := IndexOf(lz, pages);
    forall e | e in index ensures SmallEntry(e) {
      var i :| 0 <= i < |index| && index[i] == e;
      SlotAt(lz, pages, i);
    }
  }

  /// What `page_index` makes of any bytes.
  ghost function IndexIn(bytes: seq<Byte>): Outcome<seq<Frame<Slot>>> {
    match IndexRegion(bytes)
    case Wrong(e) => Wrong(e)
    case Fine(region) => EntriesOf(region)
  }

  /// `page_index`.
  method PageIndex(bytes: seq<Byte>) returns (r: Outcome<seq<Frame<Slot>>>)
    ensures r == IndexIn(bytes)
  {
    var region := IndexRegion(bytes);
    if region.Wrong? {
      return Wrong(region.error);
    }
    r := DecodePageIndex(region.value);
  }

  lemma IndexInReadable(lz: Lz4, bytes: seq<Byte>, h: Header, pages: seq<Page>, t: Trailer)
    requires Readable(lz, bytes, h, pages, t)
    ensures IndexIn(bytes) == Fine(IndexOf(lz, pages))
  {
    IntactIndex(IndexOf(lz, pages), [0]);
  }

  datatype DecodedFile = DecodedFile(header: Header, pages: seq<Page>, trailer: Trailer)

  /// The page in a slot, whatever the bytes.
  function PageIn(lz: Lz4, bytes: seq<Byte>, slot: Slot, pageSize: nat): Outcome<Page> {
    if slot.offset + slot.size > |bytes| then Wrong(ShortBuffer)
    else DecodePageFrame(lz, bytes[slot.offset..slot.offset + slot.size], pageSize)
  }

  /// The pages in the slots of an index, or the first one's error.
  ghost function PagesIn(lz: Lz4, bytes: seq<Byte>, index: seq<Frame<Slot>>, pageSize: nat): Outcome<seq<Page>> {
    if index == [] then Fine([])
    else
      var n := |index| - 1;
      match PagesIn(lz, bytes, index[..n], pageSize)
      case Wrong(e) => Wrong(e)
      case Fine(init) =>
        match PageIn(lz, bytes, index[n].data, pageSize)
        case Wrong(e) => Wrong(e)
        case Fine(page) => Fine(init + [page])
  }

  /// What `read_file` makes of any bytes.
  ghost function FileIn(lz: Lz4, bytes: seq<Byte>): Outcome<DecodedFile> {
    match DecodeHeader(bytes)
    case Wrong(e) => Wrong(e)
    case Fine(header) =>
      match IndexIn(bytes)
      case Wrong(e) => Wrong(e)
      case Fine(index) =>
        match TrailerIn(bytes)
        case Wrong(e) => Wrong(e)
        case Fine(trailer) =>
          match PagesIn(lz, bytes, index, header.pageSize)
          case Wrong(e) => Wrong(e)
          case Fine(pages) => Fine(DecodedFile(header, SortedByPgno(pages), trailer))
  }

  /// `read_file`, on any bytes: header, index, trailer and every page, or the first error.
  method ReadFile(lz: Lz4, bytes: seq<Byte>) returns (r: Outcome<DecodedFile>)
    ensures r == FileIn(lz, bytes)
    ensures forall h, pages, t :: Readable(lz, bytes, h, pages, t) ==> r == Fine(DecodedFile(h, pages, t))
  {
    forall h, pages, t | Readable(lz, bytes, h, pages, t) ensures FileIn(lz, bytes) == Fine(DecodedFile(h, pages, t)) {
      ReadableIsRead(lz, bytes, h, pages, t);
    }
    var header := DecodeHeader(bytes);
    if header.Wrong? { return Wrong(header.error); }
    var index := PageIndex(bytes);
    if index.Wrong? { return Wrong(index.error); }
    var trailer := TrailerIn(bytes);
    if trailer.Wrong? { return Wrong(trailer.error); }
    var pages := ReadSlots(lz, bytes, index.value, header.value.pageSize);
    if pages.Wrong? { return Wrong(pages.error); }
    return Fine(DecodedFile(header.value, SortedByPgno(pages.value), trailer.value));
  }

  method ReadSlots(lz: Lz4, bytes: seq<Byte>, index: seq<Frame<Slot>>, pageSize: nat) returns (r: Outcome<seq<Page>>)
    ensures r == PagesIn(lz, bytes, index, pageSize)
  {
    var out: seq<Page> := [];
    for i := 0 to |index|
      invariant PagesIn(lz, bytes, index[..i], pageSize) == Fine(out)
    {
      assert index[..i + 1][..i] == index[..i];
      var page := PageIn(lz, bytes, index[i].data, pageSize);
      if page.Wrong? {
        FirstErrorStays(lz, bytes, index, pageSize, i + 1);
        return Wrong(page.error);
      }
      out := out + [page.value];
    }
    assert index[..|index|] == index;
    return Fine(out);
  }

  lemma {:induction false} FirstErrorStays(lz: Lz4, bytes: seq<Byte>, index: seq<Frame<Slot>>, pageSize: nat, k: nat)
    requires k <= |index| && PagesIn(lz, bytes, index[..k], pageSize).Wrong?
    ensures PagesIn(lz, bytes, index, pageSize) == PagesIn(lz, bytes, index[..k], pageSize)
    decreases |index|
  {
    if k == |index| {
      assert index[..k] == index;
    } else {
      var n := |index| - 1;
      assert index[..n][..k] == index[..k];
      FirstErrorStays(lz, bytes, index[..n], pageSize, k);
    }
  }

  /// A readable file's header, pages and trailer are what is read.
  lemma ReadableIsRead(lz: Lz4, bytes: seq<Byte>, h: Header, pages: seq<Page>, t: Trailer)
    requires Readable(lz, bytes, h, pages, t)
    ensures FileIn(lz, bytes) == Fine(DecodedFile(h, pages, t))
  {
    IndexInReadable(lz, bytes, h, pages, t);
    TrailerReads(bytes, t);
    SlotsRead(lz, bytes, pages, h.pageSize, |pages|);
    assert IndexOf(lz, pages)[..|pages|] == IndexOf(lz, pages) && pages[..|pages|] == pages;
    SortedUnchanged(pages);
  }

  lemma {:induction false} SlotsRead(lz: Lz4, bytes: seq<Byte>, pages: seq<Page>, pageSize: nat, k: nat)
    requires k <= |pages| && forall i :: 0 <= i < |pages| ==> SlotReads(lz, bytes, pages, i, pageSize)
    ensures PagesIn(lz, bytes, IndexOf(lz, pages)[..k], pageSize) == Fine(pages[..k])
    decreases k
  {
    if k > 0 {
      SlotsRead(lz, bytes, pages, pageSize, k - 1);
      assert SlotReads(lz, bytes, pages, k - 1, pageSize);
      assert IndexOf(lz, pages)[..k][..k - 1] == IndexOf(lz, pages)[..k - 1];
      assert pages[..k] == pages[..k - 1] + [pages[k - 1]];
    }
  }

  /// `Trailer::decode` on the last 16 bytes.
  function TrailerIn(bytes: seq<Byte>): Outcome<Trailer> {
    if |bytes| < TRAILER_SIZE then Wrong(ShortBuffer)
    else
      var b := bytes[|bytes| - TRAILER_SIZE..];
      Fine(Trailer(Field(b, 0, 8), Field(b, 8, 8)))
  }

  lemma TrailerReads(bytes: seq<Byte>, t: Trailer)
    requires EndsWith(bytes, t)
    ensures TrailerIn(bytes) == Fine(t)
  {
    var b := bytes[|bytes| - TRAILER_SIZE..];
    BeRoundTrip(t.postApply, 8);
    BeRoundTrip(t.fileChecksum, 8);
    assert b[0..8] == ToBe(t.postApply, 8) && b[8..16] == ToBe(t.fileChecksum, 8);
  }

  // --- Writing, then reading -------------------------------------------------------------------------------

  /// Encodes a whole file, as every writer in the repository does.
  method WriteFile(lz: Lz4, h: Header, pages: seq<Page>, post: nat) returns (r: Outcome<seq<Byte>>, ghost t: Trailer)
    requires Representable(h) && post < Limit(8)
    ensures r.Fine? <==> Writable(h, pages)
    ensures r.Fine? ==>
      t == Trailer(post, FileChecksum(lz, HeaderBytes(h), pages, post)) &&
      r.value == FileBytes(lz, HeaderBytes(h), pages, t)
  {
    t := Trailer(0, 0);
    var enc := new Encoder(lz);
    var started := enc.EncodeHeader(h);
    ghost var head := enc.head;
    if started.Wrong? {
      return Wrong(started.error), t;
    }
    for i := 0 to |pages|
      invariant enc.Encoding() && enc.lz == lz && enc.header == h && enc.head == head && enc.pages == pages[..i] &&
        enc.postApply == 0
    {
      var page := enc.EncodePage(pages[i]);
      if page.Wrong? {
        assert PrevPgno(pages, i) == PrevPgno(pages[..i], i);
        assert !PageAccepted(h, pages, i);
        return Wrong(page.error), t;
      }
    }
    assert pages[..|pages|] == pages;
    enc.SetPostApply(post);
    var trailer := enc.Finish();
    return Fine(enc.out), trailer;
  }

  /// The file is small enough for its offsets to be 64-bit.
  ghost predicate OffsetsFit(lz: Lz4, pages: seq<Page>) {
    HEADER_SIZE + |Body(lz, pages)| + |IndexBytes(IndexOf(lz, pages))| + PAGE_HEADER_SIZE + 1 + INDEX_FOOTER_SIZE < U64
  }

  /// For every header and every page sequence the encoder accepts, whatever LZ4 does as long
  /// as it is lossless, the file reads back as exactly what was written.
  method WriteThenRead(lz: Lz4, h: Header, pages: seq<Page>, post: nat) returns (r: Outcome<DecodedFile>)
    requires Lossless(lz) && Representable(h) && post < Limit(8) && OffsetsFit(lz, pages)
    ensures r.Fine? <==> Writable(h, pages)
    ensures r.Fine? ==> r.value == DecodedFile(h, pages, Trailer(post, FileChecksum(lz, HeaderBytes(h), pages, post)))
  {
    ghost var t;
    var file;
    file, t := WriteFile(lz, h, pages, post);
    if file.Wrong? {
      return Wrong(file.error);
    }
    ReadsBack(lz, h, pages, t);
    r := ReadFile(lz, file.value);
  }

  lemma ReadsBack(lz: Lz4, h: Header, pages: seq<Page>, t: Trailer)
    requires Lossless(lz) && Representable(h) && Writable(h, pages) && IsTrailer(t) && OffsetsFit(lz, pages)
    ensures Readable(lz, FileBytes(lz, HeaderBytes(h), pages, t), h, pages, t)
  {
    FileSize(lz, HeaderBytes(h), pages, t);
    WrittenIsReadable(lz, FileBytes(lz, HeaderBytes(h), pages, t), h, pages, t);
  }

  lemma FileSize(lz: Lz4, head: seq<Byte>, pages: seq<Page>, t: Trailer)
    requires |head| == HEADER_SIZE && IsTrailer(t) && OffsetsFit(lz, pages)
    ensures |FileBytes(lz, head, pages, t)| < U64
  {
  }
}
