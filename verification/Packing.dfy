/// What of the compression the file checksum sees (src/ltx/encoder.rs:3-8, 202-207).

module Packing {
  // The encoder's documentation calls the file checksum independent of compression. Pages are
  // hashed uncompressed, but the page index, which is hashed too, holds the offsets and sizes
  // of packed frames: what is hashed is the same under two codecs exactly when every page
  // packs to the same length.

  import opened Options
  import opened Bytes
  import opened LtxFiles
  import opened Varint
  import opened Codec

  ghost predicate SameSizes(a: Lz4, b: Lz4, pages: seq<Page>) {
    forall i :: 0 <= i < |pages| ==> |a.pack(pages[i].data)| == |b.pack(pages[i].data)|
  }

  /// The same page index, and so the same hashed bytes, if and only if the same sizes.
  lemma HashedBytesAgreeExactly(a: Lz4, b: Lz4, head: seq<Byte>, pages: seq<Page>, post: nat)
    requires post < Limit(8)
    ensures HashedBytes(a, head, pages, post) == HashedBytes(b, head, pages, post) <==> SameSizes(a, b, pages)
  {
    var i, j := IndexOf(a, pages), IndexOf(b, pages);
    if SameSizes(a, b, pages) {
      IndexesAgree(a, b, pages);
    }
    if HashedBytes(a, head, pages, post) == HashedBytes(b, head, pages, post) {
      IndexRecovered(head + HashedBody(pages), i, j, ToBe(post, 8));
      SizesInIndex(a, pages);
      SizesInIndex(b, pages);
    }
  }

  lemma {:induction false} IndexesAgree(a: Lz4, b: Lz4, pages: seq<Page>)
    requires SameSizes(a, b, pages)
    ensures |Body(a, pages)| == |Body(b, pages)| && IndexOf(a, pages) == IndexOf(b, pages)
  {
    if pages != [] {
      IndexesAgree(a, b, pages[..|pages| - 1]);
    }
  }

  lemma {:induction false} SizesInIndex(lz: Lz4, pages: seq<Page>)
    ensures forall i :: 0 <= i < |pages| ==>
      IndexOf(lz, pages)[i].data.size == PAGE_HEADER_SIZE + |lz.pack(pages[i].data)|
  {
    if pages != [] {
      var n := |pages| - 1;
      SizesInIndex(lz, pages[..n]);
      assert forall i :: 0 <= i < n ==> pages[..n][i] == pages[i];
    }
  }

  // --- The index is decodable -----------------------------------------------------------------

  /// A varint ends where it says, whatever follows: two strings that start with varints and
  /// are equal start with the same varint.
  lemma UvarintInjective(u: nat, v: nat, x: seq<Byte>, y: seq<Byte>)
    requires Uvarint(u) + x == Uvarint(v) + y
    ensures u == v && x == y
  {
    UvarintRoundTrip(u, x);
    UvarintRoundTrip(v, y);
  }

  lemma EntryInjective(e: Frame<Slot>, f: Frame<Slot>, x: seq<Byte>, y: seq<Byte>)
    requires EntryBytes(e) + x == EntryBytes(f) + y
    ensures e == f && x == y
  {
    ThreeThen(Uvarint(e.pgno), Uvarint(e.data.offset), Uvarint(e.data.size), x);
    ThreeThen(Uvarint(f.pgno), Uvarint(f.data.offset), Uvarint(f.data.size), y);
    var s, t := Uvarint(e.data.size) + x, Uvarint(f.data.size) + y;
    UvarintInjective(e.pgno, f.pgno, Uvarint(e.data.offset) + s, Uvarint(f.data.offset) + t);
    UvarintInjective(e.data.offset, f.data.offset, s, t);
    UvarintInjective(e.data.size, f.data.size, x, y);
  }

  lemma ThreeThen(a: seq<Byte>, b: seq<Byte>, c: seq<Byte>, x: seq<Byte>)
    ensures (a + b + c) + x == a + (b + (c + x))
  {
  }

  lemma {:induction false} IndexInjective(i: seq<Frame<Slot>>, j: seq<Frame<Slot>>, x: seq<Byte>, y: seq<Byte>)
    requires |i| == |j| && IndexBytes(i) + x == IndexBytes(j) + y
    ensures i == j && x == y
    decreases |i|
  {
    if i == [] {
      assert x == IndexBytes(i) + x && y == IndexBytes(j) + y;
    } else {
      Regroup(EntryBytes(i[0]), IndexBytes(i[1..]), x);
      Regroup(EntryBytes(j[0]), IndexBytes(j[1..]), y);
      EntryInjective(i[0], j[0], IndexBytes(i[1..]) + x, IndexBytes(j[1..]) + y);
      IndexInjective(i[1..], j[1..], x, y);
      assert i == [i[0]] + i[1..] && j == [j[0]] + j[1..];
    }
  }

  lemma Regroup(a: seq<Byte>, b: seq<Byte>, x: seq<Byte>)
    ensures (a + b) + x == a + (b + x)
  {
  }

  /// Behind the same bytes and before the same bytes, equal files have equal indexes.
  lemma IndexRecovered(before: seq<Byte>, i: seq<Frame<Slot>>, j: seq<Frame<Slot>>, after: seq<Byte>)
    requires |i| == |j| && before + Middle(i) + after == before + Middle(j) + after
    ensures i == j
  {
    var m := ToBe((|IndexBytes(i)| + 1) % Limit(8), 8);
    var n := ToBe((|IndexBytes(j)| + 1) % Limit(8), 8);
    AfterZeros(before, Zeros(PAGE_HEADER_SIZE), IndexBytes(i), m, after);
    AfterZeros(before, Zeros(PAGE_HEADER_SIZE), IndexBytes(j), n, after);
    IndexInjective(i, j, [0] + m + after, [0] + n + after);
  }

  lemma AfterZeros(before: seq<Byte>, zeros: seq<Byte>, entries: seq<Byte>, length: seq<Byte>, after: seq<Byte>)
    ensures (before + (zeros + ((entries + [0]) + length)) + after)[|before| + |zeros|..] ==
      entries + ([0] + length + after)
  {
  }

  // --- Two codecs -----------------------------------------------------------------------------

  function Shortest(b: seq<Byte>, n: nat): Option<seq<Byte>> {
    if n <= |b| then Some(b[..n]) else None
  }

  /// A codec that stores pages as they are, and one that stores them with a byte to spare.
  const STORED: Lz4 := Lz4((d: seq<Byte>) => d, Shortest, Shortest)
  const PADDED: Lz4 := Lz4((d: seq<Byte>) => d + [0], Shortest, Shortest)

  lemma BothLossless()
    ensures Lossless(STORED) && Lossless(PADDED)
  {
    forall d: seq<Byte>
      ensures STORED.unpackFrame(STORED.pack(d), |d|) == Some(d) && PADDED.unpackFrame(PADDED.pack(d), |d|) == Some(d)
    {
      assert d[..|d|] == d && (d + [0])[..|d|] == d;
    }
  }

  /// Both are lossless, and the checksum covers different bytes under them for every file
  /// with a page in it.
  lemma LosslessCodecsDisagree(head: seq<Byte>, pages: seq<Page>, post: nat)
    requires post < Limit(8) && pages != []
    ensures Lossless(STORED) && Lossless(PADDED)
    ensures HashedBytes(STORED, head, pages, post) != HashedBytes(PADDED, head, pages, post)
  {
    BothLossless();
    PaddedIsLonger(pages);
    HashedBytesAgreeExactly(STORED, PADDED, head, pages, post);
  }

  lemma PaddedIsLonger(pages: seq<Page>)
    requires pages != []
    ensures !SameSizes(STORED, PADDED, pages)
  {
    assert |STORED.pack(pages[0].data)| != |PADDED.pack(pages[0].data)|;
  }
}
