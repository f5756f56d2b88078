/// The WAL's frames and its checksum pinned by the file format itself (sections 4.1 and 4.2 of
/// the SQLite file format): which bytes make a frame, and what the checksum is as a number.

module WalExact {
  import opened Bytes
  import opened Options
  import opened Wal

  // --- Which bytes make a frame --------------------------------------------------------------

  /// The bytes at `at` are a frame header for `f` and a page: page number, database size, the
  /// WAL's two salts, and the checksum of the first eight bytes and the page continued from `seed`.
  ghost predicate LaidOut(wal: seq<Byte>, h: WalHeader, at: nat, seed: Sum, f: WalFrame) {
    && at + FRAME_HEADER_SIZE + h.pageSize <= |wal|
    && Field(wal, at, 4) == f.pgno && Field(wal, at + 4, 4) == f.commit
    && Field(wal, at + 8, 4) == h.salt1 && Field(wal, at + 12, 4) == h.salt2
    && Field(wal, at + 16, 4) == f.sum.s0 && Field(wal, at + 20, 4) == f.sum.s1
    && f.offset == at
    && f.sum == Checksum(h.order, seed, wal[at..at + 8] + wal[at + 24..at + 24 + h.pageSize])
  }

  ghost predicate LaidOutAt(wal: seq<Byte>, h: WalHeader, frames: seq<WalFrame>, i: nat)
    requires i < |frames|
  {
    LaidOut(wal, h, OffsetOf(h, i), SumBefore(frames, i, h.sum), frames[i])
  }

  /// `frames` lie end to end behind the header, and no frame follows them.
  ghost predicate AreTheFrames(wal: seq<Byte>, h: WalHeader, frames: seq<WalFrame>) {
    && (forall i :: 0 <= i < |frames| ==> LaidOutAt(wal, h, frames, i))
    && forall f :: !LaidOut(wal, h, OffsetOf(h, |frames|), SumBefore(frames, |frames|, h.sum), f)
  }

  lemma CheckFrameExactly(wal: seq<Byte>, h: WalHeader, at: nat, seed: Sum, b: seq<Byte>, f: WalFrame)
    requires at + FrameSize(h) <= |wal| && b == wal[at..at + FrameSize(h)]
    ensures CheckFrame(h, b, at, seed) == Some(f) <==> LaidOut(wal, h, at, seed, f)
  {
    FieldsInPlace(wal, at, FrameSize(h));
    SubSlice(wal, at, at + FrameSize(h), 0, 4);
    SubSlice(wal, at, at + FrameSize(h), 4, 8);
    SubSlice(wal, at, at + FrameSize(h), 0, 8);
    SubSlice(wal, at, at + FrameSize(h), 24, FrameSize(h));
    ChecksumComposes(h.order, seed, b[..8], b[FRAME_HEADER_SIZE..]);
  }

  /// The run of valid frames stops at a chunk that is none.
  lemma {:induction false} RunEnds(chunks: seq<seq<Byte>>, h: WalHeader, n: nat, c: Sum)
    requires forall i :: 0 <= i < |chunks| ==> |chunks[i]| == FrameSize(h)
    ensures var frames := ValidFrames(chunks, h, n, c);
      |frames| < |chunks| ==>
        CheckFrame(h, chunks[|frames|], OffsetOf(h, n + |frames|), SumBefore(frames, |frames|, c)) == None
    decreases |chunks|
  {
    if chunks != [] {
      var first := CheckFrame(h, chunks[0], OffsetOf(h, n), c);
      if first.Some? {
        RunEnds(chunks[1..], h, n + 1, first.value.sum);
      }
    }
  }

  lemma FrameIsLaidOut(wal: seq<Byte>, h: WalHeader, i: nat)
    requires |wal| >= WAL_HEADER_SIZE && i < |FramesOf(wal, h)|
    ensures LaidOutAt(wal, h, FramesOf(wal, h), i)
  {
    var frames, chunks := FramesOf(wal, h), ChunksOf(wal, h);
    FrameAt(chunks, h, 0, h.sum, i);
    ChunkAt(wal, h, i);
    CheckFrameExactly(wal, h, OffsetOf(h, i), SumBefore(frames, i, h.sum), chunks[i], frames[i]);
  }

  /// Frame `i` names the page and the database size its first eight bytes give.
  lemma FrameNamesItsPage(wal: seq<Byte>, h: WalHeader, i: nat, f: WalFrame)
    requires |wal| >= WAL_HEADER_SIZE && i < |FramesOf(wal, h)| && f == FramesOf(wal, h)[i]
    ensures OffsetOf(h, i) + FRAME_HEADER_SIZE + h.pageSize <= |wal|
    ensures f.pgno == Field(wal, OffsetOf(h, i), 4) && f.commit == Field(wal, OffsetOf(h, i) + 4, 4)
    ensures f.offset == OffsetOf(h, i)
  {
    FrameIsLaidOut(wal, h, i);
    NamesItsPage(wal, h, OffsetOf(h, i), SumBefore(FramesOf(wal, h), i, h.sum), f);
  }

  lemma NamesItsPage(wal: seq<Byte>, h: WalHeader, at: nat, seed: Sum, f: WalFrame)
    requires LaidOut(wal, h, at, seed, f)
    ensures at + FRAME_HEADER_SIZE + h.pageSize <= |wal|
    ensures f.pgno == Field(wal, at, 4) && f.commit == Field(wal, at + 4, 4) && f.offset == at
  {
  }

  lemma NothingFollows(wal: seq<Byte>, h: WalHeader, n: nat, seed: Sum, f: WalFrame)
    requires |wal| >= WAL_HEADER_SIZE && n == |FramesOf(wal, h)| && seed == SumBefore(FramesOf(wal, h), n, h.sum)
    ensures !LaidOut(wal, h, OffsetOf(h, n), seed, f)
  {
    if OffsetOf(h, n + 1) <= |wal| {
      ChunksFrom(wal, h, n + 1);
      RunEnds(ChunksOf(wal, h), h, 0, h.sum);
      ChunkAt(wal, h, n);
      CheckFrameExactly(wal, h, OffsetOf(h, n), seed, ChunksOf(wal, h)[n], f);
    }
  }

  lemma FramesAreLaidOut(wal: seq<Byte>, h: WalHeader)
    requires |wal| >= WAL_HEADER_SIZE
    ensures AreTheFrames(wal, h, FramesOf(wal, h))
  {
    var frames := FramesOf(wal, h);
    var seed := SumBefore(frames, |frames|, h.sum);
    forall i | 0 <= i < |frames| ensures LaidOutAt(wal, h, frames, i) { FrameIsLaidOut(wal, h, i); }
    forall f ensures !LaidOut(wal, h, OffsetOf(h, |frames|), seed, f) {
      NothingFollows(wal, h, |frames|, seed, f);
    }
  }

  lemma {:induction false} SameFrames(wal: seq<Byte>, h: WalHeader, a: seq<WalFrame>, b: seq<WalFrame>, k: nat)
    requires AreTheFrames(wal, h, a) && AreTheFrames(wal, h, b) && k <= |a| && k <= |b|
    ensures a[..k] == b[..k]
    decreases k
  {
    if k > 0 {
      SameFrames(wal, h, a, b, k - 1);
      assert LaidOutAt(wal, h, a, k - 1) && LaidOutAt(wal, h, b, k - 1);
      assert k > 1 ==> a[..k - 1][k - 2] == b[..k - 1][k - 2];
      assert a[k - 1] == b[k - 1];
    }
  }

  /// The frames of a WAL are exactly the longest run of well laid out ones behind its header.
  lemma FramesExactly(wal: seq<Byte>, h: WalHeader, frames: seq<WalFrame>)
    requires |wal| >= WAL_HEADER_SIZE
    ensures frames == FramesOf(wal, h) <==> AreTheFrames(wal, h, frames)
  {
    var found := FramesOf(wal, h);
    FramesAreLaidOut(wal, h);
    if AreTheFrames(wal, h, frames) {
      NoLonger(wal, h, frames, found);
      NoLonger(wal, h, found, frames);
      SameFrames(wal, h, frames, found, |found|);
      assert frames == frames[..|found|] && found == found[..|found|];
    }
  }

  lemma NoLonger(wal: seq<Byte>, h: WalHeader, a: seq<WalFrame>, b: seq<WalFrame>)
    requires AreTheFrames(wal, h, a) && AreTheFrames(wal, h, b)
    ensures |b| <= |a|
  {
    if |a| < |b| {
      SameFrames(wal, h, a, b, |a|);
      OneMore(wal, h, a, b);
    }
  }

  lemma OneMore(wal: seq<Byte>, h: WalHeader, a: seq<WalFrame>, b: seq<WalFrame>)
    requires |a| < |b| && a[..|a|] == b[..|a|] && LaidOutAt(wal, h, b, |a|)
    ensures LaidOut(wal, h, OffsetOf(h, |a|), SumBefore(a, |a|, h.sum), b[|a|])
  {
    assert |a| > 0 ==> a[..|a|][|a| - 1] == b[..|a|][|a| - 1];
  }

  // --- What the checksum is --------------------------------------------------------------------

  function Fib(n: nat): nat {
    if n < 2 then n else Fib(n - 1) + Fib(n - 2)
  }

  /// The numbers a byte string holds, four bytes each, in the given order.
  function WordAt(order: ByteOrder, b: seq<Byte>, i: nat): nat
    requires 4 * i + 4 <= |b|
  {
    var (w: nat, x: nat, y: nat, z: nat) := (b[4 * i], b[4 * i + 1], b[4 * i + 2], b[4 * i + 3]);
    if order.Big? then 0x100_0000 * w + 0x1_0000 * x + 0x100 * y + z
    else 0x100_0000 * z + 0x1_0000 * y + 0x100 * x + w
  }

  /// The first `k` words, word `i` weighted by the Fibonacci number `n - i`.
  ghost function Weighted(order: ByteOrder, b: seq<Byte>, n: nat, k: nat): nat
    requires k <= n && 4 * k <= |b|
  {
    if k == 0 then 0 else Weighted(order, b, n, k - 1) + Fib(n - k + 1) * WordAt(order, b, k - 1)
  }

  /// The sum after `n` words, without wrapping.
  ghost function Total(order: ByteOrder, c: Sum, b: seq<Byte>, n: nat): nat
    requires 4 * n <= |b|
  {
    Fib(n) * c.s0 + Fib(n + 1) * c.s1 + Weighted(order, b, n, n)
  }

  lemma {:induction false} WeightsAdd(order: ByteOrder, b: seq<Byte>, n: nat, k: nat)
    requires k + 2 <= n && 4 * k <= |b|
    ensures Weighted(order, b, n, k) == Weighted(order, b, n - 1, k) + Weighted(order, b, n - 2, k)
    decreases k
  {
    if k > 0 {
      WeightsAdd(order, b, n, k - 1);
      Distributes(Fib(n - k), Fib(n - k - 1), WordAt(order, b, k - 1));
    }
  }

  /// Each word is added to the two sums before it.
  lemma TotalStep(order: ByteOrder, c: Sum, b: seq<Byte>, n: nat)
    requires n >= 2 && 4 * n <= |b|
    ensures Total(order, c, b, n) ==
      Total(order, c, b, n - 2) + WordAt(order, b, n - 1) + Total(order, c, b, n - 1)
  {
    WeightsAdd(order, b, n, n - 2);
    Distributes(Fib(n - 1), Fib(n - 2), c.s0);
    Distributes(Fib(n), Fib(n - 1), c.s1);
    assert Weighted(order, b, n, n - 1) == Weighted(order, b, n, n - 2) + Fib(2) * WordAt(order, b, n - 2);
    assert Fib(1) == 1 && Fib(2) == 1;
  }

  lemma WrappedSum(a: nat, x: nat, b: nat, was: nat, before: nat)
    requires a % U32 == was % U32 && b % U32 == before % U32
    ensures (a + (x + b) % U32) % U32 == (was + x + before) % U32
  {
  }

  /// `Mix` on numbers.
  function MixWords(c: Sum, x: nat, y: nat): Sum {
    var s0 := (c.s0 + (x + c.s1) % U32) % U32;
    Sum(s0, (c.s1 + (y + s0) % U32) % U32)
  }

  lemma MixTotals(c: Sum, x: nat, y: nat, t0: nat, t1: nat, next0: nat, next1: nat)
    requires c == Sum(t0, t1) || c == Sum(t0 % U32, t1 % U32)
    requires next0 == t0 + x + t1 && next1 == t1 + y + next0
    ensures MixWords(c, x, y) == Sum(next0 % U32, next1 % U32)
  {
    Wrapped(t0);
    Wrapped(t1);
    WrappedSum(c.s0, x, c.s1, t0, t1);
    var s0 := (c.s0 + (x + c.s1) % U32) % U32;
    Wrapped(next0);
    WrappedSum(c.s1, y, s0, t1, next0);
  }

  lemma Wrapped(a: nat)
    ensures a % U32 % U32 == a % U32
  {
  }

  lemma WordIs(order: ByteOrder, b: seq<Byte>, i: nat)
    requires 4 * i + 4 <= |b|
    ensures Word(order, b[4 * i..4 * i + 4]) == WordAt(order, b, i)
  {
    var w := b[4 * i..4 * i + 4];
    FourBytes(w);
    FourBytes([w[3], w[2], w[1], w[0]]);
  }

  lemma FourBytes(w: seq<Byte>)
    requires |w| == 4
    ensures var (w0: nat, w1: nat, w2: nat, w3: nat) := (w[0], w[1], w[2], w[3]);
      FromBe(w) == 0x100_0000 * w0 + 0x1_0000 * w1 + 0x100 * w2 + w3
  {
    assert w[..3][..2] == w[..2] && w[..2][..1] == w[..1] && w[..1][..0] == [];
    assert FromBe(w[..1]) == w[0];
    assert FromBe(w[..2]) == 256 * FromBe(w[..1]) + w[1];
    assert FromBe(w[..3]) == 256 * FromBe(w[..2]) + w[2];
  }

  /// The checksum of a whole number of word pairs is the Fibonacci-weighted sum of the words, with
  /// the largest weight on the first: over all of them and over all but the last, cut to 32 bits.
  lemma {:induction false} ChecksumIsWeighted(order: ByteOrder, c: Sum, b: seq<Byte>, n: nat)
    requires n > 0 && 8 * n <= |b|
    ensures Checksum(order, c, b[..8 * n]) ==
      Sum(Total(order, c, b, 2 * n - 1) % U32, Total(order, c, b, 2 * n) % U32)
    decreases n
  {
    LastStep(order, c, b, n);
    var sofar := b[..8 * n - 8];
    if n > 1 {
      ChecksumIsWeighted(order, c, b, n - 1);
    } else {
      assert sofar == [];
    }
    StepIsWeighted(order, c, b, n, Checksum(order, c, sofar));
  }

  lemma StepIsWeighted(order: ByteOrder, c: Sum, b: seq<Byte>, n: nat, was: Sum)
    requires n > 0 && 8 * n <= |b|
    requires was == if n == 1 then c
      else Sum(Total(order, c, b, 2 * n - 3) % U32, Total(order, c, b, 2 * n - 2) % U32)
    ensures MixWords(was, WordAt(order, b, 2 * n - 2), WordAt(order, b, 2 * n - 1)) ==
      Sum(Total(order, c, b, 2 * n - 1) % U32, Total(order, c, b, 2 * n) % U32)
  {
    var t, next := TotalsGrow(order, c, b, n);
    MixTotals(was, WordAt(order, b, 2 * n - 2), WordAt(order, b, 2 * n - 1), t.0, t.1, next.0, next.1);
  }

  /// The totals after `n` pairs of words, from those before the last pair.
  lemma TotalsGrow(order: ByteOrder, c: Sum, b: seq<Byte>, n: nat)
    returns (t: (nat, nat), next: (nat, nat))
    requires n > 0 && 8 * n <= |b|
    ensures t == if n == 1 then (c.s0, c.s1) else (Total(order, c, b, 2 * n - 3), Total(order, c, b, 2 * n - 2))
    ensures next == (Total(order, c, b, 2 * n - 1), Total(order, c, b, 2 * n))
    ensures next.0 == t.0 + WordAt(order, b, 2 * n - 2) + t.1
    ensures next.1 == t.1 + WordAt(order, b, 2 * n - 1) + next.0
  {
    next := (Total(order, c, b, 2 * n - 1), Total(order, c, b, 2 * n));
    TotalStep(order, c, b, 2 * n);
    if n == 1 {
      FirstTotals(order, c, b);
      return (c.s0, c.s1), next;
    }
    TotalStep(order, c, b, 2 * n - 1);
    return (Total(order, c, b, 2 * n - 3), Total(order, c, b, 2 * n - 2)), next;
  }

  lemma FirstTotals(order: ByteOrder, c: Sum, b: seq<Byte>)
    requires 8 <= |b|
    ensures Total(order, c, b, 0) == c.s1 && Total(order, c, b, 1) == c.s0 + WordAt(order, b, 0) + c.s1
  {
    assert Fib(1) == 1 && Fib(2) == 1;
    assert Weighted(order, b, 1, 0) == 0;
    assert Weighted(order, b, 1, 1) == Fib(1) * WordAt(order, b, 0);
  }

  lemma LastStep(order: ByteOrder, c: Sum, b: seq<Byte>, n: nat)
    requires n > 0 && 8 * n <= |b|
    ensures Checksum(order, c, b[..8 * n]) == MixWords(
      Checksum(order, c, b[..8 * n - 8]), WordAt(order, b, 2 * n - 2), WordAt(order, b, 2 * n - 1))
  {
    var sofar, part := b[..8 * n - 8], b[8 * n - 8..8 * n];
    assert b[..8 * n] == sofar + part;
    ChecksumComposes(order, c, sofar, part);
    LastPair(order, Checksum(order, c, sofar), b, n, part);
  }

  lemma LastPair(order: ByteOrder, c: Sum, b: seq<Byte>, n: nat, part: seq<Byte>)
    requires n > 0 && 8 * n <= |b| && part == b[8 * n - 8..8 * n]
    ensures Checksum(order, c, part) == MixWords(c, WordAt(order, b, 2 * n - 2), WordAt(order, b, 2 * n - 1))
  {
    SubSlice(b, 8 * n - 8, 8 * n, 0, 4);
    SubSlice(b, 8 * n - 8, 8 * n, 4, 8);
    WordIs(order, b, 2 * n - 2);
    WordIs(order, b, 2 * n - 1);
    PairIsMixed(order, c, part);
  }

  lemma PairIsMixed(order: ByteOrder, c: Sum, part: seq<Byte>)
    requires |part| == 8
    ensures Checksum(order, c, part) == MixWords(c, Word(order, part[0..4]), Word(order, part[4..8]))
  {
    assert part[8..] == [] && part[..8] == part && part[..4] == part[0..4] && part[4..] == part[4..8];
  }
}
