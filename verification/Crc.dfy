/// CRC-64 as LTX files use it (src/ltx/checksum.rs): the table-driven hasher is bitwise
/// division by the reflected ISO 3309 polynomial, however the input is chunked, and the
/// database checksum does not depend on the order of pages.

module Crc {
  import opened Bytes

  /// A 64-bit register, least significant bit first.
  type Word = w: seq<bool> | |w| == 64 witness seq(64, _ => false)

  function Xor(a: Word, b: Word): Word {
    seq(64, i requires 0 <= i < 64 => a[i] != b[i])
  }

  function Zeros(n: nat): (z: seq<bool>)
    ensures |z| == n && forall i :: 0 <= i < n ==> !z[i]
  {
    seq(n, _ => false)
  }

  function RightBy(a: Word, n: nat): Word
    requires n <= 64
  {
    a[n..] + Zeros(n)
  }

  function Ones(): Word {
    seq(64, _ => true)
  }

  /// 0xD800_0000_0000_0000.
  function Poly(): Word {
    Zeros(59) + [true, true, false, true, true]
  }

  /// The low `n` bits of an integer, and back.
  function Bits(v: nat, n: nat): (b: seq<bool>)
    ensures |b| == n
  {
    if n == 0 then [] else [v % 2 == 1] + Bits(v / 2, n - 1)
  }

  function Value(b: seq<bool>): nat {
    if b == [] then 0 else (if b[0] then 1 else 0) + 2 * Value(b[1..])
  }

  lemma {:induction false} BitsOfValue(b: seq<bool>)
    ensures Bits(Value(b), |b|) == b
  {
    if b != [] {
      BitsOfValue(b[1..]);
    }
  }

  function ByteWord(b: nat): Word {
    Bits(b, 8) + Zeros(56)
  }

  lemma ByteOfLow(x: Word)
    ensures Value(x[..8]) < 256 && ByteWord(Value(x[..8])) == x[..8] + Zeros(56)
  {
    BitsOfValue(x[..8]);
    ValueBelow(x[..8]);
    BytesOfBits(1);
  }

  function Pow2(n: nat): (r: nat)
    ensures r > 0
  {
    if n == 0 then 1 else 2 * Pow2(n - 1)
  }

  lemma {:induction false} ValueBelow(b: seq<bool>)
    ensures Value(b) < Pow2(|b|)
  {
    if b != [] {
      ValueBelow(b[1..]);
    }
  }

  lemma {:induction false} BytesOfBits(n: nat)
    ensures Pow2(8 * n) == Limit(n)
  {
    if n > 0 {
      BytesOfBits(n - 1);
      var m := 8 * (n - 1);
      assert Pow2(m + 1) == 2 * Pow2(m) && Pow2(m + 2) == 4 * Pow2(m) && Pow2(m + 3) == 8 * Pow2(m);
      assert Pow2(m + 4) == 16 * Pow2(m) && Pow2(m + 5) == 32 * Pow2(m) && Pow2(m + 6) == 64 * Pow2(m);
    }
  }

  /// A register as an unsigned 64-bit integer.
  function ToU64(w: Word): (v: nat)
    ensures v < Limit(8)
  {
    ValueBelow(w);
    BytesOfBits(8);
    Value(w)
  }

  /// The polynomial as a number.
  lemma PolyIsIso()
    ensures ToU64(Poly()) == 0xD800_0000_0000_0000
  {
    Shifted(59, [true, true, false, true, true]);
    HighPowers();
    LowBits();
  }

  lemma HighPowers()
    ensures Pow2(59) == 0x800_0000_0000_0000 && Pow2(63) == 0x8000_0000_0000_0000
  {
    BytesOfBits(7);
    Limits();
    assert Limit(7) == 0x100_0000_0000_0000;
    assert Pow2(57) == 2 * Pow2(56) && Pow2(58) == 2 * Pow2(57) && Pow2(59) == 2 * Pow2(58);
    assert Pow2(60) == 2 * Pow2(59) && Pow2(61) == 2 * Pow2(60) && Pow2(62) == 2 * Pow2(61);
  }

  lemma LowBits()
    ensures Value([true, true, false, true, true]) == 27
  {
    var b := [true, true, false, true, true];
    assert b[1..] == [true, false, true, true] && b[1..][1..] == [false, true, true];
    assert Value([true]) == 1 && Value([true, true]) == 3 && Value([false, true, true]) == 6;
    assert Value(b[1..]) == 13;
  }

  lemma {:induction false} Shifted(n: nat, b: seq<bool>)
    ensures Value(Zeros(n) + b) == Pow2(n) * Value(b)
  {
    if n == 0 {
      assert Zeros(0) + b == b;
    } else {
      assert (Zeros(n) + b)[1..] == Zeros(n - 1) + b;
      Shifted(n - 1, b);
    }
  }

  // --- Bitwise division --------------------------------------------------------------------

  /// One bit of the division.
  function Shift(crc: Word): Word {
    if crc[0] then Xor(RightBy(crc, 1), Poly()) else RightBy(crc, 1)
  }

  function Shifts(crc: Word, n: nat): Word
    decreases n, |crc|
  {
    if n == 0 then crc else Shifts(Shift(crc), n - 1)
  }

  function FeedByte(crc: Word, b: Byte): Word {
    Shifts(Xor(crc, ByteWord(b)), 8)
  }

  /// The remainder after feeding `data`, one bit at a time.
  function Division(crc: Word, data: seq<Byte>): Word
    decreases |data|
  {
    if data == [] then crc else Division(FeedByte(crc, data[0]), data[1..])
  }

  /// Feeding the input in chunks is feeding it whole.
  lemma {:induction false} DivisionComposes(crc: Word, a: seq<Byte>, b: seq<Byte>)
    ensures Division(crc, a + b) == Division(Division(crc, a), b)
    decreases |a|
  {
    if a == [] {
      assert a + b == b;
    } else {
      assert (a + b)[1..] == a[1..] + b;
      DivisionComposes(FeedByte(crc, a[0]), a[1..], b);
    }
  }

  // --- The table ---------------------------------------------------------------------------------

  ghost predicate IsTable(table: seq<Word>) {
    |table| == 256 && forall i :: 0 <= i < 256 ==> table[i] == Shifts(ByteWord(i), 8)
  }

  method BuildTable() returns (table: seq<Word>)
    ensures IsTable(table)
  {
    table := [];
    for i := 0 to 256
      invariant |table| == i && forall k :: 0 <= k < i ==> table[k] == Shifts(ByteWord(k), 8)
    {
      var crc := ByteWord(i);
      for j := 0 to 8
        invariant Shifts(crc, 8 - j) == Shifts(ByteWord(i), 8)
      {
        if crc[0] {
          crc := Xor(RightBy(crc, 1), Poly());
        } else {
          crc := RightBy(crc, 1);
        }
      }
      table := table + [crc];
    }
  }

  lemma ShiftIsLinear(a: Word, b: Word)
    ensures Shift(Xor(a, b)) == Xor(Shift(a), Shift(b))
  {
    var l, r := Shift(Xor(a, b)), Xor(Shift(a), Shift(b));
    forall i | 0 <= i < 64 ensures l[i] == r[i] {
    }
  }

  lemma {:induction false} ShiftsAreLinear(a: Word, b: Word, n: nat)
    ensures Shifts(Xor(a, b), n) == Xor(Shifts(a, n), Shifts(b, n))
    decreases n
  {
    if n > 0 {
      ShiftIsLinear(a, b);
      ShiftsAreLinear(Shift(a), Shift(b), n - 1);
    }
  }

  /// With its low bits clear, a value only moves.
  lemma {:induction false} ClearBitsMove(a: Word, n: nat)
    requires n <= 64 && forall i :: 0 <= i < n ==> !a[i]
    ensures Shifts(a, n) == RightBy(a, n)
    decreases n
  {
    if n > 0 {
      ClearBitsMove(RightBy(a, 1), n - 1);
    }
  }

  /// One table lookup does eight steps of the division.
  lemma TableStep(x: Word)
    ensures Shifts(x, 8) == Xor(Shifts(x[..8] + Zeros(56), 8), RightBy(x, 8))
  {
    var low: Word, high: Word := x[..8] + Zeros(56), Zeros(8) + x[8..];
    assert x == Xor(low, high);
    ShiftsAreLinear(low, high, 8);
    ClearBitsMove(high, 8);
    assert RightBy(high, 8) == RightBy(x, 8);
  }

  lemma TableFeeds(table: seq<Word>, crc: Word, b: Byte)
    requires IsTable(table)
    ensures var x := Xor(crc, ByteWord(b));
      Value(x[..8]) < 256 && Xor(table[Value(x[..8])], RightBy(crc, 8)) == FeedByte(crc, b)
  {
    var x := Xor(crc, ByteWord(b));
    TableStep(x);
    ByteOfLow(x);
    RightOfXor(crc, b);
  }

  class Hasher {
    const table: seq<Word>
    var crc: Word

    constructor ()
      ensures IsTable(table) && crc == Ones()
    {
      var built := BuildTable();
      table, crc := built, Ones();
    }

    /// `update`: however the table is used, the register holds the bitwise remainder.
    method Update(data: seq<Byte>)
      requires IsTable(table)
      modifies this
      ensures crc == Division(old(crc), data)
    {
      for i := 0 to |data|
        invariant Division(crc, data[i..]) == Division(old(crc), data)
      {
        assert data[i..][1..] == data[i + 1..];
        TableFeeds(table, crc, data[i]);
        var x := Xor(crc, ByteWord(data[i]));
        crc := Xor(table[Value(x[..8])], RightBy(crc, 8));
      }
    }

    function Sum64(): Word
      reads this
    {
      Xor(crc, Ones())
    }

    function Checksum(): Word
      reads this
    {
      Flagged(Sum64())
    }
  }

  /// A byte only reaches the low eight bits.
  lemma RightOfXor(crc: Word, b: Byte)
    ensures RightBy(Xor(crc, ByteWord(b)), 8) == RightBy(crc, 8)
  {
  }

  // --- Checksums -----------------------------------------------------------------------------------

  /// `CHECKSUM_FLAG | w`.
  function Flagged(w: Word): Word {
    w[63 := true]
  }

  /// The flagged CRC-64 of a byte string.
  function ChecksumOf(data: seq<Byte>): Word {
    Flagged(Xor(Division(Ones(), data), Ones()))
  }

  /// Starting and ending complemented, nothing at all sums to the bare flag.
  lemma NothingSumsToFlag()
    ensures ToU64(ChecksumOf([])) == 0x8000_0000_0000_0000
  {
    assert ChecksumOf([]) == Zeros(63) + [true];
    Shifted(63, [true]);
    HighPowers();
    assert Value([true]) == 1;
  }

  function PageChecksum(pgno: nat, data: seq<Byte>): Word
    requires pgno < Limit(4)
  {
    ChecksumOf(ToBe(pgno, 4) + data)
  }

  /// `checksum_page` hashes the page number and then the data.
  method ChecksumPage(pgno: nat, data: seq<Byte>) returns (sum: Word)
    requires pgno < Limit(4)
    ensures sum == PageChecksum(pgno, data) == ChecksumOf(ToBe(pgno, 4) + data)
  {
    var h := new Hasher();
    h.Update(ToBe(pgno, 4));
    h.Update(data);
    DivisionComposes(Ones(), ToBe(pgno, 4), data);
    sum := h.Checksum();
  }

  /// The rolling database checksum, page by page, as `write_snapshot` folds it.
  function Rolling(sums: seq<Word>, start: Word): Word {
    if sums == [] then start
    else Flagged(Xor(Rolling(sums[..|sums| - 1], start), sums[|sums| - 1]))
  }

  /// Below the flag, each bit of the rolling checksum is the parity of that bit over the
  /// pages: a function of the bag of page checksums.
  ghost function Parity(sums: multiset<Word>, i: nat): bool
    requires i < 64
    decreases |sums|
  {
    if sums == multiset{} then false
    else
      var w :| w in sums;
      w[i] != Parity(sums - multiset{w}, i)
  }

  lemma {:induction false} ParityAdds(sums: multiset<Word>, w: Word, i: nat)
    requires i < 64
    ensures Parity(sums + multiset{w}, i) == (Parity(sums, i) != w[i])
    decreases |sums|
  {
    var all := sums + multiset{w};
    var v :| v in all && Parity(all, i) == (v[i] != Parity(all - multiset{v}, i));
    if v == w {
      assert all - multiset{v} == sums;
    } else {
      assert v in sums;
      var rest := sums - multiset{v};
      assert all - multiset{v} == rest + multiset{w};
      ParityAdds(rest, w, i);
      ParityAdds(rest, v, i);
      assert rest + multiset{v} == sums;
    }
  }

  lemma {:induction false} RollingIsParity(sums: seq<Word>, start: Word, i: nat)
    requires i < 63
    ensures Rolling(sums, start)[i] == (start[i] != Parity(multiset(sums), i))
  {
    if sums != [] {
      var n := |sums| - 1;
      RollingIsParity(sums[..n], start, i);
      ParityAdds(multiset(sums[..n]), sums[n], i);
      assert sums == sums[..n] + [sums[n]];
    }
  }

  /// The rolling checksum does not depend on the order of the pages.
  lemma RollingIgnoresOrder(a: seq<Word>, b: seq<Word>, start: Word)
    requires multiset(a) == multiset(b)
    ensures Rolling(a, start) == Rolling(b, start)
  {
    var x, y := Rolling(a, start), Rolling(b, start);
    assert |a| == |multiset(a)| == |multiset(b)| == |b|;
    forall i | 0 <= i < 64 ensures x[i] == y[i] {
      if i < 63 {
        RollingIsParity(a, start, i);
        RollingIsParity(b, start, i);
      }
    }
  }

  lemma MovedLast(sums: seq<Word>, k: nat, w: Word)
    requires k < |sums|
    ensures multiset(sums[k := w]) == multiset(sums[..k] + sums[k + 1..] + [w])
  {
    assert sums[k := w] == sums[..k] + [w] + sums[k + 1..];
  }

  /// Replacing one page of a database is one xor out and one xor in.
  lemma RollingReplaces(sums: seq<Word>, k: nat, next: Word, start: Word)
    requires k < |sums|
    ensures Rolling(sums[k := next], start) == Flagged(Xor(Xor(Rolling(sums, start), sums[k]), next))
  {
    var was := sums[k];
    var rest := sums[..k] + sums[k + 1..];
    MovedLast(sums, k, was);
    MovedLast(sums, k, next);
    assert sums[k := was] == sums;
    RollingIgnoresOrder(sums, rest + [was], start);
    RollingIgnoresOrder(sums[k := next], rest + [next], start);
    RollingSnoc(rest, was, start);
    RollingSnoc(rest, next, start);
    OutAndIn(Rolling(rest, start), was, next);
  }

  lemma RollingSnoc(sums: seq<Word>, w: Word, start: Word)
    ensures Rolling(sums + [w], start) == Flagged(Xor(Rolling(sums, start), w))
  {
    assert (sums + [w])[..|sums|] == sums;
  }

  lemma OutAndIn(r: Word, was: Word, next: Word)
    ensures Flagged(Xor(r, next)) == Flagged(Xor(Xor(Flagged(Xor(r, was)), was), next))
  {
    var l, m := Flagged(Xor(r, next)), Flagged(Xor(Xor(Flagged(Xor(r, was)), was), next));
    assert forall i :: 0 <= i < 64 ==> l[i] == m[i];
  }
}
