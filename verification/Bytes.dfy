/// Byte strings and fixed-width integers: the big-endian fields every on-disk structure
/// here is made of.

module Bytes {

  const U64: nat := 0x1_0000_0000_0000_0000

  type Byte = b: int | 0 <= b < 256

  /// One past the largest value `n` bytes hold.
  function Limit(n: nat): (r: nat)
    ensures r > 0
  {
    if n == 0 then 1 else 256 * Limit(n - 1)
  }

  /// `to_be_bytes` of an `n`-byte unsigned integer.
  function ToBe(v: nat, n: nat): (b: seq<Byte>)
    requires v < Limit(n)
    ensures |b| == n
    decreases n, v
  {
    if n == 0 then [] else ToBe(v / 256, n - 1) + [v % 256]
  }

  /// `from_be_bytes`.
  function FromBe(b: seq<Byte>): (v: nat)
    ensures v < Limit(|b|)
  {
    if b == [] then 0 else 256 * FromBe(b[..|b| - 1]) + b[|b| - 1]
  }

  lemma {:induction false} BeRoundTrip(v: nat, n: nat)
    requires v < Limit(n)
    ensures FromBe(ToBe(v, n)) == v
  {
    if n > 0 {
      BeRoundTrip(v / 256, n - 1);
      assert ToBe(v, n)[..n - 1] == ToBe(v / 256, n - 1);
    }
  }

  lemma {:induction false} BeInverse(b: seq<Byte>)
    ensures ToBe(FromBe(b), |b|) == b
  {
    if b != [] {
      BeInverse(b[..|b| - 1]);
      assert b == b[..|b| - 1] + [b[|b| - 1]];
    }
  }

  /// Big-endian: the first byte weighs most.
  lemma {:induction false} FirstByteWeighsMost(first: Byte, rest: seq<Byte>)
    ensures FromBe([first] + rest) == first * Limit(|rest|) + FromBe(rest)
    decreases |rest|
  {
    var b, n := [first] + rest, |rest|;
    if n == 0 {
      assert b[..0] == [];
    } else {
      assert b[..n] == [first] + rest[..n - 1];
      FirstByteWeighsMost(first, rest[..n - 1]);
      ScaledByte(first, Limit(n - 1), FromBe(rest[..n - 1]));
    }
  }

  lemma ScaledByte(a: nat, b: nat, c: nat)
    ensures 256 * (a * b + c) == a * (256 * b) + 256 * c
  {
  }

  /// The field of `n` bytes at offset `off`.
  function Field(b: seq<Byte>, off: nat, n: nat): (v: nat)
    requires off + n <= |b|
    ensures v < Limit(n)
  {
    FromBe(b[off..off + n])
  }

  /// Widths used below.
  lemma Limits()
    ensures Limit(2) == 0x1_0000 && Limit(4) == 0x1_0000_0000 && Limit(8) == 0x1_0000_0000_0000_0000
  {
    assert Limit(1) == 256 && Limit(2) == 0x1_0000 && Limit(3) == 0x100_0000 && Limit(4) == 0x1_0000_0000;
    assert Limit(5) == 0x100_0000_0000 && Limit(6) == 0x1_0000_0000_0000 && Limit(7) == 0x100_0000_0000_0000;
  }

  lemma SubSlice(s: seq<Byte>, lo: nat, hi: nat, i: nat, j: nat)
    requires i <= j && lo + j <= hi <= |s|
    ensures s[lo..hi][i..j] == s[lo + i..lo + j]
  {
    forall k | 0 <= k < j - i ensures s[lo..hi][i..j][k] == s[lo + i..lo + j][k] {
      assert s[lo..hi][i + k] == s[lo + (i + k)];
    }
  }

  // --- Records of fixed-width fields -----------------------------------------------------------

  datatype Fixed = Fixed(v: nat, n: nat)

  ghost predicate Fits(fs: seq<Fixed>) {
    forall i :: 0 <= i < |fs| ==> fs[i].v < Limit(fs[i].n)
  }

  function Pack(fs: seq<Fixed>): (b: seq<Byte>)
    requires Fits(fs)
    ensures |b| == Start(fs, |fs|)
  {
    if fs == [] then []
    else
      var n := |fs| - 1;
      StartOfPrefix(fs, n, n);
      Pack(fs[..n]) + ToBe(fs[n].v, fs[n].n)
  }

  function Start(fs: seq<Fixed>, k: nat): nat
    requires k <= |fs|
  {
    if k == 0 then 0 else Start(fs, k - 1) + fs[k - 1].n
  }

  lemma {:induction false} StartOfPrefix(fs: seq<Fixed>, n: nat, k: nat)
    requires k <= n <= |fs|
    ensures Start(fs[..n], k) == Start(fs, k)
  {
    if k > 0 {
      StartOfPrefix(fs, n, k - 1);
    }
  }

  ghost predicate FieldReads(b: seq<Byte>, at: nat, f: Fixed) {
    at + f.n <= |b| && Field(b, at, f.n) == f.v
  }

  ghost predicate StandsAt(b: seq<Byte>, at: nat, part: seq<Byte>) {
    at + |part| <= |b| && b[at..at + |part|] == part
  }

  lemma BothStand(b: seq<Byte>, at: nat, init: seq<Byte>, last: seq<Byte>)
    ensures StandsAt(b, at, init + last) <==> StandsAt(b, at, init) && StandsAt(b, at + |init|, last)
  {
    if at + |init + last| <= |b| {
      var all := b[at..at + |init + last|];
      SubSlice(b, at, at + |all|, 0, |init|);
      SubSlice(b, at, at + |all|, |init|, |all|);
      assert all == all[0..|init|] + all[|init|..|all|];
      assert (init + last)[0..|init|] == init && (init + last)[|init|..|all|] == last;
    }
  }

  lemma FieldStands(b: seq<Byte>, at: nat, f: Fixed, bytes: seq<Byte>)
    requires f.v < Limit(f.n) && bytes == ToBe(f.v, f.n)
    ensures StandsAt(b, at, bytes) <==> FieldReads(b, at, f)
  {
    BeRoundTrip(f.v, f.n);
    if FieldReads(b, at, f) {
      BeInverse(b[at..at + f.n]);
    }
  }

  ghost predicate ReadsAt(b: seq<Byte>, at: nat, fs: seq<Fixed>, k: nat)
    requires k < |fs|
  {
    FieldReads(b, at + Start(fs, k), fs[k])
  }

  /// A packed record stands somewhere exactly when each of its fields reads back there.
  lemma {:induction false} PackStandsExactly(b: seq<Byte>, at: nat, fs: seq<Fixed>, packed: seq<Byte>)
    requires Fits(fs) && packed == Pack(fs) && at <= |b|
    ensures StandsAt(b, at, packed) <==> forall k :: 0 <= k < |fs| ==> ReadsAt(b, at, fs, k)
    decreases |fs|
  {
    if fs != [] {
      var n := |fs| - 1;
      var init, last := Pack(fs[..n]), ToBe(fs[n].v, fs[n].n);
      PackStandsExactly(b, at, fs[..n], init);
      PrefixReads(b, at, fs, n);
      StartOfPrefix(fs, n, n);
      LastStands(b, at, fs, n, init, last);
      assert StandsAt(b, at, packed) <==> StandsAt(b, at, init) && ReadsAt(b, at, fs, n);
    }
  }

  lemma LastStands(b: seq<Byte>, at: nat, fs: seq<Fixed>, n: nat, init: seq<Byte>, last: seq<Byte>)
    requires n + 1 == |fs| && fs[n].v < Limit(fs[n].n) && |init| == Start(fs, n) && last == ToBe(fs[n].v, fs[n].n)
    ensures StandsAt(b, at, init + last) <==> StandsAt(b, at, init) && ReadsAt(b, at, fs, n)
  {
    BothStand(b, at, init, last);
    FieldStands(b, at + |init|, fs[n], last);
  }

  lemma PrefixReads(b: seq<Byte>, at: nat, fs: seq<Fixed>, n: nat)
    requires n <= |fs|
    ensures forall k :: 0 <= k < n ==> (ReadsAt(b, at, fs, k) <==> ReadsAt(b, at, fs[..n], k))
  {
    forall k | 0 <= k < n ensures ReadsAt(b, at, fs, k) <==> ReadsAt(b, at, fs[..n], k) {
      StartOfPrefix(fs, n, k);
    }
  }
}
