/// Go-compatible unsigned varints (src/ltx/encoder.rs:220-227, src/ltx/decoder.rs:316-337).

module Varint {
  import opened Bytes
  import opened Options

  datatype VarintError = OutOfBytes | Overlong

  datatype Read<+T> = Got(value: T, used: nat) | Bad(error: VarintError)

  /// The bytes of `v`: seven bits each, least significant first.
  function Uvarint(v: nat): (b: seq<Byte>)
    ensures b != []
  {
    if v < 128 then [v] else [v % 128 + 128] + Uvarint(v / 128)
  }

  /// `append_uvarint`.
  method AppendUvarint(buf: seq<Byte>, v: nat) returns (out: seq<Byte>)
    ensures out == buf + Uvarint(v)
  {
    var rest := v;
    out := buf;
    while rest >= 128
      invariant out + Uvarint(rest) == buf + Uvarint(v)
    {
      assert out + ([rest % 128 + 128] + Uvarint(rest / 128)) == (out + [rest % 128 + 128]) + Uvarint(rest / 128);
      out := out + [rest % 128 + 128];
      rest := rest / 128;
    }
    out := out + [rest];
  }

  /// The number a byte string starts with, and how many bytes it takes.
  function Uvalue(b: seq<Byte>): Option<(nat, nat)>
    decreases |b|
  {
    if b == [] then None
    else if b[0] < 128 then Some((b[0], 1))
    else
      match Uvalue(b[1..])
      case None => None
      case Some((v, n)) => Some((b[0] - 128 + 128 * v, n + 1))
  }

  /// Reading back what was appended, whatever follows it.
  lemma {:induction false} UvarintRoundTrip(v: nat, rest: seq<Byte>)
    ensures Uvalue(Uvarint(v) + rest) == Some((v, |Uvarint(v)|))
    ensures (Uvarint(v) + rest)[|Uvarint(v)|..] == rest
  {
    var b := Uvarint(v) + rest;
    if v >= 128 {
      UvarintRoundTrip(v / 128, rest);
      assert b[1..] == Uvarint(v / 128) + rest;
    }
  }

  function Pow128(n: nat): (r: nat)
    ensures r > 0
  {
    if n == 0 then 1 else 128 * Pow128(n - 1)
  }

  lemma {:induction false} UvarintLength(v: nat, n: nat)
    requires n > 0 && v < Pow128(n)
    ensures |Uvarint(v)| <= n
    decreases n
  {
    if v >= 128 && n > 1 {
      UvarintLength(v / 128, n - 1);
    }
  }

  /// Every 64-bit value takes at most ten bytes.
  lemma SixtyFourBits(v: nat)
    requires v < U64
    ensures |Uvarint(v)| <= 10
  {
    assert Pow128(1) == 128 && Pow128(2) == 16384 && Pow128(3) == 2097152;
    assert Pow128(4) == 268435456 && Pow128(5) == 34359738368 && Pow128(6) == 4398046511104;
    assert Pow128(7) == 562949953421312 && Pow128(8) == 72057594037927936 && Pow128(9) == 9223372036854775808;
    assert Pow128(10) == 128 * Pow128(9);
    UvarintLength(v, 10);
  }

  /// What the bytes read so far contribute: `Uvalue(b)` is `acc` plus `scale` times what is
  /// left.
  ghost predicate Accumulated(b: seq<Byte>, i: nat, acc: nat, scale: nat)
    requires i <= |b|
  {
    && (Uvalue(b).None? <==> Uvalue(b[i..]).None?)
    && (Uvalue(b).Some? ==>
        Uvalue(b).value == (acc + scale * Uvalue(b[i..]).value.0, i + Uvalue(b[i..]).value.1))
  }

  lemma AccumulatedStep(b: seq<Byte>, i: nat, acc: nat, scale: nat, x: nat)
    requires i < |b| && b[i] >= 128 && Accumulated(b, i, acc, scale) && x == LowBits(b[i]) * scale
    ensures Accumulated(b, i + 1, acc + x, 128 * scale)
  {
    assert b[i..][1..] == b[i + 1..];
    if Uvalue(b[i + 1..]).Some? {
      var v := Uvalue(b[i + 1..]).value.0;
      Scaled(scale, b[i] - 128, v);
    }
  }

  lemma AccumulatedLast(b: seq<Byte>, i: nat, acc: nat, scale: nat, x: nat)
    requires i < |b| && b[i] < 128 && Accumulated(b, i, acc, scale) && x == LowBits(b[i]) * scale
    ensures Uvalue(b) == Some((acc + x, i + 1))
  {
    assert Uvalue(b[i..]) == Some((b[i], 1));
    assert scale * b[i] == b[i] * scale;
  }

  /// The seven bits a byte contributes.
  function LowBits(x: Byte): nat {
    if x < 128 then x else x - 128
  }

  function AddMod(value: nat, x: nat): nat {
    (value + x) % U64
  }

  lemma RunsOut(b: seq<Byte>, i: nat, acc: nat, scale: nat)
    requires i == |b| && Accumulated(b, i, acc, scale)
    ensures Uvalue(b).None?
  {
    assert b[i..] == [];
  }

  lemma TakesMore(b: seq<Byte>, i: nat, acc: nat, scale: nat)
    requires i < |b| && Accumulated(b, i, acc, scale)
    ensures Uvalue(b).Some? ==> Uvalue(b).value.1 > i
  {
  }

  lemma NothingRead(b: seq<Byte>)
    ensures Accumulated(b, 0, 0, 1)
  {
    assert b[0..] == b;
  }

  lemma Scaled(scale: nat, low: nat, v: nat)
    ensures scale * (low + 128 * v) == low * scale + (128 * scale) * v
  {
  }

  lemma ModAdds(acc: nat, x: nat)
    ensures AddMod(acc % U64, x) == (acc + x) % U64
  {
    assert acc + x == U64 * (acc / U64) + (acc % U64 + x);
    ModShift(acc / U64, acc % U64 + x);
  }

  lemma {:induction false} ModShift(k: nat, y: nat)
    ensures (U64 * k + y) % U64 == y % U64
  {
    if k > 0 {
      ModShift(k - 1, y);
      assert U64 * k + y == U64 * (k - 1) + y + U64;
    }
  }

  /// `read_uvarint`: the value modulo 2^64 and the bytes consumed. Each seven bits are
  /// or-ed in at a place still clear, so or-ing is adding; an eleventh byte would be shifted
  /// past the width of the register.
  method ReadUvarint(b: seq<Byte>) returns (r: Read<nat>)
    ensures r.Got? <==> Uvalue(b).Some? && Uvalue(b).value.1 <= 10
    ensures r.Got? ==> r.used == Uvalue(b).value.1 && r.value == Uvalue(b).value.0 % U64
    ensures r == Bad(OutOfBytes) <==> |b| <= 10 && forall i :: 0 <= i < |b| ==> b[i] >= 128
  {
    var value: nat, scale: nat, i: nat := 0, 1, 0;
    ghost var acc: nat := 0;
    NothingRead(b);
    while true
      invariant i <= 10 && i <= |b| && forall k :: 0 <= k < i ==> b[k] >= 128
      invariant Accumulated(b, i, acc, scale) && value == acc % U64
      decreases 10 - i
    {
      if i >= |b| {
        RunsOut(b, i, acc, scale);
        return Bad(OutOfBytes);
      }
      if i == 10 {
        TakesMore(b, i, acc, scale);
        return Bad(Overlong);
      }
      var x := LowBits(b[i]) * scale;
      ModAdds(acc, x);
      value := AddMod(value, x);
      if b[i] < 128 {
        AccumulatedLast(b, i, acc, scale, x);
        return Got(value, i + 1);
      }
      AccumulatedStep(b, i, acc, scale, x);
      acc := acc + x;
      scale := 128 * scale;
      i := i + 1;
    }
  }
}
