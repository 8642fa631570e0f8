/** Bytes and the little-endian integer encodings that `struct.unpack` decodes ('<i', '<Q'). */
module Bytes {

  type Byte = b: int | 0 <= b < 256

  function Min(a: int, b: int): int { if a <= b then a else b }

  function Pow256(n: nat): (p: nat)
    ensures p >= 1
  {
    if n == 0 then 1 else 256 * Pow256(n - 1)
  }

  const TWO_32: int := 0x1_0000_0000
  const TWO_31: int := 0x8000_0000
  const TWO_64: int := 0x1_0000_0000_0000_0000

  /** The unsigned value of `b`, least significant byte first. */
  function LeUnsigned(b: seq<Byte>): (v: nat)
    ensures v < Pow256(|b|)
  {
    if b == [] then 0 else b[0] + 256 * LeUnsigned(b[1..])
  }

  /** The `n` bytes that encode `v` least significant byte first. */
  function LeBytes(v: nat, n: nat): (b: seq<Byte>)
    requires v < Pow256(n)
    ensures |b| == n
  {
    if n == 0 then [] else [v % 256] + LeBytes(v / 256, n - 1)
  }

  lemma {:induction false} LeUnsignedOfLeBytes(v: nat, n: nat)
    requires v < Pow256(n)
    ensures LeUnsigned(LeBytes(v, n)) == v
  {
    if n > 0 {
      LeUnsignedOfLeBytes(v / 256, n - 1);
      assert LeBytes(v, n)[1..] == LeBytes(v / 256, n - 1);
    }
  }

  lemma {:induction false} LeBytesOfLeUnsigned(b: seq<Byte>)
    ensures LeBytes(LeUnsigned(b), |b|) == b
  {
    if b != [] {
      var v := LeUnsigned(b);
      assert v % 256 == b[0] && v / 256 == LeUnsigned(b[1..]);
      LeBytesOfLeUnsigned(b[1..]);
    }
  }

  lemma Pow256Values()
    ensures Pow256(4) == TWO_32 && Pow256(8) == TWO_64
  {
  }

  /** `struct.unpack('<i', b)`: a signed 32-bit two's-complement integer. */
  function LeI32(b: seq<Byte>): (x: int)
    requires |b| == 4
    ensures -TWO_31 <= x < TWO_31
  {
    Pow256Values();
    var u := LeUnsigned(b);
    if u >= TWO_31 then u - TWO_32 else u
  }

  /** `struct.unpack('<Q', b)`: an unsigned 64-bit integer. */
  function LeU64(b: seq<Byte>): (x: nat)
    requires |b| == 8
    ensures x < TWO_64
  {
    Pow256Values();
    LeUnsigned(b)
  }

  /** `struct.pack('<i', x)`: the inverse of LeI32. */
  function I32Bytes(x: int): (b: seq<Byte>)
    requires -TWO_31 <= x < TWO_31
    ensures |b| == 4
  {
    Pow256Values();
    LeBytes(if x < 0 then x + TWO_32 else x, 4)
  }

  lemma LeI32OfI32Bytes(x: int)
    requires -TWO_31 <= x < TWO_31
    ensures LeI32(I32Bytes(x)) == x
  {
    Pow256Values();
    LeUnsignedOfLeBytes(if x < 0 then x + TWO_32 else x, 4);
  }

  lemma I32BytesOfLeI32(b: seq<Byte>)
    requires |b| == 4
    ensures I32Bytes(LeI32(b)) == b
  {
    Pow256Values();
    LeBytesOfLeUnsigned(b);
  }

  /** `struct.pack('<Q', x)`: the inverse of LeU64. */
  function U64Bytes(x: nat): (b: seq<Byte>)
    requires x < TWO_64
    ensures |b| == 8
  {
    Pow256Values();
    LeBytes(x, 8)
  }

  /** The first byte of `<Q` is the low byte of the value. */
  lemma U64BytesLow(x: nat)
    requires x < TWO_64
    ensures U64Bytes(x)[0] == x % 256
  {
    Pow256Values();
  }

  lemma LeU64OfU64Bytes(x: nat)
    requires x < TWO_64
    ensures LeU64(U64Bytes(x)) == x
  {
    Pow256Values();
    LeUnsignedOfLeBytes(x, 8);
  }
}
