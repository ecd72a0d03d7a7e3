/** Bytes and the signed big-endian 32-bit integers of the frame header (struct format "!i"). */
module Bytes {

  newtype byte = x: int | 0 <= x < 256

  const TWO_8: int := 0x100
  const TWO_16: int := 0x1_0000
  const TWO_24: int := 0x100_0000
  const TWO_31: int := 0x8000_0000
  const TWO_32: int := 0x1_0000_0000

  /** The range struct.pack accepts for an "i" field. */
  predicate IsInt32(n: int) {
    -TWO_31 <= n < TWO_31
  }

  /** Two's complement of `n` as an unsigned 32-bit value. */
  function ToUnsigned(n: int): (u: int)
    requires IsInt32(n)
    ensures 0 <= u < TWO_32
    ensures n >= 0 ==> u == n
    ensures n < 0 ==> u == n + TWO_32
  {
    if n >= 0 then n else n + TWO_32
  }

  /** 256 to the power `k`: the number of values `k` bytes can hold. */
  function Pow256(k: nat): (p: int)
    ensures p >= 1
  {
    if k == 0 then 1 else TWO_8 * Pow256(k - 1)
  }

  /** Big-endian encoding of `u` in `k` bytes, most significant byte first. */
  function UnsignedBytes(u: int, k: nat): (b: seq<byte>)
    requires 0 <= u < Pow256(k)
    ensures |b| == k
  {
    if k == 0 then [] else UnsignedBytes(u / TWO_8, k - 1) + [(u % TWO_8) as byte]
  }

  /** Big-endian reading of a byte string as an unsigned value. */
  function UnsignedOf(b: seq<byte>): (u: int)
    ensures 0 <= u < Pow256(|b|)
  {
    if b == [] then 0 else UnsignedOf(b[..|b| - 1]) * TWO_8 + b[|b| - 1] as int
  }

  /** struct.pack("!i", n). */
  function Int32Bytes(n: int): (b: seq<byte>)
    requires IsInt32(n)
    ensures |b| == 4
  {
    assert Pow256(4) == TWO_32;
    UnsignedBytes(ToUnsigned(n), 4)
  }

  /** struct.unpack("!i", b): the sign bit is the top bit of the first byte. */
  function Int32Of(b: seq<byte>): (n: int)
    requires |b| == 4
    ensures IsInt32(n)
  {
    var u := b[0] as int * TWO_24 + b[1] as int * TWO_16 + b[2] as int * TWO_8 + b[3] as int;
    if u >= TWO_31 then u - TWO_32 else u
  }

  lemma {:induction false} UnsignedRoundTrip(u: int, k: nat)
    requires 0 <= u < Pow256(k)
    ensures UnsignedOf(UnsignedBytes(u, k)) == u
  {
    if k > 0 {
      var b := UnsignedBytes(u, k);
      assert b[..k - 1] == UnsignedBytes(u / TWO_8, k - 1);
      UnsignedRoundTrip(u / TWO_8, k - 1);
    }
  }

  /** Packing then unpacking an int32 gives it back. */
  lemma {:induction false} Int32RoundTrip(n: int)
    requires IsInt32(n)
    ensures Int32Of(Int32Bytes(n)) == n
  {
    assert Pow256(4) == TWO_32;
    UnsignedRoundTrip(ToUnsigned(n), 4);
    UnsignedOfFour(Int32Bytes(n));
  }

  /** For four bytes the unsigned reading is the big-endian weighted sum. */
  lemma UnsignedOfFour(b: seq<byte>)
    requires |b| == 4
    ensures UnsignedOf(b) == b[0] as int * TWO_24 + b[1] as int * TWO_16 + b[2] as int * TWO_8 + b[3] as int
  {
    var b1, b2, b3 := b[..1], b[..2], b[..3];
    assert b3[..2] == b2 && b2[..1] == b1 && b1[..0] == [];
    assert UnsignedOf(b1) == b[0] as int;
    assert UnsignedOf(b2) == b[0] as int * TWO_8 + b[1] as int;
    assert UnsignedOf(b3) == (b[0] as int * TWO_8 + b[1] as int) * TWO_8 + b[2] as int;
    assert b[..4] == b;
  }
}
