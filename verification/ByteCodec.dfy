/** Bytes and the fixed-width little-endian integers the binary formats share. */
module ByteCodec {

  type byte = x: int | 0 <= x < 256

  const U32: nat := 0x1_0000_0000
  const U64: nat := 0x1_0000_0000_0000_0000

  type uint16 = x: int | 0 <= x < 0x1_0000
  type uint32 = x: int | 0 <= x < 0x1_0000_0000
  type uint64 = x: int | 0 <= x < 0x1_0000_0000_0000_0000
  type int32 = x: int | -0x8000_0000 <= x < 0x8000_0000

  function U16Le(x: uint16): (r: seq<byte>)
    ensures |r| == 2
  {
    [x % 256, x / 256]
  }

  function U16Of(b: seq<byte>): uint16
    requires |b| == 2
  {
    var lo: int, hi: int := b[0], b[1];
    lo + 256 * hi
  }

  function U32Le(x: uint32): (r: seq<byte>)
    ensures |r| == 4
  {
    [x % 256, x / 256 % 256, x / 65536 % 256, x / 16777216]
  }

  function U32Of(b: seq<byte>): uint32
    requires |b| == 4
  {
    var b0: int, b1: int, b2: int, b3: int := b[0], b[1], b[2], b[3];
    b0 + 256 * b1 + 65536 * b2 + 16777216 * b3
  }

  /** Two's complement. */
  function I32Le(x: int32): (r: seq<byte>)
    ensures |r| == 4
  {
    U32Le(if x < 0 then x + U32 else x)
  }

  function I32Of(b: seq<byte>): int32
    requires |b| == 4
  {
    var x := U32Of(b);
    if x < 0x8000_0000 then x else x - U32
  }

  lemma LeRoundTrips(x: uint16, y: uint32, z: int32)
    ensures U16Of(U16Le(x)) == x
    ensures U32Of(U32Le(y)) == y
    ensures I32Of(I32Le(z)) == z
  {
    U32RoundTrip(y);
    U32RoundTrip(if z < 0 then z + U32 else z);
  }

  lemma U32RoundTrip(y: uint32)
    ensures U32Of(U32Le(y)) == y
  {
    var a: int, b: int := y / 256, y / 65536;
    assert y == 256 * a + y % 256;
    assert a == 256 * b + a % 256;
    assert b == 256 * (y / 16777216) + b % 256;
  }

  /** `saturating_add(1)` on 32 bits. */
  function SaturatingSucc(n: uint32): uint32 {
    if n < 0xFFFF_FFFF then n + 1 else n
  }
}
