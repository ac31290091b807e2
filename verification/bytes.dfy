/** Fixed-width integers in a byte buffer. The source writes every u32/i32 field
    with MACH_WRITE_UINT32 / MACH_WRITE_INT32, i.e. in the host byte order; the
    model fixes that order to little-endian and i32 to two's complement. */
module Bytes {

  const U32_LIMIT: int := 0x1_0000_0000
  const I32_MIN: int := -0x8000_0000
  const I32_LIMIT: int := 0x8000_0000

  predicate IsU32(x: int) {
    0 <= x < U32_LIMIT
  }

  /** The values of a C++ uint8_t / unsigned char. */
  type byte = b: int | 0 <= b < 256

  /** The values of a C++ uint32_t. */
  type u32 = x: int | 0 <= x < 0x1_0000_0000

  /** `x++` on a uint32_t: wraps from 2^32 - 1 to 0. */
  function Inc32(x: u32): (r: u32)
    ensures x < U32_LIMIT - 1 ==> r == x + 1
    ensures x == U32_LIMIT - 1 ==> r == 0
  {
    if x == U32_LIMIT - 1 then 0 else x + 1
  }

  /** `x--` on a uint32_t: wraps from 0 to 2^32 - 1. */
  function Dec32(x: u32): (r: u32)
    ensures x > 0 ==> r == x - 1
    ensures x == 0 ==> r == U32_LIMIT - 1
  {
    if x == 0 then U32_LIMIT - 1 else x - 1
  }

  predicate IsI32(x: int) {
    I32_MIN <= x < I32_LIMIT
  }

  /** Little-endian image of an unsigned 32-bit value. */
  function EncodeU32(x: int): (bs: seq<byte>)
    requires IsU32(x)
    ensures |bs| == 4
  {
    var q1 := x / 256;
    var q2 := q1 / 256;
    var q3 := q2 / 256;
    [x % 256, q1 % 256, q2 % 256, q3]
  }

  function DecodeU32(bs: seq<byte>): (x: int)
    requires |bs| >= 4
    ensures IsU32(x)
  {
    bs[0] as int + 256 * (bs[1] as int + 256 * (bs[2] as int + 256 * bs[3] as int))
  }

  lemma Radix256(x: int)
    requires IsU32(x)
    ensures var q1 := x / 256; var q2 := q1 / 256; var q3 := q2 / 256;
      && 0 <= q3 < 256
      && x == x % 256 + 256 * (q1 % 256 + 256 * (q2 % 256 + 256 * q3))
  {
    var q1 := x / 256;
    var q2 := q1 / 256;
    var q3 := q2 / 256;
    assert x == x % 256 + 256 * q1;
    assert q1 == q1 % 256 + 256 * q2;
    assert q2 == q2 % 256 + 256 * q3;
  }

  lemma DecodeEncodeU32(x: int)
    requires IsU32(x)
    ensures DecodeU32(EncodeU32(x)) == x
  {
    Radix256(x);
  }

  lemma Digits256(b0: int, b1: int, b2: int, b3: int)
    requires 0 <= b0 < 256 && 0 <= b1 < 256 && 0 <= b2 < 256 && 0 <= b3 < 256
    ensures var x := b0 + 256 * (b1 + 256 * (b2 + 256 * b3));
      && x % 256 == b0 && x / 256 % 256 == b1 && x / 256 / 256 % 256 == b2 && x / 256 / 256 / 256 == b3
  {
    var q2 := b2 + 256 * b3;
    var q1 := b1 + 256 * q2;
    var x := b0 + 256 * q1;
    assert x % 256 == b0 && x / 256 == q1;
    assert q1 % 256 == b1 && q1 / 256 == q2;
    assert q2 % 256 == b2 && q2 / 256 == b3;
  }

  lemma EncodeDecodeU32(bs: seq<byte>)
    requires |bs| == 4
    ensures EncodeU32(DecodeU32(bs)) == bs
  {
    var b0, b1, b2, b3 := bs[0] as int, bs[1] as int, bs[2] as int, bs[3] as int;
    Digits256(b0, b1, b2, b3);
    var x := DecodeU32(bs);
    assert x == b0 + 256 * (b1 + 256 * (b2 + 256 * b3));
    var e := EncodeU32(x);
    assert e[0] == bs[0];
    assert e[1] == bs[1];
    assert e[2] == bs[2];
    assert e[3] == bs[3];
  }

  /** Two's complement image of a signed 32-bit value. */
  function EncodeI32(x: int): (bs: seq<byte>)
    requires IsI32(x)
    ensures |bs| == 4
  {
    EncodeU32(if x < 0 then x + U32_LIMIT else x)
  }

  function DecodeI32(bs: seq<byte>): (x: int)
    requires |bs| >= 4
    ensures IsI32(x)
  {
    var u := DecodeU32(bs);
    if u >= I32_LIMIT then u - U32_LIMIT else u
  }

  lemma DecodeEncodeI32(x: int)
    requires IsI32(x)
    ensures DecodeI32(EncodeI32(x)) == x
  {
    DecodeEncodeU32(if x < 0 then x + U32_LIMIT else x);
  }

  /** The u32 stored at byte offset `ofs` of `buf`. */
  function ReadU32(buf: seq<byte>, ofs: int): (x: int)
    requires 0 <= ofs && ofs + 4 <= |buf|
    ensures IsU32(x)
  {
    DecodeU32(buf[ofs..ofs + 4])
  }

  function ReadI32(buf: seq<byte>, ofs: int): (x: int)
    requires 0 <= ofs && ofs + 4 <= |buf|
    ensures IsI32(x)
  {
    DecodeI32(buf[ofs..ofs + 4])
  }

  /** Reading a u32 back from any buffer that starts with its encoding. */
  lemma ReadEncodedU32(x: int, rest: seq<byte>)
    requires IsU32(x)
    ensures ReadU32(EncodeU32(x) + rest, 0) == x
  {
    assert (EncodeU32(x) + rest)[0..4] == EncodeU32(x);
    DecodeEncodeU32(x);
  }

  lemma ReadEncodedI32(x: int, rest: seq<byte>)
    requires IsI32(x)
    ensures ReadI32(EncodeI32(x) + rest, 0) == x
  {
    assert (EncodeI32(x) + rest)[0..4] == EncodeI32(x);
    DecodeEncodeI32(x);
  }

  /** A value below 256 is its own low byte, followed by three zeros. */
  lemma EncodeSmallU32(x: int)
    requires 0 <= x < 256
    ensures EncodeU32(x) == [x, 0, 0, 0]
  {
  }

  /** A run of `n` zero bytes: what a read past end-of-file returns. */
  function Zeros(n: nat): (z: seq<byte>)
    ensures |z| == n
    ensures forall i :: 0 <= i < n ==> z[i] == 0
  {
    seq(n, _ => 0)
  }
}
