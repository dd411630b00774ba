/**
 * The platform integer of a 64-bit PHP build (PHP_INT_SIZE == 8) and its
 * binary form: each int64 is written as 8 bytes of two's complement, least
 * significant byte first.
 */
module Ints {

  const PHP_INT_SIZE: nat := 8
  const INT_MAX: int := 0x7fff_ffff_ffff_ffff
  const INT_MIN: int := -0x8000_0000_0000_0000
  /** 2^64, the modulus of two's complement on 64 bits. */
  const TWO_TO_64: int := 0x1_0000_0000_0000_0000

  type Int64 = x: int | INT_MIN <= x <= INT_MAX
  type byte = x: int | 0 <= x < 256

  function Pow256(n: nat): (r: nat)
    ensures r >= 1
  {
    if n == 0 then 1 else 256 * Pow256(n - 1)
  }

  /** `u` as `n` bytes, least significant first. */
  function EncodeUnsigned(u: nat, n: nat): (bs: seq<byte>)
    requires u < Pow256(n)
    ensures |bs| == n
  {
    if n == 0 then [] else [(u % 256) as byte] + EncodeUnsigned(u / 256, n - 1)
  }

  /** The unsigned number that `bs` spells, least significant byte first. */
  function DecodeUnsigned(bs: seq<byte>): (u: nat)
    ensures u < Pow256(|bs|)
  {
    if |bs| == 0 then 0 else bs[0] + 256 * DecodeUnsigned(bs[1..])
  }

  lemma {:induction false} DecodeEncodeUnsigned(u: nat, n: nat)
    requires u < Pow256(n)
    ensures DecodeUnsigned(EncodeUnsigned(u, n)) == u
  {
    if n > 0 {
      var bs := EncodeUnsigned(u, n);
      assert bs[1..] == EncodeUnsigned(u / 256, n - 1);
      DecodeEncodeUnsigned(u / 256, n - 1);
    }
  }

  lemma {:induction false} EncodeDecodeUnsigned(bs: seq<byte>)
    ensures EncodeUnsigned(DecodeUnsigned(bs), |bs|) == bs
  {
    if |bs| > 0 {
      var u := DecodeUnsigned(bs);
      var rest := DecodeUnsigned(bs[1..]);
      assert u % 256 == bs[0] && u / 256 == rest;
      EncodeDecodeUnsigned(bs[1..]);
    }
  }

  lemma {:induction false} Pow256Eight()
    ensures Pow256(PHP_INT_SIZE) == TWO_TO_64
  {
  }

  /** The most significant byte of `bs` weighs Pow256(|bs| - 1). */
  lemma {:induction false} DecodeUnsignedTop(bs: seq<byte>)
    requires |bs| > 0
    ensures DecodeUnsigned(bs) == DecodeUnsigned(bs[..|bs| - 1]) + Pow256(|bs| - 1) * bs[|bs| - 1]
  {
    var n := |bs|;
    if n > 1 {
      var tail := bs[1..];
      var init := bs[..n - 1];
      DecodeUnsignedTop(tail);
      assert tail[..n - 2] == init[1..];
      assert tail[n - 2] == bs[n - 1];
      ShiftTop(DecodeUnsigned(bs), DecodeUnsigned(tail), DecodeUnsigned(init), bs[0],
               DecodeUnsigned(init[1..]), Pow256(n - 2), Pow256(n - 1), bs[n - 1]);
    }
  }

  /** The arithmetic step of DecodeUnsignedTop, over plain integers. */
  lemma {:induction false} ShiftTop(d: int, dTail: int, dInit: int, b0: int, a: int, p: int, p1: int, last: int)
    requires d == b0 + 256 * dTail && dTail == a + p * last
    requires dInit == b0 + 256 * a && p1 == 256 * p
    ensures d == dInit + p1 * last
  {
    assert 256 * (p * last) == (256 * p) * last;
  }

  /** Eight bytes spell a number above INT_MAX exactly when the top bit of the last byte is set. */
  lemma {:induction false} SignByte(bs: seq<byte>)
    requires |bs| == PHP_INT_SIZE
    ensures DecodeUnsigned(bs) > INT_MAX <==> bs[PHP_INT_SIZE - 1] >= 128
  {
    DecodeUnsignedTop(bs);
    var low := DecodeUnsigned(bs[..PHP_INT_SIZE - 1]);
    assert Pow256(7) == 0x100_0000_0000_0000;
    assert low < 0x100_0000_0000_0000;
  }

  /** pack('Q', x): the 8-byte two's complement image of `x`; its top bit is the sign. */
  function EncodeInt64(x: Int64): (bs: seq<byte>)
    ensures |bs| == PHP_INT_SIZE
    ensures x < 0 <==> bs[PHP_INT_SIZE - 1] >= 128
  {
    Pow256Eight();
    var u := if x < 0 then x + TWO_TO_64 else x;
    DecodeEncodeUnsigned(u, PHP_INT_SIZE);
    SignByte(EncodeUnsigned(u, PHP_INT_SIZE));
    EncodeUnsigned(u, PHP_INT_SIZE)
  }

  /** unpack('Q', bs) on a 64-bit build: every bit pattern reads as some int64, negative exactly when its top bit is set. */
  function DecodeInt64(bs: seq<byte>): (x: Int64)
    requires |bs| == PHP_INT_SIZE
    ensures x < 0 <==> bs[PHP_INT_SIZE - 1] >= 128
  {
    var u := DecodeUnsigned(bs);
    Pow256Eight();
    SignByte(bs);
    if u > INT_MAX then u - TWO_TO_64 else u
  }

  /** Decoding an encoded int64 gives it back, over the whole signed range. */
  lemma {:induction false} DecodeEncodeInt64(x: Int64)
    ensures DecodeInt64(EncodeInt64(x)) == x
  {
    Pow256Eight();
    DecodeEncodeUnsigned(if x < 0 then x + TWO_TO_64 else x, PHP_INT_SIZE);
  }

  /** Encoding a decoded pattern gives the same bytes: no two patterns read alike. */
  lemma {:induction false} EncodeDecodeInt64(bs: seq<byte>)
    requires |bs| == PHP_INT_SIZE
    ensures EncodeInt64(DecodeInt64(bs)) == bs
  {
    Pow256Eight();
    EncodeDecodeUnsigned(bs);
  }

  /** Eight zero bytes read as 0. */
  lemma {:induction false} DecodeZeroInt64(bs: seq<byte>)
    requires |bs| == PHP_INT_SIZE
    requires forall i :: 0 <= i < |bs| ==> bs[i] == 0
    ensures DecodeInt64(bs) == 0
  {
    EncodeDecodeInt64(bs);
    var zeros: seq<byte> := [0, 0, 0, 0, 0, 0, 0, 0];
    assert bs == zeros;
  }
}
