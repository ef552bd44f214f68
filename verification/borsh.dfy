/** The parts of the Borsh binary format a `PageToken` uses: unsigned integers
    as fixed-width little-endian bytes, and signed integers in two's
    complement. */
module Borsh {
  import opened Base

  function Pow256(k: nat): (p: nat)
    ensures p >= 1
  {
    if k == 0 then 1 else 256 * Pow256(k - 1)
  }

  lemma Pow256Widths()
    ensures Pow256(4) == 0x1_0000_0000
    ensures Pow256(16) == U128_LIMIT
  {
    assert Pow256(4) == 0x1_0000_0000;
    assert Pow256(8) == 0x1_0000_0000_0000_0000;
    assert Pow256(12) == 0x1_0000_0000_0000_0000_0000_0000;
  }

  /** `n` as `k` little-endian bytes, least significant first. */
  function LeBytes(n: nat, k: nat): (bs: seq<byte>)
    requires n < Pow256(k)
    ensures |bs| == k
  {
    if k == 0 then [] else [n % 256] + LeBytes(n / 256, k - 1)
  }

  /** The number little-endian bytes stand for. */
  function FromLe(bs: seq<byte>): (n: nat)
    ensures n < Pow256(|bs|)
  {
    if bs == [] then 0 else bs[0] + 256 * FromLe(bs[1..])
  }

  /** Reading back what was written gives the number. */
  lemma {:induction false} FromLeBytes(n: nat, k: nat)
    requires n < Pow256(k)
    ensures FromLe(LeBytes(n, k)) == n
  {
    if k > 0 {
      FromLeBytes(n / 256, k - 1);
      assert LeBytes(n, k)[1..] == LeBytes(n / 256, k - 1);
    }
  }

  /** Writing what was read gives the bytes back: every byte string of the
      right width is the encoding of exactly one number. */
  lemma {:induction false} LeBytesFrom(bs: seq<byte>)
    ensures LeBytes(FromLe(bs), |bs|) == bs
  {
    if bs != [] {
      var n := FromLe(bs);
      LeBytesFrom(bs[1..]);
      assert n % 256 == bs[0] && n / 256 == FromLe(bs[1..]);
      assert LeBytes(n, |bs|) == [bs[0]] + bs[1..];
    }
  }

  /** The bit pattern of an `i32`, read as an unsigned number. */
  function Twos(x: i32): (u: nat)
    ensures u < Pow256(4)
    ensures x >= 0 ==> u == x
    ensures x < 0 ==> u == x + 0x1_0000_0000
  {
    assert Pow256(4) == 0x1_0000_0000;
    if x < 0 then x + 0x1_0000_0000 else x
  }

  /** The `i32` whose bit pattern is `u`. */
  function FromTwos(u: nat): (x: i32)
    requires u < Pow256(4)
    ensures Twos(x) == u
  {
    assert Pow256(4) == 0x1_0000_0000;
    if u > I32_MAX then u - 0x1_0000_0000 else u
  }

  lemma FromTwosTwos(x: i32)
    ensures FromTwos(Twos(x)) == x
  {
  }

  /** `i32` in Borsh: four bytes, little-endian, two's complement. */
  function I32Bytes(x: i32): (bs: seq<byte>)
    ensures |bs| == 4
  {
    LeBytes(Twos(x), 4)
  }

  /** `u128` in Borsh: sixteen bytes, little-endian. */
  function U128Bytes(x: u128): (bs: seq<byte>)
    ensures |bs| == 16
  {
    Pow256Widths();
    LeBytes(x, 16)
  }

  function I32From(bs: seq<byte>): (x: i32)
    requires |bs| == 4
  {
    FromTwos(FromLe(bs))
  }

  function U128From(bs: seq<byte>): (x: u128)
    requires |bs| == 16
  {
    Pow256Widths();
    FromLe(bs)
  }

  /** Both widths read back what they wrote, and the bytes are canonical:
      every four (sixteen) bytes are the encoding of the value they read as. */
  lemma I32RoundTrip(x: i32, bs: seq<byte>)
    ensures I32From(I32Bytes(x)) == x
    ensures |bs| == 4 ==> I32Bytes(I32From(bs)) == bs
  {
    FromLeBytes(Twos(x), 4);
    if |bs| == 4 {
      LeBytesFrom(bs);
    }
  }

  lemma U128RoundTrip(x: u128, bs: seq<byte>)
    ensures U128From(U128Bytes(x)) == x
    ensures |bs| == 16 ==> U128Bytes(U128From(bs)) == bs
  {
    Pow256Widths();
    FromLeBytes(x, 16);
    if |bs| == 16 {
      LeBytesFrom(bs);
    }
  }
}
