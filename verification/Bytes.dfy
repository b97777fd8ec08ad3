/** Fixed-width unsigned integers and their little-endian byte form. */
module Bytes {

  type byte = x: int | 0 <= x < 0x100
  type u16 = x: int | 0 <= x < 0x1_0000
  type u32 = x: int | 0 <= x < 0x1_0000_0000
  type u64 = x: int | 0 <= x < 0x1_0000_0000_0000_0000

  function Pow256(n: nat): (p: nat)
    ensures p > 0
  {
    if n == 0 then 1 else 256 * Pow256(n - 1)
  }

  /** `v.to_le_bytes()`, truncated to `n` bytes. */
  function ToLE(v: nat, n: nat): (s: seq<byte>)
    ensures |s| == n
  {
    if n == 0 then [] else [v % 256] + ToLE(v / 256, n - 1)
  }

  /** `from_le_bytes(s)`. */
  function FromLE(s: seq<byte>): (v: nat)
    ensures v < Pow256(|s|)
  {
    if s == [] then 0 else s[0] + 256 * FromLE(s[1..])
  }

  lemma {:induction false} FromToLE(v: nat, n: nat)
    requires v < Pow256(n)
    ensures FromLE(ToLE(v, n)) == v
  {
    if n > 0 {
      FromToLE(v / 256, n - 1);
      assert ToLE(v, n)[1..] == ToLE(v / 256, n - 1);
    }
  }

  lemma LowByte(b: byte, v: nat)
    ensures (b + 256 * v) % 256 == b && (b + 256 * v) / 256 == v
  {
  }

  lemma {:induction false} ToFromLE(s: seq<byte>)
    ensures ToLE(FromLE(s), |s|) == s
  {
    if s != [] {
      ToFromLE(s[1..]);
      LowByte(s[0], FromLE(s[1..]));
    }
  }

  /** The limits of the widths that the program reads and writes. */
  lemma Widths()
    ensures Pow256(2) == 0x1_0000
    ensures Pow256(4) == 0x1_0000_0000
    ensures Pow256(8) == 0x1_0000_0000_0000_0000
  {
    assert Pow256(4) == 256 * 256 * Pow256(2);
    assert Pow256(8) == 256 * 256 * 256 * 256 * Pow256(4) by {
      assert Pow256(6) == 256 * 256 * Pow256(4);
    }
  }

  function U16LE(v: u16): (s: seq<byte>)
    ensures |s| == 2
  {
    ToLE(v, 2)
  }

  function U32LE(v: u32): (s: seq<byte>)
    ensures |s| == 4
  {
    ToLE(v, 4)
  }

  function U64LE(v: u64): (s: seq<byte>)
    ensures |s| == 8
  {
    ToLE(v, 8)
  }

  function AsU16(s: seq<byte>): (v: u16)
    requires |s| == 2
  {
    Widths();
    FromLE(s)
  }

  function AsU32(s: seq<byte>): (v: u32)
    requires |s| == 4
  {
    Widths();
    FromLE(s)
  }

  function AsU64(s: seq<byte>): (v: u64)
    requires |s| == 8
  {
    Widths();
    FromLE(s)
  }

  lemma U16RoundTrip(v: u16)
    ensures AsU16(U16LE(v)) == v
  {
    Widths();
    FromToLE(v, 2);
  }

  lemma U32RoundTrip(v: u32)
    ensures AsU32(U32LE(v)) == v
  {
    Widths();
    FromToLE(v, 4);
  }

  lemma U64RoundTrip(v: u64)
    ensures AsU64(U64LE(v)) == v
  {
    Widths();
    FromToLE(v, 8);
  }

  /** Bit `b` of `v`, the meaning of `v & (1 << b) != 0`; `weight` is `1 << b`. */
  predicate HasBit(v: nat, weight: nat)
    requires weight > 0
  {
    v / weight % 2 == 1
  }
}
