/**
 * Base 128 varints as the Protocol Buffers encoding guide defines them
 * ("Base 128 Varints"), as prost writes and reads them for 64-bit values.
 */
module Varint {
  import opened Bytes
  import opened Wrappers

  /** Values a varint may carry: prost encodes and decodes `u64`. */
  const Limit: nat := 0x1_0000_0000_0000_0000

  /** Seven bits per byte, least significant group first, the high bit set on every byte but the last. */
  function Encode(v: nat): seq<byte>
    decreases v
  {
    if v < 0x80 then [v as byte] else [(v % 0x80 + 0x80) as byte] + Encode(v / 0x80)
  }

  /** The number of bytes `Encode(v)` has, counted one seven-bit group at a time. */
  function Len(v: nat): (n: nat)
    ensures n == |Encode(v)|
    ensures 1 <= n
    decreases v
  {
    if v < 0x80 then 1 else 1 + Len(v / 0x80)
  }

  function Pow128(k: nat): nat {
    if k == 0 then 1 else 0x80 * Pow128(k - 1)
  }

  lemma {:induction false} LenBelowPow(v: nat, k: nat)
    requires 1 <= k && v < Pow128(k)
    ensures Len(v) <= k
    decreases k
  {
    if v >= 0x80 {
      assert k >= 2;
      LenBelowPow(v / 0x80, k - 1);
    }
  }

  /** A 64-bit value takes at most ten bytes. */
  lemma LenOf64Bit(v: nat)
    requires v < Limit
    ensures Len(v) <= 10
  {
    assert Pow128(2) == 0x4000;
    assert Pow128(4) == 0x1000_0000;
    assert Pow128(6) == 0x400_0000_0000;
    assert Pow128(8) == 0x100_0000_0000_0000;
    assert Pow128(10) == Limit * 0x40;
    LenBelowPow(v, 10);
  }

  /**
   * Reads one varint from the front of `s` using at most `budget` bytes:
   * the value and the number of bytes it took, or None when the bytes run
   * out or the budget is spent before a byte with its high bit clear.
   */
  function DecodeBounded(s: seq<byte>, budget: nat): (r: Option<(nat, nat)>)
    ensures r.Some? ==> 1 <= r.value.1 <= |s| && r.value.1 <= budget
    decreases budget
  {
    if |s| == 0 || budget == 0 then None
    else if s[0] < 0x80 then Some((s[0] as nat, 1))
    else
      match DecodeBounded(s[1..], budget - 1)
      case None => None
      case Some((v, n)) => Some(((s[0] - 0x80) as nat + 0x80 * v, n + 1))
  }

  /**
   * prost's `decode_varint`: at most ten bytes, and the value must fit in
   * 64 bits; any other input is an "invalid varint".
   */
  function Decode(s: seq<byte>): (r: Option<(nat, nat)>)
    ensures r.Some? ==> r.value.0 < Limit && 1 <= r.value.1 <= |s| && r.value.1 <= 10
  {
    match DecodeBounded(s, 10)
    case Some((v, n)) => if v < Limit then Some((v, n)) else None
    case None => None
  }

  lemma {:induction false} DecodeBoundedEncode(v: nat, rest: seq<byte>, budget: nat)
    requires Len(v) <= budget
    ensures DecodeBounded(Encode(v) + rest, budget) == Some((v, Len(v)))
    decreases v
  {
    var s := Encode(v) + rest;
    if v >= 0x80 {
      assert s[1..] == Encode(v / 0x80) + rest;
      DecodeBoundedEncode(v / 0x80, rest, budget - 1);
    }
  }

  /** Decoding an encoded 64-bit value gives it back and consumes exactly its bytes. */
  lemma DecodeEncode(v: nat, rest: seq<byte>)
    requires v < Limit
    ensures Decode(Encode(v) + rest) == Some((v, Len(v)))
  {
    LenOf64Bit(v);
    DecodeBoundedEncode(v, rest, 10);
  }

  /**
   * Adding fewer than eight to a multiple of eight does not change the
   * length of its encoding (why prost sizes a key from `tag << 3` alone).
   */
  lemma LenIgnoresLowBits(t: nat, c: nat)
    requires c < 8
    ensures Len(8 * t + c) == Len(8 * t)
  {
    var q, r := t / 16, t % 16;
    assert 8 * t + c == 0x80 * q + (8 * r + c) && 8 * r + c < 0x80;
    assert (8 * t + c) / 0x80 == q && (8 * t) / 0x80 == q;
  }
}
