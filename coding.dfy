/**
 * The two integer encodings the memtable record format uses (they live in
 * util/coding.h, which is not part of this model, so they are specified here
 * from their documented formats):
 *   - varint32: unsigned base-128 varint, low 7 bits first, the high bit of a
 *     byte set when more bytes follow (the Protocol Buffers "Base 128 Varints");
 *   - fixed64: eight bytes, little-endian.
 */
module Coding {
  import opened Bytes
  import opened Wrappers

  const kTwo32: nat := 0x1_0000_0000
  const kTwo64: nat := 0x1_0000_0000_0000_0000

  /** A varint32 is at most five bytes long. */
  const kMaxVarint32Bytes: nat := 5

  // ---------------------------------------------------------------------
  // varint32

  /** VarintLength: the number of bytes the varint encoding of `v` takes. */
  function VarintLength(v: nat): (n: nat)
    ensures n >= 1
  {
    if v < 128 then 1 else 1 + VarintLength(v / 128)
  }

  /** Encoding of `v` as an unbounded base-128 varint. */
  function Varint(v: nat): (r: seq<Byte>)
    ensures |r| == VarintLength(v)
    ensures forall i :: 0 <= i < |r| - 1 ==> r[i] >= 128
    ensures r[|r| - 1] < 128
  {
    if v < 128 then [v]
    else [v % 128 + 128] + Varint(v / 128)
  }

  /** EncodeVarint32 / PutVarint32. */
  function Varint32(v: nat): (r: seq<Byte>)
    requires v < kTwo32
    ensures 1 <= |r| <= kMaxVarint32Bytes
    ensures |r| == VarintLength(v)
  {
    VarintLengthOf32(v);
    Varint(v)
  }

  lemma VarintLengthOf32(v: nat)
    requires v < kTwo32
    ensures VarintLength(v) <= kMaxVarint32Bytes
  {
    // Five base-128 digits reach 2^35 > 2^32.
    var q1 := v / 128;
    var q2 := q1 / 128;
    var q3 := q2 / 128;
    var q4 := q3 / 128;
    assert q4 < 128;
    assert VarintLength(q3) <= 2;
    assert VarintLength(q2) <= 3;
    assert VarintLength(q1) <= 4;
  }

  /**
   * Decoding of the varint at the front of `s` reading at most `budget`
   * bytes: the value and the number of bytes read, or None when the bytes
   * run out (or the budget does) before a byte without the high bit.
   */
  function DecodeVarint(s: seq<Byte>, budget: nat): Option<(nat, nat)>
  {
    if budget == 0 || |s| == 0 then None
    else if s[0] < 128 then Some((s[0], 1))
    else match DecodeVarint(s[1..], budget - 1)
      case None => None
      case Some((v, n)) => Some((s[0] - 128 + 128 * v, n + 1))
  }

  /**
   * GetVarint32Ptr(p, p + 5, &value): reads at most five bytes; the result
   * is accumulated in a uint32, so bits past the 32nd are dropped.
   */
  function GetVarint32(s: seq<Byte>): (r: Option<(nat, nat)>)
    ensures r.Some? ==> r.value.0 < kTwo32 && 1 <= r.value.1 <= kMaxVarint32Bytes && r.value.1 <= |s|
  {
    DecodeVarintConsumes(s, kMaxVarint32Bytes);
    match DecodeVarint(s, kMaxVarint32Bytes)
    case None => None
    case Some((v, n)) => Some((v % kTwo32, n))
  }

  lemma {:induction false} DecodeVarintConsumes(s: seq<Byte>, budget: nat)
    ensures var r := DecodeVarint(s, budget);
            r.Some? ==> 1 <= r.value.1 <= budget && r.value.1 <= |s|
  {
    if budget > 0 && |s| > 0 && s[0] >= 128 {
      DecodeVarintConsumes(s[1..], budget - 1);
    }
  }

  /** Decoding an encoded varint gives back the value and its length, whatever follows it. */
  lemma {:induction false} VarintRoundTrip(v: nat, rest: seq<Byte>, budget: nat)
    requires VarintLength(v) <= budget
    ensures DecodeVarint(Varint(v) + rest, budget) == Some((v, VarintLength(v)))
  {
    if v >= 128 {
      var s := Varint(v) + rest;
      assert s[1..] == Varint(v / 128) + rest;
      VarintRoundTrip(v / 128, rest, budget - 1);
    }
  }

  /** GetVarint32 inverts Varint32. */
  lemma Varint32RoundTrip(v: nat, rest: seq<Byte>)
    requires v < kTwo32
    ensures GetVarint32(Varint32(v) + rest) == Some((v, |Varint32(v)|))
  {
    VarintLengthOf32(v);
    VarintRoundTrip(v, rest, kMaxVarint32Bytes);
  }

  // ---------------------------------------------------------------------
  // fixed64

  function Pow256(n: nat): (p: nat)
    ensures p >= 1
  {
    if n == 0 then 1 else 256 * Pow256(n - 1)
  }

  /** The low `n` bytes of `v`, least significant first. */
  function EncodeFixed(v: nat, n: nat): (r: seq<Byte>)
    ensures |r| == n
  {
    if n == 0 then [] else [v % 256] + EncodeFixed(v / 256, n - 1)
  }

  /** The little-endian number the bytes of `s` spell. */
  function DecodeFixed(s: seq<Byte>): (v: nat)
    ensures v < Pow256(|s|)
  {
    if |s| == 0 then 0 else s[0] + 256 * DecodeFixed(s[1..])
  }

  function EncodeFixed64(v: nat): (r: seq<Byte>)
    requires v < kTwo64
    ensures |r| == 8
  {
    EncodeFixed(v, 8)
  }

  /** DecodeFixed64: the first eight bytes, little-endian. */
  function DecodeFixed64(s: seq<Byte>): (v: nat)
    requires |s| >= 8
    ensures v < kTwo64
  {
    assert Pow256(8) == kTwo64;
    DecodeFixed(s[..8])
  }

  lemma {:induction false} FixedRoundTrip(v: nat, n: nat)
    requires v < Pow256(n)
    ensures DecodeFixed(EncodeFixed(v, n)) == v
  {
    if n > 0 {
      var e := EncodeFixed(v, n);
      assert e[1..] == EncodeFixed(v / 256, n - 1);
      FixedRoundTrip(v / 256, n - 1);
    }
  }

  lemma {:induction false} FixedInverse(s: seq<Byte>)
    ensures EncodeFixed(DecodeFixed(s), |s|) == s
  {
    if |s| > 0 {
      var v := DecodeFixed(s);
      assert v % 256 == s[0] && v / 256 == DecodeFixed(s[1..]);
      FixedInverse(s[1..]);
    }
  }

  /** EncodeFixed64 inverts DecodeFixed64: the value read is the one whose encoding is the first eight bytes. */
  lemma Fixed64Inverse(s: seq<Byte>)
    requires |s| >= 8
    ensures EncodeFixed64(DecodeFixed64(s)) == s[..8]
  {
    assert Pow256(8) == kTwo64;
    FixedInverse(s[..8]);
  }

  /** DecodeFixed64 inverts EncodeFixed64, whatever follows the eight bytes. */
  lemma Fixed64RoundTrip(v: nat, rest: seq<Byte>)
    requires v < kTwo64
    ensures DecodeFixed64(EncodeFixed64(v) + rest) == v
  {
    assert Pow256(8) == kTwo64;
    assert (EncodeFixed64(v) + rest)[..8] == EncodeFixed64(v);
    FixedRoundTrip(v, 8);
  }
}
