/**
 * Internal keys: a user key followed by an 8-byte tag that packs the
 * sequence number and the value type, `(sequence << 8) | type`, stored as
 * fixed64. This is the format the memtable writes and searches; its home,
 * db/dbformat.h, is not part of this model, so what the memtable relies on is
 * specified here:
 *   - kTypeDeletion = 0, kTypeValue = 1, and a lookup seeks with kTypeValue;
 *   - sequence numbers used for lookups are at most 2^56 - 1;
 *   - internal keys sort by user key ascending (the bytewise comparator),
 *     then by tag descending, so that newer versions of a key come first.
 */
module DbFormat {
  import opened Bytes
  import opened Coding
  import Comparator

  const kTypeDeletion: Byte := 0
  const kTypeValue: Byte := 1

  /** The two record kinds: a tombstone or a value. */
  type ValueType = t: Byte | t == 0 || t == 1

  /** Lookups build their target with the highest-sorting type for a sequence number. */
  const kValueTypeForSeek: ValueType := 1

  /** (1 << 56) - 1: the largest sequence number a tag can hold unchanged. */
  const kMaxSequenceNumber: nat := 0xFF_FFFF_FFFF_FFFF

  const kTwo56: nat := 0x100_0000_0000_0000

  /** `(s << 8) | t` computed in uint64, so the top 8 bits of `s` are shifted out. */
  /**
   * The tag `(s << 8) | type`, computed in uint64: the type is its low byte
   * (`tag & 0xff`) and the sequence number modulo 2^56 the rest (`tag >> 8`).
   */
  function PackTag(s: nat, t: Byte): (tag: nat)
    requires s < kTwo64
    ensures tag < kTwo64
    ensures tag % 256 == t
    ensures tag / 256 == s % kTwo56
  {
    var q, r := s / kTwo56, s % kTwo56;
    assert s * 256 == q * kTwo64 + r * 256;
    assert (s * 256) % kTwo64 == r * 256;
    (s * 256) % kTwo64 + t
  }

  /** For sequence numbers in range, the tag is `256 * s + t`. */
  lemma PackTagInRange(s: nat, t: Byte)
    requires s <= kMaxSequenceNumber
    ensures PackTag(s, t) == 256 * s + t
    ensures PackTag(s, t) / 256 == s
  {
  }

  /** The decoded form of an internal key: a user key and a tag. */
  datatype ParsedKey = ParsedKey(userKey: seq<Byte>, tag: nat)

  /** The user key followed by the tag as fixed64. */
  function EncodeInternalKey(k: ParsedKey): (r: seq<Byte>)
    requires k.tag < kTwo64
    ensures |r| == |k.userKey| + 8
  {
    k.userKey + EncodeFixed64(k.tag)
  }

  /** ExtractUserKey and the tag of an internal key of at least eight bytes. */
  function ParseInternalKey(ik: seq<Byte>): (k: ParsedKey)
    requires |ik| >= 8
    ensures k.tag < kTwo64 && |k.userKey| == |ik| - 8
  {
    ParsedKey(ik[..|ik| - 8], DecodeFixed64(ik[|ik| - 8..]))
  }

  lemma InternalKeyRoundTrip(k: ParsedKey)
    requires k.tag < kTwo64
    ensures ParseInternalKey(EncodeInternalKey(k)) == k
  {
    var ik := EncodeInternalKey(k);
    assert ik[..|ik| - 8] == k.userKey;
    assert ik[|ik| - 8..] == EncodeFixed64(k.tag) + [];
    Fixed64RoundTrip(k.tag, []);
  }

  // ---------------------------------------------------------------------
  // The internal-key order

  /** User key ascending, then tag (and so sequence number) descending. */
  predicate KeyLess(a: ParsedKey, b: ParsedKey)
  {
    Less(a.userKey, b.userKey) || (a.userKey == b.userKey && a.tag > b.tag)
  }

  /** InternalKeyComparator::Compare on decoded keys. */
  function CompareParsed(a: ParsedKey, b: ParsedKey): (r: int)
    ensures r < 0 <==> KeyLess(a, b)
    ensures r == 0 <==> a == b
    ensures r > 0 <==> KeyLess(b, a)
  {
    var r := Comparator.Compare(a.userKey, b.userKey);
    if r != 0 then r
    else if a.tag > b.tag then -1
    else if a.tag < b.tag then 1
    else 0
  }

  /** InternalKeyComparator::Compare on encoded internal keys. */
  function InternalCompare(a: seq<Byte>, b: seq<Byte>): int
    requires |a| >= 8 && |b| >= 8
  {
    CompareParsed(ParseInternalKey(a), ParseInternalKey(b))
  }

  lemma KeyLessIrreflexive(a: ParsedKey)
    ensures !KeyLess(a, a)
  {
    LessIrreflexive(a.userKey);
  }

  lemma KeyLessTransitive(a: ParsedKey, b: ParsedKey, c: ParsedKey)
    requires KeyLess(a, b) && KeyLess(b, c)
    ensures KeyLess(a, c)
  {
    if Less(a.userKey, b.userKey) && Less(b.userKey, c.userKey) {
      LessTransitive(a.userKey, b.userKey, c.userKey);
    }
  }

  lemma KeyLessTotal(a: ParsedKey, b: ParsedKey)
    ensures a == b || KeyLess(a, b) || KeyLess(b, a)
  {
    LessTotal(a.userKey, b.userKey);
  }

  /** "Not after" is transitive: the order is a total preorder on keys. */
  lemma KeyNotAfterTransitive(a: ParsedKey, b: ParsedKey, c: ParsedKey)
    requires !KeyLess(b, a) && !KeyLess(c, b)
    ensures !KeyLess(c, a)
  {
    KeyLessTotal(a, b);
    KeyLessTotal(b, c);
    KeyLessIrreflexive(a);
    if a != b && b != c {
      KeyLessTransitive(a, b, c);
      if KeyLess(c, a) {
        KeyLessTransitive(a, c, a);
      }
    }
  }

  // ---------------------------------------------------------------------
  // LookupKey

  /** A lookup for `userKey` as of snapshot `sequence`. */
  datatype LookupKey = LookupKey(userKey: seq<Byte>, sequence: nat)

  /**
   * The lookup keys the model covers: a user key whose length plus 8 fits the
   * varint32 prefix (LookupKey's constructor truncates a longer one) and a
   * sequence number that survives the shift into the tag.
   */
  predicate ValidLookupKey(k: LookupKey)
  {
    |k.userKey| + 8 < kTwo32 && k.sequence <= kMaxSequenceNumber
  }

  /** The internal key a lookup seeks to. */
  function LookupTarget(k: LookupKey): (t: ParsedKey)
    requires ValidLookupKey(k)
    ensures t.tag < kTwo64
  {
    ParsedKey(k.userKey, PackTag(k.sequence, kValueTypeForSeek))
  }

  /** LookupKey::memtable_key(): varint32 of the internal key's length, then the internal key. */
  function MemtableKey(k: LookupKey): (r: seq<Byte>)
    requires ValidLookupKey(k)
    ensures |r| == |Varint32(|k.userKey| + 8)| + |k.userKey| + 8
    ensures r[..|r| - (|k.userKey| + 8)] == Varint32(|k.userKey| + 8)
    ensures r[|r| - (|k.userKey| + 8)..] == EncodeInternalKey(ParsedKey(k.userKey, 256 * k.sequence + kValueTypeForSeek))
  {
    PackTagInRange(k.sequence, kValueTypeForSeek);
    Varint32(|k.userKey| + 8) + EncodeInternalKey(LookupTarget(k))
  }
}
