/**
 * The memtable: an arena-backed sorted collection of encoded records, with
 * point lookups and a cursor.
 *
 * Each record is stored as one length-prefixed internal key followed by one
 * length-prefixed value:
 *
 *   varint32(|userKey| + 8) ++ userKey ++ fixed64((sequence << 8) | type)
 *     ++ varint32(|value|) ++ value
 *
 * The skip list that holds the records (db/skiplist.h) is not part of this
 * model. It stands here as a sequence of encoded entries, kept strictly
 * sorted by KeyComparator, and its seek as the first entry at or past a
 * target. Alongside each entry list the model keeps, as ghost state, the
 * records the entries encode.
 */
module MemTable {
  import opened Bytes
  import opened Wrappers
  import opened Coding
  import opened DbFormat
  import Comparator
  import Arena

  // ---------------------------------------------------------------------
  // Length-prefixed slices

  /**
   * GetLengthPrefixedSlice: the slice a varint32 length announces, and the
   * offset just past it (`slice.data() + slice.size()`). None stands for
   * bytes the source would misread: a length that does not decode, or one
   * that runs past the end of the data.
   */
  function GetLengthPrefixedSlice(data: seq<Byte>): (r: Option<(seq<Byte>, nat)>)
    ensures r.Some? ==> |r.value.0| <= r.value.1 <= |data|
    ensures r.Some? ==> r.value.0 == data[r.value.1 - |r.value.0|..r.value.1]
  {
    match GetVarint32(data)
    case None => None
    case Some((len, n)) =>
      if n + len <= |data| then Some((data[n..n + len], n + len)) else None
  }

  /** EncodeKey: the target, prefixed with its length as varint32. */
  function EncodeKey(target: seq<Byte>): (r: seq<Byte>)
    requires |target| < kTwo32
    ensures |target| + 1 <= |r| <= |target| + kMaxVarint32Bytes
    ensures r[|r| - |target|..] == target
  {
    Varint32(|target|) + target
  }

  /** GetLengthPrefixedSlice reads back what EncodeKey wrote, whatever follows it. */
  lemma LengthPrefixedRoundTrip(target: seq<Byte>, rest: seq<Byte>)
    requires |target| < kTwo32
    ensures GetLengthPrefixedSlice(EncodeKey(target) + rest) == Some((target, |EncodeKey(target)|))
  {
    var prefix := Varint32(|target|);
    var data := EncodeKey(target) + rest;
    assert data == prefix + (target + rest);
    Varint32RoundTrip(|target|, target + rest);
    assert data[|prefix|..|prefix| + |target|] == target;
  }

  // ---------------------------------------------------------------------
  // Records and their encoding

  /** One Add: a sequence number, a type, a user key and a value. */
  datatype Record = Record(sequence: nat, vtype: ValueType, userKey: seq<Byte>, value: seq<Byte>)

  /** A uint64 sequence number, and lengths that survive the uint32 varint fields. */
  predicate WellFormed(r: Record)
  {
    r.sequence < kTwo64 && |r.userKey| + 8 < kTwo32 && |r.value| < kTwo32
  }

  /** The tag Add writes, `(s << 8) | type`: the type is its low byte. */
  function RecordTag(r: Record): (t: nat)
    requires r.sequence < kTwo64
    ensures t < kTwo64 && t % 256 == r.vtype
  {
    PackTag(r.sequence, r.vtype)
  }

  function RecordKey(r: Record): ParsedKey
    requires r.sequence < kTwo64
  {
    ParsedKey(r.userKey, RecordTag(r))
  }

  /** The entry Add stores for a record. */
  function EncodeEntry(r: Record): seq<Byte>
    requires WellFormed(r)
  {
    EncodeKey(EncodeInternalKey(RecordKey(r))) + EncodeKey(r.value)
  }

  /** Add's `encoded_len` for a user key and a value of the given sizes. */
  function EncodedLength(keySize: nat, valSize: nat): (n: nat)
    ensures n >= keySize + valSize + 10
    ensures keySize + 8 < kTwo32 && valSize < kTwo32 ==> n <= keySize + valSize + 8 + 2 * kMaxVarint32Bytes
  {
    var n := VarintLength(keySize + 8) + (keySize + 8) + VarintLength(valSize) + valSize;
    if keySize + 8 < kTwo32 && valSize < kTwo32 then
      VarintLengthOf32(keySize + 8);
      VarintLengthOf32(valSize);
      n
    else
      n
  }

  /** The layout Add writes is the one the iterator's key() and value() and Get read back. */
  lemma EntryRoundTrip(r: Record)
    requires WellFormed(r)
    ensures var e := EncodeEntry(r);
            var ik := EncodeInternalKey(RecordKey(r));
            && |e| == EncodedLength(|r.userKey|, |r.value|)
            && GetLengthPrefixedSlice(e) == Some((ik, |EncodeKey(ik)|))
            && GetLengthPrefixedSlice(e[|EncodeKey(ik)|..]) == Some((r.value, |EncodeKey(r.value)|))
            && ParseInternalKey(ik) == RecordKey(r)
  {
    var e := EncodeEntry(r);
    var ik := EncodeInternalKey(RecordKey(r));
    LengthPrefixedRoundTrip(ik, EncodeKey(r.value));
    assert e[|EncodeKey(ik)|..] == EncodeKey(r.value) + [];
    LengthPrefixedRoundTrip(r.value, []);
    InternalKeyRoundTrip(RecordKey(r));
  }

  /** The fields of an entry in the order Add writes them, and its length, `encoded_len`. */
  lemma EntryLayout(r: Record)
    requires WellFormed(r)
    ensures EncodeEntry(r) == Varint32(|r.userKey| + 8) + r.userKey + EncodeFixed64(RecordTag(r)) + Varint32(|r.value|) + r.value
    ensures |EncodeEntry(r)| == EncodedLength(|r.userKey|, |r.value|)
  {
  }

  // ---------------------------------------------------------------------
  // The entry order

  /** The bytes start with a length-prefixed internal key (at least the 8-byte tag). */
  predicate HoldsInternalKey(e: seq<Byte>)
  {
    var r := GetLengthPrefixedSlice(e);
    r.Some? && |r.value.0| >= 8
  }

  /** MemTable::KeyComparator: the internal-key order on the keys the entries start with. */
  function KeyComparator(a: seq<Byte>, b: seq<Byte>): (r: int)
    requires HoldsInternalKey(a) && HoldsInternalKey(b)
    ensures var ka := ParseInternalKey(GetLengthPrefixedSlice(a).value.0);
            var kb := ParseInternalKey(GetLengthPrefixedSlice(b).value.0);
            && (r < 0 <==> KeyLess(ka, kb))
            && (r == 0 <==> ka == kb)
            && (r > 0 <==> KeyLess(kb, ka))
  {
    InternalCompare(GetLengthPrefixedSlice(a).value.0, GetLengthPrefixedSlice(b).value.0)
  }

  /** An entry compares with a length-prefixed internal key as its record's key does. */
  lemma EntryVersusKey(r: Record, t: seq<Byte>, rest: seq<Byte>)
    requires WellFormed(r) && 8 <= |t| < kTwo32
    ensures HoldsInternalKey(EncodeEntry(r)) && HoldsInternalKey(EncodeKey(t) + rest)
    ensures KeyComparator(EncodeEntry(r), EncodeKey(t) + rest) == CompareParsed(RecordKey(r), ParseInternalKey(t))
  {
    EntryRoundTrip(r);
    LengthPrefixedRoundTrip(t, rest);
  }

  /** Two entries compare as their records' keys do. */
  lemma EntryOrder(a: Record, b: Record)
    requires WellFormed(a) && WellFormed(b)
    ensures HoldsInternalKey(EncodeEntry(a)) && HoldsInternalKey(EncodeEntry(b))
    ensures KeyComparator(EncodeEntry(a), EncodeEntry(b)) < 0 <==> KeyLess(RecordKey(a), RecordKey(b))
    ensures KeyComparator(EncodeEntry(a), EncodeEntry(b)) == 0 <==> RecordKey(a) == RecordKey(b)
  {
    var ik := EncodeInternalKey(RecordKey(b));
    EntryVersusKey(a, ik, EncodeKey(b.value));
    InternalKeyRoundTrip(RecordKey(b));
  }

  // ---------------------------------------------------------------------
  // The table

  /** The entries are the encodings of the records, one for one. */
  predicate Represents(records: seq<Record>, table: seq<seq<Byte>>)
  {
    && |records| == |table|
    && forall i :: 0 <= i < |table| ==> WellFormed(records[i]) && table[i] == EncodeEntry(records[i])
  }

  /** The skip list's order: keys strictly increasing, so no two entries compare equal. */
  predicate StrictlySorted(rs: seq<Record>)
  {
    && (forall i :: 0 <= i < |rs| ==> rs[i].sequence < kTwo64)
    && (forall i, j :: 0 <= i < j < |rs| ==> KeyLess(RecordKey(rs[i]), RecordKey(rs[j])))
  }

  /** Comparing any entry of the table with a length-prefixed key is comparing its record's key. */
  lemma TableOrder(records: seq<Record>, table: seq<seq<Byte>>, t: seq<Byte>, rest: seq<Byte>)
    requires Represents(records, table) && 8 <= |t| < kTwo32
    ensures HoldsInternalKey(EncodeKey(t) + rest)
    ensures forall j :: 0 <= j < |table| ==> HoldsInternalKey(table[j])
    ensures forall j :: 0 <= j < |table| ==>
              KeyComparator(table[j], EncodeKey(t) + rest) == CompareParsed(RecordKey(records[j]), ParseInternalKey(t))
  {
    LengthPrefixedRoundTrip(t, rest);
    forall j | 0 <= j < |table|
      ensures HoldsInternalKey(table[j])
      ensures KeyComparator(table[j], EncodeKey(t) + rest) == CompareParsed(RecordKey(records[j]), ParseInternalKey(t))
    {
      EntryVersusKey(records[j], t, rest);
    }
  }

  /** The skip list's seek: the first entry at or past the target. */
  method SkipListSeek(table: seq<seq<Byte>>, target: seq<Byte>) returns (i: nat)
    requires forall j :: 0 <= j < |table| ==> HoldsInternalKey(table[j])
    requires HoldsInternalKey(target)
    ensures i <= |table|
    ensures forall j :: 0 <= j < i ==> KeyComparator(table[j], target) < 0
    ensures i < |table| ==> KeyComparator(table[i], target) >= 0
  {
    i := 0;
    while i < |table| && KeyComparator(table[i], target) < 0
      invariant i <= |table|
      invariant forall j :: 0 <= j < i ==> KeyComparator(table[j], target) < 0
    {
      i := i + 1;
    }
  }

  /** Inserting a record where the seek for its key lands keeps the records strictly sorted. */
  lemma InsertKeepsSorted(rs: seq<Record>, r: Record, i: nat)
    requires StrictlySorted(rs) && r.sequence < kTwo64 && i <= |rs|
    requires forall j :: 0 <= j < |rs| ==> RecordKey(rs[j]) != RecordKey(r)
    requires forall j :: 0 <= j < i ==> KeyLess(RecordKey(rs[j]), RecordKey(r))
    requires i < |rs| ==> !KeyLess(RecordKey(rs[i]), RecordKey(r))
    ensures StrictlySorted(rs[..i] + [r] + rs[i..])
  {
    var out := rs[..i] + [r] + rs[i..];
    if i < |rs| {
      KeyLessTotal(RecordKey(rs[i]), RecordKey(r));
    }
    forall j | i <= j < |rs|
      ensures KeyLess(RecordKey(r), RecordKey(rs[j]))
    {
      if j > i {
        KeyLessTransitive(RecordKey(r), RecordKey(rs[i]), RecordKey(rs[j]));
      }
    }
    forall a, b | 0 <= a < b < |out|
      ensures KeyLess(RecordKey(out[a]), RecordKey(out[b]))
    {
      if b < i {
        assert out[a] == rs[a] && out[b] == rs[b];
      } else if b == i {
        assert out[a] == rs[a] && out[b] == r;
      } else if a < i {
        assert out[a] == rs[a] && out[b] == rs[b - 1];
        KeyLessTransitive(RecordKey(rs[a]), RecordKey(r), RecordKey(rs[b - 1]));
      } else if a == i {
        assert out[a] == r && out[b] == rs[b - 1];
      } else {
        assert out[a] == rs[a - 1] && out[b] == rs[b - 1];
      }
    }
  }

  lemma RepresentsInsert(records: seq<Record>, table: seq<seq<Byte>>, r: Record, i: nat)
    requires Represents(records, table) && WellFormed(r) && i <= |records|
    ensures Represents(records[..i] + [r] + records[i..], table[..i] + [EncodeEntry(r)] + table[i..])
  {
    var rs := records[..i] + [r] + records[i..];
    var ts := table[..i] + [EncodeEntry(r)] + table[i..];
    forall j | 0 <= j < |ts|
      ensures WellFormed(rs[j]) && ts[j] == EncodeEntry(rs[j])
    {
      if j < i {
        assert rs[j] == records[j] && ts[j] == table[j];
      } else if j > i {
        assert rs[j] == records[j - 1] && ts[j] == table[j - 1];
      }
    }
  }

  // ---------------------------------------------------------------------
  // Lookup semantics

  /**
   * A record a lookup may see: the same user key, and a tag no greater than
   * the lookup's target tag. For sequence numbers up to kMaxSequenceNumber
   * this means not newer than the lookup's snapshot (VisibleIffNotNewer); a
   * larger sequence number wraps modulo 2^56 inside the tag.
   */
  predicate Visible(r: Record, k: LookupKey)
  {
    r.sequence < kTwo64 && ValidLookupKey(k) && r.userKey == k.userKey && RecordTag(r) <= LookupTarget(k).tag
  }

  /** Record `j` is visible to the lookup and no visible record has a larger tag. */
  predicate Newest(rs: seq<Record>, k: LookupKey, j: int)
  {
    && 0 <= j < |rs| && Visible(rs[j], k)
    && forall m :: 0 <= m < |rs| && Visible(rs[m], k) ==> RecordTag(rs[m]) <= RecordTag(rs[j])
  }

  /** Visibility is the snapshot rule: same user key and a sequence number no later than the lookup's. */
  lemma VisibleIffNotNewer(r: Record, k: LookupKey)
    requires r.sequence <= kMaxSequenceNumber && ValidLookupKey(k)
    ensures Visible(r, k) <==> r.userKey == k.userKey && r.sequence <= k.sequence
  {
    PackTagInRange(r.sequence, r.vtype);
    PackTagInRange(k.sequence, kValueTypeForSeek);
  }

  /** In a strictly sorted table there is at most one newest visible record. */
  lemma NewestUnique(rs: seq<Record>, k: LookupKey, i: int, j: int)
    requires StrictlySorted(rs) && Newest(rs, k, i) && Newest(rs, k, j)
    ensures i == j
  {
    assert RecordKey(rs[i]) == RecordKey(rs[j]);
    KeyLessIrreflexive(RecordKey(rs[i]));
  }

  /**
   * Why Get need not check the sequence number: in a strictly sorted table,
   * the first record at or past the lookup target is the newest visible
   * record when it has the lookup's user key, and no record is visible
   * otherwise.
   */
  lemma SeekFindsNewest(rs: seq<Record>, k: LookupKey, i: nat)
    requires StrictlySorted(rs) && ValidLookupKey(k) && i <= |rs|
    requires forall j :: 0 <= j < i ==> KeyLess(RecordKey(rs[j]), LookupTarget(k))
    requires i < |rs| ==> !KeyLess(RecordKey(rs[i]), LookupTarget(k))
    ensures (i < |rs| && rs[i].userKey == k.userKey) <==> exists j :: 0 <= j < |rs| && Visible(rs[j], k)
    ensures i < |rs| && rs[i].userKey == k.userKey ==> Newest(rs, k, i)
  {
    LessIrreflexive(k.userKey);
    if i < |rs| && rs[i].userKey == k.userKey {
      assert Visible(rs[i], k);
      forall m | 0 <= m < |rs| && Visible(rs[m], k)
        ensures RecordTag(rs[m]) <= RecordTag(rs[i])
      {
        if m > i {
          assert KeyLess(RecordKey(rs[i]), RecordKey(rs[m]));
        }
      }
    } else {
      forall m | 0 <= m < |rs|
        ensures !Visible(rs[m], k)
      {
        if m < i {
          assert KeyLess(RecordKey(rs[m]), LookupTarget(k));
        } else if m > i {
          assert KeyLess(RecordKey(rs[i]), RecordKey(rs[m]));
        }
      }
    }
  }

  /**
   * Read-your-write: a record newer than every other version of its user key
   * is the one a lookup at or after its sequence number finds, and the only one.
   */
  lemma LatestWriteIsNewest(rs: seq<Record>, k: LookupKey, i: int)
    requires StrictlySorted(rs) && ValidLookupKey(k) && 0 <= i < |rs|
    requires rs[i].userKey == k.userKey && rs[i].sequence <= k.sequence
    requires forall j :: 0 <= j < |rs| && j != i && rs[j].userKey == k.userKey ==> rs[j].sequence < rs[i].sequence
    ensures Newest(rs, k, i)
    ensures forall j :: Newest(rs, k, j) ==> j == i
  {
    VisibleIffNotNewer(rs[i], k);
    PackTagInRange(rs[i].sequence, rs[i].vtype);
    forall m | 0 <= m < |rs| && Visible(rs[m], k)
      ensures RecordTag(rs[m]) <= RecordTag(rs[i])
    {
      if m != i {
        PackTagInRange(rs[m].sequence, rs[m].vtype);
      }
    }
    forall j | Newest(rs, k, j)
      ensures j == i
    {
      NewestUnique(rs, k, i, j);
    }
  }

  datatype Status = OK | NotFound

  /**
   * What Get reports for record `r`: a value is copied out; a deletion
   * leaves the value alone and sets the status to NotFound.
   */
  predicate Answer(r: Record, value: seq<Byte>, s: Status, value': seq<Byte>, s': Status)
  {
    if r.vtype == kTypeValue then value' == r.value && s' == s
    else value' == value && s' == NotFound
  }

  // ---------------------------------------------------------------------
  // MemTable

  class MemTable {
    /** arena_: where the entries are allocated. */
    const arena: Arena.Arena
    /** table_: the encoded entries in skip-list order. */
    var table: seq<seq<Byte>>
    /** The records the entries encode, in the same order. */
    ghost var records: seq<Record>

    ghost predicate Valid()
      reads this, arena
    {
      arena.Valid() && Represents(records, table) && StrictlySorted(records)
    }

    constructor ()
      ensures Valid() && fresh(arena)
      ensures table == [] && records == [] && arena.blocks == []
    {
      arena := new Arena.Arena();
      table := [];
      records := [];
    }

    /** ApproximateMemoryUsage: what the arena holds. */
    function ApproximateMemoryUsage(): (r: nat)
      reads this, arena
      requires Valid()
      ensures r == Arena.Footprint(arena.blocks)
    {
      arena.MemoryUsage()
    }

    /**
     * Add: encode the record into `encoded_len` bytes taken from the arena,
     * then insert the entry into the table. The skip list demands that no
     * entry with the same internal key is present.
     */
    method Add(s: nat, vtype: ValueType, key: seq<Byte>, value: seq<Byte>)
      requires Valid()
      requires s < kTwo64 && |key| + 8 < kTwo32 && |value| < kTwo32
      requires forall j :: 0 <= j < |records| ==> RecordKey(records[j]) != RecordKey(Record(s, vtype, key, value))
      modifies this, arena
      ensures Valid()
      ensures var r := Record(s, vtype, key, value);
              exists i :: 0 <= i <= |old(records)|
                && records == old(records)[..i] + [r] + old(records)[i..]
                && table == old(table)[..i] + [EncodeEntry(r)] + old(table)[i..]
      ensures arena.memoryUsage >= old(arena.memoryUsage)
      ensures |arena.handedOut| == |old(arena.handedOut)| + 1
      ensures arena.handedOut[|old(arena.handedOut)|].size == EncodedLength(|key|, |value|)
    {
      var keySize := |key|;
      var valSize := |value|;
      var internalKeySize := keySize + 8;
      var encodedLen := VarintLength(internalKeySize) + internalKeySize + VarintLength(valSize) + valSize;
      var _ := arena.Allocate(encodedLen);
      ghost var r := Record(s, vtype, key, value);
      var entry := EncodeRecord(s, vtype, key, value, encodedLen);
      Insert(entry, r);
    }

    /**
     * The skip list's Insert: place the entry after every entry that sorts
     * before it. Nothing comparing equal to it may be present.
     */
    method Insert(entry: seq<Byte>, ghost r: Record)
      requires Valid() && WellFormed(r) && entry == EncodeEntry(r)
      requires forall j :: 0 <= j < |records| ==> RecordKey(records[j]) != RecordKey(r)
      modifies this
      ensures Valid()
      ensures exists i :: 0 <= i <= |old(records)|
                && records == old(records)[..i] + [r] + old(records)[i..]
                && table == old(table)[..i] + [entry] + old(table)[i..]
    {
      var ik := EncodeInternalKey(RecordKey(r));
      TableOrder(records, table, ik, EncodeKey(r.value));
      InternalKeyRoundTrip(RecordKey(r));
      var i := SkipListSeek(table, entry);
      InsertKeepsSorted(records, r, i);
      RepresentsInsert(records, table, r, i);
      table := table[..i] + [entry] + table[i..];
      records := records[..i] + [r] + records[i..];
    }

    /**
     * Get: seek to the first entry at or past the lookup key; if it has the
     * lookup's user key, its type decides the answer.
     */
    method Get(key: LookupKey, value: seq<Byte>, s: Status) returns (found: bool, value': seq<Byte>, s': Status)
      requires Valid() && ValidLookupKey(key)
      ensures found <==> exists j :: 0 <= j < |records| && Visible(records[j], key)
      ensures !found ==> value' == value && s' == s
      ensures found ==> exists j :: Newest(records, key, j) && Answer(records[j], value, s, value', s')
    {
      found, value', s' := false, value, s;
      var memkey := MemtableKey(key);
      ghost var target := LookupTarget(key);
      ghost var ik := EncodeInternalKey(target);
      assert memkey == EncodeKey(ik) + [];
      TableOrder(records, table, ik, []);
      InternalKeyRoundTrip(target);
      var i := SkipListSeek(table, memkey);
      SeekFindsNewest(records, key, i);
      if i < |table| {
        var entry := table[i];
        EntryRoundTrip(records[i]);
        var keySlice := GetLengthPrefixedSlice(entry).value;
        var internalKey := keySlice.0;
        var keyLength := |internalKey|;
        if Comparator.Compare(internalKey[..keyLength - 8], key.userKey) == 0 {
          var tag := DecodeFixed64(internalKey[keyLength - 8..]);
          var vtype := tag % 256;
          if vtype == kTypeValue {
            var v := GetLengthPrefixedSlice(entry[keySlice.1..]).value;
            value' := v.0;
            found := true;
          } else if vtype == kTypeDeletion {
            s' := NotFound;
            found := true;
          }
        }
      }
    }

    /** NewIterator: a cursor over the current entries, not yet positioned. */
    method NewIterator() returns (it: MemTableIterator)
      requires Valid()
      ensures fresh(it) && it.table == table && it.records == records
      ensures it.Inv() && !it.Valid()
    {
      it := new MemTableIterator(table, records);
    }
  }

  /**
   * A client of the memtable: a record added at a sequence number newer than
   * every other version of its key decides what Get returns at that
   * snapshot. A value is returned; a deletion hides every older value and
   * gives NotFound.
   */
  method AddThenGet(m: MemTable, s: nat, vtype: ValueType, key: seq<Byte>, value: seq<Byte>)
    returns (found: bool, v: seq<Byte>, st: Status)
    requires m.Valid() && s <= kMaxSequenceNumber && |key| + 8 < kTwo32 && |value| < kTwo32
    requires forall j :: 0 <= j < |m.records| && m.records[j].userKey == key ==> m.records[j].sequence < s
    modifies m, m.arena
    ensures m.Valid()
    ensures found && Answer(Record(s, vtype, key, value), [], OK, v, st)
    ensures vtype == kTypeValue ==> v == value && st == OK
    ensures vtype == kTypeDeletion ==> v == [] && st == NotFound
  {
    ghost var r := Record(s, vtype, key, value);
    ghost var before := m.records;
    PackTagInRange(s, vtype);
    forall j | 0 <= j < |before|
      ensures RecordKey(before[j]) != RecordKey(r)
    {
      if before[j].userKey == key {
        PackTagInRange(before[j].sequence, before[j].vtype);
      }
    }
    m.Add(s, vtype, key, value);
    ghost var i :| 0 <= i <= |before| && m.records == before[..i] + [r] + before[i..];
    forall j | 0 <= j < |m.records| && j != i && m.records[j].userKey == key
      ensures m.records[j].sequence < s
    {
      if j < i {
        assert m.records[j] == before[j];
      } else {
        assert m.records[j] == before[j - 1];
      }
    }
    var k := LookupKey(key, s);
    LatestWriteIsNewest(m.records, k, i);
    found, v, st := m.Get(k, [], OK);
    NewestUnique(m.records, k, i, i);
  }

  /**
   * The writes of Add into its `encoded_len`-byte buffer: each step writes
   * one field at the write pointer and advances it past the field; the last
   * one ends exactly at the end of the buffer.
   */
  method EncodeRecord(s: nat, vtype: ValueType, key: seq<Byte>, value: seq<Byte>, encodedLen: nat)
    returns (entry: seq<Byte>)
    requires s < kTwo64 && |key| + 8 < kTwo32 && |value| < kTwo32
    requires encodedLen == EncodedLength(|key|, |value|)
    ensures entry == EncodeEntry(Record(s, vtype, key, value))
    ensures |entry| == encodedLen
  {
    var buf := new Byte[encodedLen];
    var p := WriteBytes(buf, 0, Varint32(|key| + 8));
    ghost var written := Varint32(|key| + 8);
    assert buf[..p] == written;
    p := WriteBytes(buf, p, key);
    written := written + key;
    assert buf[..p] == written;
    p := WriteBytes(buf, p, EncodeFixed64(PackTag(s, vtype)));
    written := written + EncodeFixed64(PackTag(s, vtype));
    assert buf[..p] == written;
    p := WriteBytes(buf, p, Varint32(|value|));
    written := written + Varint32(|value|);
    assert buf[..p] == written;
    var end := WriteBytes(buf, p, value);
    written := written + value;
    assert buf[..end] == written;
    EntryLayout(Record(s, vtype, key, value));
    assert end == encodedLen;
    entry := buf[..];
    assert entry == buf[..end];
  }

  /** memcpy(buf + p, bytes, |bytes|), returning `p + |bytes|`. */
  method WriteBytes(buf: array<Byte>, p: nat, bytes: seq<Byte>) returns (q: nat)
    requires p + |bytes| <= buf.Length
    modifies buf
    ensures q == p + |bytes|
    ensures buf[..q] == old(buf[..p]) + bytes
  {
    forall k | p <= k < p + |bytes| {
      buf[k] := bytes[k - p];
    }
    q := p + |bytes|;
    assert buf[..q] == buf[..p] + bytes;
  }

  // ---------------------------------------------------------------------
  // MemTableIterator

  /**
   * The cursor over a memtable: an index into the entries, `|table|` when
   * not positioned. It follows the Iterator contract: Seek, SeekToFirst and
   * SeekToLast position it, Next and Prev move it by one entry, key() and
   * value() decode the entry under it.
   */
  class MemTableIterator {
    const table: seq<seq<Byte>>
    ghost const records: seq<Record>
    var pos: nat
    /** tmp_: the scratch space Seek encodes its target into. */
    var tmp: seq<Byte>

    ghost predicate Inv()
      reads this
    {
      pos <= |table| && Represents(records, table) && StrictlySorted(records)
    }

    /** Valid(): positioned at a key/value pair, one of the memtable's entries. */
    predicate Valid()
      reads this
      ensures Inv() ==> (Valid() <==> pos < |records|)
      ensures Inv() && Valid() ==> table[pos] == EncodeEntry(records[pos])
    {
      pos < |table|
    }

    constructor (table: seq<seq<Byte>>, ghost records: seq<Record>)
      requires Represents(records, table) && StrictlySorted(records)
      ensures this.table == table && this.records == records && tmp == []
      ensures Inv() && !Valid()
    {
      this.table := table;
      this.records := records;
      pos := |table|;
      tmp := [];
    }

    method SeekToFirst()
      requires Inv()
      modifies this
      ensures Inv() && tmp == old(tmp)
      ensures Valid() <==> |table| > 0
      ensures Valid() ==> pos == 0
    {
      pos := 0;
    }

    method SeekToLast()
      requires Inv()
      modifies this
      ensures Inv() && tmp == old(tmp)
      ensures Valid() <==> |table| > 0
      ensures Valid() ==> pos == |table| - 1
    {
      pos := if |table| == 0 then 0 else |table| - 1;
    }

    /** Seek: position at the first entry whose key is at or past the internal key `target`. */
    method Seek(target: seq<Byte>)
      requires Inv() && 8 <= |target| < kTwo32
      modifies this
      ensures Inv() && tmp == EncodeKey(target)
      ensures Valid() <==> exists j :: 0 <= j < |records| && !KeyLess(RecordKey(records[j]), ParseInternalKey(target))
      ensures forall j :: 0 <= j < pos ==> KeyLess(RecordKey(records[j]), ParseInternalKey(target))
      ensures Valid() ==> !KeyLess(RecordKey(records[pos]), ParseInternalKey(target))
    {
      tmp := EncodeKey(target);
      assert tmp == EncodeKey(target) + [];
      TableOrder(records, table, target, []);
      pos := SkipListSeek(table, tmp);
    }

    method Next()
      requires Inv() && Valid()
      modifies this
      ensures Inv() && tmp == old(tmp)
      ensures pos == old(pos) + 1
      ensures Valid() <==> old(pos) < |table| - 1
    {
      pos := pos + 1;
    }

    method Prev()
      requires Inv() && Valid()
      modifies this
      ensures Inv() && tmp == old(tmp)
      ensures old(pos) > 0 ==> pos == old(pos) - 1
      ensures Valid() <==> old(pos) > 0
    {
      pos := if pos == 0 then |table| else pos - 1;
    }

    /** key(): the internal key of the entry under the cursor. */
    function Key(): (k: seq<Byte>)
      reads this
      requires Inv() && Valid()
      ensures k == records[pos].userKey + EncodeFixed64(RecordTag(records[pos]))
      ensures ParseInternalKey(k) == RecordKey(records[pos])
    {
      EntryRoundTrip(records[pos]);
      GetLengthPrefixedSlice(table[pos]).value.0
    }

    /** value(): the value of the entry under the cursor. */
    function Value(): (v: seq<Byte>)
      reads this
      requires Inv() && Valid()
      ensures v == records[pos].value
    {
      EntryRoundTrip(records[pos]);
      var keySlice := GetLengthPrefixedSlice(table[pos]).value;
      GetLengthPrefixedSlice(table[pos][keySlice.1..]).value.0
    }

    /** status(): a memtable cursor never fails. */
    function IteratorStatus(): (st: Status)
      reads this
      ensures st == OK
    {
      OK
    }
  }
}
