# LevelDB in-memory write path, modelled in Dafny

This project models three sequential pieces of LevelDB's write path and proves their properties.

- **The bytewise comparator** (`BytewiseComparatorImpl`) and the abstract `Comparator` contract it implements.
  - `Compare` is three-way lexicographic byte order.
  - `FindShortestSeparator` and `FindShortSuccessor` shorten keys without leaving the range the contract allows. Both are loops over the key that the source runs in place. Here each is a method that returns the new string, proved equal to a reference function. The properties are proved on those functions.
- **The arena**, a bump allocator.
  - It is a class with the source's four fields: the current pointer, the bytes remaining, the block list and the usage counter.
  - A ghost list records every range handed out.
  - Addresses are (block, offset) pairs, and block bases are taken to be aligned.
  - The invariant `Valid()` states the following:
    - the cursor stays inside its block;
    - every handed-out range lies inside one owned block and ends before the cursor;
    - all ranges are pairwise disjoint;
    - the usage counter is the blocks' bytes plus one pointer slot each.
  - Every method keeps the invariant and states its whole new state. The fast path, the dedicated-block fallback and the fresh-block fallback are each stated separately.
- **The memtable's record codec and lookup**, with the cursor contract of `Iterator`.
  - `Add` writes `varint32(|key|+8) ++ key ++ fixed64((s<<8)|type) ++ varint32(|value|) ++ value` field by field into an array of the size it allocated from the arena. It then inserts the entry into the table.
  - The skip list is modelled as a strictly sorted sequence of entries. Beside it sits a ghost sequence of the records they encode.
  - `Get` seeks to the first entry at or past the lookup key. It is proved to answer with the newest visible version of the key:
    - visible means the same user key and a tag no greater than the lookup's tag. For sequence numbers up to 2^56 - 1 this is a sequence number no later than the snapshot (`VisibleIffNotNewer`);
    - a value is copied out;
    - a deletion sets the status to NotFound;
    - when no version is visible, Get returns false and changes nothing.
  - `MemTableIterator` is a cursor class over the entries, following the Seek/Next/Prev contract. Its `key()` and `value()` decode the entry under the cursor.

Several formats come from files that are not part of this model: the varint32 and fixed64 formats (`util/coding.h`), the internal-key layout and order (`db/dbformat.h`), and the skip list (`db/skiplist.h`). They are specified in `coding.dfy`, `dbformat.dfy` and `memtable.dfy`:
- varint32 is the Protocol Buffers base-128 varint;
- fixed64 is 8 bytes, little-endian;
- internal keys sort by user key ascending, then by tag descending.

Files:
- `wrappers.dfy`: `Option`.
- `bytes.dfy`: bytes and the lexicographic order `Less`, the reference for every ordering claim.
- `comparator.dfy`: the comparator.
- `coding.dfy`: varint32 and fixed64 with their round trips.
- `dbformat.dfy`: tags, internal keys and their order, lookup keys.
- `arena.dfy`: the arena.
- `memtable.dfy`: the entry codec, `MemTable` and `MemTableIterator`.
- `iterator.dfy`: the cleanup nodes of `Iterator`.

## Model

| member | source | states |
|---|---|---|
| Comparator.Compare | util/comparator.cc:30-32 | The result is negative, zero or positive exactly when a < b, a == b or a > b in lexicographic byte order. |
| Comparator.CompareAntisymmetric | util/comparator.cc:30-32 | Swapping the arguments negates the result. |
| Comparator.CompareTransitive | util/comparator.cc:30-32 | a < b and b < c under Compare give a < c. |
| Comparator.BytewiseCompareIsThreeWay | include/leveldb/comparator.h:25-30 | The bytewise Compare meets the abstract three-way contract for all inputs. |
| Comparator.CommonPrefixLength | util/comparator.cc:38-44 | The separator loop's stopping index: both strings agree before it, and differ at it when both are longer. |
| Comparator.FindShortestSeparator | util/comparator.cc:34-62 | The loop and the in-place increment and resize leave exactly ShortestSeparator(start, limit). |
| Comparator.SeparatorUnchangedOnPrefix | util/comparator.cc:38-47 | When either string is a prefix of the other, start is unchanged. |
| Comparator.SeparatorUnchangedUnlessBelow | util/comparator.cc:50-53 | When start is not below limit, start is unchanged: the 0xff test and the +1 < limit byte test cover every start > limit. |
| Comparator.SeparatorModified | util/comparator.cc:55-59 | When start changes, the new start is the common prefix plus the incremented differing byte. Its length is diff_index+1, at most the length of start, and it lies strictly between start and limit: new start < limit is the assert at line 59, and start < new start is proved beside it. |
| Comparator.SeparatorInRange | include/leveldb/comparator.h:48-53 | If start < limit, the new start is in [start, limit). |
| Comparator.BytewiseSeparatorMeetsContract | include/leveldb/comparator.h:48-53 | The bytewise separator meets the abstract separator contract for all inputs. |
| Comparator.FindShortSuccessor | util/comparator.cc:64-81 | The loop, the increment and the early return leave exactly ShortSuccessor(key). |
| Comparator.ShortSuccessorAt | util/comparator.cc:69-77 | The first byte that is not 0xff is incremented and the key is cut just after it. |
| Comparator.ShortSuccessorAllFF | util/comparator.cc:69-80 | A key made only of 0xff bytes, the empty key included, is unchanged. |
| Comparator.ShortSuccessorGreater | util/comparator.cc:69-77 | Any other key gets a strictly greater successor that is no longer than itself. |
| Comparator.BytewiseSuccessorMeetsContract | include/leveldb/comparator.h:55-59 | The bytewise successor is >= the key for all keys. |
| Comparator.IdentityMeetsContracts | include/leveldb/comparator.h:48-59 | The do-nothing implementation meets both shortening contracts. |
| Coding.Varint32 | db/memtable.cc:101 | EncodeVarint32 writes 1 to 5 bytes, VarintLength(v) of them. |
| Coding.GetVarint32 | db/memtable.cc:17 | GetVarint32Ptr(p, p + 5) reads at most 5 bytes and yields a value below 2^32. |
| Coding.Varint32RoundTrip | db/memtable.cc:14-19 | Decoding an encoded varint32 gives back the value and its length, whatever bytes follow. |
| Coding.DecodeFixed64 | db/memtable.cc:141 | The value read from the eight tag bytes is below 2^64. |
| Coding.Fixed64Inverse | db/memtable.cc:141 | Re-encoding the value DecodeFixed64 reads gives back the eight bytes it read. |
| Coding.Fixed64RoundTrip | db/memtable.cc:141 | DecodeFixed64 inverts EncodeFixed64, whatever bytes follow. |
| DbFormat.PackTag | db/memtable.cc:106 | The tag `(s << 8) \| type`, computed in uint64, is below 2^64. `tag & 0xff` is the type. `tag >> 8` is s modulo 2^56, so a sequence number of 2^56 or more wraps. |
| DbFormat.PackTagInRange | db/memtable.cc:106 | For sequence numbers below 2^56 the tag is 256 * s + type, and `tag >> 8` is s itself. |
| DbFormat.MemtableKey | db/memtable.cc:120 | The memtable key of a lookup is varint32(|user key| + 8) followed by the user key and fixed64(256 * snapshot + kValueTypeForSeek). |
| DbFormat.InternalKeyRoundTrip | db/memtable.cc:103-108 | Splitting an internal key gives back the user key and the tag that were written. |
| DbFormat.CompareParsed | db/memtable.cc:29-35 | The internal-key comparison is three-way: user key ascending, then tag descending. |
| DbFormat.KeyLessTransitive | db/memtable.cc:29-35 | The internal-key order is transitive. |
| DbFormat.KeyLessTotal | db/memtable.cc:29-35 | Any two distinct internal keys are ordered. |
| DbFormat.KeyNotAfterTransitive | db/memtable.cc:29-35 | "Not after" chains, so the order is a total preorder. |
| Arena.AddressMod | util/arena.cc:52 | The address modulo align is below align; subtracting it from the offset leaves a multiple of align. |
| Arena.Slop | util/arena.cc:52-54 | The slop is in [0, align) and moves an offset onto a multiple of align. |
| Arena.Arena.constructor | util/arena.cc:11-12 | A new arena has no current block, no bytes remaining, zero usage, no blocks and no allocations. |
| Arena.Arena.MemoryUsage | util/arena.h:38-40 | The usage counter equals the bytes of all blocks plus one pointer slot per block. |
| Arena.Arena.Allocate | util/arena.h:64-79 | Keeps the invariant, and the result is a range of `bytes` inside an owned block, disjoint from all earlier ones. On the fast path it returns the old cursor, advances it by `bytes`, lowers the remaining count by `bytes` and adds no block. Otherwise it has the fallback's effect. Usage never decreases. |
| Arena.Arena.AllocateAligned | util/arena.cc:41-69 | Keeps the invariant, and a non-null result is a multiple of align on both paths. A non-zero request is never null. The fast path consumes bytes + slop and returns the cursor plus slop. Otherwise the result starts a new block, with the fallback's effect on the blocks, the cursor, the remaining count and the usage. |
| Arena.Arena.AllocateFallback | util/arena.cc:20-37 | More than 1024 bytes gets a dedicated block of exactly that size, and the cursor and remaining count are unchanged. Any other request starts a 4096-byte block, returns its start and leaves 4096 - bytes remaining. |
| Arena.Arena.AllocateNewBlock | util/arena.cc:71-81 | Appends exactly one block of the requested size. Usage grows by exactly size + sizeof(char*), and nothing else changes. |
| MemTable.GetLengthPrefixedSlice | db/memtable.cc:14-19 | A decoded slice is the subrange of the data that ends at the returned offset. |
| MemTable.EncodeKey | db/memtable.cc:42-47 | The scratch encoding is 1 to 5 prefix bytes followed by exactly the target. |
| MemTable.LengthPrefixedRoundTrip | db/memtable.cc:42-47 | GetLengthPrefixedSlice of EncodeKey(target) gives back target and the offset just past it. |
| MemTable.RecordTag | db/memtable.cc:106 | The tag Add writes fits in 64 bits, and its low byte is the type. |
| MemTable.EncodedLength | db/memtable.cc:95-97 | encoded_len is at least the key and value sizes plus 10, and at most those plus 18 when both lengths fit the varint32 fields. |
| MemTable.EntryLayout | db/memtable.cc:93-97 | An entry is its five fields in order, and its length is encoded_len. |
| MemTable.EntryRoundTrip | db/memtable.cc:65-70 | An entry has length encoded_len. Its first slice is the internal key, which parses back to the record's key. The slice after it is the record's value. |
| MemTable.KeyComparator | db/memtable.cc:29-35 | Negative, zero or positive exactly when the decoded internal key of a is below, equal to or above that of b. |
| MemTable.EntryVersusKey | db/memtable.cc:29-35 | KeyComparator on an entry and a length-prefixed internal key is the internal-key comparison of the decoded keys. |
| MemTable.EntryOrder | db/memtable.cc:29-35 | Two entries compare below or equal exactly when their record keys do. |
| MemTable.SkipListSeek | db/memtable.cc:121-122 | Every entry before the result is below the target, and the entry at the result, if any, is at or past it. |
| MemTable.InsertKeepsSorted | db/memtable.cc:115 | Inserting at the seek position of a key not yet present keeps the table strictly sorted. |
| MemTable.VisibleIffNotNewer | db/memtable.cc:130-132 | For sequence numbers in range, a tag at most the lookup tag means the same user key and a sequence number no later than the snapshot. |
| MemTable.NewestUnique | db/memtable.cc:130-132 | A strictly sorted table has at most one newest visible record. |
| MemTable.SeekFindsNewest | db/memtable.cc:130-139 | The first record at or past the lookup target is the newest visible one exactly when it has the lookup's user key. Otherwise no record is visible, so the sequence number need not be checked. |
| MemTable.LatestWriteIsNewest | db/memtable.cc:118-158 | A record newer than every other version of its key is the unique newest visible record for a lookup at or after its sequence number. |
| MemTable.EncodeRecord | db/memtable.cc:99-113 | The field-by-field writes with the advancing pointer produce exactly the encoded entry, ending at buf + encoded_len. |
| MemTable.WriteBytes | db/memtable.cc:103-104 | memcpy at p leaves the earlier bytes alone, writes the field and returns p + size. |
| MemTable.MemTable.constructor | db/memtable.cc:22-23 | A new memtable is empty and owns a fresh, empty arena. |
| MemTable.MemTable.ApproximateMemoryUsage | db/memtable.cc:27 | The arena's footprint: the bytes of its blocks plus their bookkeeping. |
| MemTable.MemTable.Add | db/memtable.cc:83-116 | Allocates exactly encoded_len bytes from the arena, and usage does not decrease. The table gains exactly the new entry, and the other entries keep their order. The table stays strictly sorted. |
| MemTable.MemTable.Insert | db/memtable.cc:115 | The entry is inserted into the strictly sorted table, keeping it strictly sorted, and nothing else changes. |
| MemTable.MemTable.Get | db/memtable.cc:118-158 | Returns true exactly when some record is visible, and then answers for the newest visible one: a value is copied out with the status untouched, a deletion gives NotFound with the value untouched. Returns false, with value and status unchanged, when nothing is visible. |
| MemTable.AddThenGet | db/memtable.cc:83-158 | A record added with a sequence number newer than every other version of its key decides Get at that snapshot: Get returns true, with the value for kTypeValue and NotFound for kTypeDeletion, which hides every older value. |
| MemTable.MemTable.NewIterator | db/memtable.cc:81 | A new cursor over the current entries, not yet positioned. |
| MemTable.MemTableIterator.Valid | db/memtable.cc:58 | Valid exactly when the cursor is at one of the entries, and the entry there is the encoding of its record. |
| MemTable.MemTableIterator.constructor | db/memtable.cc:51 | The cursor starts unpositioned over the given entries. |
| MemTable.MemTableIterator.SeekToFirst | include/leveldb/iterator.h:40-42 | Valid() afterwards exactly when the source is non-empty, at the first entry. |
| MemTable.MemTableIterator.SeekToLast | include/leveldb/iterator.h:44-46 | Valid() afterwards exactly when the source is non-empty, at the last entry. |
| MemTable.MemTableIterator.Seek | include/leveldb/iterator.h:48-51 | Valid() afterwards exactly when some entry is at or past the target, at the first such entry. The scratch string holds EncodeKey(target). |
| MemTable.MemTableIterator.Next | include/leveldb/iterator.h:53-56 | Requires Valid(). Moves one entry forward, and is Valid() afterwards exactly when it was not at the last entry. |
| MemTable.MemTableIterator.Prev | include/leveldb/iterator.h:58-61 | Requires Valid(). Moves one entry back, and is Valid() afterwards exactly when it was not at the first entry. |
| MemTable.MemTableIterator.Key | db/memtable.cc:65 | Requires Valid(). The internal key under the cursor, the user key followed by fixed64(tag), as Add wrote it. |
| MemTable.MemTableIterator.Value | db/memtable.cc:66-70 | Requires Valid(). The value under the cursor, as Add wrote it. |
| MemTable.MemTableIterator.IteratorStatus | db/memtable.cc:72 | The status is always OK. |
| Iterator.CleanupNode.Run | include/leveldb/iterator.h:95-98 | Requires a function. Calls that function on the node's two arguments. |
| Iterator.IsEmptyMeansNoCall | include/leveldb/iterator.h:93 | An unused node (IsEmpty) makes no call; a used one makes its own call first. A lone node makes no call exactly when it is empty. |
| Iterator.ListCalls | include/leveldb/iterator.h:88-105 | With only the head possibly unused, a list makes one call per node, less one for an unused head (IsEmpty holds exactly when the function is null). |

## Left out

- The skip list (`db/skiplist.h`) is not part of this model, nor is its lock-free publication. The table is a sorted sequence, the seek is a linear scan for the first entry at or past the target, and the insert splices the entry in place.
- The model has no concurrency or atomics. `memory_usage_` is a plain counter; its relaxed atomic loads and `fetch_add` are not modelled.
- Real addresses are not modelled: `new char[]`, `delete[]` and the arena destructor are left out. `reinterpret_cast<uintptr_t>(p) & (align - 1)` is modelled as the block offset modulo align, assuming aligned block bases. The platform is taken to have 8-byte pointers.
- Arena.Arena: it records sizes and ranges, not bytes. Add writes its entry into a fresh array of the allocated size, and that array's contents become the table entry.
- Arena.Arena.Allocate: `size_t` wrap-around, including of bytes + slop in AllocateAligned, is not modelled; sizes are unbounded naturals.
- Reference counting is left out: `refs_`, `Ref`/`Unref` and the memtable destructor's assert.
- MemTable.MemTable.constructor: the internal-key comparator is fixed to the bytewise user comparator, not taken as a parameter.
- MemTable.MemTable.Add: requires `|key| + 8` and `|value|` to fit in 32 bits. The source would silently truncate the varint32 length fields. It also requires that no entry with the same internal key is present, which is what the skip list's Insert demands.
- MemTable.MemTableIterator.Seek: requires the target's length below 2^32, as do MemTable.EncodeKey and DbFormat.ValidLookupKey (and through it MemTable.MemTable.Get) for `|user key| + 8`. For longer inputs, `PutVarint32` in EncodeKey and the LookupKey constructor would silently truncate the length prefix; that behaviour is not modelled.
- MemTable.Visible: is defined on the tag, as the source compares tags. PackTag keeps only the sequence number modulo 2^56, so a record at sequence 2^56 or more wraps and can be visible to an earlier snapshot. MemTable.MemTable.Add accepts any sequence number below 2^64, as the source does. The reading "no later than the snapshot" is proved only for sequence numbers up to 2^56 - 1.
- MemTable.GetLengthPrefixedSlice: returns None where the source, which assumes the bytes are not corrupted, would read past the data.
- MemTable.MemTable.Get: the status has only the values OK and NotFound; the NotFound message is dropped.
- MemTable.MemTableIterator: iterates over the entries present when it was created. Entries added later, which a skip-list cursor could see, are not modelled.
- Comparator.Compare: normalises memcmp's result to -1, 0 or +1. The source promises only the sign.
- Comparator `Name()` and the `NoDestructor` singleton are left out, because they hold no logic.
- `RegisterCleanup`, the order in which cleanups run, `NewEmptyIterator` and `NewErrorIterator` live in `util/iterator.cc`, which is not part of this model. Cleanup functions and their `void*` arguments are opaque names and numbers.
- The varint32 and fixed64 routines (`util/coding.h`) and the `LookupKey` layout and internal-key order (`db/dbformat.h`) are not part of this model. They are specified from their documented formats.
- The write-ahead log writer (`db/log_writer.h`) is left out: it is file I/O with checksums.
