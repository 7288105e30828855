/**
 * The arena: a bump allocator that hands out ranges of owned blocks and
 * never frees them individually.
 *
 * Addresses are abstract: a pointer into the arena is a (block index,
 * offset) pair, and the base of every block is taken to be aligned to
 * `kAlign` (as `new char[]` memory is), so an address is aligned exactly when
 * its offset is. The target is a 64-bit platform: `sizeof(char*)` is 8 and
 * the alignment of AllocateAligned is 8.
 */
module Arena {

  const kBlockSize: nat := 4096

  /** sizeof(void*) == sizeof(char*) on the modelled platform. */
  const kPointerSize: nat := 8

  /** `(sizeof(void*) > 8) ? sizeof(void*) : 8`, a power of two. */
  const kAlign: nat := if kPointerSize > 8 then kPointerSize else 8

  /** A `char*` into the arena, or nullptr. */
  datatype Pointer = Null | At(block: nat, offset: nat)

  /** Pointer arithmetic `p + n`; only `nullptr + 0` is ever formed from nullptr. */
  function Advance(p: Pointer, n: nat): Pointer
  {
    match p
    case Null => Null
    case At(b, o) => At(b, o + n)
  }

  /** A range handed out by the arena: `size` bytes at `offset` in block `block`. */
  datatype Extent = Extent(block: nat, offset: nat, size: nat)

  predicate Disjoint(e: Extent, f: Extent)
  {
    e.block != f.block || e.offset + e.size <= f.offset || f.offset + f.size <= e.offset
  }

  predicate PairwiseDisjoint(es: seq<Extent>)
  {
    forall i, j :: 0 <= i < j < |es| ==> Disjoint(es[i], es[j])
  }

  /** The range lies inside one block the arena owns. */
  predicate InBlock(e: Extent, blocks: seq<nat>)
  {
    e.block < |blocks| && e.offset + e.size <= blocks[e.block]
  }

  /** A range in the current block ends at or before the bump pointer. */
  predicate BeforeCursor(e: Extent, p: Pointer)
  {
    p.At? && e.block == p.block ==> e.offset + e.size <= p.offset
  }

  /** What the blocks cost: their bytes plus one `char*` slot of `blocks_` each. */
  function Footprint(blocks: seq<nat>): nat
  {
    if |blocks| == 0 then 0
    else Footprint(blocks[..|blocks| - 1]) + blocks[|blocks| - 1] + kPointerSize
  }

  lemma FootprintAppend(blocks: seq<nat>, b: nat)
    ensures Footprint(blocks + [b]) == Footprint(blocks) + b + kPointerSize
  {
    assert (blocks + [b])[..|blocks|] == blocks;
  }

  /** `reinterpret_cast<uintptr_t>(p) & (kAlign - 1)`, block bases being aligned and nullptr being 0. */
  function AddressMod(p: Pointer): (m: nat)
    ensures m < kAlign
    ensures p.At? ==> m <= p.offset && (p.offset - m) % kAlign == 0
  {
    match p
    case Null => 0
    case At(_, o) => o % kAlign
  }

  /** The padding AllocateAligned puts before the result: it lands the result on a multiple of kAlign. */
  function Slop(p: Pointer): (slop: nat)
    ensures slop < kAlign
    ensures p.At? ==> (p.offset + slop) % kAlign == 0
  {
    var m := AddressMod(p);
    if m == 0 then 0 else kAlign - m
  }

  class Arena {
    /** alloc_ptr_: the start of the free space in the current block. */
    var allocPtr: Pointer
    /** alloc_bytes_remaining_: the free bytes left after allocPtr. */
    var allocBytesRemaining: nat
    /** blocks_: the size of each owned block, in allocation order. */
    var blocks: seq<nat>
    /** memory_usage_ */
    var memoryUsage: nat
    /** Every range handed out so far, in order. */
    ghost var handedOut: seq<Extent>

    ghost predicate Valid()
      reads this
    {
      && (allocPtr.Null? ==> allocBytesRemaining == 0)
      && (allocPtr.At? ==> allocPtr.block < |blocks| && allocPtr.offset + allocBytesRemaining <= blocks[allocPtr.block])
      && memoryUsage == Footprint(blocks)
      && (forall i :: 0 <= i < |handedOut| ==> InBlock(handedOut[i], blocks) && BeforeCursor(handedOut[i], allocPtr))
      && PairwiseDisjoint(handedOut)
    }

    constructor ()
      ensures Valid()
      ensures allocPtr == Null && allocBytesRemaining == 0 && memoryUsage == 0 && blocks == []
      ensures handedOut == []
    {
      allocPtr := Null;
      allocBytesRemaining := 0;
      memoryUsage := 0;
      blocks := [];
      handedOut := [];
    }

    /** MemoryUsage(): the bytes of all blocks plus their bookkeeping. */
    function MemoryUsage(): (r: nat)
      reads this
      requires Valid()
      ensures r == Footprint(blocks)
    {
      memoryUsage
    }

    method Allocate(bytes: nat) returns (result: Pointer)
      requires Valid()
      requires bytes > 0
      modifies this
      ensures Valid()
      ensures result.At? && InBlock(Extent(result.block, result.offset, bytes), blocks)
      ensures handedOut == old(handedOut) + [Extent(result.block, result.offset, bytes)]
      ensures memoryUsage >= old(memoryUsage)
      // Served from the current block.
      ensures old(bytes <= allocBytesRemaining) ==>
                && result == old(allocPtr)
                && allocPtr == Advance(old(allocPtr), bytes)
                && allocBytesRemaining == old(allocBytesRemaining) - bytes
                && blocks == old(blocks) && memoryUsage == old(memoryUsage)
      // Delegated to AllocateFallback: a block of its own for a large request ...
      ensures old(bytes > allocBytesRemaining) && bytes > kBlockSize / 4 ==>
                && result == At(|old(blocks)|, 0)
                && blocks == old(blocks) + [bytes]
                && allocPtr == old(allocPtr) && allocBytesRemaining == old(allocBytesRemaining)
                && memoryUsage == old(memoryUsage) + bytes + kPointerSize
      // ... and the start of a fresh standard block otherwise.
      ensures old(bytes > allocBytesRemaining) && bytes <= kBlockSize / 4 ==>
                && result == At(|old(blocks)|, 0)
                && blocks == old(blocks) + [kBlockSize]
                && allocPtr == At(|old(blocks)|, bytes) && allocBytesRemaining == kBlockSize - bytes
                && memoryUsage == old(memoryUsage) + kBlockSize + kPointerSize
    {
      if bytes <= allocBytesRemaining {
        result := allocPtr;
        allocPtr := Advance(allocPtr, bytes);
        allocBytesRemaining := allocBytesRemaining - bytes;
        handedOut := handedOut + [Extent(result.block, result.offset, bytes)];
        assert handedOut[|handedOut| - 1] == Extent(result.block, result.offset, bytes);
        return;
      }
      result := AllocateFallback(bytes);
    }

    method AllocateAligned(bytes: nat) returns (result: Pointer)
      requires Valid()
      modifies this
      ensures Valid()
      ensures result.At? ==> result.offset % kAlign == 0
      ensures bytes > 0 ==> result.At?
      ensures result.At? ==> InBlock(Extent(result.block, result.offset, bytes), blocks)
      ensures handedOut == old(handedOut) + (if result.At? then [Extent(result.block, result.offset, bytes)] else [])
      ensures memoryUsage >= old(memoryUsage)
      // Served from the current block after `slop` bytes of padding.
      ensures var slop := Slop(old(allocPtr));
              bytes + slop <= old(allocBytesRemaining) ==>
                && result == Advance(old(allocPtr), slop)
                && allocPtr == Advance(old(allocPtr), bytes + slop)
                && allocBytesRemaining == old(allocBytesRemaining) - (bytes + slop)
                && blocks == old(blocks) && memoryUsage == old(memoryUsage)
      // Otherwise AllocateFallback, whose result starts a new block.
      ensures bytes + Slop(old(allocPtr)) > old(allocBytesRemaining) ==>
                && result == At(|old(blocks)|, 0)
                && (bytes > kBlockSize / 4 ==>
                      && blocks == old(blocks) + [bytes]
                      && allocPtr == old(allocPtr) && allocBytesRemaining == old(allocBytesRemaining)
                      && memoryUsage == old(memoryUsage) + bytes + kPointerSize)
                && (bytes <= kBlockSize / 4 ==>
                      && blocks == old(blocks) + [kBlockSize]
                      && allocPtr == At(|old(blocks)|, bytes) && allocBytesRemaining == kBlockSize - bytes
                      && memoryUsage == old(memoryUsage) + kBlockSize + kPointerSize)
    {
      var currentMod := AddressMod(allocPtr);
      var slop := if currentMod == 0 then 0 else kAlign - currentMod;
      var needed := bytes + slop;
      if needed <= allocBytesRemaining {
        result := Advance(allocPtr, slop);
        allocPtr := Advance(allocPtr, needed);
        allocBytesRemaining := allocBytesRemaining - needed;
        if result.At? {
          handedOut := handedOut + [Extent(result.block, result.offset, bytes)];
          assert handedOut[|handedOut| - 1] == Extent(result.block, result.offset, bytes);
        }
      } else {
        // AllocateFallback always returns aligned memory.
        result := AllocateFallback(bytes);
      }
      assert result.At? ==> result.offset % kAlign == 0;
    }

    method AllocateFallback(bytes: nat) returns (result: Pointer)
      requires Valid()
      modifies this
      ensures Valid()
      ensures result == At(|old(blocks)|, 0)
      ensures InBlock(Extent(result.block, result.offset, bytes), blocks)
      ensures handedOut == old(handedOut) + [Extent(result.block, result.offset, bytes)]
      // A request of more than a quarter block gets a block of exactly its size.
      ensures bytes > kBlockSize / 4 ==>
                && blocks == old(blocks) + [bytes]
                && allocPtr == old(allocPtr) && allocBytesRemaining == old(allocBytesRemaining)
                && memoryUsage == old(memoryUsage) + bytes + kPointerSize
      // A smaller one wastes the rest of the current block and starts a fresh one.
      ensures bytes <= kBlockSize / 4 ==>
                && blocks == old(blocks) + [kBlockSize]
                && allocPtr == At(|old(blocks)|, bytes) && allocBytesRemaining == kBlockSize - bytes
                && memoryUsage == old(memoryUsage) + kBlockSize + kPointerSize
    {
      if bytes > kBlockSize / 4 {
        // Object is more than a quarter of our block size: allocate it separately.
        result := AllocateNewBlock(bytes);
      } else {
        allocPtr := AllocateNewBlock(kBlockSize);
        allocBytesRemaining := kBlockSize;
        result := allocPtr;
        allocPtr := Advance(allocPtr, bytes);
        allocBytesRemaining := allocBytesRemaining - bytes;
      }
      var e := Extent(result.block, result.offset, bytes);
      assert forall i :: 0 <= i < |handedOut| ==> Disjoint(handedOut[i], e);
      handedOut := handedOut + [e];
      assert handedOut[|handedOut| - 1] == e;
    }

    method AllocateNewBlock(blockBytes: nat) returns (result: Pointer)
      requires Valid()
      modifies this
      ensures Valid()
      ensures result == At(|old(blocks)|, 0)
      ensures blocks == old(blocks) + [blockBytes]
      ensures memoryUsage == old(memoryUsage) + blockBytes + kPointerSize
      ensures allocPtr == old(allocPtr) && allocBytesRemaining == old(allocBytesRemaining)
      ensures handedOut == old(handedOut)
    {
      result := At(|blocks|, 0);
      FootprintAppend(blocks, blockBytes);
      blocks := blocks + [blockBytes];
      memoryUsage := memoryUsage + blockBytes + kPointerSize;
    }
  }
}
