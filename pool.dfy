/**
 * The fixed-size-block memory pool of pool.c.
 *
 * The arena is the run of addresses buf, buf + chunkSize, ...,
 * buf + (blockCount - 1) * chunkSize; address 0 stands for NULL. The first
 * word of each block is `links[i]`: while block i is free it holds the index
 * of the next free block, or Null. `freeList` is the index of the head block
 * (pool->free_list), or Null when the pool is exhausted. The ghost sequence
 * FreeBlocks is the free list read from the head.
 *
 * Each operation is one atomic step: the pool's mutex only serialises these
 * steps and is not part of the model.
 */
module Pool {

  import opened Arith
  import opened Bits
  import opened FreeLists

  /** sizeof(void*): a free block must hold one link word. */
  const PointerSize: nat := 8

  /** The address of block i of an arena of c-byte blocks that starts at base. */
  function Slot(base: nat, c: nat, i: nat): nat
  {
    base + c * i
  }

  lemma SlotInArena(base: nat, c: nat, n: nat, i: nat)
    requires c > 0 && i < n
    ensures base <= Slot(base, c, i)
    ensures Slot(base, c, i) - base < c * n && (Slot(base, c, i) - base) % c == 0
    ensures (Slot(base, c, i) - base) / c == i
  {
    MultipleMod(i, c);
    MulStrictMono(i, n, c);
  }

  lemma ArenaSlot(base: nat, c: nat, n: nat, ptr: nat)
    requires c > 0 && base <= ptr && ptr - base < c * n && (ptr - base) % c == 0
    ensures (ptr - base) / c < n && Slot(base, c, (ptr - base) / c) == ptr
  {
    var off := ptr - base;
    assert off == c * (off / c) + off % c;
    DivBound(off, c, n);
  }

  /** The offset test of pool_internal_contains accepts exactly the block addresses. */
  lemma SlotMembership(base: nat, c: nat, n: nat, ptr: nat)
    requires c > 0
    ensures (base <= ptr && ptr - base < c * n && (ptr - base) % c == 0)
        <==> exists i :: 0 <= i < n && ptr == Slot(base, c, i)
  {
    if base <= ptr && ptr - base < c * n && (ptr - base) % c == 0 {
      ArenaSlot(base, c, n, ptr);
    }
    forall i | 0 <= i < n && ptr == Slot(base, c, i)
      ensures base <= ptr && ptr - base < c * n && (ptr - base) % c == 0
    {
      SlotInArena(base, c, n, i);
    }
  }

  /**
   * In an arena aligned to a power-of-two chunk size, every block address is
   * aligned to every power of two up to the chunk size.
   */
  lemma SlotAligned(base: nat, c: nat, i: nat, align: nat)
    requires IsPowerOfTwo(c) && base % c == 0
    requires IsPowerOfTwo(align) && align <= c
    ensures Slot(base, c, i) % align == 0
  {
    MultipleShift(base, c, i);
    PowerOfTwoDivides(align, c);
    DividesTrans(Slot(base, c, i), c, align);
  }

  class MemoryPool {
    var buf: nat
    var freeList: int
    var chunkSize: nat
    var blockCount: nat
    var initialized: bool
    var links: array<int>

    ghost var FreeBlocks: seq<nat>

    /** The pool's invariant: a ready pool has a well-formed arena whose free list is an acyclic chain of distinct blocks. */
    ghost predicate Valid()
      reads this, links
    {
      if initialized then
        && 0 < blockCount
        && PointerSize <= chunkSize && IsPowerOfTwo(chunkSize)
        && 0 < buf && buf % chunkSize == 0
        && links.Length == blockCount
        && IsChain(links[..], freeList, FreeBlocks)
        && Distinct(FreeBlocks)
      else
        FreeBlocks == []
    }

    /** A zero-filled MemoryPool struct, as pool_destroy leaves it. */
    constructor ()
      ensures Valid() && !initialized
      ensures buf == 0 && freeList == Null && chunkSize == 0 && blockCount == 0
    {
      buf, freeList, chunkSize, blockCount, initialized := 0, Null, 0, 0, false;
      links := new int[0];
      FreeBlocks := [];
    }

    /** The address of block i. */
    function BlockAddress(i: nat): nat
      reads this
    {
      Slot(buf, chunkSize, i)
    }

    /** pool_internal_contains: ptr is the start of one of the pool's blocks. */
    function Contains(ptr: nat): (r: bool)
      reads this, links
      requires Valid()
      ensures r <==> initialized && exists i :: 0 <= i < blockCount && ptr == BlockAddress(i)
    {
      ContainsArithmetic(ptr);
      if !initialized || ptr == 0 then false
      else if ptr < buf then false
      else
        var offset := ptr - buf;
        var total := chunkSize * blockCount;
        if offset >= total then false
        else if offset % chunkSize != 0 then false
        else true
    }

    /** The block a member pointer designates; the inverse of BlockAddress. */
    function BlockIndex(ptr: nat): (i: nat)
      reads this, links
      requires Valid() && Contains(ptr)
      ensures i < blockCount && BlockAddress(i) == ptr
    {
      ContainsArithmetic(ptr);
      ArenaSlot(buf, chunkSize, blockCount, ptr);
      (ptr - buf) / chunkSize
    }

    lemma ContainsArithmetic(ptr: nat)
      requires initialized ==> 0 < buf && 0 < chunkSize
      ensures initialized ==> ((0 < ptr && buf <= ptr && ptr - buf < chunkSize * blockCount && (ptr - buf) % chunkSize == 0)
          <==> exists i :: 0 <= i < blockCount && ptr == BlockAddress(i))
    {
      if !initialized {
        return;
      }
      SlotMembership(buf, chunkSize, blockCount, ptr);
      if i :| 0 <= i < blockCount && ptr == Slot(buf, chunkSize, i) {
        assert ptr == BlockAddress(i);
      }
      if i :| 0 <= i < blockCount && ptr == BlockAddress(i) {
        assert ptr == Slot(buf, chunkSize, i);
      }
    }

    /** Every block address is a member of the pool and maps back to its block. */
    lemma BlockRoundTrip(i: nat)
      requires Valid() && initialized && i < blockCount
      ensures Contains(BlockAddress(i)) && BlockIndex(BlockAddress(i)) == i
    {
      SlotInArena(buf, chunkSize, blockCount, i);
    }

    /** With no double free, the free list never holds more blocks than the arena has. */
    lemma FreeListBounded()
      requires Valid()
      ensures |FreeBlocks| <= blockCount
    {
      if initialized {
        DistinctBounded(FreeBlocks, blockCount);
      }
    }

    /**
     * The request checks of pool_alloc that precede the free-list test. A
     * request that passes them fits in one block, and its alignment is a
     * single bit that divides a power-of-two chunk size.
     */
    predicate AllocRejected(size: nat, align: nat)
      reads this
      ensures !AllocRejected(size, align) ==> initialized && 0 < size <= chunkSize && PopCount(align) == 1
      ensures !AllocRejected(size, align) && IsPowerOfTwo(chunkSize) ==> chunkSize % align == 0
    {
      AlignmentDivides(align, chunkSize);
      || !initialized
      || size == 0 || size > chunkSize
      || !IsPowerOfTwo(align) || align > chunkSize
    }

    /** pool_init: validate the geometry, build the arena and thread every block onto the free list. */
    method Init(chunk: nat, count: nat, memalignRet: int, memalignBuf: nat, mutexRet: int) returns (rc: int)
      requires Valid()
      requires memalignRet == 0 && IsPowerOfTwo(chunk) ==> memalignBuf % chunk == 0
      modifies this
      ensures Valid()
      ensures rc == 0 || rc == -1
      ensures rc == 0 <==>
        && count != 0 && PointerSize <= chunk && IsPowerOfTwo(chunk)
        && memalignRet == 0 && memalignBuf != 0 && mutexRet == 0
      ensures count == 0 || chunk < PointerSize || !IsPowerOfTwo(chunk)
              || memalignRet != 0 || memalignBuf == 0
              ==> unchanged(this)
      ensures rc == 0 ==>
        && initialized && fresh(links)
        && buf == memalignBuf && chunkSize == chunk && blockCount == count
        && freeList == 0 && FreeBlocks == Blocks(count)
        && links[..] == InitialLinks(count)
      ensures
        && count != 0 && PointerSize <= chunk && IsPowerOfTwo(chunk)
        && memalignRet == 0 && memalignBuf != 0 && mutexRet != 0
        ==>
        && !initialized
        && buf == memalignBuf && chunkSize == chunk && blockCount == count && freeList == 0
    {
      if count == 0 || chunk < PointerSize || !IsPowerOfTwo(chunk) {
        return -1;
      }
      if memalignRet != 0 || memalignBuf == 0 {
        return -1;
      }
      var arena := new int[count];
      for i := 0 to count
        invariant forall j :: 0 <= j < i ==> arena[j] == InitialLinks(count)[j]
      {
        arena[i] := if i + 1 < count then i + 1 else Null;
      }
      buf, freeList, chunkSize, blockCount, initialized := memalignBuf, 0, chunk, count, true;
      links := arena;
      FreeBlocks := Blocks(count);
      assert links[..] == InitialLinks(count);
      if mutexRet != 0 {
        initialized := false;
        FreeBlocks := [];
        return -1;
      }
      return 0;
    }

    /** pool_destroy: a no-op on an uninitialized pool, otherwise clear every field. */
    method Destroy()
      requires Valid()
      modifies this
      ensures Valid() && !initialized
      ensures !old(initialized) ==> unchanged(this)
      ensures old(initialized) ==>
        buf == 0 && freeList == Null && chunkSize == 0 && blockCount == 0 && links == old(links)
    {
      if !initialized {
        return;
      }
      buf, freeList, chunkSize, blockCount, initialized := 0, Null, 0, 0, false;
      FreeBlocks := [];
    }

    /** pool_alloc: reject a bad request or an exhausted pool, otherwise pop the head block. */
    method Alloc(size: nat, align: nat) returns (p: nat)
      requires Valid()
      modifies this
      ensures Valid()
      ensures old(AllocRejected(size, align)) || old(FreeBlocks) == [] ==> p == 0 && unchanged(this)
      ensures !old(AllocRejected(size, align)) && old(FreeBlocks) != [] ==>
        && p == BlockAddress(old(FreeBlocks)[0])
        && freeList == old(links[freeList])
        && FreeBlocks == old(FreeBlocks)[1..]
      ensures buf == old(buf) && chunkSize == old(chunkSize) && blockCount == old(blockCount)
      ensures initialized == old(initialized) && links == old(links)
      ensures p != 0 ==> Contains(p) && p % align == 0 && BlockIndex(p) !in FreeBlocks
    {
      if !initialized {
        return 0;
      }
      if size == 0 || size > chunkSize {
        return 0;
      }
      if !IsPowerOfTwo(align) || align > chunkSize {
        return 0;
      }
      if freeList == Null {
        return 0;
      }
      var block := freeList;
      freeList := links[block];
      FreeBlocks := FreeBlocks[1..];
      p := BlockAddress(block);
      ChainTail(links[..], block, old(FreeBlocks));
      BlockRoundTrip(block);
      SlotAligned(buf, chunkSize, block, align);
    }

    /**
     * The caller obligation of pool_free: a member block is not already on the
     * free list. Equivalently, ptr is not the address of any free block.
     */
    ghost predicate NotFreed(ptr: nat)
      reads this, links
      requires Valid()
      ensures NotFreed(ptr) <==> forall k :: 0 <= k < |FreeBlocks| ==> BlockAddress(FreeBlocks[k]) != ptr
    {
      FreeAddresses(ptr);
      Contains(ptr) ==> BlockIndex(ptr) !in FreeBlocks
    }

    /** Every block on the free list is a member and maps back to itself. */
    lemma FreeAddresses(ptr: nat)
      requires Valid()
      ensures (Contains(ptr) ==> BlockIndex(ptr) !in FreeBlocks)
          <==> forall k :: 0 <= k < |FreeBlocks| ==> BlockAddress(FreeBlocks[k]) != ptr
    {
      forall k | 0 <= k < |FreeBlocks|
        ensures Contains(BlockAddress(FreeBlocks[k])) && BlockIndex(BlockAddress(FreeBlocks[k])) == FreeBlocks[k]
      {
        BlockRoundTrip(FreeBlocks[k]);
      }
    }

    /** pool_free_unlocked: ignore NULL and non-member pointers, otherwise push the block on the head. */
    method FreeUnlocked(ptr: nat)
      requires Valid() && NotFreed(ptr)
      modifies this, links
      ensures Valid()
      ensures buf == old(buf) && chunkSize == old(chunkSize) && blockCount == old(blockCount)
      ensures initialized == old(initialized) && links == old(links)
      ensures !old(Contains(ptr)) ==> unchanged(this) && unchanged(links)
      ensures old(Contains(ptr)) ==>
        && freeList == old(BlockIndex(ptr))
        && links[..] == old(links[..])[old(BlockIndex(ptr)) := old(freeList)]
        && FreeBlocks == [old(BlockIndex(ptr))] + old(FreeBlocks)
    {
      if !initialized || ptr == 0 {
        return;
      }
      if !Contains(ptr) {
        return;
      }
      var block := (ptr - buf) / chunkSize;
      assert block == BlockIndex(ptr);
      links[block] := freeList;
      freeList := block;
      FreeBlocks := [block] + FreeBlocks;
    }

    /** pool_free: the same checks as the unlocked variant, taken before the push. */
    method Free(ptr: nat)
      requires Valid() && NotFreed(ptr)
      modifies this, links
      ensures Valid()
      ensures buf == old(buf) && chunkSize == old(chunkSize) && blockCount == old(blockCount)
      ensures initialized == old(initialized) && links == old(links)
      ensures !old(Contains(ptr)) ==> unchanged(this) && unchanged(links)
      ensures old(Contains(ptr)) ==>
        && freeList == old(BlockIndex(ptr))
        && links[..] == old(links[..])[old(BlockIndex(ptr)) := old(freeList)]
        && FreeBlocks == [old(BlockIndex(ptr))] + old(FreeBlocks)
    {
      if !initialized || ptr == 0 {
        return;
      }
      if !Contains(ptr) {
        return;
      }
      FreeUnlocked(ptr);
    }
  }
}
