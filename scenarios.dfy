/**
 * Clients of the pool: the scenarios of test_pool.c, and two general
 * consequences of the operations' contracts (every block can be allocated
 * exactly once after pool_init, and a freed block is the next one handed out).
 * The arena address that posix_memalign would return is a parameter.
 */
module Scenarios {

  import opened Bits
  import opened FreeLists
  import opened Pool

  /** After a successful pool_init, exactly blockCount allocations succeed, in address order, and the next one fails. */
  method Exhaustion(chunk: nat, count: nat, arena: nat) returns (blocks: seq<nat>, extra: nat)
    requires count > 0 && PointerSize <= chunk && IsPowerOfTwo(chunk)
    requires arena > 0 && arena % chunk == 0
    ensures |blocks| == count
    ensures forall k :: 0 <= k < count ==> blocks[k] == Slot(arena, chunk, k)
    ensures extra == 0
  {
    SmallPowersOfTwo();
    var pool := new MemoryPool();
    var rc := pool.Init(chunk, count, 0, arena, 0);
    blocks := [];
    while |blocks| < count
      invariant pool.Valid() && pool.initialized
      invariant pool.buf == arena && pool.chunkSize == chunk && pool.blockCount == count
      invariant |blocks| <= count
      invariant pool.FreeBlocks == Blocks(count)[|blocks|..]
      invariant forall k :: 0 <= k < |blocks| ==> blocks[k] == Slot(arena, chunk, k)
    {
      var p := pool.Alloc(PointerSize, PointerSize);
      blocks := blocks + [p];
    }
    extra := pool.Alloc(PointerSize, PointerSize);
  }

  /** Freeing a member block and allocating again returns that block and restores the free list (LIFO reuse). */
  method ReuseAfterFree(pool: MemoryPool, p: nat, size: nat, align: nat) returns (q: nat)
    requires pool.Valid() && pool.Contains(p) && pool.NotFreed(p)
    requires !pool.AllocRejected(size, align)
    modifies pool, pool.links
    ensures q == p
    ensures pool.Valid() && pool.initialized && pool.links == old(pool.links)
    ensures pool.buf == old(pool.buf) && pool.chunkSize == old(pool.chunkSize) && pool.blockCount == old(pool.blockCount)
    ensures pool.freeList == old(pool.freeList) && pool.FreeBlocks == old(pool.FreeBlocks)
  {
    pool.Free(p);
    q := pool.Alloc(size, align);
  }

  /** test_basic_alloc_free: init(32, 4), alloc(16, 8) succeeds, free, destroy; after destroy alloc fails. */
  method BasicAllocFree(arena: nat) returns (rc: int, p: nat, afterDestroy: nat)
    requires arena > 0 && arena % 32 == 0
    ensures rc == 0 && p == arena && afterDestroy == 0
  {
    SmallPowersOfTwo();
    var pool := new MemoryPool();
    rc := pool.Init(32, 4, 0, arena, 0);
    p := pool.Alloc(16, 8);
    pool.Free(p);
    pool.Destroy();
    afterDestroy := pool.Alloc(16, 8);
  }

  /** test_exhaustion: init(32, 2), two allocations succeed, the third fails, a freed block is reused. */
  method ExhaustionAndReuse(arena: nat) returns (a: nat, b: nat, c: nat, d: nat)
    requires arena > 0 && arena % 32 == 0
    ensures a == arena && b == arena + 32 && c == 0 && d == a
  {
    SmallPowersOfTwo();
    var pool := new MemoryPool();
    var rc := pool.Init(32, 2, 0, arena, 0);
    assert pool.FreeBlocks == [0, 1];
    a := pool.Alloc(8, 8);
    b := pool.Alloc(8, 8);
    assert pool.FreeBlocks == [];
    c := pool.Alloc(8, 8);
    d := ReuseAfterFree(pool, a, 8, 8);
    pool.BlockRoundTrip(1);
    pool.Free(b);
    pool.BlockRoundTrip(0);
    pool.Free(d);
    pool.Destroy();
  }

  /** test_alignment_and_size: oversize, over-aligned and non-power-of-two alignment requests fail. */
  method AlignmentAndSize(arena: nat) returns (tooBig: nat, tooAligned: nat, oddAlign: nat)
    requires arena > 0 && arena % 32 == 0
    ensures tooBig == 0 && tooAligned == 0 && oddAlign == 0
  {
    SmallPowersOfTwo();
    var pool := new MemoryPool();
    var rc := pool.Init(32, 4, 0, arena, 0);
    tooBig := pool.Alloc(64, 8);
    tooAligned := pool.Alloc(16, 64);
    oddAlign := pool.Alloc(16, 3);
    pool.Destroy();
  }

  /** test_null_and_invalid_free: freeing NULL or a pointer outside the arena leaves the free list alone. */
  method NullAndInvalidFree(arena: nat, stackAddr: nat) returns (p: nat)
    requires arena > 0 && arena % 32 == 0
    requires stackAddr < arena || arena + 32 * 4 <= stackAddr
    ensures p == arena
  {
    SmallPowersOfTwo();
    var pool := new MemoryPool();
    var rc := pool.Init(32, 4, 0, arena, 0);
    pool.Free(0);
    pool.Free(stackAddr);
    p := pool.Alloc(16, 8);
    pool.Destroy();
  }

  /**
   * test_internal_unlocked_free, as the test intends it: a block returned with
   * the unlocked free is handed out again. The test itself calls pool_alloc
   * while holding the pool's lock, and pool_alloc locks it again; the mutex is
   * not part of this model.
   */
  method InternalUnlockedFree(arena: nat) returns (p: nat, q: nat)
    requires arena > 0 && arena % 32 == 0
    ensures p == arena && q == p
  {
    SmallPowersOfTwo();
    var pool := new MemoryPool();
    var rc := pool.Init(32, 4, 0, arena, 0);
    p := pool.Alloc(16, 8);
    pool.FreeUnlocked(p);
    q := pool.Alloc(16, 8);
    pool.Free(q);
    pool.Destroy();
  }
}
