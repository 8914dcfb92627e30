# Fixed-size-block memory pool, modelled in Dafny

This project models the allocator in `pool.c`. A `MemoryPool` owns one arena of
`chunk_size * block_count` bytes, aligned to `chunk_size` and cut into equal blocks.
The unused blocks form an intrusive LIFO free list: the first word of each free
block holds the address of the next free block, or NULL.

- `pool_init` checks the geometry and builds the arena and the initial list.
- `pool_alloc` checks the request and pops the head block.
- `pool_free` and `pool_free_unlocked` check that the pointer is a block of the pool, then push it on the head.
- `pool_internal_contains` is that membership test.
- `pool_destroy` clears the pool.

Files:

- `arith.dfy` (module `Arith`): facts about `*`, `/` and `%` on naturals, used by the address arithmetic.
- `bits.dfy` (module `Bits`): `is_power_of_two`, written as the C expression `x && !(x & (x - 1))`. C's `&` is defined on naturals bit by bit. The module proves that the test accepts exactly the numbers with one bit set.
- `freelists.dfy` (module `FreeLists`): the free list seen as values. A sequence of block indices is the chain of links from the head to NULL.
- `pool.dfy` (module `Pool`): the class `MemoryPool` with the fields of `struct MemoryPool`.
  - `buf` is the arena's address. Address 0 stands for NULL.
  - `freeList` is the head block's index, or `Null` (-1).
  - `chunkSize`, `blockCount` and `initialized` are as in the struct.
  - `links` is the first word of each block, holding the next block's index.
  - The ghost sequence `FreeBlocks` is the free list read from the head.
  - Block `i` lives at address `buf + chunkSize * i`.
  - `Valid()` is the pool's invariant: a ready pool has a chunk-aligned arena, and its free list is a chain of distinct blocks ending in NULL.
- `scenarios.dfy` (module `Scenarios`): the scenarios of `test_pool.c` as verified client methods. It also holds two general consequences: exactly `block_count` allocations succeed after `pool_init`, and a freed block is the next one allocated.

Where the code and its documentation disagree, the model follows the code:

- When `pthread_mutex_init` fails (pool.c:53-57), `pool_init` has already stored `buf`, `free_list`, `chunk_size` and `block_count`. It then only frees the arena and clears `initialized`. So this failure does leave the struct changed. `Init`'s contract states that.
- The comment at pool_internal.h:23-35 is attached to `pool_free` and says no boundary check is made. Both `pool_free` and `pool_free_unlocked` do run `pool_internal_contains` (pool.c:26, 99). `Free` and `FreeUnlocked` model those checks.

## Model

| member | source | states |
|---|---|---|
| `Bits.BitAnd` | pool.c:9 | C's `&` on unsigned values: the result is at most either operand |
| `Bits.BitAndIsBitwise` | pool.c:9 | bit `k` of `a & b` is set exactly when bit `k` is set in both `a` and `b` |
| `Bits.PowerOfTwoIsSingleBit` | pool.c:8-10 | the C expression `x && !(x & (x - 1))` holds exactly when `x` has one bit set; in particular 0 is rejected |
| `Bits.IsPowerOfTwo` | pool.c:8-10 | `is_power_of_two(x)` holds iff the number of one bits of `x` is exactly 1 |
| `Bits.PowerOfTwoHalf` | pool.c:8-10 | a power of two above 1 is even, and half of it is again a power of two |
| `Bits.PowerOfTwoDivides` | pool.c:80 | of two powers of two, the larger is a multiple of the smaller; so an `align <= chunk_size` divides the chunk size |
| `Pool.SlotMembership` | pool.c:14-21 | the offset tests (`p >= base`, `offset < chunk_size * block_count`, `offset % chunk_size == 0`) accept exactly the addresses `base + chunk_size * i` with `i < block_count` |
| `Pool.SlotAligned` | pool.c:37-42 | in an arena aligned to a power-of-two chunk size, every block address is aligned to every power of two up to the chunk size |
| `Pool.MemoryPool.Contains` | pool.c:12-22 | returns true iff the pool is initialized and `ptr` is the start of one of its `block_count` blocks; NULL, pointers before the arena, past its end, or inside a block are rejected |
| `Pool.MemoryPool.BlockIndex` | pool.c:17-20 | a member pointer designates a block `i < block_count` whose address is that pointer |
| `Pool.MemoryPool.BlockRoundTrip` | pool.c:42 | every block address passes `contains` and maps back to its own block |
| `Pool.MemoryPool.FreeListBounded` | pool.c:24-30 | while no block is freed twice, the free list holds at most `block_count` blocks |
| `Pool.MemoryPool.constructor` | pool_internal.h:14-21 | the start state the model assumes, a zeroed struct: uninitialized, every field 0 or NULL, empty free list (a C stack struct is not zeroed; see "Left out") |
| `Pool.MemoryPool.Init` | pool.c:32-60 | returns -1 and changes nothing when `block_count == 0`, `chunk_size < sizeof(void*)`, `chunk_size` is not a power of two, or the arena allocation fails. On success: fields set, head is block 0, block `i` links to `i + 1`, the last links to NULL, the free list is every block in order. A failed mutex init leaves the fields set but `initialized` false |
| `Pool.MemoryPool.Destroy` | pool.c:62-75 | a no-op on an uninitialized pool; otherwise zeroes `buf`, `free_list`, `chunk_size`, `block_count` and `initialized` |
| `Pool.MemoryPool.AllocRejected` | pool.c:78-80 | the request checks of `pool_alloc`; a request that passes them comes to an initialized pool, has `0 < size <= chunk_size`, an alignment with exactly one bit set, and (for a power-of-two chunk size) an alignment that divides `chunk_size` |
| `Pool.MemoryPool.Alloc` | pool.c:77-93 | returns NULL and changes nothing when uninitialized, `size == 0`, `size > chunk_size`, `align` is not a power of two or exceeds `chunk_size`, or the list is empty. Otherwise it returns the head block's address and makes the head's stored link the new head; nothing else changes. A returned block is a member, aligned to `align`, and no longer on the free list |
| `Pool.MemoryPool.NotFreed` | pool_internal.h:29 | the caller's obligation that `ptr` came from `pool_alloc` and was not freed since: holds iff `ptr` is not the address of any block on the free list |
| `Pool.MemoryPool.FreeUnlocked` | pool.c:24-30 | NULL, an uninitialized pool or a non-member pointer leave everything unchanged. A member block gets the old head as its link and becomes the head; no other link changes |
| `Pool.MemoryPool.Free` | pool.c:95-106 | the same checks before the push, with the same outcome as `pool_free_unlocked` |
| `FreeLists.ChainUnique` | pool_internal.h:16 | the link words determine the free list: two chains from the same head through the same links are equal |
| `FreeLists.InitialLinks` | pool.c:41-45 | the links written by `pool_init`'s loop: one per block, and read from block 0 they list every block once, in address order, ending in NULL |
| `Scenarios.Exhaustion` | test_pool.c:32-41 | after a successful `pool_init`, exactly `block_count` allocations succeed, at addresses `buf + chunk_size * k` in order, and the next one returns NULL |
| `Scenarios.ReuseAfterFree` | pool.c:88-104 | freeing a member block and then allocating returns that same block and restores the free list (LIFO reuse) |
| `Scenarios.BasicAllocFree` | test_pool.c:19-30 | `init(32, 4)`, `alloc(16, 8)` returns the arena's first block, free, destroy; an `alloc` after destroy returns NULL |
| `Scenarios.ExhaustionAndReuse` | test_pool.c:32-51 | `init(32, 2)`: two allocations succeed, the third returns NULL, and the block freed next is handed out again |
| `Scenarios.AlignmentAndSize` | test_pool.c:53-68 | `alloc(64, 8)`, `alloc(16, 64)` and `alloc(16, 3)` on a 32-byte pool all return NULL |
| `Scenarios.NullAndInvalidFree` | test_pool.c:70-81 | freeing NULL and a pointer outside the arena leaves the free list untouched: the next allocation still returns the first block |
| `Scenarios.InternalUnlockedFree` | test_pool.c:83-101 | what the test intends: a block returned with `pool_free_unlocked` is the next one `pool_alloc` hands out. As written the test cannot get there; see the mutex lines under "Left out" |

## Left out

- The pthread mutex (pool.c:53, 65-74, 82-105) is left out. Each operation is one atomic step, and the lock-holding precondition of `pool_free_unlocked` has no counterpart.
- Because the mutex is left out, the model cannot show that `pool_alloc` always takes the lock itself (pool.c:82). So `pool_free_unlocked`, meant to be composed with other operations under a held lock, cannot be composed with `pool_alloc`. test_pool.c:91-94 holds `pool.lock` and then calls `pool_alloc`, which locks the same default mutex (created at pool.c:53) again. That is undefined behaviour and deadlocks on glibc, so the test never reaches line 95. `Scenarios.InternalUnlockedFree` proves the outcome the test intends, with the re-lock left out.
- `posix_memalign` and `free` of the arena (pool.c:37-38, 54, 66) are foreign calls. `Init` takes the return code and pointer of `posix_memalign`, and the return code of `pthread_mutex_init`, as parameters. It requires only what `posix_memalign` promises: on success the pointer is aligned to `chunk_size`.
- The release of the arena is not modelled. After `Destroy` the old link words stay in `links`, but no operation reaches them, because every operation checks `initialized` first.
- The checks `pool == NULL` are left out: a Dafny object reference is never null.
- `sizeof(void*)` is the constant 8 (`PointerSize`). Pointers are natural numbers, and casts between pointers and integers are not modelled.
- Integers are unbounded. The `size_t` product `chunk_size * block_count` (pool.c:18, 36) is not checked for overflow by the code. Its 64-bit wrap-around is not modelled.
- Caller data in allocated blocks is not modelled, only the link word of each block.
- The model starts from a zeroed struct (the constructor). In C, `MemoryPool pool;` on the stack (test_pool.c:20, 33, 54, 71, 84) is uninitialized. Calling `pool_alloc`, `pool_free` or `pool_destroy` on it before `pool_init` reads an indeterminate `initialized`. That undefined behaviour is not modelled.
- `pool_init` on an already-initialized pool overwrites the struct and leaks the old arena. The model replaces the fields; the leak is not represented.
- The test harness (`run_test`, `main`, `printf`, `memset` in test_pool.c) is left out. Its scenarios appear as client methods.
- Pool.MemoryPool.FreeUnlocked: requires `NotFreed(ptr)`, which says a member block is not already on the free list. This is the caller's obligation ("previously obtained from pool_alloc", pool_internal.h:29). The code does not check it. A double free of a member block would make the list cyclic, and that corruption is not modelled.
- Pool.MemoryPool.Free: the same `NotFreed(ptr)` precondition as `FreeUnlocked`, for the same reason.
