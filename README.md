# A verified model of a best-fit simulated heap

The Go package `memory` simulates a heap on one byte arena of `PoolSize`
(1 MiB) bytes. A `Memory` value holds three things:

- the arena;
- a list of free blocks, each a `{start, size}` record;
- a map from the start address of every live allocation to its length.

It offers these operations:

- `Alloc(size)` picks the smallest free block that fits (best fit) and carves
  the request off its front.
- `Malloc(size)` does the same and then zeroes the bytes.
- `Free(addr)` returns a region to the free list and runs
  `coalesceFreeBlock`. That step sorts the list by start address and merges
  every run of touching blocks.
- `Read(addr, n)` and `Write(addr, data)` copy bytes out of or into an
  allocated region, after checking that the region is large enough.

The model consists of three Dafny modules:

- `FreeList` (freelist.dfy) models the block record, the set of addresses a
  list of blocks covers, the best-fit scan, the carve step of `Alloc`, the
  sort, and one step of the merge pass.
- `Heap` (heap.dfy) models the allocation table, the tiling invariant, and
  the class `Memory`. The class has the arena as an `array<bv8>`, the free
  list as a `seq<Block>` and the table as a `map<int, int>`. It has one
  method per operation of the source.
- `Scenarios` (scenarios.dfy) holds client methods that run the call
  sequences of memory_test.go. Their postconditions are the outcomes those
  tests expect.

The class invariant `Memory.Valid` says that the free blocks and the
allocated regions together tile `[0, PoolSize)` exactly, with no gap and no
overlap. It also says that the free list is fully merged: every block has a
positive size, and each block ends strictly before the next one starts. So
the list is sorted by start address and no two free blocks touch. Each
operation is proved to keep this invariant.

Two consequences follow, and the model proves both:

- A fully merged free list is determined by the set of addresses it covers
  (`CoalescedUnique`). The order in which regions are released therefore
  cannot change the free list that results.
- Freeing the region an allocation has just returned gives back the
  original free list and table exactly (`FreeUndoesAlloc`).

## Model

| member | source | states |
|---|---|---|
| FreeList.ScanBestFit | memory.go:38-46 | After visiting the first k blocks, the scan holds -1 exactly when none of them fits. Otherwise it holds a fitting block that is no larger than any other fitting block, and strictly smaller than every fitting block before it, so ties go to the earliest entry. |
| FreeList.FindBestFit | memory.go:37-46 | The loop with its running best index and best size (sentinel PoolSize + 1) returns the best-fit index of the whole list. |
| FreeList.BestFit | memory.go:37-46 | The scan's pick over the whole list. It is -1 exactly when no block fits. Otherwise the block fits, is no larger than any other fitting block, and is strictly smaller than every fitting block before it. |
| FreeList.BestFitLowestAddress | memory.go:41-46 | On a list sorted by start, the block chosen among equally small fitting blocks has the lowest start address. |
| FreeList.Carve | memory.go:56-64 | If the chosen block is larger than the request, it now starts n bytes later and ends where it did, and every other block is unchanged. If it is exactly the request's size, it is removed and the blocks before and after it keep their order. |
| FreeList.CarveApart | memory.go:56-64 | Shrinking the chosen block from the front, or removing it when it is used up, keeps a fully merged free list fully merged. |
| FreeList.CarveCovered | memory.go:56-64 | The carved list covers exactly the old addresses minus `[start, start + n)`, and its total size drops by exactly n. |
| FreeList.CarveThenReleaseRestores | memory.go:56-64 | Any fully merged list that covers the carved addresses plus the carved range is the original list. |
| FreeList.CoalescedUnique | memory.go:111-125 | Two fully merged lists that cover the same addresses are equal, so the result of the merge does not depend on the order of release. |
| FreeList.AdjacentInOrder | memory.go:106-117 | In a sorted list of disjoint positive blocks, each block starts at or after the end of the block before it. |
| FreeList.Insert | memory.go:106-109 | Inserting a block into a list sorted by start gives a sorted list with the same blocks plus the new one. |
| FreeList.SortByStart | memory.go:106-109 | The sort returns a list sorted by start that is a permutation of its input. |
| FreeList.SortKeepsBlocks | memory.go:106-109 | Sorting keeps the covered addresses, the total size, disjointness and positive sizes. |
| FreeList.GrowStep | memory.go:117-119 | When the next block starts where the last merged block ends, growing that block keeps the merged output fully merged and covering exactly the blocks visited so far. |
| FreeList.AppendStep | memory.go:120-122 | When the next block does not touch the last merged block, appending it keeps the output fully merged and covering exactly the blocks visited so far. |
| Heap.AllocAddrsInsert | memory.go:54 | Recording a region at a start that is not yet a key adds exactly that region's addresses to the allocated set. |
| Heap.AllocAddrsRemove | memory.go:94 | Deleting the entry of one region from a table of non-overlapping regions removes exactly that region's addresses. |
| Heap.AllocEffect | memory.go:37-66 | Describes `Alloc` on the tables. It picks BestFit. If nothing fits, the result is OutOfMemory and both tables stay as they were. Otherwise the chosen block is carved and `start -> n` is recorded. Consequences: the result is a failure exactly when no block fits, and on success the returned start maps to n and the free list does not grow. |
| Heap.AllocOutcome | memory.go:33-67 | Alloc fails exactly when every free block is smaller than the request. On success the returned start was not allocated and now maps to the requested size. The region lies inside the arena, its bytes leave the free set, the free total drops by the request, and the arena stays tiled. |
| Heap.CarveKeepsTiling | memory.go:52-64 | Carving the request out of the chosen block and recording it keeps the free list and the table tiling the arena, and the chosen start was not a key before. |
| Heap.FreeStartUnused | memory.go:52-54 | Under the tiling invariant, the start of a free block is never a key of the allocation table. |
| Heap.CarveLoses | memory.go:56-64 | The carved list stays fully merged and gives up exactly the taken bytes, all of which it covered before. |
| Heap.RecordGains | memory.go:54 | Recording bytes that were free adds a region at an unused start that overlaps no other region, lies inside the arena and covers exactly those bytes. |
| Heap.RecordForgotten | memory.go:94 | Deleting an entry that was just recorded at an unused start gives back the table. |
| Heap.ReleaseAppends | memory.go:94-95 | Appending the released region to the free list keeps the blocks disjoint and positive, adds exactly its addresses, and adds its size to the total. |
| Heap.ReleaseKeepsTiling | memory.go:94-96 | Once the released bytes are merged into a fully merged list, that list and the table without the entry tile the arena. |
| Heap.FreeUndoesAlloc | memory.go:85-98 | After a successful Alloc, freeing the returned address gives back the old free list and the old table exactly. |
| Heap.Memory.constructor | memory.go:24-30 | A new heap has an arena of PoolSize zero bytes, one free block `{0, PoolSize}` and an empty table, and satisfies the invariant. |
| Heap.Memory.Alloc | memory.go:33-67 | Failure(OutOfMemory) with no change when nothing fits. Otherwise the best-fit block is carved and `start -> size` is recorded. The arena bytes are untouched and the invariant is kept. |
| Heap.Memory.Malloc | memory.go:70-82 | Same result and table effect as Alloc. On failure no byte changes. On success exactly the bytes of the new region become zero and every other byte keeps its value. |
| Heap.Memory.ZeroFill | memory.go:76-79 | The zeroing loop clears `[addr, addr + size)` and leaves every other byte as it was. |
| Heap.Memory.Free | memory.go:85-98 | An address that is not a key gives Fail(InvalidFree) and changes nothing. Otherwise the entry is deleted and the region's addresses rejoin the free set. The free total grows by its size, the arena is untouched, and the invariant (fully merged list, tiling) holds afterwards. |
| Heap.Memory.CoalesceFreeBlocks | memory.go:101-126 | From any disjoint list of positive blocks, produces a fully merged list with the same covered addresses and the same total size. With one block or none it changes nothing. |
| Heap.Memory.MergeRuns | memory.go:111-125 | The merge loop over a sorted disjoint list yields a fully merged list with the same covered addresses and total size. |
| Heap.Memory.Read | memory.go:128-144 | Failure(UnallocatedAccess) for an address that is not a key. Failure(OutOfBoundsAccess) when the size exceeds the region. Otherwise exactly the arena bytes `[addr, addr + size)`. It changes no state. |
| Heap.Memory.Write | memory.go:146-161 | The same two failures, judged on the length of the data, and then nothing changes. On success the bytes `[addr, addr + len)` hold the data, all other bytes keep their value, and both tables are unchanged. |
| Scenarios.FirstAlloc | memory_test.go:19-25 | On a fresh heap, Alloc(100) returns address 0 and leaves `{100, PoolSize - 100}` free. |
| Scenarios.SecondAlloc | memory_test.go:27-34 | Alloc(PoolSize + 1) fails with OutOfMemory, and the next Alloc(50) returns 100. |
| Scenarios.AllocScenario | memory_test.go:33-40 | After freeing address 0, Alloc(75) returns the 100-byte hole at 0, which differs from the address the second allocation returned. |
| Scenarios.MallocScenario | memory_test.go:43-62 | Malloc(100) on a fresh heap succeeds, and reading its 100 bytes back gives zeros. |
| Scenarios.FreeScenario | memory_test.go:64-85 | The first free succeeds, and freeing the same address again fails with InvalidFree, as does freeing PoolSize + 1. Afterwards the heap is one free block `{0, PoolSize}` with an empty table, as the first free left it. |
| Scenarios.TwoAdjacent | memory_test.go:87-92 | Two 100-byte allocations land at 0 and 100. |
| Scenarios.ThreeAdjacent | memory_test.go:87-93 | Three 100-byte allocations land at 0, 100 and 200, leaving the tail from 300 free. |
| Scenarios.FreeMiddle | memory_test.go:95-96 | Freeing the middle region succeeds and frees `[100, 200)`. |
| Scenarios.FreeMiddleThenFirst | memory_test.go:95-97 | Then freeing the first region succeeds and frees `[0, 100)`. |
| Scenarios.CoalesceScenario | memory_test.go:87-107 | Freeing the three regions in the order middle, first, last leaves exactly one free block `{0, PoolSize}` and an empty table. |
| Scenarios.WriteThenRead | memory_test.go:113-131 | Writing data that fits into an allocated region and reading the same length back returns the data. |
| Scenarios.ReadWriteScenario | memory_test.go:110-143 | "Hello, World!" written at a fresh 100-byte region reads back unchanged. Writing 101 bytes or reading 101 bytes there fails with OutOfBoundsAccess. |
| Scenarios.AllocThenFree | memory.go:33-98 | An Alloc followed, on success, by a Free of the returned address leaves the free list and the table as they were. |

## Left out

- Locking: the `sync.RWMutex` in every method is not modelled. Each operation is one atomic step, and the concurrent test (memory_test.go:145-164) is not modelled either.
- Malloc's zeroing outside the lock: the source zeroes the bytes after `Alloc` has released the lock, so another goroutine could touch them in between. The model runs `Alloc` and the zeroing as one sequential step.
- The library sort: `sort.Slice` is replaced by a verified insertion sort, `SortByStart`. `sort.Slice` is not stable, but the starts of free blocks are pairwise distinct, so every correct sort gives the same order.
- Error strings: each error is a constructor of `Error`. Both the read and the write messages for an unallocated address map to `UnallocatedAccess`, and both "beyond allocated memory" messages map to `OutOfBoundsAccess`. The `-1` that `Alloc` and `Malloc` return beside an error is folded into `Failure`.
- Heap.Memory.Alloc: requires `size > 0`. The source does not reject zero or negative sizes. It would record a region of that length and break the tiling of the arena, so a positive size is a caller obligation in the model.
- Heap.Memory.Malloc: requires `size > 0`, for the same reason as Alloc.
- Heap.Memory.Read: requires `size >= 0`. In Go a negative size makes the result buffer allocation panic.
- The class invariant: every method requires `Valid()`. The constructor establishes it and every method keeps it. So a `Memory` reachable through the public operations always satisfies it.
- Integer width: Go's `int` is modelled by unbounded integers. The arena is 1 MiB, and every address and length the operations store is bounded by it, so no overflow can happen on the modelled paths.
- The demo program main.go is not part of this model. It only prints results and exits.
