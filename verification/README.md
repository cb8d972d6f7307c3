# Fixed-pool memory manager, modelled in Dafny

The repository holds two versions of a small memory allocator. Both work inside a memory region that the caller supplies. Every block in the region starts with a header `{ next, size }` of `H = ALIGN(sizeof(block_t)) = 16` bytes, with the payload right after it. Sizes are rounded up to multiples of 8, so bit 0 of the `size` word is free; it carries the in-use flag.

- **Newer allocator** (`memmgr/memmgr.c`).
  - It keeps three address-sorted singly-linked lists:
    - `heap`: space not yet handed out;
    - `free_list`: blocks released by `MemFree`, waiting to be coalesced;
    - `alloc_list`: live allocations.
  - `MemAlloc` does a first-fit search of the heap. It splits a block only when the remainder would hold more than a bare header.
  - When the heap runs short, `FindFit` coalesces the free list (it merges physically contiguous neighbours) and moves the block the pass picks into the heap.
- **Older allocator** (`memmgr.c`).
  - It has a single free list, with the same first-fit test and a smaller split threshold.
  - `Mem_free` pushes the released block on the head of the list: last in, first out, with no sorting and no merging.
  - `main.cpp` drives this version.

The model:

- **Blocks.** Each header is a `Header.Block(addr, size, inUse)`. `size` is the masked payload size. `Header.Word` rebuilds the raw word the C code reads. Code paths that compare raw words (the fit test, the merge test, the total sums) compare `Word`.
- **Lists.** Each list is a `seq<Block>`; the `next` links are the order of the sequence.
- **State.** The globals of each C file are fields of a record (`Memmgr.Pool`, `Legacy.LegacyPool`). Each operation is a pure function from the old record to the new one.
- **Pool invariant.** `Memmgr.Valid` and `Legacy.Valid` say three things:
  - the lists carry the right flags, and in `Memmgr.Valid` they are also strictly sorted by address (`Legacy.Valid` has no order requirement, because `Mem_free` pushes on the head);
  - the blocks of all lists occupy disjoint ranges inside the pool, with sizes that are multiples of 8 (`Layout.Placed`);
  - their footprints (`size + H`) add up to `pool_size`.
- **Older allocator's `live` list.** The older C file keeps no list of handed-out blocks: their headers exist only in pool memory. `Legacy.LegacyPool.live` records them in allocation order, so that `Mem_free` can read a header back and the footprint balance can be stated. No C statement corresponds to it.

Modules:

| module | file | contents |
|---|---|---|
| `Header` | header.dfy | alignment, header codec, footprint geometry |
| `BlockList` | blocklist.dfy | sorted-list insertion and removal, footprint sums |
| `Fit` | fit.dfy | first-fit test and split, shared by both versions |
| `Layout` | layout.dfy | disjointness of the blocks inside the pool |
| `Coalesce` | coalesce.dfy | merging and the coalescing pass |
| `Memmgr` | memmgr.dfy | newer allocator: operations |
| `MemmgrProofs` | memmgr_proofs.dfy | newer allocator: properties |
| `Legacy` | legacy.dfy | older allocator: operations |
| `LegacyProofs` | legacy_proofs.dfy | older allocator: properties |
| `Driver` | driver.dfy | the allocation scenarios of `main.cpp` |

## Model

| member | source | states |
|---|---|---|
| Header.Align | memmgr/memmgr.c:10-11 | ALIGN(n) is a multiple of 8 and the least one that is at least n, so bit 0 of an aligned size is free for the flag |
| Header.AlignWord | memmgr/memmgr.c:10-11 | ALIGN on a 64-bit size_t is a multiple of 8 below 2^64, and agrees with the unbounded ALIGN whenever n + 7 does not wrap |
| Header.AlignWordWraps | memmgr/memmgr.c:10-11 | for the seven largest size_t values ALIGN wraps to 0, below the request |
| Header.Decode | memmgr/memmgr.c:44 | a header written with a raw word reads back as an even masked size and a flag that rebuild the same word |
| Header.Mark | memmgr/memmgr.c:157 | `size \|= 1` sets the flag and leaves every other bit of the word and the masked size as they were |
| Header.Unmark | memmgr/memmgr.c:178 | `size &= ~1` clears the flag and leaves every other bit and the masked size as they were |
| Header.HeaderAddr | memmgr/memmgr.c:175 | mem - H is the header address of exactly those blocks whose payload address (block + H, line 103) is mem |
| Fit.Fits | memmgr/memmgr.c:137 | the raw-word test of both FindFit loops (also memmgr.c:86): a fitting block's word is at least the request; a word equal to the request or at least a header above it fits; a word strictly between the request and request + H is passed over |
| Fit.MinBlockSizeWord | memmgr/memmgr.c:15 | MIN_BLOCK_SIZE on a 64-bit size_t (also memmgr.c:15): req + H when that fits, and otherwise wrapped below one header |
| Fit.FitsWord | memmgr/memmgr.c:137 | the fit test as written, with the wrapped bound (also memmgr.c:86); it agrees with `Fit.Fits` whenever req + H does not wrap |
| Fit.FitsWordWraps | memmgr/memmgr.c:137 | for a request within one header of 2^64, the test as written accepts blocks smaller than the request, which `Fit.Fits` rejects |
| Fit.FirstFit | memmgr/memmgr.c:135-141 | first fit: the result is the first position whose raw word equals the request or holds the request plus one header, and None means no block of the list qualifies |
| Fit.SplitAt | memmgr/memmgr.c:147-155 | the handed-out part keeps the address, exactly the request and the flag; the remainder header sits right after it with the flag clear, and for aligned free blocks ends where the old block ended with the combined footprint unchanged |
| BlockList.IndexOf | memmgr/memmgr.c:207-215 | the position found is the first whose address matches |
| BlockList.RemoveFromList | memmgr/memmgr.c:190-218 | a present address gives return code 1 and one element fewer; an absent address gives 0 and the list unchanged |
| BlockList.RemoveAt | memmgr.c:130-154 | the older RemoveFromList, whose unlinking memmgr/memmgr.c:190-218 repeats: unlinking a block whose address no earlier node shares removes exactly that node, at the head or after the node whose next it is, and keeps the others in order |
| BlockList.RemoveIndexOf | memmgr/memmgr.c:190-218 | removing a present address deletes exactly its first occurrence and returns 1 |
| BlockList.RemoveKeepsSorted | memmgr/memmgr.c:190-218 | removal keeps a sorted list sorted, takes exactly the removed block out of the multiset, and leaves no block at that address |
| BlockList.UniqueDelete | memmgr.c:130-154 | on a list with distinct addresses, unlinking one node leaves no node at its address |
| BlockList.RemoveMember | memmgr/memmgr.c:190-218 | removing a member of a sorted list succeeds and leaves the list sorted, minus exactly that block |
| BlockList.InsertToList | memmgr/memmgr.c:226-266 | on a sorted list: return code 1 exactly when the address was absent, and then the result holds the old blocks plus the new one; 0 leaves the list unchanged; the result stays sorted |
| BlockList.InsertAfter | memmgr/memmgr.c:255-265 | the scan that follows the head: it never places a block before the head, inserts exactly when the address is absent, and keeps the list sorted |
| BlockList.InsertHere | memmgr/memmgr.c:257-261 | linking a block between two neighbours it falls between adds exactly that block and keeps the order strict |
| BlockList.SortedEqual | memmgr/memmgr.c:226-266 | two sorted lists with the same blocks are the same list, so a sorted list is fixed by its contents |
| BlockList.SumConcat | memmgr/memmgr.c:379-387 | the footprint sum over two lists joined is the sum of their sums |
| BlockList.SumPermutation | memmgr/memmgr.c:379-387 | the footprint sum does not depend on the order of the list |
| BlockList.SumDelete | memmgr/memmgr.c:379-387 | taking one block out of a list lowers the footprint sum by exactly that block's footprint |
| BlockList.RawSumFlags | memmgr/memmgr.c:362-365 | the raw-word sum equals the masked sum on a flag-clear list and exceeds it by one per block on a flag-set list |
| Coalesce.MergeBlocks | memmgr/memmgr.c:301-310 | merging happens exactly when b2's header follows b1's payload; the merged block keeps b1's address, stays free, ends where b2 ended, and its footprint is the two footprints together |
| Coalesce.Absorb | memmgr/memmgr.c:285 | repeated merging keeps the head address, only consumes list nodes, and stops at a non-contiguous neighbour |
| Coalesce.AbsorbSum | memmgr/memmgr.c:285 | repeated merging of free blocks keeps the footprint total |
| Coalesce.MemCoalesceBlocks | memmgr/memmgr.c:274-293 | the pass returns NULL exactly for an empty list, never lengthens the list, and keeps its head address |
| Coalesce.CoalesceBest | memmgr/memmgr.c:274-293 | the returned block is a node of the coalesced list and is at least as large as every node except the last; no two neighbours are contiguous afterwards |
| Coalesce.CoalesceSorted | memmgr/memmgr.c:274-293 | coalescing keeps an address-sorted list sorted |
| Coalesce.CoalesceIdle | memmgr/memmgr.c:274-293 | a list without contiguous neighbours is left unchanged |
| Coalesce.CoalesceTwice | memmgr/memmgr.c:274-293 | a second coalescing pass changes nothing |
| Coalesce.CoalesceTail | memmgr/memmgr.c:279-290 | the loop from the second node: it always yields a block, never lengthens the list, and keeps the address of the node it starts at |
| Coalesce.LastNodeNotCompared | memmgr/memmgr.c:279-290 | an example: with two apart blocks of 16 and 64 bytes, the pass returns the 16-byte head although the last node is larger |
| Coalesce.TailSkipsLast | memmgr/memmgr.c:279-290 | on a list with no contiguous neighbours, the loop's result is its starting best or one of the nodes before the last |
| Coalesce.LastUncompared | memmgr/memmgr.c:274-293 | a last node that merged nothing is never compared: on two or more nodes without contiguous neighbours, the pass returns one of the nodes before the last, whatever the last node's size |
| Coalesce.CoalesceKeeps | memmgr/memmgr.c:274-310 | coalescing a flag-clear list inside the pool keeps the flags clear, the blocks disjoint and inside the pool, and the footprint total |
| Memmgr.MemInitPool | memmgr/memmgr.c:41-48 | returns size; base becomes mem and pool_size becomes size; the heap is exactly one block at mem whose header word is size - H, with footprint size (size - 1 for an odd size, whose bit 0 reads as the flag); the free and alloc lists are not touched; from empty lists and an aligned size the pool is valid |
| MemmgrProofs.InitThenCheck | memmgr/memmgr.c:41-67 | a pool just initialised from empty lists with an aligned size passes the MEM_DEBUG check of MemDeInitPool |
| Memmgr.MemDeInitPool | memmgr/memmgr.c:69-72 | returns 0 and leaves every list empty |
| Memmgr.Refill | memmgr/memmgr.c:124-133 | the heap is refilled only when it is empty or its head is below the request; otherwise nothing changes |
| Memmgr.Reclaim | memmgr/memmgr.c:127-132 | an empty free list leaves the pool unchanged, and the allocation list is never touched |
| Memmgr.Carve | memmgr/memmgr.c:147-157 | a block is split exactly when its word exceeds the request plus two headers, and the handed-out part keeps the block's address and gets the flag |
| Memmgr.SplitsWord | memmgr/memmgr.c:147 | the split test as written, `MIN_BLOCK_SIZE(size) + BLOCK_HEADER_SIZE` with size_t wrap; it agrees with `Memmgr.Carve`'s split whenever req + 2H does not wrap |
| Memmgr.SplitsWordWraps | memmgr/memmgr.c:147 | for a request within two headers of 2^64, the test as written splits blocks smaller than the request, which Carve hands out whole |
| Memmgr.FindFit | memmgr/memmgr.c:118-163 | FindFit does not touch the alloc list, and the block it returns has the flag set |
| Memmgr.MemAlloc | memmgr/memmgr.c:80-109 | a returned pointer lies past a header; on NULL the alloc list is unchanged |
| Memmgr.MemFree | memmgr/memmgr.c:169-182 | MemFree never touches the heap |
| MemmgrProofs.ReclaimMoves | memmgr/memmgr.c:127-132 | on a non-empty free list the pass yields a block, and exactly that block moves: the heap gains it and the free list is the coalesced list without it |
| MemmgrProofs.ReclaimValid | memmgr/memmgr.c:124-133 | the refill from the coalesced free list keeps the pool invariant, including the footprint total |
| MemmgrProofs.CarvePieces | memmgr/memmgr.c:147-157 | carving gives disjoint pieces inside the old block, at least the request handed out, a flag-clear remainder, and the same footprint in total |
| MemmgrProofs.MemAllocValid | memmgr/memmgr.c:80-163 | MemAlloc keeps the pool invariant, and a success adds one block to the alloc list |
| MemmgrProofs.MemAllocBlock | memmgr/memmgr.c:80-163 | a returned pointer's header is on the alloc list and was not before; the block holds at least the request, lies inside the pool and overlaps no live block |
| MemmgrProofs.MemAllocAdds | memmgr/memmgr.c:100-104 | a success adds exactly the returned block to the alloc list |
| MemmgrProofs.AllocTakes | memmgr/memmgr.c:135-159 | a success removes the first fitting heap block, leaves its remainder in its place, and hands out its carved part at block + H |
| MemmgrProofs.AllocNone | memmgr/memmgr.c:85-93 | when no heap block fits after the refill, MemAlloc returns NULL and allocates nothing |
| MemmgrProofs.WrappedRequestRefused | memmgr/memmgr.c:80-159 | a request of 2^64 - 16 on a heap of one 16-byte block: ALIGN keeps it, the model returns NULL, and the test as written accepts the block without splitting it |
| MemmgrProofs.MemAllocSucceeds | memmgr/memmgr.c:124-141 | if a heap block fits the aligned request, MemAlloc does not return NULL |
| MemmgrProofs.RefillKeepsHeap | memmgr/memmgr.c:124-133 | a refill only adds to the heap |
| MemmgrProofs.MemFreeValid | memmgr/memmgr.c:169-182 | MemFree keeps the pool invariant, moves one block from the alloc list to the free list, and leaves no allocated block at that header |
| MemmgrProofs.FreeLists | memmgr/memmgr.c:175-180 | MemFree takes exactly the header at mem - H off the alloc list and adds it, flag cleared and size unchanged, to the free list |
| MemmgrProofs.AllocFreeRoundTrip | memmgr/memmgr.c:80-182 | freeing the pointer MemAlloc just returned gives back the old alloc list and the old free and alloc totals |
| MemmgrProofs.MemTotals | memmgr/memmgr.c:357-393 | free total plus live footprints is the pool size; the alloc total over-counts the live footprints by one per live block |
| Memmgr.MemGetTotalMemAlloc | memmgr/memmgr.c:357-368 | the raw-word sum over the alloc list; on a flag-set list it is the footprint sum plus one per block |
| Memmgr.MemGetTotalMemFree | memmgr/memmgr.c:374-393 | the raw-word sum over the free list and the heap; on flag-clear lists it is their footprint sum |
| Memmgr.MemGetTotalFreeCount | memmgr/memmgr.c:399-410 | the count is 0 exactly when the free list is empty, and each counted block holds at least a header of footprint |
| Memmgr.MemGetTotalAllocCount | memmgr/memmgr.c:416-427 | the count is 0 exactly when the alloc list is empty, and each counted block holds at least a header of footprint |
| Memmgr.Drain | memmgr/memmgr.c:61-66 | the drain loop keeps every heap block and yields at most the heap's and the free list's blocks |
| Memmgr.DeInitCheck | memmgr/memmgr.c:55-67 | with an empty free list the check holds exactly when the heap's raw total is the pool size |
| MemmgrProofs.DrainKeeps | memmgr/memmgr.c:61-66 | draining the free list into the heap moves exactly its blocks and keeps them flag-clear |
| MemmgrProofs.DeInitCheckIff | memmgr/memmgr.c:55-67 | the check in MemDeInitPool holds exactly when nothing is allocated |
| Legacy.InitMemPool | memmgr.c:42-49 | returns size; the free list is one block at mem; its free total is the whole pool |
| Legacy.Pieces | memmgr.c:92-114 | a block is split exactly when its word exceeds the request plus one header, and the handed-out part keeps the block's address |
| Legacy.SplitsWord | memmgr.c:94 | the split test as written, with the wrapped MIN_BLOCK_SIZE; it agrees with `Legacy.Pieces`'s split whenever req + H does not wrap |
| Legacy.SplitsWordWraps | memmgr.c:94 | for a request within one header of 2^64, the test as written splits blocks smaller than the request, which Pieces hands out whole |
| Legacy.FindFit | memmgr.c:79-119 | NULL exactly when no free block qualifies, and then the free list is unchanged |
| Legacy.MemMalloc | memmgr.c:57-77 | NULL exactly when no free block fits the aligned request, leaving the pool as it was; otherwise the returned pointer is the new block's header + H |
| Legacy.MemFree | memmgr.c:121-128 | the handed-out block whose header is at mem - H is pushed, flag cleared and size unchanged, on the head of the free list, the old list follows it unchanged, and the handed-out list loses exactly that block |
| Legacy.CheckPool | memmgr.c:168-179 | the total CheckPool prints: the raw-word sum over the free list, which on a flag-clear list is its footprint sum |
| LegacyProofs.InitValid | memmgr.c:42-49 | an aligned pool starts valid |
| LegacyProofs.PiecesFacts | memmgr.c:92-114 | a split gives exactly the marked request and a flag-clear remainder of old - request - H at block + H + request; an unsplit block is handed out with size and flag untouched; the footprint is unchanged |
| LegacyProofs.FindFitShape | memmgr.c:79-119 | FindFit replaces the first fitting block by its remainder in place and returns its first part |
| LegacyProofs.MallocValid | memmgr.c:57-119 | Mem_malloc keeps the pool invariant |
| LegacyProofs.MallocBlock | memmgr.c:57-119 | a handed-out block holds at least the request, lies inside the pool, and overlaps no other handed-out block |
| LegacyProofs.FreeValid | memmgr.c:121-128 | Mem_free keeps the pool invariant, and the freed header is no longer handed out |
| LegacyProofs.CheckPoolBalance | memmgr.c:168-179 | the free total plus the handed-out footprints is the pool size, and the free total equals the pool size exactly when nothing is handed out |
| LegacyProofs.RoundTrip | memmgr.c:57-128 | freeing the pointer Mem_malloc just returned gives back the handed-out list and the free total |
| LegacyProofs.WrappedRequestRefused | memmgr.c:57-116 | a request of 2^64 - 8 on a free list of one 8-byte block: ALIGN keeps it, the model returns NULL, and the test as written accepts the block without splitting it |
| LegacyProofs.ReuseAfterFree | memmgr.c:79-128 | after Mem_free, a request of the freed block's size gets the same pointer back and restores the free list |
| LegacyProofs.ExactFitFlagClear | memmgr.c:92-115 | an example: in a 1024-byte pool a 1008-byte request takes the single block whole, with its flag still clear; `LegacyProofs.PiecesFacts` states the general case |
| Driver.CostBound | main.cpp:50-67 | a batch of requests of at most m bytes needs at most m + 8 + H bytes each |
| Driver.MallocRoom | memmgr.c:84-114 | a free block with room for the request and a header makes Mem_malloc succeed and leaves room smaller by the footprint taken |
| Driver.AllocAll | main.cpp:20-25 | a batch whose total cost fits in a free block all succeeds and keeps the pool valid |
| Driver.FreeAll | main.cpp:28-32 | freeing every pointer of a batch keeps the pool valid and empties the handed-out list |
| Driver.MainScenario | main.cpp:17-75 | five 1024-byte requests, five more after freeing them, 64 down to 1 bytes, and 100 requests of 1 to 100 bytes all succeed, and the final free total is the whole pool |

## Left out

- Tracing output is not modelled: `printf`, `MEM_DEBUG` tracing, `MemPrintStatus` and `PrintStatus`.
- The `MEM_DEBUG` asserts on `head` and `block` (memmgr/memmgr.c:193-194, 229-230, 172) are not modelled as aborts. Lists hold no NULL entries, and callers pass live blocks.
- The assert at memmgr/memmgr.c:181 is dropped. It dereferences `heap`, which can be NULL, and states nothing about the lists.
- The assert at memmgr/memmgr.c:282 is not modelled as an abort. The lemmas about coalescing require flag-clear lists instead.
- MemDeInitPool's pointer resets are modelled only as emptying the three lists. Its MEM_DEBUG drain and check is the separate `Memmgr.DeInitCheck`.
- The unused `mem_header_t` and the stub `DeInitMemPool` of memmgr.c are not modelled.
- Integer width is unbounded. `size_t` wrap-around of the totals is not modelled, because the totals never exceed the pool size plus one per block, far below 2^64. ALIGN's own wrap is handled in Findings.
- Memmgr.MemInitPool: `size - BLOCK_HEADER_SIZE` wraps for a pool smaller than 16 bytes; the model excludes such pools with `requires size >= H` instead of modelling the wrapped header. Legacy.InitMemPool does the same.
- Memmgr.MemInitPool: the `int` return value truncates a size of 2^31 or more; the model returns the full size. Legacy.InitMemPool likewise.
- Payload bytes and pointer casts are not modelled. Addresses are naturals, and memory contents are not stored.
- A pointer that MemAlloc or Mem_malloc did not hand out, or a double free, is outside the allocator's contract and not detected by the code. `Memmgr.MemFree` and `Legacy.MemFree` require the header to be on the live list. What the C does then is not modelled: in the newer allocator, an immediate second MemFree changes nothing, since RemoveFromList and InsertToList both return 0; in the older one, the header's `next` comes to point at itself, and a later FindFit scan need not terminate.
- `rand()` in main.cpp becomes the parameter `randomSizes` of `Driver.MainScenario`, with values 1 to 100 as `rand() % 100 + 1` gives.
- memmgr.h and memmgr/memmgr.h are not part of this model: they hold declarations only.
- Memmgr.MemInitPool: validity is promised only for empty lists and an aligned size. The C code does not reset `free_list` or `alloc_list`, so blocks from an earlier pool remain on them and the pool need not be valid.
- Memmgr.FindFit: its own contract states only that the alloc list is untouched and the returned block is flagged. `MemmgrProofs.AllocTakes` states which block it takes and what it leaves in the heap.
- Fit.Fits: the C bound `MIN_BLOCK_SIZE(size)` wraps in size_t for the aligned requests 2^64 - 16 and 2^64 - 8, and the C test then accepts blocks too small for the request. The model uses the unbounded bound, as the Findings table records; `Fit.FitsWord` is the test as written.
- Fit.FirstFit, Legacy.FindFit, Legacy.MemMalloc, Memmgr.MemAlloc and MemmgrProofs.AllocNone: they use the unbounded fit test, so for the requests 2^64 - 16 and 2^64 - 8 they return NULL where the C hands out a block too small for the request (`MemmgrProofs.WrappedRequestRefused`, `LegacyProofs.WrappedRequestRefused`).
- Memmgr.Carve and Legacy.Pieces: they use the unbounded split test; for the requests where the C test wraps, the C would write the remainder header at a wrapped address on top of the block it hands out. That path is not modelled.
- Memmgr.MemAlloc: its own contract states only frame facts. `MemmgrProofs.MemAllocValid`, `MemmgrProofs.MemAllocBlock` and `MemmgrProofs.MemAllocAdds` state the rest.
- Memmgr.MemFree: its own contract states only that the heap is untouched. `MemmgrProofs.FreeLists` and `MemmgrProofs.MemFreeValid` state the list moves.

Differences between the documentation and the code (the model follows the code):

- MemCoalesceBlocks is documented as returning the largest block. The loop stops before the last node, so a last node that merged nothing is never compared, and a larger last block is not returned (`Coalesce.LastUncompared`, with the example `Coalesce.LastNodeNotCompared`).
- FindFit refills only when the heap is empty or its head's word is below the request. When the head's word lies strictly between the request and the request plus one header, and no later heap block fits, the first-fit test passes over the whole heap and no refill happens, so MemAlloc returns NULL even if the free list holds a block that would fit (`Memmgr.Refill` and `Memmgr.FindFit` model this as written).
- The older Mem_malloc sets the flag only on a block it splits. A block handed out whole keeps bit 0 clear (`LegacyProofs.ExactFitFlagClear`). The older Mem_free clears the flag anyway, so nothing else depends on it.

## Findings

| source | as written | input that shows it | evidently intended | confidence | as-written member | corrected member |
|---|---|---|---|---|---|---|
| memmgr/memmgr.c:10-11 | `ALIGN(size)` adds 7 to a `size_t` before masking, so for the seven largest values the sum wraps and the result is 0 | `MemAlloc(2^64 - 1)` aligns to 0, and FindFit then looks for a 0-byte block | the least multiple of 8 at least `size`, or a refusal when none fits in `size_t` | not executed | Header.AlignWordWraps | Header.Align |
| memmgr/memmgr.c:137 | the fit test compares against `MIN_BLOCK_SIZE(size)`, defined at line 15 as `size + BLOCK_HEADER_SIZE` in `size_t`; for the aligned requests 2^64 - 16 and 2^64 - 8 it wraps to 0 and 8, and the test accepts blocks far smaller than the request | `MemAlloc(2^64 - 16)` on a heap of one 16-byte block hands that block out | no block smaller than the request qualifies | not executed | Fit.FitsWordWraps | Fit.Fits |
| memmgr.c:86 | the older FindFit's fit test uses the same wrapping `MIN_BLOCK_SIZE` (memmgr.c:15) | `Mem_malloc(2^64 - 8)` on a free list of one 8-byte block hands that block out | no block smaller than the request qualifies | not executed | LegacyProofs.WrappedRequestRefused | Fit.Fits |
| memmgr/memmgr.c:147 | the split test `MIN_BLOCK_SIZE(size) + BLOCK_HEADER_SIZE` wraps for requests within two headers of 2^64, so a block smaller than the request is split and the remainder header lands at `block + size + 16`, which wraps onto the block itself | `MemAlloc(2^64 - 16)` on a heap of one 64-byte block splits it with the remainder at the block's own address | split only a block larger than the request plus two headers | not executed | Memmgr.SplitsWordWraps | Memmgr.Carve |
| memmgr.c:94 | the older split test `block->size > MIN_BLOCK_SIZE(size)` wraps the same way | `Mem_malloc(2^64 - 16)` on a free list of one 64-byte block splits it with the remainder at the block's own address | split only a block larger than the request plus one header | not executed | Legacy.SplitsWordWraps | Legacy.Pieces |
