# mymalloc in Dafny

A model of `mymalloc.c`, a first-fit allocator backed by `sbrk`. Every block carries a
header of `used`, `size`, `prev` and `next`. All blocks, used and free, sit in one doubly
linked list that is ordered by address and delimited by `heap_head` and `heap_tail`.
`my_malloc` rounds the request and asks `findFreeBlock` for the first free block that is
large enough. That block is split when the remainder can hold a header and a minimum
allocation. When nothing fits, `expand_heap` grows the region at the break. `my_free`
clears the used flag and merges the block with its free neighbours
(`node_coalesce_with_neighbors`). When the surviving block is the tail, `shrink_heap`
returns it to `sbrk`.

The state is `Layout.Heap(blocks, region)`:
- `blocks` is the list as a sequence of `Block(used, size)`, head first. A block is
  identified by its position, `heap_head` is position 0 and `heap_tail` is the last position
  (`Layout.TailIndex`).
- `region` is the number of bytes obtained from `sbrk`.
- A header's address is the sum of the footprints (`HEADER_SIZE + size`) of the blocks
  before it (`Layout.Address`). A payload pointer is that address plus `HEADER_SIZE`
  (`Layout.Payload`). `(Header*) ptr - 1` is `Layout.PayloadIndex`. NULL is `None`.
- `HEADER_SIZE` is 32, which is `sizeof(Header)` under LP64.

Pointer splicing becomes sequence insertion (`BlockList.Link`), deletion (`BlockList.Unlink`)
and merging. A merge is defined once, declaratively, as `BlockList.MergeRange`. The
coalescing functions follow the C branch for branch and are proved equal to it.

The malloc-then-free round trip holds on every valid, compact heap, not only on an empty one
(`Allocator.MallocThenFreeRestores`).

The invariants:
- `Tiles`: the footprints add up to the region.
- `AllRounded`: every size is at least 16 and a multiple of 8.
- `NoAdjacentFree`: no two adjacent blocks are free.
- `TailUsed`: the tail is not free.

`Valid` is `Tiles` together with `AllRounded`; `Compact` is `NoAdjacentFree` together with
`TailUsed`.

Modules, in dependency order: `Wrappers` (Option), `Sizing` (constants, `round_up_size`),
`Layout` (state, addresses, invariants), `BlockList` (link, unlink, coalescing), `Locator`
(`findFreeBlock`), `Backing` (`expand_heap`, `shrink_heap`), `Allocator` (`my_malloc`,
`my_free`), and `Scenarios` (concrete runs from an empty region).

## Model

| member | source | states |
|---|---|---|
| Sizing.RoundUpSize | mymalloc.c:47-54 | The result is 0 exactly when the request is 0. Otherwise it is a multiple of 8, at least 16 and at least the request. It is exactly 16 for requests of up to 16 bytes, and less than request + 8 from 16 bytes on. |
| Sizing.AlignDown | mymalloc.c:53 | Masking with `~(SIZE_MULTIPLE - 1)` gives a multiple of 8 that is at most x and more than x - 8. |
| Sizing.RoundUpSizeAsWritten | mymalloc.c:47-54 | round_up_size with the size_t addition wrapping modulo 2^64. The result fits in a size_t. It agrees with the corrected rounding whenever the addition does not wrap. |
| Sizing.RoundUpSizeAsWrittenWrapsToZero | mymalloc.c:53 | Each of the seven largest size_t requests is nonzero, yet rounds to 0. |
| Layout.PayloadIndex | mymalloc.c:229 | `(Header*) ptr - 1` finds a block whose payload starts at p. When it finds none, no block's payload starts at p. |
| Layout.PayloadIndexOfPayload | mymalloc.c:222-229 | Going from a header to its payload (`header + 1`) and back (`ptr - 1`) lands on the same block. |
| Layout.AddressesIncrease | mymalloc.c:31-42 | The list is ordered by address, and a block's footprint ends at or before the next header. |
| Layout.SpanOfRoundedIsAligned | mymalloc.c:19 | The bytes covered by rounded blocks are a multiple of 8. |
| BlockList.Link | mymalloc.c:67-90 | A NULL node changes nothing. A NULL `after` makes n the sole block. Otherwise n is inserted right after `after`, every other block keeps its order, and n is the tail exactly when `after` was. |
| BlockList.Unlink | mymalloc.c:92-113 | A NULL node changes nothing. Otherwise exactly block n is removed, as a multiset and position by position, and the others keep their order. Removing the head makes its successor the head; removing the tail makes its predecessor the tail. |
| BlockList.UnlinkUndoesLink | mymalloc.c:67-113 | Unlinking a block just linked gives the list back. |
| BlockList.LinkUndoesUnlink | mymalloc.c:67-113 | Relinking an unlinked block after its old predecessor gives the list back. |
| BlockList.MergeRange | mymalloc.c:115-131 | The reference merge: blocks lo..hi become one block whose size covers their bytes. Blocks before lo are unchanged; later blocks move down by hi - lo. |
| BlockList.MergeRangeLayout | mymalloc.c:115-131 | Merging moves no byte. The total footprint is kept, and every surviving header keeps its address. |
| BlockList.MergeRangeKeepsRounded | mymalloc.c:121 | A merge of rounded blocks is rounded. |
| BlockList.MergeTwice | mymalloc.c:154-157 | Coalescing prev with its next twice merges prev, n and next at once. |
| BlockList.CoalesceWithNext | mymalloc.c:115-131 | Without a successor nothing changes. Otherwise the result is the reference merge of n with its successor. |
| BlockList.CoalesceWithNextEffect | mymalloc.c:115-131 | n's size grows by the successor's size plus a header, and the successor disappears. n becomes the tail exactly when its successor was the tail. The sum of footprints is unchanged. |
| BlockList.CoalesceWithNeighbors | mymalloc.c:133-170 | Across all seven cases, the result is the reference merge of n with its free neighbours, and the survivor is the first block of that run. |
| BlockList.CoalesceSurvivor | mymalloc.c:133-170 | The survivor is prev exactly when prev was free, and n otherwise. |
| Locator.FirstFitFrom | mymalloc.c:174-176 | The loop returns the first free block from k on that is large enough. It returns NULL exactly when there is none. |
| Locator.Claim | mymalloc.c:177-184 | The block is marked used and the blocks before it are untouched. A split happens exactly when size >= request + HEADER_SIZE + 16. A split trims the size to the request and links a free remainder of size - request - HEADER_SIZE right after it. Without a split the size is kept. |
| Locator.ClaimShape | mymalloc.c:177-184 | Claiming is a splice of one or two blocks into the list. |
| Locator.ClaimLayout | mymalloc.c:178-184 | Claiming moves no byte: the span and the block's address are kept. The remainder's header sits HEADER_SIZE + request past the block's header. Merging the two halves gives the claimed block back whole. |
| Locator.FindFreeBlock | mymalloc.c:172-190 | It returns NULL, with the list untouched, exactly when no free block is large enough. Otherwise it returns the lowest-addressed fitting block, claimed. |
| Locator.FirstFitUnique | mymalloc.c:174-187 | There is only one first fit. |
| Locator.ClaimKeepsRounded | mymalloc.c:178-183 | Claiming with a rounded request keeps every size rounded. |
| Locator.ClaimKeepsCompact | mymalloc.c:172-189 | Claiming a free block of a compact list keeps it compact. |
| Backing.ExpandHeap | mymalloc.c:192-200 | A used block of exactly the requested size is appended as the new tail, and the region grows by HEADER_SIZE + size. |
| Backing.ExpandHeapAtBreak | mymalloc.c:194-197 | The new header sits at the old break, and the blocks still tile the region. |
| Backing.ShrinkHeap | mymalloc.c:202-207 | The tail is removed, and the region shrinks by exactly its footprint. |
| Backing.ShrinkHeapKeepsTiling | mymalloc.c:202-207 | Shrinking never takes the region below zero, and the blocks still tile the region. |
| Backing.ShrinkHeapUndoesExpandHeap | mymalloc.c:192-207 | shrink_heap right after expand_heap restores the heap. |
| Backing.TailHeaderRead | mymalloc.c:97-107 | node_unlink dereferences the tail's header exactly when the tail has a predecessor (to read `prev`); a sole block is only compared. |
| Backing.ShrinkHeapAsWritten | mymalloc.c:202-207 | shrink_heap in source order: the break is lowered by the tail's footprint before node_unlink reads the tail's header, and the resulting heap is ShrinkHeap's. |
| Backing.ShrinkHeapAsWrittenReadsReleasedHeader | mymalloc.c:204-205 | In that order, when the tail has a predecessor, the header node_unlink reads starts exactly at the lowered break, in memory already given back to sbrk. |
| Backing.ShrinkHeapUnlinkFirst | mymalloc.c:202-207 | shrink_heap with node_unlink before sbrk: the read happens under the old break, and the resulting heap is the same. |
| Backing.ShrinkHeapUnlinkFirstReadsLiveHeader | mymalloc.c:204-205 | In that order the header node_unlink reads lies wholly below the break. |
| Allocator.Malloc | mymalloc.c:212-223 | A request of 0 returns NULL and leaves the heap unchanged. Otherwise the result is the payload of a used block at least as large as the rounded request. |
| Allocator.Release | mymalloc.c:231 | Block i becomes free with its size kept, and the list keeps its length. No header moves: the span and every block's address are unchanged. |
| Allocator.Free | mymalloc.c:225-237 | NULL changes nothing. Otherwise the blocks still tile the region, and the region never grows. |
| Allocator.MallocReusesFirstFit | mymalloc.c:216-222 | When some free block fits, the first fit is claimed, its payload is returned, and the region is unchanged. |
| Allocator.MallocOnMiss | mymalloc.c:218-222 | With no fitting free block, my_malloc takes the expand_heap path. |
| Allocator.MallocGrowsHeap | mymalloc.c:218-222 | With no fitting free block, a used block of the rounded size is appended at the old break. The region grows by its footprint, and the returned payload is just past the old break. |
| Allocator.MallocKeepsValid | mymalloc.c:212-223 | my_malloc keeps the tiling and the rounding. |
| Allocator.MallocKeepsCompact | mymalloc.c:212-223 | my_malloc keeps "no two adjacent free blocks" and "the tail is used". |
| Allocator.ReleasedRunIsolated | mymalloc.c:133-170 | After release and coalescing of a compact list, the survivor is free, both of its neighbours are used, and no two adjacent blocks are free. |
| Allocator.FreeKeepsValid | mymalloc.c:225-237 | my_free keeps the tiling and the rounding. |
| Allocator.FreeKeepsCompact | mymalloc.c:225-237 | my_free keeps "no two adjacent free blocks" and "the tail is used". |
| Allocator.ReleaseKeepsCompact | mymalloc.c:231-236 | After a block is released and its run merged, the list is compact; when the run reached the tail, what precedes the run is compact. |
| Allocator.FreeMergesInPlace | mymalloc.c:225-237 | When the run stops short of the tail, my_free leaves the merged list and the region's length. |
| Allocator.FreeReturnsTopRun | mymalloc.c:225-237 | When the run reaches the tail, the whole run goes back to sbrk and the break drops to the run's first header. |
| Allocator.TopRunLayout | mymalloc.c:233-236 | A merged run that reaches the tail is the last block, the blocks before it are untouched, and its footprint ends at the end of the region. |
| Allocator.FreeOfTopBlockShrinks | mymalloc.c:233-236 | Freeing the tail when its predecessor is used removes it and shrinks the region by exactly its footprint. |
| Allocator.MallocThenFreeRestores | mymalloc.c:212-237 | On a valid, compact heap, my_free of the pointer my_malloc just returned restores the heap exactly. |
| Allocator.GrownBlockFreedRestores | mymalloc.c:192-237 | Freeing a block that expand_heap just appended gives the region back to its old break. |
| Allocator.ClaimedBlockFreedRestores | mymalloc.c:172-237 | Freeing a block that findFreeBlock just claimed restores the list: the split remainder merges back in. |
| Allocator.ClaimedRunIsTheBlock | mymalloc.c:133-189 | Releasing a claimed block forms a run that starts at it, ends before the tail, and merges back into the original list. |
| Allocator.SplitRemainderRejoins | mymalloc.c:140-161 | Releasing a split block rejoins its free remainder, and nothing else: for the head through the `prev == NULL` case (lines 140-143), otherwise through the next-free case (lines 159-161). |
| Allocator.WholeBlockFreed | mymalloc.c:140-168 | Releasing a block claimed without a split restores the list, and nothing merges: for the head through the `prev == NULL` case (lines 140-143), otherwise through the final `else` (lines 167-168). |
| Scenarios.OneByteGetsMinimumBlock | mymalloc.c:212-223 | A 1-byte request on an empty region gets a 16-byte block at payload 32, and the region grows to 48. |
| Scenarios.TwoAllocationsGrowRegion | mymalloc.c:212-223 | Two 40-byte requests return payloads 32 and 104, and the region grows to 144. |
| Scenarios.ReleaseFirstOfTwo | mymalloc.c:225-237 | Freeing the first of two used blocks leaves a hole and keeps the region. |
| Scenarios.ReleaseBothEmptiesRegion | mymalloc.c:225-237 | Then freeing the second merges it with the hole, and the region drops to 0. |
| Scenarios.FreedHoleIsReused | mymalloc.c:172-190 | A request that fits the hole gets the same address back. |
| Scenarios.LargeHoleIsSplit | mymalloc.c:178-184 | A free 88-byte block is split for 40 bytes into 40 and 16. |
| Scenarios.SmallHoleIsNotSplit | mymalloc.c:178 | A free 80-byte block is handed out whole for 40 bytes. |
| Scenarios.ShrinkReadsHeaderAtReleasedPage | mymalloc.c:202-207 | After blocks of 4064 and 16 bytes, shrinking in source order lowers the break to 4096 and then reads the tail's header at 4096. |

## Left out

- `fatal` and `my_dump` (mymalloc.c:56-65, 239-257) only format output and exit. They hold no allocator logic.
- `sbrk` is modelled as a region length that grows and shrinks at the top. Its failure (unchecked at mymalloc.c:194 and 204) is not modelled. Memory is not modelled either: `Backing.ShrinkHeap`, which `my_free` uses, gives only the resulting heap. The order in which shrink_heap touches memory is modelled separately (see Findings).
- Byte-level pointer arithmetic (`PTR_ADD_BYTES`, `header + 1`, `ptr - 1`) is modelled with offsets computed from prefix sums. The macro's header is not part of this model.
- The `prev`/`next` fields are not stored; the list order is the sequence order. The stale links `node_link` leaves on a block after a NULL `after` (mymalloc.c:72-76) are therefore not represented.
- `HEADER_SIZE` is fixed at 32, the LP64 `sizeof(Header)`. Apart from the concrete scenarios, the proofs use only that it is a positive multiple of 8.
- Allocator.Malloc: requires a request of at most 0x7FFF_FFF8, because `findFreeBlock` and `expand_heap` take an `int` (mymalloc.c:172, 192). This conversion of the rounded size is not modelled. Every rounded size above INT_MAX is converted to `int` in an implementation-defined way (section 6.3.1.3 of the C11 standard). Common targets reduce it modulo 2^32. Sizes from 2^31 to 2^32 - 1 then turn negative, and larger sizes wrap to 0 or a small positive size, so the allocation is silently too small. For example, `my_malloc(0x1_0000_0010)` calls `findFreeBlock(16)` and returns a 16-byte block.
- Allocator.Free: requires that the blocks tile the region and that `ptr` is NULL or the payload of a used block. A foreign pointer or a double free is undefined behaviour in the C.
- Threads: `heap_head` and `heap_tail` are unsynchronised globals. The model is sequential.
- Sizing.RoundUpSize: rounds over unbounded sizes. The size_t wrap-around is modelled separately in `Sizing.RoundUpSizeAsWritten` (see Findings).
- Freeing the tail does not always give back exactly its footprint. When a free predecessor absorbs it, the whole merged run goes back to `sbrk` (`Allocator.FreeReturnsTopRun`). Giving back exactly the tail's footprint is proved only when its predecessor is used (`Allocator.FreeOfTopBlockShrinks`).

## Findings

| source | as written | input that shows it | evidently intended | confidence | as-written member | corrected member |
|---|---|---|---|---|---|---|
| mymalloc.c:53 | `(data_size + 7) & ~7` is computed in size_t and wraps for the seven largest sizes, giving 0. `my_malloc` then goes on with a size of 0. `findFreeBlock(0)` hands back the first free block whatever its size, and `expand_heap(0)` a block with no payload at all. | `my_malloc(SIZE_MAX)` | a nonzero request never rounds to 0 and is at least as large as the request (or the allocation fails) | high, not executed | Sizing.RoundUpSizeAsWrittenWrapsToZero | Sizing.RoundUpSize |
| mymalloc.c:204-205 | shrink_heap calls `sbrk(-(sizeof(Header) + heap_tail->size))` before `node_unlink(heap_tail)`. When the tail has a predecessor, node_unlink then reads `n->prev` (line 106) from a header that lies exactly at the new break, in memory already returned to the system. That is undefined behaviour, and it faults when the header starts a page that the kernel unmaps. | `q = my_malloc(4064); r = my_malloc(16); my_free(r)` from an empty heap: the break drops to offset 4096 from the start of the region, and the header at that offset is read afterwards | node_unlink(heap_tail) before sbrk, so every header read lies below the break | high, not executed | Backing.ShrinkHeapAsWrittenReadsReleasedHeader | Backing.ShrinkHeapUnlinkFirst |
