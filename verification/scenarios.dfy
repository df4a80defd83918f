/** Concrete runs of the allocator from an empty region, with HEADER_SIZE = 32. */
module Scenarios {
  import opened Wrappers
  import opened Layout
  import opened BlockList
  import opened Backing
  import opened Allocator

  /** A one-byte request gets a block of MINIMUM_ALLOCATION bytes at the start of the region. */
  lemma OneByteGetsMinimumBlock()
    ensures Malloc(Heap([], 0), 1) == Allocation(Heap([Block(true, 16)], 48), Some(32))
  {
    MallocGrowsHeap(Heap([], 0), 1);
  }

  /** Two 40-byte requests on an empty region each grow it by a header and 40 bytes. */
  lemma TwoAllocationsGrowRegion()
    ensures Malloc(Heap([], 0), 40) == Allocation(Heap([Block(true, 40)], 72), Some(32))
    ensures Malloc(Heap([Block(true, 40)], 72), 40) ==
              Allocation(Heap([Block(true, 40), Block(true, 40)], 144), Some(104))
  {
    MallocGrowsHeap(Heap([], 0), 40);
    var one := Heap([Block(true, 40)], 72);
    SpanSingleton(one.blocks[0]);
    MallocGrowsHeap(one, 40);
  }

  /** Releasing the first of the two leaves a hole: its neighbour is used and it is not the
      tail, so nothing merges and the region keeps its length. */
  lemma ReleaseFirstOfTwo()
    ensures Tiles(Heap([Block(true, 40), Block(true, 40)], 144))
    ensures LiveHandle(Heap([Block(true, 40), Block(true, 40)], 144), 32)
    ensures Free(Heap([Block(true, 40), Block(true, 40)], 144), Some(32)) ==
              Heap([Block(false, 40), Block(true, 40)], 144)
  {
    var two := Heap([Block(true, 40), Block(true, 40)], 144);
    assert Payload(two.blocks, 0) == 32;
    PayloadIndexOfPayload(two.blocks, 0);
    FreeMergesInPlace(two, 32, 0);
    MergeNothing(Release(two.blocks, 0), 0);
  }

  /** Releasing the second block as well merges it with the free first one and the merged
      tail goes back to sbrk: the region is empty again. */
  lemma ReleaseBothEmptiesRegion()
    ensures Tiles(Heap([Block(false, 40), Block(true, 40)], 144))
    ensures LiveHandle(Heap([Block(false, 40), Block(true, 40)], 144), 104)
    ensures Free(Heap([Block(false, 40), Block(true, 40)], 144), Some(104)) == Heap([], 0)
  {
    var h := Heap([Block(false, 40), Block(true, 40)], 144);
    assert h.blocks[..1] == [h.blocks[0]];
    SpanSingleton(h.blocks[0]);
    assert Payload(h.blocks, 1) == 104;
    PayloadIndexOfPayload(h.blocks, 1);
    FreeReturnsTopRun(h, 104, 1);
  }

  /** First fit reuses the freed hole before growing: the same address comes back. */
  lemma FreedHoleIsReused()
    ensures Malloc(Heap([Block(false, 40), Block(true, 40)], 144), 40) ==
              Allocation(Heap([Block(true, 40), Block(true, 40)], 144), Some(32))
  {
    var h := Heap([Block(false, 40), Block(true, 40)], 144);
    MallocReusesFirstFit(h, 40, 0);
  }

  /** A free 88-byte block is split for a 40-byte request: 88 >= 40 + 32 + 16. */
  lemma LargeHoleIsSplit()
    ensures Malloc(Heap([Block(false, 88), Block(true, 16)], 168), 40) ==
              Allocation(Heap([Block(true, 40), Block(false, 16), Block(true, 16)], 168), Some(32))
  {
    var h := Heap([Block(false, 88), Block(true, 16)], 168);
    MallocReusesFirstFit(h, 40, 0);
  }

  /** A free 80-byte block is handed out whole for a 40-byte request: the remainder of 8
      bytes would be smaller than MINIMUM_ALLOCATION. */
  lemma SmallHoleIsNotSplit()
    ensures Malloc(Heap([Block(false, 80), Block(true, 16)], 160), 40) ==
              Allocation(Heap([Block(true, 80), Block(true, 16)], 160), Some(32))
  {
    var h := Heap([Block(false, 80), Block(true, 16)], 160);
    MallocReusesFirstFit(h, 40, 0);
  }

  /** A 4064-byte block fills the first 4096 bytes; freeing a 16-byte block after it gives
      its 48 bytes back. In the order written, sbrk lowers the break to 4096 before
      node_unlink reads the tail's header at 4096, the start of a page already released. */
  lemma ShrinkReadsHeaderAtReleasedPage()
    ensures Tiles(Heap([Block(true, 4064), Block(false, 16)], 4144))
    ensures ShrinkHeapAsWritten(Heap([Block(true, 4064), Block(false, 16)], 4144)) ==
              ShrinkTrace(4096, Some(4096), Heap([Block(true, 4064)], 4096))
  {
    var h := Heap([Block(true, 4064), Block(false, 16)], 4144);
    assert h.blocks[..1] == [h.blocks[0]];
    SpanSingleton(h.blocks[0]);
    ShrinkHeapAsWrittenReadsReleasedHeader(h);
  }
}
