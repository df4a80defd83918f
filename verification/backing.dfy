/** Growing and shrinking the region at its top: expand_heap and shrink_heap
    (mymalloc.c:192-207). The sbrk break is the region length; sbrk is assumed to succeed. */
module Backing {
  import opened Wrappers
  import opened Sizing
  import opened Layout
  import opened BlockList

  /** A heap together with the block an operation handed back. */
  datatype Placed = Placed(heap: Heap, block: nat)

  /** expand_heap(size): take HEADER_SIZE + size more bytes at the break, make them a used
      block of exactly `size`, and link it after heap_tail (or as the sole block). */
  function ExpandHeap(h: Heap, size: nat): (r: Placed)
    ensures r.heap.blocks == h.blocks + [Block(true, size)]
    ensures r.heap.region == h.region + HEADER_SIZE + size
    ensures TailIndex(r.heap.blocks) == Some(r.block)
  {
    var header := Block(true, size);
    Placed(Heap(Link(h.blocks, Some(header), TailIndex(h.blocks)), h.region + HEADER_SIZE + size),
           |h.blocks|)
  }

  /** The new header sits at the old break, and the blocks still tile the region. */
  lemma ExpandHeapAtBreak(h: Heap, size: nat)
    requires Tiles(h)
    ensures Tiles(ExpandHeap(h, size).heap)
    ensures Address(ExpandHeap(h, size).heap.blocks, ExpandHeap(h, size).block) == h.region
  {
    var bs := ExpandHeap(h, size).heap.blocks;
    assert bs[..|h.blocks|] == h.blocks;
    SpanLast(bs);
  }

  /** shrink_heap(): give the tail's header and payload back to sbrk and unlink the tail.
      Only the resulting heap is modelled here; ShrinkHeapAsWritten and ShrinkHeapUnlinkFirst
      below say in which order the two steps touch memory. */
  function ShrinkHeap(h: Heap): (r: Heap)
    requires |h.blocks| > 0
    requires Footprint(h.blocks[|h.blocks| - 1]) <= h.region
    ensures r.blocks == h.blocks[..|h.blocks| - 1]
    ensures r.region + Footprint(h.blocks[|h.blocks| - 1]) == h.region
  {
    var tail := h.blocks[|h.blocks| - 1];
    Heap(Unlink(h.blocks, TailIndex(h.blocks)), h.region - (HEADER_SIZE + tail.size))
  }

  /** Shrinking a tiled heap leaves a tiled heap. */
  lemma ShrinkHeapKeepsTiling(h: Heap)
    requires Tiles(h) && |h.blocks| > 0
    ensures Footprint(h.blocks[|h.blocks| - 1]) <= h.region
    ensures Tiles(ShrinkHeap(h))
  {
    SpanLast(h.blocks);
  }

  /** Shrinking right after an expansion restores the heap. */
  lemma ShrinkHeapUndoesExpandHeap(h: Heap, size: nat)
    ensures ShrinkHeap(ExpandHeap(h, size).heap) == h
  {
    var g := ExpandHeap(h, size).heap;
    assert g.blocks[..|g.blocks| - 1] == h.blocks;
  }

  /** One run of shrink_heap: the break in force when node_unlink reads the tail's header,
      the header it reads (if any), and the heap that results. */
  datatype ShrinkTrace = ShrinkTrace(breakAtRead: nat, headerRead: Option<nat>, heap: Heap)

  /** The header node_unlink(heap_tail) dereferences: with a predecessor the tail takes the
      "n is the tail" branch and reads n->prev (mymalloc.c:105-107); a sole block is only
      compared with heap_head and heap_tail (mymalloc.c:97-99). */
  function TailHeaderRead(bs: seq<Block>): (r: Option<nat>)
    requires |bs| > 0
    ensures r.Some? <==> |bs| > 1
    ensures r.Some? ==> r.value == Address(bs, |bs| - 1)
  {
    if |bs| > 1 then Some(Address(bs, |bs| - 1)) else None
  }

  /** shrink_heap in the order written: sbrk lowers the break first (mymalloc.c:204) and
      node_unlink runs afterwards (mymalloc.c:205), under the lowered break. */
  function ShrinkHeapAsWritten(h: Heap): (r: ShrinkTrace)
    requires |h.blocks| > 0
    requires Footprint(h.blocks[|h.blocks| - 1]) <= h.region
    ensures r.heap == ShrinkHeap(h)
    ensures r.breakAtRead + Footprint(h.blocks[|h.blocks| - 1]) == h.region
    ensures r.headerRead == TailHeaderRead(h.blocks)
  {
    var lowered := h.region - Footprint(h.blocks[|h.blocks| - 1]);
    ShrinkTrace(lowered, TailHeaderRead(h.blocks), Heap(Unlink(h.blocks, TailIndex(h.blocks)), lowered))
  }

  /** In that order, whenever the tail has a predecessor, the header node_unlink reads
      starts exactly at the lowered break: it lies in memory already given back to sbrk. */
  lemma ShrinkHeapAsWrittenReadsReleasedHeader(h: Heap)
    requires Tiles(h) && |h.blocks| > 1
    ensures Footprint(h.blocks[|h.blocks| - 1]) <= h.region
    ensures ShrinkHeapAsWritten(h).headerRead == Some(ShrinkHeapAsWritten(h).breakAtRead)
  {
    SpanLast(h.blocks);
  }

  /** shrink_heap with the two steps swapped: node_unlink first, under the old break, then
      sbrk. The resulting heap is the same. */
  function ShrinkHeapUnlinkFirst(h: Heap): (r: ShrinkTrace)
    requires |h.blocks| > 0
    requires Footprint(h.blocks[|h.blocks| - 1]) <= h.region
    ensures r.heap == ShrinkHeap(h)
    ensures r.breakAtRead == h.region
    ensures r.headerRead == TailHeaderRead(h.blocks)
  {
    var unlinked := Unlink(h.blocks, TailIndex(h.blocks));
    ShrinkTrace(h.region, TailHeaderRead(h.blocks),
                Heap(unlinked, h.region - Footprint(h.blocks[|h.blocks| - 1])))
  }

  /** In the swapped order, the header node_unlink reads lies wholly below the break. */
  lemma ShrinkHeapUnlinkFirstReadsLiveHeader(h: Heap)
    requires Tiles(h) && |h.blocks| > 0
    ensures Footprint(h.blocks[|h.blocks| - 1]) <= h.region
    ensures var t := ShrinkHeapUnlinkFirst(h);
            t.headerRead.Some? ==> t.headerRead.value + HEADER_SIZE <= t.breakAtRead
  {
    SpanLast(h.blocks);
  }
}
