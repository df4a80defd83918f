/** The public entry points my_malloc and my_free (mymalloc.c:212-237), and what they
    promise: the layout and shape invariants, first-fit reuse before growth, and that a
    release undoes the allocation just made. */
module Allocator {
  import opened Wrappers
  import opened Sizing
  import opened Layout
  import opened BlockList
  import opened Locator
  import opened Backing

  /** Largest request covered: findFreeBlock and expand_heap take the rounded size as an
      int, and 0x7FFF_FFF8 is the largest multiple of SIZE_MULTIPLE an int holds. */
  const MAX_REQUEST: nat := 0x7FFF_FFF8

  /** The heap after a my_malloc call and the pointer it returned. */
  datatype Allocation = Allocation(heap: Heap, ptr: Option<nat>)

  /** p is the payload of a used block: a pointer my_free accepts. */
  predicate LiveHandle(h: Heap, p: nat) {
    var k := PayloadIndex(h.blocks, p);
    k.Some? && h.blocks[k.value].used
  }

  /** header->used = false: block i becomes free with its size kept, and since no size
      changes, no header moves. */
  function Release(bs: seq<Block>, i: nat): (r: seq<Block>)
    requires i < |bs|
    ensures |r| == |bs| && r[i] == Block(false, bs[i].size)
    ensures Span(r) == Span(bs)
    ensures forall j :: 0 <= j <= |bs| ==> Address(r, j) == Address(bs, j)
  {
    MarkKeepsAddresses(bs, i, false);
    bs[i := Block(false, bs[i].size)]
  }

  /** my_malloc(size): NULL for 0; otherwise the payload of a used block holding at least
      the rounded size, found first-fit or else carved from new memory at the break. */
  function Malloc(h: Heap, size: nat): (r: Allocation)
    requires size <= MAX_REQUEST
    ensures size == 0 ==> r == Allocation(h, None)
    ensures size > 0 ==> r.ptr.Some? && LiveHandle(r.heap, r.ptr.value)
    ensures size > 0 ==>
              r.heap.blocks[PayloadIndex(r.heap.blocks, r.ptr.value).value].size >= RoundUpSize(size)
  {
    if size == 0 then Allocation(h, None)
    else
      var rounded := RoundUpSize(size);
      var found := FindFreeBlock(h.blocks, rounded);
      match found.block
      case Some(k) =>
        PayloadIndexOfPayload(found.blocks, k);
        Allocation(Heap(found.blocks, h.region), Some(Payload(found.blocks, k)))
      case None =>
        var grown := ExpandHeap(h, rounded);
        PayloadIndexOfPayload(grown.heap.blocks, grown.block);
        Allocation(grown.heap, Some(Payload(grown.heap.blocks, grown.block)))
  }

  /** my_free(ptr): NULL is a no-op; otherwise mark the block free, merge it with its free
      neighbours, and give the survivor back to sbrk when it is the tail. The blocks still
      tile the region, which never grows. */
  function Free(h: Heap, ptr: Option<nat>): (r: Heap)
    requires Tiles(h)
    requires ptr.Some? ==> LiveHandle(h, ptr.value)
    ensures ptr.None? ==> r == h
    ensures Tiles(r)
    ensures r.region <= h.region
  {
    match ptr
    case None => h
    case Some(p) =>
      var i := PayloadIndex(h.blocks, p).value;
      var released := Release(h.blocks, i);
      var m := CoalesceWithNeighbors(released, i);
      MergeRangeLayout(released, RunStart(released, i), RunEnd(released, i));
      var merged := Heap(m.blocks, h.region);
      if TailIndex(m.blocks) == Some(m.survivor) then
        ShrinkHeapKeepsTiling(merged);
        ShrinkHeap(merged)
      else
        merged
  }

  /** When some free block fits, my_malloc claims the lowest-addressed one, returns its
      payload and leaves the region as it was. */
  lemma MallocReusesFirstFit(h: Heap, size: nat, k: nat)
    requires 0 < size <= MAX_REQUEST
    requires IsFirstFit(h.blocks, RoundUpSize(size), k)
    ensures Malloc(h, size) ==
              Allocation(Heap(Claim(h.blocks, k, RoundUpSize(size)), h.region), Some(Payload(h.blocks, k)))
  {
    var found := FindFreeBlock(h.blocks, RoundUpSize(size));
    assert found.block.Some?;
    FirstFitUnique(h.blocks, RoundUpSize(size), k, found.block.value);
    ClaimLayout(h.blocks, k, RoundUpSize(size));
  }

  /** When no free block fits, my_malloc appends a used block of exactly the rounded size,
      grows the region by its footprint, and returns the payload just past the old break. */
  lemma MallocGrowsHeap(h: Heap, size: nat)
    requires 0 < size <= MAX_REQUEST
    requires Tiles(h)
    requires forall j :: 0 <= j < |h.blocks| ==> !Fits(h.blocks[j], RoundUpSize(size))
    ensures Malloc(h, size) ==
              Allocation(Heap(h.blocks + [Block(true, RoundUpSize(size))],
                              h.region + HEADER_SIZE + RoundUpSize(size)),
                         Some(h.region + HEADER_SIZE))
  {
    var s := RoundUpSize(size);
    var grown := ExpandHeap(h, s);
    MallocOnMiss(h, size);
    ExpandHeapAtBreak(h, s);
    assert Payload(grown.heap.blocks, grown.block) == h.region + HEADER_SIZE;
  }

  /** With no fitting free block, my_malloc takes the expand_heap path. */
  lemma MallocOnMiss(h: Heap, size: nat)
    requires 0 < size <= MAX_REQUEST
    requires forall j :: 0 <= j < |h.blocks| ==> !Fits(h.blocks[j], RoundUpSize(size))
    ensures var grown := ExpandHeap(h, RoundUpSize(size));
            Malloc(h, size) == Allocation(grown.heap, Some(Payload(grown.heap.blocks, grown.block)))
  {
    assert FindFreeBlock(h.blocks, RoundUpSize(size)).block.None?;
  }

  /** my_malloc keeps the tiling and the rounding of every block. */
  lemma MallocKeepsValid(h: Heap, size: nat)
    requires size <= MAX_REQUEST
    requires Valid(h)
    ensures Valid(Malloc(h, size).heap)
  {
    if size > 0 {
      var s := RoundUpSize(size);
      var found := FindFreeBlock(h.blocks, s);
      match found.block
      case Some(k) =>
        ClaimLayout(h.blocks, k, s);
        ClaimKeepsRounded(h.blocks, k, s);
      case None =>
        ExpandHeapAtBreak(h, s);
    }
  }

  /** my_malloc keeps "no two adjacent free blocks" and "the tail is used". */
  lemma MallocKeepsCompact(h: Heap, size: nat)
    requires size <= MAX_REQUEST
    requires Compact(h.blocks)
    ensures Compact(Malloc(h, size).heap.blocks)
  {
    if size > 0 {
      var s := RoundUpSize(size);
      var found := FindFreeBlock(h.blocks, s);
      match found.block
      case Some(k) =>
        ClaimKeepsCompact(h.blocks, k, s);
      case None =>
        var bs := h.blocks + [Block(true, s)];
        assert forall j :: 0 <= j < |h.blocks| ==> bs[j] == h.blocks[j];
    }
  }

  /** After a release and its coalescing, the survivor is free, both its neighbours are used,
      and no two adjacent blocks are free. */
  lemma ReleasedRunIsolated(bs: seq<Block>, i: nat)
    requires i < |bs| && NoAdjacentFree(bs)
    ensures var rel := Release(bs, i);
            var lo := RunStart(rel, i);
            var m := MergeRange(rel, lo, RunEnd(rel, i));
            && NoAdjacentFree(m)
            && !m[lo].used
            && (lo > 0 ==> m[lo - 1].used)
            && (lo + 1 < |m| ==> m[lo + 1].used)
  {
    var rel := Release(bs, i);
    var lo := RunStart(rel, i);
    var hi := RunEnd(rel, i);
    var d := hi - lo;
    var m := MergeRange(rel, lo, hi);
    if lo > 0 {
      assert m[lo - 1] == bs[lo - 1];
      if lo == i - 1 {
        assert bs[i - 2].used;
      }
    }
    if lo + 1 < |m| {
      assert m[lo + 1] == rel[hi + 1] == bs[hi + 1];
      if hi == i + 1 {
        assert bs[i + 2].used;
      }
    }
    forall j | 0 < j < |m|
      ensures m[j - 1].used || m[j].used
    {
      if j < lo {
        assert m[j - 1] == bs[j - 1] && m[j] == bs[j];
      } else if j > lo + 1 {
        assert m[j - 1] == bs[j - 1 + d] && m[j] == bs[j + d];
      }
    }
  }

  /** my_free keeps the tiling and the rounding of every block. */
  lemma FreeKeepsValid(h: Heap, p: nat)
    requires Valid(h) && LiveHandle(h, p)
    ensures Valid(Free(h, Some(p)))
  {
    var i := PayloadIndex(h.blocks, p).value;
    var rel := Release(h.blocks, i);
    assert AllRounded(rel);
    MergeRangeKeepsRounded(rel, RunStart(rel, i), RunEnd(rel, i));
  }

  /** my_free keeps "no two adjacent free blocks" and "the tail is used": the survivor sits
      between used blocks, and it is given back to sbrk when it is the tail. */
  lemma FreeKeepsCompact(h: Heap, p: nat)
    requires Tiles(h) && LiveHandle(h, p)
    requires Compact(h.blocks)
    ensures Compact(Free(h, Some(p)).blocks)
  {
    var i := PayloadIndex(h.blocks, p).value;
    ReleaseKeepsCompact(h.blocks, i);
    if RunEnd(Release(h.blocks, i), i) < |h.blocks| - 1 {
      FreeMergesInPlace(h, p, i);
    } else {
      FreeReturnsTopRun(h, p, i);
    }
  }

  /** The list-level half of FreeKeepsCompact: after releasing block i of a compact list and
      merging its run, the list is compact, or its prefix before the run is when the run
      reaches the tail. */
  lemma ReleaseKeepsCompact(bs: seq<Block>, i: nat)
    requires i < |bs| && Compact(bs)
    ensures RunEnd(Release(bs, i), i) < |bs| - 1 ==>
              Compact(MergeRange(Release(bs, i), RunStart(Release(bs, i), i), RunEnd(Release(bs, i), i)))
    ensures RunEnd(Release(bs, i), i) == |bs| - 1 ==> Compact(bs[..RunStart(Release(bs, i), i)])
  {
    var rel := Release(bs, i);
    var lo := RunStart(rel, i);
    var hi := RunEnd(rel, i);
    var m := MergeRange(rel, lo, hi);
    ReleasedRunIsolated(bs, i);
    if hi == |bs| - 1 {
      var rest := bs[..lo];
      assert forall j :: 0 <= j < |rest| ==> rest[j] == bs[j];
      if lo > 0 {
        assert rest[lo - 1] == m[lo - 1];
      }
    } else {
      assert m[|m| - 1] == rel[|rel| - 1] == bs[|bs| - 1];
    }
  }

  /** What my_free does when the released block's run stops short of the tail: the run
      becomes one free block and the region keeps its length. */
  lemma FreeMergesInPlace(h: Heap, p: nat, i: nat)
    requires Tiles(h) && LiveHandle(h, p)
    requires PayloadIndex(h.blocks, p) == Some(i)
    requires RunEnd(Release(h.blocks, i), i) < |h.blocks| - 1
    ensures Free(h, Some(p)) ==
              Heap(MergeRange(Release(h.blocks, i), RunStart(Release(h.blocks, i), i),
                              RunEnd(Release(h.blocks, i), i)),
                   h.region)
  {
  }

  /** What my_free does when the released block's run reaches the tail: the whole run goes
      back to sbrk and the break drops to the run's first header. */
  lemma FreeReturnsTopRun(h: Heap, p: nat, i: nat)
    requires Tiles(h) && LiveHandle(h, p)
    requires PayloadIndex(h.blocks, p) == Some(i)
    requires RunEnd(Release(h.blocks, i), i) == |h.blocks| - 1
    ensures Free(h, Some(p)) ==
              Heap(h.blocks[..RunStart(Release(h.blocks, i), i)],
                   Address(h.blocks, RunStart(Release(h.blocks, i), i)))
  {
    TopRunLayout(h.blocks, i);
  }

  /** The list-level half of FreeReturnsTopRun: once a run that reaches the tail is merged,
      its survivor is the last block, everything before it is untouched, and the survivor's
      footprint ends at the end of the span. */
  lemma TopRunLayout(bs: seq<Block>, i: nat)
    requires i < |bs|
    requires RunEnd(Release(bs, i), i) == |bs| - 1
    ensures var lo := RunStart(Release(bs, i), i);
            var m := MergeRange(Release(bs, i), lo, |bs| - 1);
            && |m| == lo + 1
            && m[..lo] == bs[..lo]
            && Address(bs, lo) + Footprint(m[lo]) == Span(bs)
  {
    var rel := Release(bs, i);
    var lo := RunStart(rel, i);
    var m := MergeRange(rel, lo, |bs| - 1);
    MergeRangeLayout(rel, lo, |bs| - 1);
    SpanLast(m);
    assert m[..lo] == bs[..lo];
  }

  /** The shrink property: freeing the top block when its predecessor is used gives exactly
      its footprint back and removes it from the list. */
  lemma FreeOfTopBlockShrinks(h: Heap, p: nat)
    requires Tiles(h) && LiveHandle(h, p)
    requires PayloadIndex(h.blocks, p) == Some(|h.blocks| - 1)
    requires |h.blocks| > 1 ==> h.blocks[|h.blocks| - 2].used
    ensures Free(h, Some(p)) ==
              Heap(h.blocks[..|h.blocks| - 1], h.region - Footprint(h.blocks[|h.blocks| - 1]))
  {
    var i := |h.blocks| - 1;
    assert RunStart(Release(h.blocks, i), i) == i;
    FreeReturnsTopRun(h, p, i);
    SpanLast(h.blocks);
  }

  /** my_free on the pointer my_malloc just returned restores the heap exactly, on every
      heap that satisfies the invariants. */
  lemma MallocThenFreeRestores(h: Heap, size: nat)
    requires Valid(h) && Compact(h.blocks)
    requires 0 < size <= MAX_REQUEST
    ensures Tiles(Malloc(h, size).heap)
    ensures Free(Malloc(h, size).heap, Malloc(h, size).ptr) == h
  {
    MallocKeepsValid(h, size);
    var s := RoundUpSize(size);
    var found := FindFreeBlock(h.blocks, s);
    match found.block
    case None =>
      MallocGrowsHeap(h, size);
      GrownBlockFreedRestores(h, s);
    case Some(k) =>
      MallocReusesFirstFit(h, size, k);
      ClaimedBlockFreedRestores(h, k, s);
  }

  /** The growth case of MallocThenFreeRestores. */
  lemma GrownBlockFreedRestores(h: Heap, s: nat)
    requires Tiles(h) && TailUsed(h.blocks)
    ensures Tiles(Heap(h.blocks + [Block(true, s)], h.region + HEADER_SIZE + s))
    ensures LiveHandle(Heap(h.blocks + [Block(true, s)], h.region + HEADER_SIZE + s), h.region + HEADER_SIZE)
    ensures Free(Heap(h.blocks + [Block(true, s)], h.region + HEADER_SIZE + s), Some(h.region + HEADER_SIZE)) == h
  {
    var g := Heap(h.blocks + [Block(true, s)], h.region + HEADER_SIZE + s);
    var n := |h.blocks|;
    assert g.blocks[..n] == h.blocks;
    SpanLast(g.blocks);
    PayloadIndexOfPayload(g.blocks, n);
    FreeReturnsTopRun(g, h.region + HEADER_SIZE, n);
  }

  /** The reuse case of MallocThenFreeRestores: releasing the claimed block merges the split
      remainder back, or, without a split, simply clears the used flag again. */
  lemma ClaimedBlockFreedRestores(h: Heap, k: nat, s: nat)
    requires Tiles(h) && Compact(h.blocks)
    requires k < |h.blocks| && Fits(h.blocks[k], s)
    ensures Tiles(Heap(Claim(h.blocks, k, s), h.region))
    ensures LiveHandle(Heap(Claim(h.blocks, k, s), h.region), Payload(h.blocks, k))
    ensures Free(Heap(Claim(h.blocks, k, s), h.region), Some(Payload(h.blocks, k))) == h
  {
    var bs := h.blocks;
    var c := Claim(bs, k, s);
    ClaimLayout(bs, k, s);
    PayloadIndexOfPayload(c, k);
    assert Payload(c, k) == Payload(bs, k);
    ClaimedRunIsTheBlock(bs, k, s);
    FreeMergesInPlace(Heap(c, h.region), Payload(bs, k), k);
  }

  /** Releasing a claimed block of a compact list: the run it forms ends before the tail and
      merges back into exactly the original list. */
  lemma ClaimedRunIsTheBlock(bs: seq<Block>, k: nat, s: nat)
    requires Compact(bs) && k < |bs| && Fits(bs[k], s)
    ensures RunStart(Release(Claim(bs, k, s), k), k) == k
    ensures RunEnd(Release(Claim(bs, k, s), k), k) < |Claim(bs, k, s)| - 1
    ensures MergeRange(Release(Claim(bs, k, s), k), k, RunEnd(Release(Claim(bs, k, s), k), k)) == bs
  {
    var c := Claim(bs, k, s);
    ClaimShape(bs, k, s);
    if SplitsFor(bs[k], s) {
      ClaimLayout(bs, k, s);
      SplitRemainderRejoins(bs, k, s, c);
    } else {
      WholeBlockFreed(bs, k, c);
    }
  }

  /** Releasing a split block whose remainder follows it merges the two halves back. */
  lemma SplitRemainderRejoins(bs: seq<Block>, k: nat, s: nat, c: seq<Block>)
    requires Compact(bs) && k < |bs| && Fits(bs[k], s) && SplitsFor(bs[k], s)
    requires c == bs[..k] + [Block(true, s), Block(false, bs[k].size - s - HEADER_SIZE)] + bs[k + 1..]
    requires MergeRange(c, k, k + 1) == bs[k := Block(true, bs[k].size)]
    ensures RunStart(Release(c, k), k) == k
    ensures RunEnd(Release(c, k), k) == k + 1 < |c| - 1
    ensures MergeRange(Release(c, k), k, k + 1) == bs
  {
    var rel := Release(c, k);
    assert k + 1 < |bs|;
    if k > 0 {
      assert rel[k - 1] == bs[k - 1];
      assert bs[k - 1].used;
    }
    var a := MergeRange(rel, k, k + 1);
    var b := MergeRange(c, k, k + 1);
    assert rel[k + 1..k + 2] == c[k + 1..k + 2];
    assert forall j :: 0 <= j < |a| && j != k ==> a[j] == b[j];
  }

  /** Releasing a block claimed without a split restores the list; the block stays alone. */
  lemma WholeBlockFreed(bs: seq<Block>, k: nat, c: seq<Block>)
    requires Compact(bs) && k < |bs| && !bs[k].used
    requires c == bs[k := Block(true, bs[k].size)]
    ensures Release(c, k) == bs
    ensures RunStart(bs, k) == k && RunEnd(bs, k) == k < |bs| - 1
    ensures MergeRange(bs, k, k) == bs
  {
    assert k + 1 < |bs|;
    assert bs[k + 1].used;
    if k > 0 {
      assert bs[k - 1].used;
    }
    MergeNothing(bs, k);
  }
}
