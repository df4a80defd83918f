/** findFreeBlock: first-fit search with splitting (mymalloc.c:172-190). */
module Locator {
  import opened Wrappers
  import opened Sizing
  import opened Layout
  import opened BlockList

  /** A block the search accepts for a request: free and large enough. */
  predicate Fits(b: Block, size: nat) {
    !b.used && b.size >= size
  }

  /** k is the lowest-addressed block that fits. */
  predicate IsFirstFit(bs: seq<Block>, size: nat, k: nat) {
    k < |bs| && Fits(bs[k], size) && forall j :: 0 <= j < k ==> !Fits(bs[j], size)
  }

  /** The remainder after the request is itself a block of at least MINIMUM_ALLOCATION. */
  predicate SplitsFor(b: Block, size: nat) {
    b.size >= size + HEADER_SIZE + MINIMUM_ALLOCATION
  }

  /** The for loop of findFreeBlock, resumed at block k. */
  function FirstFitFrom(bs: seq<Block>, size: nat, k: nat): (r: Option<nat>)
    requires k <= |bs|
    ensures r.Some? ==> k <= r.value < |bs| && Fits(bs[r.value], size)
    ensures r.Some? ==> forall j :: k <= j < r.value ==> !Fits(bs[j], size)
    ensures r.None? <==> forall j :: k <= j < |bs| ==> !Fits(bs[j], size)
    decreases |bs| - k
  {
    if k == |bs| then None
    else if Fits(bs[k], size) then Some(k)
    else FirstFitFrom(bs, size, k + 1)
  }

  /** The body of the match: mark block k used and, when the remainder is large enough,
      link a free block of the remainder right after it and trim k to the request. Blocks
      before k are untouched; blocks after it are unchanged, one place further on after a
      split. */
  function Claim(bs: seq<Block>, k: nat, size: nat): (r: seq<Block>)
    requires k < |bs| && bs[k].size >= size
    ensures |r| == |bs| + (if SplitsFor(bs[k], size) then 1 else 0)
    ensures forall j :: 0 <= j < k ==> r[j] == bs[j]
    ensures r[k].used
    ensures r[k].size == if SplitsFor(bs[k], size) then size else bs[k].size
    ensures SplitsFor(bs[k], size) ==> r[k + 1] == Block(false, bs[k].size - size - HEADER_SIZE)
    ensures SplitsFor(bs[k], size) ==> forall j :: k + 1 < j < |r| ==> r[j] == bs[j - 1]
    ensures !SplitsFor(bs[k], size) ==> forall j :: k < j < |r| ==> r[j] == bs[j]
  {
    var marked := bs[k := Block(true, bs[k].size)];
    if SplitsFor(bs[k], size) then
      var rest := Block(false, bs[k].size - size - HEADER_SIZE);
      Link(marked, Some(rest), Some(k))[k := Block(true, size)]
    else
      marked
  }

  /** Claim as an explicit splice of the list. */
  lemma ClaimShape(bs: seq<Block>, k: nat, size: nat)
    requires k < |bs| && bs[k].size >= size
    ensures SplitsFor(bs[k], size) ==>
              Claim(bs, k, size) ==
                bs[..k] + [Block(true, size), Block(false, bs[k].size - size - HEADER_SIZE)] + bs[k + 1..]
    ensures !SplitsFor(bs[k], size) ==> Claim(bs, k, size) == bs[k := Block(true, bs[k].size)]
  {
  }

  /** Claiming moves nothing: the span is kept, block k keeps its address, and after a
      split the remainder's header sits HEADER_SIZE + size bytes past block k's header and
      merging the two halves back gives the claimed block whole (so, by MergeRangeLayout,
      every later block keeps its address too). */
  lemma ClaimLayout(bs: seq<Block>, k: nat, size: nat)
    requires k < |bs| && bs[k].size >= size
    ensures Span(Claim(bs, k, size)) == Span(bs)
    ensures Address(Claim(bs, k, size), k) == Address(bs, k)
    ensures SplitsFor(bs[k], size) ==>
              Address(Claim(bs, k, size), k + 1) == Address(bs, k) + HEADER_SIZE + size
    ensures SplitsFor(bs[k], size) ==>
              MergeRange(Claim(bs, k, size), k, k + 1) == bs[k := Block(true, bs[k].size)]
  {
    var r := Claim(bs, k, size);
    var marked := bs[k := Block(true, bs[k].size)];
    ClaimShape(bs, k, size);
    MarkKeepsAddresses(bs, k, true);
    if SplitsFor(bs[k], size) {
      SplitLayout(bs, k, size, marked, r);
    }
  }

  /** The split case of ClaimLayout, on the marked list and the claimed list r given
      explicitly. */
  lemma SplitLayout(bs: seq<Block>, k: nat, size: nat, marked: seq<Block>, r: seq<Block>)
    requires k < |bs| && SplitsFor(bs[k], size)
    requires marked == bs[k := Block(true, bs[k].size)]
    requires r == bs[..k] + [Block(true, size), Block(false, bs[k].size - size - HEADER_SIZE)] + bs[k + 1..]
    ensures MergeRange(r, k, k + 1) == marked
    ensures Span(r) == Span(marked)
    ensures forall j :: 0 <= j <= k ==> Address(r, j) == Address(marked, j)
    ensures Address(r, k + 1) == Address(r, k) + HEADER_SIZE + size
    ensures forall j :: k < j <= |bs| ==> Address(r, j + 1) == Address(marked, j)
  {
    assert r[k + 1..k + 2] == [r[k + 1]];
    SpanSingleton(r[k + 1]);
    assert MergeRange(r, k, k + 1) == marked;
    MergeRangeLayout(r, k, k + 1);
    AddressSplit(r, k, k + 1);
    assert r[k..k + 1] == [r[k]];
    SpanSingleton(r[k]);
  }

  /** Setting a used flag moves no block. */
  lemma MarkKeepsAddresses(bs: seq<Block>, k: nat, used: bool)
    requires k < |bs|
    ensures Span(bs[k := Block(used, bs[k].size)]) == Span(bs)
    ensures forall j :: 0 <= j <= |bs| ==> Address(bs[k := Block(used, bs[k].size)], j) == Address(bs, j)
  {
    var marked := bs[k := Block(used, bs[k].size)];
    forall j | 0 <= j <= |bs|
      ensures Address(marked, j) == Address(bs, j)
    {
      SpanDependsOnlyOnSizes(marked[..j], bs[..j]);
    }
    SpanDependsOnlyOnSizes(marked, bs);
  }

  /** What findFreeBlock leaves behind: the list and the block it found, if any. */
  datatype Found = Found(blocks: seq<Block>, block: Option<nat>)

  /** findFreeBlock(size): NULL and an untouched list exactly when no free block is large
      enough; otherwise the lowest-addressed fitting block, claimed. */
  function FindFreeBlock(bs: seq<Block>, size: nat): (r: Found)
    ensures r.block.None? <==> forall j :: 0 <= j < |bs| ==> !Fits(bs[j], size)
    ensures r.block.None? ==> r.blocks == bs
    ensures r.block.Some? ==> IsFirstFit(bs, size, r.block.value)
    ensures r.block.Some? ==> r.blocks == Claim(bs, r.block.value, size)
  {
    match FirstFitFrom(bs, size, 0)
    case None => Found(bs, None)
    case Some(k) => Found(Claim(bs, k, size), Some(k))
  }

  /** There is at most one first fit. */
  lemma FirstFitUnique(bs: seq<Block>, size: nat, k: nat, k': nat)
    requires IsFirstFit(bs, size, k) && IsFirstFit(bs, size, k')
    ensures k == k'
  {
  }

  /** Splitting keeps every size rounded when the request is rounded. */
  lemma ClaimKeepsRounded(bs: seq<Block>, k: nat, size: nat)
    requires k < |bs| && bs[k].size >= size
    requires AllRounded(bs) && Rounded(size)
    ensures AllRounded(Claim(bs, k, size))
  {
  }

  /** Claiming a free block of a compact list keeps it compact: the block was not the tail,
      its successor is used, so a free remainder sits between two used blocks. */
  lemma ClaimKeepsCompact(bs: seq<Block>, k: nat, size: nat)
    requires k < |bs| && Fits(bs[k], size)
    requires Compact(bs)
    ensures Compact(Claim(bs, k, size))
  {
    var r := Claim(bs, k, size);
    assert k + 1 < |bs| && bs[k + 1].used;
    forall j | 0 < j < |r|
      ensures r[j - 1].used || r[j].used
    {
      if j < k {
        assert r[j] == bs[j] && r[j - 1] == bs[j - 1];
      } else if SplitsFor(bs[k], size) && j > k + 2 {
        assert r[j] == bs[j - 1] && r[j - 1] == bs[j - 2];
      } else if !SplitsFor(bs[k], size) && j > k + 1 {
        assert r[j] == bs[j] && r[j - 1] == bs[j - 1];
      }
    }
  }
}
