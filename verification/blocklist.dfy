/** List maintenance: node_link, node_unlink and the two coalescing steps (mymalloc.c:67-170).

    Splicing prev/next pointers becomes inserting, deleting and merging elements of the
    block sequence; heap_head and heap_tail are its first and last positions. */
module BlockList {
  import opened Wrappers
  import opened Sizing
  import opened Layout

  /** node_link(n, after): insert n right after `after`. A NULL `after` makes n the sole
      block (whatever the list held); a NULL n leaves the list alone. */
  function Link(bs: seq<Block>, n: Option<Block>, after: Option<nat>): (r: seq<Block>)
    requires after.Some? ==> after.value < |bs|
    ensures n.None? ==> r == bs
    ensures n.Some? && after.None? ==> r == [n.value]
    ensures n.Some? && after.Some? ==> |r| == |bs| + 1 && r[after.value + 1] == n.value
    ensures n.Some? && after.Some? ==> forall j :: 0 <= j <= after.value ==> r[j] == bs[j]
    ensures n.Some? && after.Some? ==> forall j :: after.value < j < |bs| ==> r[j + 1] == bs[j]
    ensures n.Some? && after.Some? ==>
              (TailIndex(r) == Some(after.value + 1) <==> TailIndex(bs) == after)
  {
    match n
    case None => bs
    case Some(b) =>
      match after
      case None => [b]
      case Some(i) =>
        if i == |bs| - 1 then bs + [b]            // after was the tail: n is the new tail
        else bs[..i + 1] + [b] + bs[i + 1..]
  }

  /** node_unlink(n): remove block n, repairing head and tail; NULL is a no-op. */
  function Unlink(bs: seq<Block>, n: Option<nat>): (r: seq<Block>)
    requires n.Some? ==> n.value < |bs|
    ensures n.None? ==> r == bs
    ensures n.Some? ==> |r| == |bs| - 1
    ensures n.Some? ==> forall j :: 0 <= j < n.value ==> r[j] == bs[j]
    ensures n.Some? ==> forall j :: n.value <= j < |r| ==> r[j] == bs[j + 1]
    ensures n.Some? ==> multiset(r) + multiset{bs[n.value]} == multiset(bs)
    ensures n.Some? && n.value == 0 && |bs| > 1 ==> r[0] == bs[1]
    ensures n.Some? && n.value == |bs| - 1 && |bs| > 1 ==> TailIndex(r) == Some(n.value - 1)
  {
    match n
    case None => bs
    case Some(i) =>
      assert bs == bs[..i] + [bs[i]] + bs[i + 1..];
      if i == 0 && i == |bs| - 1 then []          // sole block: head and tail both NULL
      else if i == 0 then bs[1..]                 // head: its successor becomes the head
      else if i == |bs| - 1 then bs[..i]          // tail: its predecessor becomes the tail
      else bs[..i] + bs[i + 1..]                  // interior: the neighbours are joined
  }

  /** Unlinking a block just linked after position i gives back the list. */
  lemma UnlinkUndoesLink(bs: seq<Block>, b: Block, i: nat)
    requires i < |bs|
    ensures Unlink(Link(bs, Some(b), Some(i)), Some(i + 1)) == bs
  {
  }

  /** Relinking an unlinked non-head block after its old predecessor gives back the list. */
  lemma LinkUndoesUnlink(bs: seq<Block>, i: nat)
    requires 0 < i < |bs|
    ensures Link(Unlink(bs, Some(i)), Some(bs[i]), Some(i - 1)) == bs
  {
  }

  /** Reference definition of coalescing: blocks lo..hi replaced by one block with the used
      flag of block lo, whose payload covers every byte those blocks occupied. */
  function MergeRange(bs: seq<Block>, lo: nat, hi: nat): (r: seq<Block>)
    requires lo <= hi < |bs|
    ensures |r| == |bs| - (hi - lo)
    ensures forall j :: 0 <= j < lo ==> r[j] == bs[j]
    ensures r[lo] == Block(bs[lo].used, bs[lo].size + Span(bs[lo + 1..hi + 1]))
    ensures forall j :: lo < j < |r| ==> r[j] == bs[j + (hi - lo)]
  {
    bs[..lo] + [Block(bs[lo].used, bs[lo].size + Span(bs[lo + 1..hi + 1]))] + bs[hi + 1..]
  }

  /** Merging moves no byte: the total span is kept, blocks up to lo keep their addresses,
      and every later block keeps the address it had before the merge. */
  lemma MergeRangeLayout(bs: seq<Block>, lo: nat, hi: nat)
    requires lo <= hi < |bs|
    ensures Span(MergeRange(bs, lo, hi)) == Span(bs)
    ensures forall j :: 0 <= j <= lo ==> Address(MergeRange(bs, lo, hi), j) == Address(bs, j)
    ensures forall j :: lo < j <= |MergeRange(bs, lo, hi)| ==>
              Address(MergeRange(bs, lo, hi), j) == Address(bs, j + (hi - lo))
  {
    var r := MergeRange(bs, lo, hi);
    var d := hi - lo;
    var m := r[lo];
    assert Footprint(m) == Span(bs[lo..hi + 1]) by {
      assert bs[lo..hi + 1][1..] == bs[lo + 1..hi + 1];
    }
    SpanSingleton(m);
    forall j | 0 <= j <= lo
      ensures Address(r, j) == Address(bs, j)
    {
      assert r[..j] == bs[..j];
    }
    forall j | lo < j <= |r|
      ensures Address(r, j) == Address(bs, j + d)
    {
      assert r[..j] == bs[..lo] + [m] + bs[hi + 1..j + d];
      assert bs[..j + d] == bs[..lo] + bs[lo..hi + 1] + bs[hi + 1..j + d];
      SpanConcat(bs[..lo] + [m], bs[hi + 1..j + d]);
      SpanConcat(bs[..lo], [m]);
      SpanConcat(bs[..lo] + bs[lo..hi + 1], bs[hi + 1..j + d]);
      SpanConcat(bs[..lo], bs[lo..hi + 1]);
    }
    assert r[..|r|] == r;
    assert bs[..|bs|] == bs;
    assert Address(r, |r|) == Address(bs, |r| + d);
  }

  /** Merged runs of rounded blocks are rounded (HEADER_SIZE is a multiple of 8). */
  lemma MergeRangeKeepsRounded(bs: seq<Block>, lo: nat, hi: nat)
    requires lo <= hi < |bs|
    requires AllRounded(bs)
    ensures AllRounded(MergeRange(bs, lo, hi))
  {
    SpanOfRoundedIsAligned(bs[lo + 1..hi + 1]);
  }

  /** A run of one block merges into itself. */
  lemma MergeNothing(bs: seq<Block>, i: nat)
    requires i < |bs|
    ensures MergeRange(bs, i, i) == bs
  {
  }

  /** Merging a run and then its successor is merging the longer run at once. */
  lemma MergeTwice(bs: seq<Block>, lo: nat, hi: nat)
    requires lo <= hi && hi + 1 < |bs|
    ensures MergeRange(MergeRange(bs, lo, hi), lo, lo + 1) == MergeRange(bs, lo, hi + 1)
  {
    var once := MergeRange(bs, lo, hi);
    assert once[lo + 1..lo + 2] == [bs[hi + 1]];
    assert bs[lo + 1..hi + 2] == bs[lo + 1..hi + 1] + [bs[hi + 1]];
    SpanConcat(bs[lo + 1..hi + 1], [bs[hi + 1]]);
    SpanSingleton(bs[hi + 1]);
  }

  /** node_coalesce_with_next(n): n absorbs its successor's header and payload; when the
      successor was the tail, n becomes the tail. Without a successor nothing happens. */
  function CoalesceWithNext(bs: seq<Block>, i: nat): (r: seq<Block>)
    requires i < |bs|
    ensures i == |bs| - 1 ==> r == bs
    ensures i < |bs| - 1 ==> r == MergeRange(bs, i, i + 1)
  {
    if i == |bs| - 1 then bs
    else
      var merged := Block(bs[i].used, bs[i].size + bs[i + 1].size + HEADER_SIZE);
      assert bs[i + 1..i + 2] == [bs[i + 1]];
      SpanSingleton(bs[i + 1]);
      if i + 1 == |bs| - 1 then bs[..i] + [merged]   // the successor was the tail
      else bs[..i] + [merged] + bs[i + 2..]
  }

  /** The effect of node_coalesce_with_next on a block with a successor: its size grows by
      the successor's size plus a header, the list loses one block, n is the tail exactly
      when its successor was, and the span of the list is unchanged. */
  lemma CoalesceWithNextEffect(bs: seq<Block>, i: nat)
    requires i < |bs| - 1
    ensures |CoalesceWithNext(bs, i)| == |bs| - 1
    ensures CoalesceWithNext(bs, i)[i].size == bs[i].size + bs[i + 1].size + HEADER_SIZE
    ensures TailIndex(CoalesceWithNext(bs, i)) == Some(i) <==> TailIndex(bs) == Some(i + 1)
    ensures Span(CoalesceWithNext(bs, i)) == Span(bs)
  {
    MergeRangeLayout(bs, i, i + 1);
  }

  /** The result of node_coalesce_with_neighbors: the list and the surviving block. */
  datatype Merged = Merged(blocks: seq<Block>, survivor: nat)

  /** First block of the run a released block i joins: its predecessor when that is free. */
  function RunStart(bs: seq<Block>, i: nat): nat
    requires i < |bs|
  {
    if i > 0 && !bs[i - 1].used then i - 1 else i
  }

  /** Last block of that run: its successor when that is free. */
  function RunEnd(bs: seq<Block>, i: nat): nat
    requires i < |bs|
  {
    if i + 1 < |bs| && !bs[i + 1].used then i + 1 else i
  }

  /** node_coalesce_with_neighbors(n), branch for branch: whatever the case split, the
      outcome is that block i and its free neighbours become one block, and the survivor is
      the first block of that run (the predecessor exactly when it was free). */
  function CoalesceWithNeighbors(bs: seq<Block>, i: nat): (r: Merged)
    requires i < |bs|
    ensures r.survivor == RunStart(bs, i)
    ensures r.blocks == MergeRange(bs, RunStart(bs, i), RunEnd(bs, i))
  {
    var hasPrev := i > 0;
    var hasNext := i + 1 < |bs|;
    if !hasPrev && !hasNext then
      MergeNothing(bs, i);
      Merged(bs, i)
    else if !hasPrev then
      if !bs[i + 1].used then Merged(CoalesceWithNext(bs, i), i)
      else (MergeNothing(bs, i); Merged(bs, i))
    else if !hasNext then
      if !bs[i - 1].used then Merged(CoalesceWithNext(bs, i - 1), i - 1)
      else (MergeNothing(bs, i); Merged(bs, i))
    else if !bs[i + 1].used && !bs[i - 1].used then
      MergeTwice(bs, i - 1, i);
      Merged(CoalesceWithNext(CoalesceWithNext(bs, i - 1), i - 1), i - 1)
    else if !bs[i + 1].used then
      Merged(CoalesceWithNext(bs, i), i)
    else if !bs[i - 1].used then
      Merged(CoalesceWithNext(bs, i - 1), i - 1)
    else
      MergeNothing(bs, i);
      Merged(bs, i)
  }

  /** node_coalesce_with_neighbors returns prev exactly when prev was free, and n otherwise. */
  lemma CoalesceSurvivor(bs: seq<Block>, i: nat)
    requires i < |bs|
    ensures i > 0 && !bs[i - 1].used <==> CoalesceWithNeighbors(bs, i).survivor == i - 1
    ensures !(i > 0 && !bs[i - 1].used) ==> CoalesceWithNeighbors(bs, i).survivor == i
  {
  }
}
