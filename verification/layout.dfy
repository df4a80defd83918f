/** The block list as a sequence ordered by address, and the byte layout it implies.

    The C list of headers (mymalloc.c:31-42) becomes a `seq<Block>` running from heap_head
    to heap_tail: a header's prev and next are its neighbours in the sequence, and a
    header's address is the sum of the footprints of the blocks before it. */
module Layout {
  import opened Wrappers
  import opened Sizing

  /** One header: whether the block is handed out, and its payload size in bytes. */
  datatype Block = Block(used: bool, size: nat)

  /** The managed region: its blocks in address order and the bytes obtained from sbrk. */
  datatype Heap = Heap(blocks: seq<Block>, region: nat)

  /** Header plus payload. */
  function Footprint(b: Block): nat {
    HEADER_SIZE + b.size
  }

  /** Bytes covered by a run of consecutive blocks. */
  function Span(bs: seq<Block>): nat {
    if |bs| == 0 then 0 else Footprint(bs[0]) + Span(bs[1..])
  }

  /** Offset of the header of block i from the start of the region. */
  function Address(bs: seq<Block>, i: nat): nat
    requires i <= |bs|
  {
    Span(bs[..i])
  }

  /** Offset of the payload of block i, which starts right after its header (`header + 1`). */
  function Payload(bs: seq<Block>, i: nat): nat
    requires i < |bs|
  {
    Address(bs, i) + HEADER_SIZE
  }

  /** heap_tail: the last block, or NULL for an empty list. */
  function TailIndex(bs: seq<Block>): Option<nat> {
    if |bs| == 0 then None else Some(|bs| - 1)
  }

  /** The blocks tile the region exactly: no gap, no overlap, nothing past the break. */
  predicate Tiles(h: Heap) {
    Span(h.blocks) == h.region
  }

  predicate AllRounded(bs: seq<Block>) {
    forall i :: 0 <= i < |bs| ==> Rounded(bs[i].size)
  }

  predicate NoAdjacentFree(bs: seq<Block>) {
    forall i :: 0 < i < |bs| ==> bs[i - 1].used || bs[i].used
  }

  predicate TailUsed(bs: seq<Block>) {
    |bs| > 0 ==> bs[|bs| - 1].used
  }

  /** The layout invariant every operation keeps. */
  predicate Valid(h: Heap) {
    Tiles(h) && AllRounded(h.blocks)
  }

  /** The shape invariant that eager coalescing and shrinking keep. */
  predicate Compact(bs: seq<Block>) {
    NoAdjacentFree(bs) && TailUsed(bs)
  }

  lemma SpanSingleton(b: Block)
    ensures Span([b]) == Footprint(b)
  {
    assert [b][1..] == [];
  }

  lemma {:induction false} SpanConcat(a: seq<Block>, b: seq<Block>)
    ensures Span(a + b) == Span(a) + Span(b)
  {
    if |a| == 0 {
      assert a + b == b;
    } else {
      assert (a + b)[1..] == a[1..] + b;
      SpanConcat(a[1..], b);
    }
  }

  /** The span counts sizes only: flipping used flags moves no block. */
  lemma {:induction false} SpanDependsOnlyOnSizes(a: seq<Block>, b: seq<Block>)
    requires |a| == |b|
    requires forall i :: 0 <= i < |a| ==> a[i].size == b[i].size
    ensures Span(a) == Span(b)
  {
    if |a| > 0 {
      SpanDependsOnlyOnSizes(a[1..], b[1..]);
    }
  }

  lemma {:induction false} SpanOfRoundedIsAligned(bs: seq<Block>)
    requires AllRounded(bs)
    ensures Span(bs) % SIZE_MULTIPLE == 0
  {
    if |bs| > 0 {
      SpanOfRoundedIsAligned(bs[1..]);
    }
  }

  lemma AddressSplit(bs: seq<Block>, i: nat, j: nat)
    requires i <= j <= |bs|
    ensures Address(bs, j) == Address(bs, i) + Span(bs[i..j])
  {
    assert bs[..j] == bs[..i] + bs[i..j];
    SpanConcat(bs[..i], bs[i..j]);
  }

  /** Block i ends at or before the header of every later block. */
  lemma AddressesIncrease(bs: seq<Block>, i: nat, j: nat)
    requires i < j <= |bs|
    ensures Address(bs, i) + Footprint(bs[i]) <= Address(bs, j)
  {
    AddressSplit(bs, i, j);
  }

  /** The last block ends exactly at the end of the list's span. */
  lemma SpanLast(bs: seq<Block>)
    requires |bs| > 0
    ensures Span(bs) == Address(bs, |bs| - 1) + Footprint(bs[|bs| - 1])
  {
    var n := |bs| - 1;
    assert bs == bs[..n] + [bs[n]];
    SpanConcat(bs[..n], [bs[n]]);
    SpanSingleton(bs[n]);
  }

  lemma PayloadsShift(bs: seq<Block>)
    requires |bs| > 0
    ensures forall i :: 0 < i < |bs| ==> Payload(bs, i) == Footprint(bs[0]) + Payload(bs[1..], i - 1)
  {
    forall i | 0 < i < |bs|
      ensures Payload(bs, i) == Footprint(bs[0]) + Payload(bs[1..], i - 1)
    {
      assert bs[..i][1..] == bs[1..][..i - 1];
    }
  }

  /** `(Header*) ptr - 1`: the block whose payload starts at offset p, if there is one. */
  function PayloadIndex(bs: seq<Block>, p: nat): (r: Option<nat>)
    ensures r.Some? ==> r.value < |bs| && Payload(bs, r.value) == p
    ensures r.None? ==> forall i :: 0 <= i < |bs| ==> Payload(bs, i) != p
  {
    if |bs| == 0 then None
    else
      PayloadsShift(bs);
      if p == HEADER_SIZE then Some(0)
      else if p < Footprint(bs[0]) then None
      else
        match PayloadIndex(bs[1..], p - Footprint(bs[0]))
        case None => None
        case Some(j) => Some(j + 1)
  }

  /** Going from a header to its payload and back lands on the same block. */
  lemma PayloadIndexOfPayload(bs: seq<Block>, k: nat)
    requires k < |bs|
    ensures PayloadIndex(bs, Payload(bs, k)) == Some(k)
  {
    var r := PayloadIndex(bs, Payload(bs, k));
    assert r.Some?;
    if r.value < k {
      AddressesIncrease(bs, r.value, k);
    } else if r.value > k {
      AddressesIncrease(bs, k, r.value);
    }
  }
}
