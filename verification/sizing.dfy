/** The allocator's size constants and the rounding of request sizes (mymalloc.c:15-54). */
module Sizing {

  /** Every allocation is at least this many bytes. */
  const MINIMUM_ALLOCATION: nat := 16

  /** Every allocation is a multiple of this many bytes (a power of two). */
  const SIZE_MULTIPLE: nat := 8

  /** sizeof(Header) under LP64: a bool padded to 8 bytes, a size_t and two pointers. */
  const HEADER_SIZE: nat := 32

  /** The largest value of a 64-bit size_t. */
  const SIZE_MAX: nat := 0xFFFF_FFFF_FFFF_FFFF

  /** The shape of every payload size in the block list. */
  predicate Rounded(size: nat) {
    size >= MINIMUM_ALLOCATION && size % SIZE_MULTIPLE == 0
  }

  /** `x & ~(SIZE_MULTIPLE - 1)`: with a power-of-two multiple the mask clears exactly the
      remainder modulo SIZE_MULTIPLE. */
  function AlignDown(x: nat): (r: nat)
    ensures r % SIZE_MULTIPLE == 0
    ensures r <= x < r + SIZE_MULTIPLE
  {
    x - x % SIZE_MULTIPLE
  }

  /** round_up_size on unbounded sizes: 0 stays 0, anything else becomes the least multiple
      of SIZE_MULTIPLE that is at least both the request and MINIMUM_ALLOCATION. */
  function RoundUpSize(s: nat): (r: nat)
    ensures r == 0 <==> s == 0
    ensures s > 0 ==> Rounded(r) && r >= s
    ensures 0 < s <= MINIMUM_ALLOCATION ==> r == MINIMUM_ALLOCATION
    ensures s >= MINIMUM_ALLOCATION ==> r < s + SIZE_MULTIPLE
  {
    if s == 0 then 0
    else if s < MINIMUM_ALLOCATION then MINIMUM_ALLOCATION
    else AlignDown(s + (SIZE_MULTIPLE - 1))
  }

  /** round_up_size with the size_t addition of the source, which wraps modulo 2^64. It
      agrees with RoundUpSize wherever the addition does not wrap. */
  function RoundUpSizeAsWritten(s: nat): (r: nat)
    requires s <= SIZE_MAX
    ensures r <= SIZE_MAX
    ensures s + (SIZE_MULTIPLE - 1) <= SIZE_MAX ==> r == RoundUpSize(s)
  {
    if s == 0 then 0
    else if s < MINIMUM_ALLOCATION then MINIMUM_ALLOCATION
    else AlignDown((s + (SIZE_MULTIPLE - 1)) % (SIZE_MAX + 1))
  }

  /** The wrap-around: the seven largest requests round to 0, the value reserved for a
      zero-byte request, although none of them is zero. */
  lemma RoundUpSizeAsWrittenWrapsToZero()
    ensures forall s :: SIZE_MAX - (SIZE_MULTIPLE - 2) <= s <= SIZE_MAX ==>
              s != 0 && RoundUpSizeAsWritten(s) == 0
  {
  }
}
