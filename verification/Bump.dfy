/** An allocator as the proofs assume it: it takes new blocks from the end of memory. */
module Bump {
  import opened Wrappers
  import opened Bytes
  import opened Abi
  import opened CanonicalSizes
  import opened Heaps

  function BlockStart(h: Heap, align: nat): (p: nat)
    ensures p >= |h.mem| && (align > 0 ==> p % align == 0)
  {
    if align == 0 then |h.mem| else AlignTo(|h.mem|, align)
  }

  function Addresses(lo: nat, size: nat): (s: set<nat>)
    ensures forall a: nat :: a in s <==> lo <= a < lo + size
    decreases size
  {
    if size == 0 then {} else Addresses(lo, size - 1) + {lo + size - 1}
  }

  /** The memory is grown by the block, as long as it stays within `limit` bytes. */
  function Bump(limit: nat): Realloc
  {
    (h: Heap, align: nat, size: nat) =>
      var p := BlockStart(h, align);
      if p + size > limit || p >= limit then None
      else
        var grown: Memory := h.mem + seq(p + size - |h.mem|, i => 0);
        Some((p, Heap(grown, h.used + Addresses(p, size))))
  }

  /** It is such an allocator, below 2^31 if its limit is, and serves every request that the limit leaves room for. */
  lemma BumpGood(limit: nat)
    requires limit <= TWO32
    ensures GoodRealloc(Bump(limit)) && (limit <= TWO31 ==> LowRealloc(Bump(limit)))
    ensures forall h, align, size :: BlockStart(h, align) + size < limit ==> Bump(limit)(h, align, size).Some?
  {
    forall h, align, size | Sound(h)
      ensures Allocates(Bump(limit), h, align, size)
    {
      BumpAllocates(limit, h, align, size);
    }
  }

  lemma BumpAllocates(limit: nat, h: Heap, align: nat, size: nat)
    requires limit <= TWO32 && Sound(h)
    ensures Allocates(Bump(limit), h, align, size)
  {
  }

  /** Blocks above 2^31 are among those assumed: such an allocator hands them out when half of the memory is taken. */
  lemma HighBlock(h: Heap)
    requires Sound(h) && TWO31 <= |h.mem| < TWO32
    ensures Bump(TWO32)(h, 1, 0).Some? && Bump(TWO32)(h, 1, 0).value.0 >= TWO31
    ensures !LowRealloc(Bump(TWO32))
  {
    AlignOne(|h.mem|);
  }

  lemma {:induction false} AlignOne(n: nat)
    ensures AlignTo(n, 1) == n
  {
    if n > 1 {
      AlignOne(n - 1);
    }
  }
}
