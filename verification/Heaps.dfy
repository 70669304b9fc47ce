/** A guest's memory, its allocator, and what may change when parts of it are written. */
module Heaps {
  import opened Wrappers
  import opened Bytes
  import opened Abi

  /** A memory, and the addresses that are in use. */
  datatype Heap = Heap(mem: Memory, used: set<nat>)

  predicate Sound(h: Heap) { |h.mem| <= TWO32 && forall a :: a in h.used ==> a < |h.mem| }

  /** The guest's `realloc(0, 0, align, size)`: the new block, or None for a trap. */
  type Realloc = (Heap, nat, nat) -> Option<(nat, Heap)>

  /** The bytes at addresses in use are left alone, except from `lo` up to `hi`. */
  predicate Extends(h: Heap, h': Heap, lo: int, hi: int)
  {
    && Sound(h') && h.used <= h'.used && |h.mem| <= |h'.mem|
    && forall a :: a in h.used && a < |h.mem| && !(lo <= a < hi) ==> h'.mem[a] == h.mem[a]
  }

  /** All addresses from `lo` up to `hi` are in use. */
  predicate Used(h: Heap, lo: int, hi: int) { 0 <= lo && forall a: nat :: lo <= a < hi ==> a in h.used }

  /**
   What is known of the allocator: the block is new, aligned as asked for and lies in memory, and the bytes in use keep
   their place and value. It may grow the memory and write wherever nothing is in use.
   */
  ghost predicate Allocates(realloc: Realloc, h: Heap, align: nat, size: nat)
  {
    match realloc(h, align, size)
    case None => true
    case Some((p, h')) =>
      && Extends(h, h', 0, 0) && Used(h', p, p + size) && p < TWO32 && p + size <= |h'.mem|
      && (align > 0 ==> p % align == 0)
      && forall a: nat :: p <= a < p + size ==> a !in h.used
  }

  ghost predicate GoodRealloc(realloc: Realloc)
  {
    forall h, align, size :: Sound(h) ==> Allocates(realloc, h, align, size)
  }

  /** All blocks start below 2^31, where JavaScript sees a pointer from the guest as the number it is. */
  ghost predicate LowRealloc(realloc: Realloc)
  {
    forall h, align, size :: Sound(h) && realloc(h, align, size).Some? ==> realloc(h, align, size).value.0 < TWO31
  }

  /** The addresses that a write to `lo` up to `hi` may depend on: these, and the newly used ones. */
  function Own(h: Heap, h': Heap, lo: int, hi: int): set<nat>
  {
    set a | a in h'.used && (a !in h.used || lo <= a < hi)
  }

  /** A write from `lo` up to `hi`. */
  function Write(h: Heap, at: nat, s: seq<byte>): Heap
    requires at + |s| <= |h.mem|
  {
    h.(mem := Splice(h.mem, at, s))
  }

  lemma Written(h: Heap, at: nat, s: seq<byte>)
    requires Sound(h) && Used(h, at, at + |s|) && at + |s| <= |h.mem|
    ensures Extends(h, Write(h, at, s), at, at + |s|)
    ensures BytesAt(Write(h, at, s).mem, at, s, Own(h, Write(h, at, s), at, at + |s|))
  {
  }

  /** A region in use, and not empty, lies in memory. */
  lemma UsedInside(h: Heap, lo: nat, hi: nat)
    requires Sound(h) && Used(h, lo, hi) && lo < hi
    ensures hi <= |h.mem|
  {
    assert (hi - 1) in h.used;
  }

  lemma UsedLater(h: Heap, h': Heap, lo: int, hi: int)
    requires Used(h, lo, hi) && h.used <= h'.used
    ensures Used(h', lo, hi)
  {
  }

  lemma UsedPart(h: Heap, lo: int, hi: int, lo': int, hi': int)
    requires Used(h, lo, hi) && lo <= lo' && hi' <= hi
    ensures Used(h, lo', hi')
  {
  }

  /** Two writes to disjoint parts of a region: the first is kept by the second, and together they write the region. */
  lemma Frames(h0: Heap, h1: Heap, h2: Heap, lo1: int, hi1: int, lo2: int, hi2: int, lo: int, hi: int)
    requires Extends(h0, h1, lo1, hi1) && Extends(h1, h2, lo2, hi2) && Sound(h0)
    requires lo <= lo1 && hi1 <= hi && lo <= lo2 && hi2 <= hi && (hi1 <= lo2 || hi2 <= lo1)
    requires Used(h0, lo, hi)
    ensures Extends(h0, h2, lo, hi)
    ensures Agree(h1.mem, h2.mem, Own(h0, h1, lo1, hi1))
    ensures Own(h0, h1, lo1, hi1) <= Own(h0, h2, lo, hi)
    ensures Own(h1, h2, lo2, hi2) <= Own(h0, h2, lo, hi)
  {
  }

  /** A larger region allows more. */
  lemma Wider(h: Heap, h': Heap, lo: int, hi: int, lo': int, hi': int)
    requires Extends(h, h', lo, hi) && lo' <= lo && hi <= hi'
    ensures Extends(h, h', lo', hi') && Own(h, h', lo, hi) <= Own(h, h', lo', hi')
  {
  }

  /** A block is allocated and written, and then a region that was in use before. */
  lemma AllocFrames(h0: Heap, h1: Heap, h2: Heap, h3: Heap, p: nat, end: int, lo: int, hi: int)
    requires Sound(h0) && Extends(h0, h1, 0, 0) && Extends(h1, h2, p, end) && Extends(h2, h3, lo, hi)
    requires Used(h0, lo, hi) && forall a: nat :: p <= a < end ==> a !in h0.used
    ensures Extends(h0, h3, lo, hi)
    ensures Agree(h2.mem, h3.mem, Own(h1, h2, p, end))
    ensures Own(h1, h2, p, end) <= Own(h0, h3, lo, hi)
    ensures Own(h2, h3, lo, hi) <= Own(h0, h3, lo, hi)
  {
  }
}
