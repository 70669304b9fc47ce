/** Lowering and lifting from end to end, for every type, JavaScript value, memory and allocator. */
module RoundTrips {
  import opened Wrappers
  import opened Bytes
  import opened Abi
  import opened JsRepr
  import opened Lifting
  import opened LiftExact
  import opened Heaps
  import opened Lowering
  import opened Taking
  import opened Refusal
  import opened HighBlocks
  import opened Lengths
  import opened LowerExact

  /** The lists of `js` are short, or the memory is not within an element of 4 GiB afterwards. */
  predicate Counted(L: Layout, ty: Ty, js: Js, r: Result<Heap, Failure>)
  {
    Short(L, ty, js) || Spare(L, ty, |HeapOf(r).mem|)
  }

  /** Only what is taken for a value is lowered, and then, unless the memory is as good as full, with short lists. */
  lemma LoweredCounted(L: Layout, realloc: Realloc, ty: Ty, js: Js, h: Heap, addr: int)
    requires GoodLayout(L) && GoodRealloc(realloc) && WellFormed(ty) && JsArrays(js) && Sound(h)
    requires Lower(L, realloc, ty, js, h, addr).Ok?
    ensures FromJs(ty, js).Some? && HasType(ty, FromJs(ty, js).value)
    ensures Counted(L, ty, js, Lower(L, realloc, ty, js, h, addr)) ==> Taken(L, ty, js, FromJs(ty, js).value)
  {
    hide Lower, FromJs, HasType, WellFormed, Sound, GoodLayout, GoodRealloc, Short, Spare, JsArrays;
    LoweredTaken(L, realloc, ty, js, h, addr);
    TakenTyped(ty, js);
    var h' := Lower(L, realloc, ty, js, h, addr).value;
    if Spare(L, ty, |h'.mem|) {
      LoweredShort(L, realloc, ty, js, h, addr, h', |h'.mem|);
    }
  }

  /**
   For every type, JavaScript value, memory and allocator. Success means that `js` was taken for a value, and that the
   memory holds it, with only its place and new blocks written, unless the memory is within an element of 4 GiB and a
   list is too long. A failure has one of four causes.
   */
  lemma LowerRight(L: Layout, realloc: Realloc, ty: Ty, js: Js, h: Heap, addr: nat)
    requires GoodLayout(L) && GoodRealloc(realloc) && WellFormed(ty) && JsArrays(js)
    requires Sound(h) && Used(h, addr, addr + L.size(ty))
    ensures var r := Lower(L, realloc, ty, js, h, addr);
      r.Ok? ==> FromJs(ty, js).Some? && HasType(ty, FromJs(ty, js).value) && (Counted(L, ty, js, r) ==>
        Done(L, ty, FromJs(ty, js).value, h, r.value, addr, addr, addr + L.size(ty)))
    ensures var r := Lower(L, realloc, ty, js, h, addr);
      r.Err? ==> (
        || r.error.fault == Trap || FromJs(ty, js).None?
        || (r.error.fault == RangeError && (!LowRealloc(realloc) || !Short(L, ty, js))))
  {
    hide Lower, FromJs, Done, HasType, WellFormed, Used, Sound, GoodLayout, GoodRealloc, LowRealloc, Short, JsArrays;
    var r := Lower(L, realloc, ty, js, h, addr);
    if r.Ok? {
      LoweredCounted(L, realloc, ty, js, h, addr);
    } else if FromJs(ty, js).Some? {
      TakenTyped(ty, js);
      NeverTypeError(L, realloc, ty, js, h, addr);
    }
    if FromJs(ty, js).Some? && Taken(L, ty, js, FromJs(ty, js).value) {
      TakenLowered(L, realloc, ty, js, FromJs(ty, js).value, h, addr);
    }
  }

  /**
   With blocks below 2^31, and a memory that is not within an element of 4 GiB: unless the allocator traps, lowering
   succeeds exactly if `js` is taken for a value and its lists are short.
   */
  lemma LowRight(L: Layout, realloc: Realloc, ty: Ty, js: Js, h: Heap, addr: nat)
    requires GoodLayout(L) && GoodRealloc(realloc) && LowRealloc(realloc) && WellFormed(ty) && JsArrays(js)
    requires Sound(h) && Used(h, addr, addr + L.size(ty))
    ensures var r := Lower(L, realloc, ty, js, h, addr);
      Spare(L, ty, |HeapOf(r).mem|) ==>
        ((r.Err? && r.error.fault == Trap) || (r.Ok? <==> FromJs(ty, js).Some? && Short(L, ty, js)))
  {
    hide Lower, FromJs, Done, HasType, WellFormed, Used, Sound, GoodLayout, GoodRealloc, LowRealloc, Short, JsArrays;
    var r := Lower(L, realloc, ty, js, h, addr);
    LowerRight(L, realloc, ty, js, h, addr);
    if r.Ok? {
      LoweredCounted(L, realloc, ty, js, h, addr);
    }
  }

  /** Lifting what was lowered, with or without validation, gives the representation of the value that was taken. */
  lemma RoundTrip(L: Layout, realloc: Realloc, fast: bool, ty: Ty, js: Js, h: Heap, addr: nat)
    requires GoodLayout(L) && GoodRealloc(realloc) && WellFormed(ty) && JsArrays(js)
    requires Sound(h) && Used(h, addr, addr + L.size(ty))
    requires Lower(L, realloc, ty, js, h, addr).Ok? && Counted(L, ty, js, Lower(L, realloc, ty, js, h, addr))
    ensures FromJs(ty, js).Some? && HasType(ty, FromJs(ty, js).value)
    ensures Lift(L, fast, ty, Lower(L, realloc, ty, js, h, addr).value.mem, addr) == Ok(ToJs(ty, FromJs(ty, js).value))
  {
    hide Lower, Lift, FromJs, HasType, WellFormed, Used, Sound, GoodLayout, GoodRealloc, Short, JsArrays, Extends, Own;
    LowerRight(L, realloc, ty, js, h, addr);
    var h', v := Lower(L, realloc, ty, js, h, addr).value, FromJs(ty, js).value;
    LiftRight(L, fast, ty, v, h'.mem, addr, Own(h, h', addr, addr + L.size(ty)));
  }

  /** A representation is lifted again as it was. */
  lemma SameAgain(L: Layout, realloc: Realloc, fast: bool, ty: Ty, v: Val, h: Heap, addr: nat)
    requires GoodLayout(L) && GoodRealloc(realloc) && WellFormed(ty) && HasType(ty, v) && JsArrays(ToJs(ty, v))
    requires Sound(h) && Used(h, addr, addr + L.size(ty))
    requires var r := Lower(L, realloc, ty, ToJs(ty, v), h, addr);
      r.Ok? && Counted(L, ty, ToJs(ty, v), r)
    ensures Lift(L, fast, ty, Lower(L, realloc, ty, ToJs(ty, v), h, addr).value.mem, addr) == Ok(ToJs(ty, v))
  {
    ToJsTaken(ty, v);
    RoundTrip(L, realloc, fast, ty, ToJs(ty, v), h, addr);
  }

  // ----- the loop over a list -----

  function Values(t: Ty, items: seq<Js>): (vs: seq<Val>)
    requires ElementsTaken(t, items)
    ensures |vs| == |items|
  {
    seq(|items|, i requires 0 <= i < |items| => FromJs(t, items[i]).value)
  }

  /** After the loop the block holds all elements, and nothing else in use is written. */
  lemma ElementsHeld(L: Layout, realloc: Realloc, t: Ty, items: seq<Js>, h: Heap, p: nat, h': Heap)
    requires GoodLayout(L) && GoodRealloc(realloc) && WellFormed(t) && (forall i :: 0 <= i < |items| ==> JsArrays(items[i]))
    requires Sound(h) && Used(h, p, ElementAddr(p, L.size(t), |items|)) && Spare(L, t, |h'.mem|)
    requires LowerElements(L, realloc, t, items, h, p, |items|) == Ok(h')
    ensures ElementsTaken(t, items) && Extends(h, h', p, ElementAddr(p, L.size(t), |items|))
    ensures ElementsAt(L, t, Values(t, items), h'.mem, p, Own(h, h', p, ElementAddr(p, L.size(t), |items|)))
  {
    hide Lower, FromJs, Holds, Extends, Used, Own, Sound, GoodLayout, GoodRealloc, WellFormed, JsArrays, Short, Spare;
    hide ElementsAt;
    var n := |items|;
    assert items[..n] == items;
    ElementsLoweredTaken(L, realloc, t, items, h, p, n);
    ElementsShort(L, realloc, t, items, h, p, n, h', |h'.mem|);
    ValuesTyped(t, items);
    ElementsLowered(L, realloc, t, items, Values(t, items), h, p, n);
    assert Values(t, items)[..n] == Values(t, items);
  }

  lemma ValuesTyped(t: Ty, items: seq<Js>)
    requires ElementsTaken(t, items)
    ensures ElementsTyped(t, Values(t, items)) && ElementsAre(t, items, Values(t, items))
  {
    forall i | 0 <= i < |items|
      ensures HasType(t, Values(t, items)[i])
    {
      TakenTyped(t, items[i]);
    }
  }

  /** Round `n` of the loop leaves its element in its own slot, and writes only this slot and new blocks. */
  lemma ElementInOwnSlot(
    L: Layout, realloc: Realloc, t: Ty, items: seq<Js>, h: Heap, p: nat, n: nat, h1: Heap, h2: Heap)
    requires GoodLayout(L) && GoodRealloc(realloc) && WellFormed(t) && n < |items| && JsArrays(items[n])
    requires Sound(h) && Used(h, p, ElementAddr(p, L.size(t), |items|)) && Spare(L, t, |h2.mem|)
    requires LowerElements(L, realloc, t, items, h, p, n) == Ok(h1)
    requires LowerElements(L, realloc, t, items, h, p, n + 1) == Ok(h2)
    ensures FromJs(t, items[n]).Some?
    ensures var lo, hi := ElementAddr(p, L.size(t), n), ElementAddr(p, L.size(t), n + 1);
      Extends(h1, h2, lo, hi) && Holds(L, t, FromJs(t, items[n]).value, h2.mem, lo, Own(h1, h2, lo, hi))
  {
    hide Lower, FromJs, Holds, Extends, Used, Own, Sound, GoodLayout, GoodRealloc, WellFormed, JsArrays, Short, Spare;
    hide Grown, HasType;
    ElementsGrow(L, realloc, t, items, h, p, n);
    GrownParts(h, h1);
    var lo, hi := ElementAddr(p, L.size(t), n), ElementAddr(p, L.size(t), n + 1);
    LowerRight(L, realloc, t, items[n], h1, lo) by {
      AddrMonotone(p, L.size(t), n + 1, |items|);
      UsedPart(h, p, ElementAddr(p, L.size(t), |items|), lo, hi);
      UsedLater(h, h1, lo, hi);
    }
  }

  // ----- blocks from 2^31 on -----

  /**
   A list whose block starts at 2^31 or above is lowered exactly if its items are taken for values that take no room, or
   there are none, and it is not a typed array of numbers.
   */
  lemma HighList(L: Layout, realloc: Realloc, t: Ty, js: Js, h: Heap, addr: nat, p: nat, h1: Heap)
    requires GoodLayout(L) && GoodRealloc(realloc) && WellFormed(t) && Items(js).Some?
    requires Sound(h) && Used(h, addr, addr + 8)
    requires realloc(h, L.align(t), (LengthOf(t, js) * L.size(t)) % TWO32) == Some((p, h1)) && p >= TWO31
    ensures LowerList(L, realloc, t, js, h, addr).Ok? <==> HighFits(t, js)
  {
    hide Fill, StoreSlot, LengthOf, Used, HighFits;
    assert Allocates(realloc, h, L.align(t), (LengthOf(t, js) * L.size(t)) % TWO32);
    HighFill(L, realloc, t, js, h1, p);
    if HighFits(t, js) {
      UsedLater(h, h1, addr, addr + 8);
      SlotSpace(h1, addr, Signed(p, 4), LengthOf(t, js));
    }
  }

  lemma SlotSpace(h: Heap, addr: nat, ptr: int, len: nat)
    requires Sound(h) && Used(h, addr, addr + 8)
    ensures StoreSlot(h, addr, ptr, len).Ok?
  {
    UsedInside(h, addr, addr + 8);
  }
}
