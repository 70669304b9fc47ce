/** Lowering to an address that JavaScript sees as negative: it fails for every type whose values take room. */
module HighBlocks {
  import opened Wrappers
  import opened Bytes
  import opened Flags
  import opened Abi
  import opened JsRepr
  import opened Heaps
  import opened Lowering
  import opened Taking
  import opened Refusal

  // ----- types without bytes -----

  /** A value that takes no room is lowered without a write, at every address. */
  lemma {:induction false} NothingLowered(L: Layout, realloc: Realloc, ty: Ty, js: Js, h: Heap, addr: int)
    requires !HasBytes(ty) && FromJs(ty, js).Some?
    ensures Lower(L, realloc, ty, js, h, addr) == Ok(h)
    decreases ty, 1
  {
    if ty.TupleTy? {
      NoFieldsLowered(L, realloc, ty, Items(js).value, h, addr, |ty.fields|);
    } else if ty.AliasTy? {
      NothingLowered(L, realloc, ty.target, js, h, addr);
    }
  }

  lemma {:induction false} NoFieldsLowered(
    L: Layout, realloc: Realloc, ty: Ty, items: seq<Js>, h: Heap, addr: int, n: nat)
    requires ty.TupleTy? && n <= |ty.fields| && !HasBytes(ty)
    requires forall i :: 0 <= i < |ty.fields| ==> FieldFromJs(ty, items, i).Some?
    ensures LowerFields(L, realloc, ty, items, h, addr, n) == Ok(h)
    decreases ty, 0, n
  {
    if n > 0 {
      NoFieldsLowered(L, realloc, ty, items, h, addr, n - 1);
      assert FieldFromJs(ty, items, n - 1).Some?;
      NothingLowered(L, realloc, ty.fields[n - 1], ItemAt(items, n - 1), h, addr + L.field(ty, n - 1));
    }
  }

  lemma {:induction false} NoElementsLowered(
    L: Layout, realloc: Realloc, t: Ty, items: seq<Js>, h: Heap, ptr: int, n: nat)
    requires n <= |items| && !HasBytes(t) && ElementsTaken(t, items)
    ensures LowerElements(L, realloc, t, items, h, ptr, n) == Ok(h)
    decreases n
  {
    if n > 0 {
      NoElementsLowered(L, realloc, t, items, h, ptr, n - 1);
      NothingLowered(L, realloc, t, items[n - 1], h, ElementAddr(ptr, L.size(t), n - 1));
    }
  }

  /** Every memory holds such a value, wherever it is looked for. */
  lemma {:induction false} NothingHeld(L: Layout, ty: Ty, v: Val, mem: Memory, addr: nat, own: set<nat>)
    requires !HasBytes(ty) && HasType(ty, v)
    ensures Holds(L, ty, v, mem, addr, own)
    decreases ty
  {
    if ty.TupleTy? {
      forall i | 0 <= i < |v.fields|
        ensures Holds(L, ty.fields[i], v.fields[i], mem, addr + L.field(ty, i), own)
      {
        NothingHeld(L, ty.fields[i], v.fields[i], mem, addr + L.field(ty, i), own);
      }
    } else if ty.AliasTy? {
      NothingHeld(L, ty.target, v, mem, addr, own);
    }
  }

  lemma {:induction false} NumHasBytes(t: Ty)
    requires ArrayNum(t).Some?
    ensures HasBytes(t)
  {
    if t.AliasTy? {
      NumHasBytes(t.target);
    }
  }

  // ----- types with bytes -----

  function FirstWithBytes(fields: seq<Ty>, n: nat): (i: nat)
    requires n <= |fields| && BytesBefore(fields, n)
    ensures i < n && HasBytes(fields[i]) && !BytesBefore(fields, i)
  {
    if BytesBefore(fields, n - 1) then FirstWithBytes(fields, n - 1) else n - 1
  }

  lemma {:induction false} FirstWordFails(n: nat, words: seq<int>, h: Heap, addr: int, k: nat)
    requires 0 < k <= |words| && addr < 0
    ensures StoreWords(n, words, h, addr, k).Err?
    decreases k
  {
    if k > 1 {
      FirstWordFails(n, words, h, addr, k - 1);
    } else {
      assert StoreWords(n, words, h, addr, 0) == Ok(h) && WordOffset(n, 0) == 0;
    }
  }

  lemma {:induction false} FirstStoreFails(k: Num, items: seq<Js>, h: Heap, ptr: int, n: nat)
    requires ptr < 0 && 0 < n <= |items|
    ensures StoreNums(k, items, h, ptr, n).Err?
    decreases n
  {
    if n > 1 {
      FirstStoreFails(k, items, h, ptr, n - 1);
    } else {
      assert StoreNums(k, items, h, ptr, 0) == Ok(h) && ElementAddr(ptr, Width(k), 0) == ptr;
    }
  }

  /** For every type whose values take room, nothing can be lowered to a negative address. */
  lemma {:induction false} NegativeFails(L: Layout, realloc: Realloc, ty: Ty, js: Js, h: Heap, addr: int)
    requires GoodLayout(L) && WellFormed(ty) && HasBytes(ty) && addr < 0
    ensures Lower(L, realloc, ty, js, h, addr).Err?
    decreases ty, 1
  {
    if Discriminated(ty) {
    } else if ty.FlagsTy? {
      if FlagsOf(ty.count, js).Some? {
        var words := LowerFlags(FlagsOf(ty.count, js).value);
        FirstWordFails(ty.count, words, h, addr, |words|);
      }
    } else if ty.TupleTy? {
      if Items(js).Some? {
        assert Roomy(L, ty) && BytesBefore(ty.fields, |ty.fields|);
        var i := FirstWithBytes(ty.fields, |ty.fields|);
        assert FieldLeads(L, ty, i);
        FieldFails(L, realloc, ty, Items(js).value, h, addr, i, |ty.fields|);
      }
    } else if ty.AliasTy? {
      NegativeFails(L, realloc, ty.target, js, h, addr);
    }
  }

  lemma {:induction false} FieldFails(
    L: Layout, realloc: Realloc, ty: Ty, items: seq<Js>, h: Heap, addr: int, i: nat, n: nat)
    requires GoodLayout(L) && ty.TupleTy? && WellFormed(ty) && i < n <= |ty.fields|
    requires HasBytes(ty.fields[i]) && L.field(ty, i) == 0 && addr < 0
    ensures LowerFields(L, realloc, ty, items, h, addr, n).Err?
    decreases ty, 0, n
  {
    var r := LowerFields(L, realloc, ty, items, h, addr, n - 1);
    if i < n - 1 {
      FieldFails(L, realloc, ty, items, h, addr, i, n - 1);
    } else if r.Ok? {
      NegativeFails(L, realloc, ty.fields[i], ItemAt(items, i), r.value, addr);
    }
  }

  lemma {:induction false} ElementFails(
    L: Layout, realloc: Realloc, t: Ty, items: seq<Js>, h: Heap, ptr: int, n: nat)
    requires GoodLayout(L) && WellFormed(t) && HasBytes(t) && ptr < 0 && 0 < n <= |items|
    ensures LowerElements(L, realloc, t, items, h, ptr, n).Err?
    decreases n
  {
    if n > 1 {
      ElementFails(L, realloc, t, items, h, ptr, n - 1);
    } else {
      assert LowerElements(L, realloc, t, items, h, ptr, 0) == Ok(h) && ElementAddr(ptr, L.size(t), 0) == ptr;
      NegativeFails(L, realloc, t, items[0], h, ptr);
    }
  }

  lemma HighSigned(p: nat)
    requires TWO31 <= p < TWO32
    ensures Signed(p, 4) == p - TWO32 < 0
  {
    Spans();
  }

  /**
   For every element type, with or without bytes, and every allocator inside the elements: the loop over a block from
   2^31 on succeeds exactly if the items are taken for values, and there is none of them or they take no room.
   */
  lemma HighElements(L: Layout, realloc: Realloc, t: Ty, items: seq<Js>, h: Heap, p: nat)
    requires GoodLayout(L) && WellFormed(t) && TWO31 <= p < TWO32
    ensures LowerElements(L, realloc, t, items, h, Signed(p, 4), |items|).Ok? <==>
      items == [] || (!HasBytes(t) && ElementsTaken(t, items))
    ensures (items == [] || (!HasBytes(t) && ElementsTaken(t, items))) ==>
      LowerElements(L, realloc, t, items, h, Signed(p, 4), |items|) == Ok(h)
  {
    var n := |items|;
    assert items[..n] == items;
    HighSigned(p);
    if HasBytes(t) && n > 0 {
      ElementFails(L, realloc, t, items, h, Signed(p, 4), n);
    } else if ElementsTaken(t, items) {
      if n > 0 {
        NoElementsLowered(L, realloc, t, items, h, Signed(p, 4), n);
      }
    } else if LowerElements(L, realloc, t, items, h, Signed(p, 4), n).Ok? {
      ElementsLoweredTaken(L, realloc, t, items, h, Signed(p, 4), n);
    }
  }

  /** The same for what fills the block of a list; a typed array of numbers is never copied there, even an empty one. */
  lemma HighFill(L: Layout, realloc: Realloc, t: Ty, js: Js, h: Heap, p: nat)
    requires GoodLayout(L) && WellFormed(t) && TWO31 <= p < TWO32 && Items(js).Some?
    ensures Fill(L, realloc, t, js, h, Signed(p, 4)).Ok? <==> HighFits(t, js)
    ensures HighFits(t, js) ==> Fill(L, realloc, t, js, h, Signed(p, 4)) == Ok(h)
  {
    HighSigned(p);
    if ArrayNum(t).None? {
      HighElements(L, realloc, t, Items(js).value, h, p);
    } else if js.Arr? && js.elems != [] {
      NumHasBytes(t);
      FirstStoreFails(ArrayNum(t).value, js.elems, h, Signed(p, 4), |js.elems|);
    }
  }

  /** The lists that can be lowered to a block from 2^31 on: without bytes, and not numbers in a typed array. */
  predicate HighFits(t: Ty, js: Js)
    requires Items(js).Some?
  {
    var items := Items(js).value;
    && (items == [] || (!HasBytes(t) && ElementsTaken(t, items)))
    && (ArrayNum(t).Some? ==> js.Arr?)
  }
}
