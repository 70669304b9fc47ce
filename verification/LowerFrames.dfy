/** What lowering may write, whether it succeeds or throws: its own place, and newly allocated blocks. */
module LowerFrames {
  import opened Wrappers
  import opened Bytes
  import opened Bits
  import opened Flags
  import opened Abi
  import opened JsRepr
  import opened LiftExact
  import opened Heaps
  import opened Lowering
  import opened HighBlocks
  import opened Lengths
  import J = JsHost

  /** Two writes to parts of a region. */
  lemma Chain(h0: Heap, h1: Heap, h2: Heap, lo1: int, hi1: int, lo2: int, hi2: int, lo: int, hi: int)
    requires Extends(h0, h1, lo1, hi1) && Extends(h1, h2, lo2, hi2)
    requires lo <= lo1 && hi1 <= hi && lo <= lo2 && hi2 <= hi
    ensures Extends(h0, h2, lo, hi)
  {
  }

  lemma Same(h: Heap, lo: int, hi: int)
    requires Sound(h)
    ensures Extends(h, h, lo, hi)
  {
  }

  lemma StoreFrame(e: J.Element, h: Heap, at: int, x: int)
    requires Sound(h)
    ensures Extends(h, HeapOf(Store(e, h, at, x)), at, at + J.ElementSize(e))
  {
  }

  lemma {:induction false} WordsFrame(n: nat, words: seq<int>, h: Heap, addr: int, k: nat)
    requires Sound(h) && k <= |words|
    ensures Extends(h, HeapOf(StoreWords(n, words, h, addr, k)), addr, addr + WordOffset(n, k))
    decreases k
  {
    hide Store, Extends;
    if k == 0 {
      Same(h, addr, addr);
    } else {
      WordsFrame(n, words, h, addr, k - 1);
      var r := StoreWords(n, words, h, addr, k - 1);
      FrameSound(h, HeapOf(r), addr, addr + WordOffset(n, k - 1));
      if r.Ok? {
        var at := addr + WordOffset(n, k - 1);
        StoreFrame(WordStore(n), r.value, at, words[k - 1]);
        Chain(h, r.value, HeapOf(StoreWords(n, words, h, addr, k)), addr, at, at, at + J.ElementSize(WordStore(n)),
              addr, addr + WordOffset(n, k));
      } else {
        Chain(h, h, HeapOf(r), addr, addr, addr, addr + WordOffset(n, k - 1), addr, addr + WordOffset(n, k)) by {
          Same(h, addr, addr);
        }
      }
    }
  }

  lemma FrameSound(h: Heap, h': Heap, lo: int, hi: int)
    requires Extends(h, h', lo, hi)
    ensures Sound(h')
  {
  }

  /** A type whose values take no room is never written, whatever is lowered. */
  lemma {:induction false} NothingWritten(L: Layout, realloc: Realloc, ty: Ty, js: Js, h: Heap, addr: int)
    requires !HasBytes(ty)
    ensures HeapOf(Lower(L, realloc, ty, js, h, addr)) == h
    decreases ty, 1
  {
    if ty.TupleTy? {
      if Items(js).Some? {
        NoFieldsWritten(L, realloc, ty, Items(js).value, h, addr, |ty.fields|);
      }
    } else if ty.AliasTy? {
      NothingWritten(L, realloc, ty.target, js, h, addr);
    }
  }

  lemma {:induction false} NoFieldsWritten(
    L: Layout, realloc: Realloc, ty: Ty, items: seq<Js>, h: Heap, addr: int, n: nat)
    requires ty.TupleTy? && n <= |ty.fields| && !HasBytes(ty)
    ensures HeapOf(LowerFields(L, realloc, ty, items, h, addr, n)) == h
    decreases ty, 0, n
  {
    if n > 0 {
      NoFieldsWritten(L, realloc, ty, items, h, addr, n - 1);
      var r := LowerFields(L, realloc, ty, items, h, addr, n - 1);
      if r.Ok? {
        NothingWritten(L, realloc, ty.fields[n - 1], ItemAt(items, n - 1), h, addr + L.field(ty, n - 1));
      }
    }
  }

  lemma {:induction false} NoElementsWritten(
    L: Layout, realloc: Realloc, t: Ty, items: seq<Js>, h: Heap, ptr: int, n: nat)
    requires n <= |items| && !HasBytes(t)
    ensures HeapOf(LowerElements(L, realloc, t, items, h, ptr, n)) == h
    decreases n
  {
    if n > 0 {
      NoElementsWritten(L, realloc, t, items, h, ptr, n - 1);
      NothingWritten(L, realloc, t, items[n - 1], h, ElementAddr(ptr, L.size(t), n - 1));
    }
  }

  // ----- all types -----

  /**
   For every type, JavaScript value, address and allocator, and also if lowering throws midway or refuses a part: of the
   bytes in use, only those of its own place have changed.
   */
  lemma {:induction false} LowerFrame(L: Layout, realloc: Realloc, ty: Ty, js: Js, h: Heap, addr: int)
    requires GoodLayout(L) && GoodRealloc(realloc) && WellFormed(ty) && Short(L, ty, js) && Sound(h)
    ensures Extends(h, HeapOf(Lower(L, realloc, ty, js, h, addr)), addr, addr + L.size(ty))
    decreases ty, 2
  {
    hide Extends, GoodRealloc, LowerArm, LowerList, LowerFields, ShortArm, ShortFields, ShortList, Store, StoreWords;
    assert Roomy(L, ty);
    Same(h, addr, addr + L.size(ty));
    if Discriminated(ty) {
      ArmFrame(L, realloc, ty, js, h, addr);
    } else if Scalar(ty) {
      ScalarFrame(L, realloc, ty, js, h, addr);
    } else if ty.TupleTy? {
      TupleFrame(L, realloc, ty, js, h, addr);
    } else if ty.ListTy? {
      ListFrame(L, realloc, ty.elem, js, h, addr);
    } else {
      LowerFrame(L, realloc, ty.target, js, h, addr);
    }
  }

  lemma {:induction false} TupleFrame(L: Layout, realloc: Realloc, ty: Ty, js: Js, h: Heap, addr: int)
    requires GoodLayout(L) && GoodRealloc(realloc) && WellFormed(ty) && Sound(h) && ty.TupleTy? && Short(L, ty, js)
    ensures Extends(h, HeapOf(Lower(L, realloc, ty, js, h, addr)), addr, addr + L.size(ty))
    decreases ty, 1
  {
    hide Extends, GoodRealloc, GoodLayout, WellFormed, ShortFields;
    if Items(js).Some? {
      FieldsFrame(L, realloc, ty, Items(js).value, h, addr, |ty.fields|);
    } else {
      Same(h, addr, addr + L.size(ty));
    }
  }

  lemma ScalarFrame(L: Layout, realloc: Realloc, ty: Ty, js: Js, h: Heap, addr: int)
    requires GoodLayout(L) && Scalar(ty) && Sound(h)
    ensures Extends(h, HeapOf(Lower(L, realloc, ty, js, h, addr)), addr, addr + L.size(ty))
  {
    hide Extends, Store, StoreWords, Wrap;
    assert Roomy(L, ty);
    Same(h, addr, addr + L.size(ty));
    match ty
    case BoolTy => StoreFrame(J.Int8, h, addr, Digit(Truthy(js)));
    case NumTy(k) =>
      if js.Primitive? {
        StoreFrame(NumStore(k), h, addr, Wrap(k, J.Content(js.n)));
      }
    case FlagsTy(n) =>
      if FlagsOf(n, js).Some? {
        var words := LowerFlags(FlagsOf(n, js).value);
        WordsFrame(n, words, h, addr, |words|);
      }
  }

  lemma {:induction false} ArmFrame(L: Layout, realloc: Realloc, ty: Ty, js: Js, h: Heap, addr: int)
    requires GoodLayout(L) && GoodRealloc(realloc) && WellFormed(ty) && Sound(h) && Discriminated(ty)
    requires ShortArm(L, ty, js)
    ensures Extends(h, HeapOf(LowerArm(L, realloc, ty, js, h, addr)), addr, addr + L.size(ty))
    decreases ty, 1
  {
    hide Extends, GoodRealloc, Store, ChooseArm, Lower, Short, WellFormed;
    assert Roomy(L, ty);
    Same(h, addr, addr + L.size(ty));
    if ChooseArm(ty, js).Some? {
      var (arm, e) := ChooseArm(ty, js).value;
      var size, end := DiscSize(|Arms(ty)|), addr + L.size(ty);
      StoreFrame(DiscStore(|Arms(ty)|), h, addr, arm);
      var r := Store(DiscStore(|Arms(ty)|), h, addr, arm);
      FrameSound(h, HeapOf(r), addr, addr + size);
      if r.Ok? && Arms(ty)[arm].Some? {
        var t, at := Arms(ty)[arm].value, addr + L.payload(ty);
        PayloadFormed(ty, arm);
        LowerFrame(L, realloc, t, e, r.value, at);
        Chain(h, r.value, HeapOf(Lower(L, realloc, t, e, r.value, at)), addr, addr + size, at, at + L.size(t), addr, end);
      } else {
        Chain(h, h, HeapOf(r), addr, end, addr, addr + size, addr, end);
      }
    }
  }

  lemma {:induction false} FieldsFrame(
    L: Layout, realloc: Realloc, ty: Ty, items: seq<Js>, h: Heap, addr: int, n: nat)
    requires GoodLayout(L) && GoodRealloc(realloc) && WellFormed(ty) && Sound(h) && ty.TupleTy? && n <= |ty.fields|
    requires ShortFields(L, ty, items)
    ensures Extends(h, HeapOf(LowerFields(L, realloc, ty, items, h, addr, n)), addr, addr + L.size(ty))
    decreases ty, 0, n
  {
    hide Extends, GoodRealloc, Lower, Short, ItemAt;
    if n == 0 {
      Same(h, addr, addr + L.size(ty));
    } else {
      assert Roomy(L, ty) && ShortField(L, ty, items, n - 1);
      FieldsInside(L, ty, n);
      FieldsFrame(L, realloc, ty, items, h, addr, n - 1);
      var r := LowerFields(L, realloc, ty, items, h, addr, n - 1);
      FrameSound(h, HeapOf(r), addr, addr + L.size(ty));
      if r.Ok? {
        var t, js, at := ty.fields[n - 1], ItemAt(items, n - 1), addr + L.field(ty, n - 1);
        LowerFrame(L, realloc, t, js, r.value, at);
        Chain(h, r.value, HeapOf(Lower(L, realloc, t, js, r.value, at)), addr, addr + L.size(ty), at, at + L.size(t),
              addr, addr + L.size(ty));
      }
    }
  }

  /** A block is allocated and written, and then another region: of what was in use, only that has changed. */
  lemma NewBlockFrame(h0: Heap, h1: Heap, h2: Heap, p: nat, size: nat, ptr: int, lo: int, hi: int)
    requires Extends(h0, h1, 0, 0) && Extends(h1, h2, ptr, ptr + size)
    requires forall a: nat :: p <= a < p + size ==> a !in h0.used
    requires ptr == p || ptr + size <= 0
    ensures Extends(h0, h2, lo, hi)
  {
  }

  lemma {:induction false} ListFrame(L: Layout, realloc: Realloc, t: Ty, js: Js, h: Heap, addr: int)
    requires GoodLayout(L) && GoodRealloc(realloc) && WellFormed(t) && Sound(h)
    requires Items(js).Some? ==> ShortList(L, t, js)
    ensures Extends(h, HeapOf(LowerList(L, realloc, t, js, h, addr)), addr, addr + 8)
    decreases t, 5
  {
    hide Extends, GoodRealloc, Fill, LengthOf, ShortItems, StoreSlot;
    Same(h, addr, addr + 8);
    if Items(js).None? {
      return;
    }
    var n := LengthOf(t, js);
    var block := realloc(h, L.align(t), (n * L.size(t)) % TWO32);
    if block.Some? {
      var (p, h1) := block.value;
      BlockFilled(L, realloc, t, js, h, h1, p, addr);
      var r := Fill(L, realloc, t, js, h1, Signed(p, 4));
      FrameSound(h, HeapOf(r), addr, addr + 8);
      if r.Ok? {
        SlotFrame(r.value, addr, Signed(p, 4), n);
        Chain(h, r.value, HeapOf(StoreSlot(r.value, addr, Signed(p, 4), n)), addr, addr + 8, addr, addr + 8, addr, addr + 8);
      }
    }
  }

  lemma SlotFrame(h: Heap, addr: int, ptr: int, len: int)
    requires Sound(h)
    ensures Extends(h, HeapOf(StoreSlot(h, addr, ptr, len)), addr, addr + 8)
  {
    hide Extends, Store;
    StoreFrame(J.Uint32, h, addr + 4, len);
    var r := Store(J.Uint32, h, addr + 4, len);
    FrameSound(h, HeapOf(r), addr + 4, addr + 8);
    Same(h, addr, addr + 8);
    if r.Ok? {
      StoreFrame(J.Uint32, r.value, addr, ptr);
      Chain(h, r.value, HeapOf(Store(J.Uint32, r.value, addr, ptr)), addr + 4, addr + 8, addr, addr + 4, addr, addr + 8);
    } else {
      Chain(h, h, HeapOf(r), addr, addr + 8, addr + 4, addr + 8, addr, addr + 8);
    }
  }

  /** Filling the new block changes nothing that was in use. */
  lemma {:induction false} BlockFilled(
    L: Layout, realloc: Realloc, t: Ty, js: Js, h: Heap, h1: Heap, p: nat, addr: int)
    requires GoodLayout(L) && GoodRealloc(realloc) && WellFormed(t) && Sound(h)
    requires Items(js).Some? && ShortList(L, t, js)
    requires realloc(h, L.align(t), (LengthOf(t, js) * L.size(t)) % TWO32) == Some((p, h1))
    ensures Extends(h, HeapOf(Fill(L, realloc, t, js, h1, Signed(p, 4))), addr, addr + 8)
    decreases t, 4
  {
    hide Extends, GoodRealloc, LengthOf, ShortItems, CanonLower, Lower, LowerElements, Short;
    var n, ptr := LengthOf(t, js), Signed(p, 4);
    var r := Fill(L, realloc, t, js, h1, ptr);
    BlockFacts(realloc, h, L.align(t), (n * L.size(t)) % TWO32, p, h1);
    if !HasBytes(t) {
      NoNumber(t);
      NoElementsWritten(L, realloc, t, Items(js).value, h1, ptr, |Items(js).value|);
      NewBlockFrame(h, h1, h1, 0, 0, 0, addr, addr + 8) by {
        Same(h1, 0, 0);
      }
    } else {
      assert (n * L.size(t)) % TWO32 == n * L.size(t);
      SignedBlock(p, n * L.size(t), h1);
      FillFrame(L, realloc, t, js, h1, ptr);
      NewBlockFrame(h, h1, HeapOf(r), p, n * L.size(t), ptr, addr, addr + 8);
    }
  }

  lemma NoNumber(t: Ty)
    requires !HasBytes(t)
    ensures ArrayNum(t).None?
  {
    if ArrayNum(t).Some? {
      NumHasBytes(t);
    }
  }

  lemma BlockFacts(realloc: Realloc, h: Heap, align: nat, size: nat, p: nat, h1: Heap)
    requires GoodRealloc(realloc) && Sound(h) && realloc(h, align, size) == Some((p, h1))
    ensures Extends(h, h1, 0, 0) && Sound(h1) && p < TWO32 && p + size <= |h1.mem| <= TWO32
    ensures forall a: nat :: p <= a < p + size ==> a !in h.used
  {
    assert Allocates(realloc, h, align, size);
  }

  lemma SignedBlock(p: nat, size: nat, h: Heap)
    requires p < TWO32 && p + size <= TWO32
    ensures Signed(p, 4) == p || Signed(p, 4) + size <= 0
  {
    Spans();
  }

  lemma {:induction false} FillFrame(L: Layout, realloc: Realloc, t: Ty, js: Js, h: Heap, ptr: int)
    requires GoodLayout(L) && GoodRealloc(realloc) && WellFormed(t) && Sound(h)
    requires Items(js).Some? && ShortList(L, t, js)
    ensures Extends(h, HeapOf(Fill(L, realloc, t, js, h, ptr)), ptr, ptr + LengthOf(t, js) * L.size(t))
    decreases t, 3, |Items(js).value| + 1
  {
    hide Extends, GoodRealloc, Lower, Short, Store;
    if ArrayNum(t).None? {
      var items := Items(js).value;
      ElementsFrame(L, realloc, t, items, h, ptr, |items|);
      ElementAddrIs(ptr, L.size(t), |items|);
    } else {
      ArrayNumSize(L, t);
      CanonFrame(ArrayNum(t).value, js, LengthOf(t, js), h, ptr);
    }
  }

  lemma CanonFrame(k: Num, js: Js, len: nat, h: Heap, ptr: int)
    requires Items(js).Some? && Sound(h) && (js.Arr? ==> len == |js.elems|)
    ensures Extends(h, HeapOf(CanonLower(k, js, len, h, ptr)), ptr, ptr + len * Width(k))
  {
    if js.Arr? {
      NumsFrame(k, js.elems, h, ptr, |js.elems|);
      ElementAddrIs(ptr, Width(k), len);
    }
  }

  lemma {:induction false} NumsFrame(k: Num, items: seq<Js>, h: Heap, ptr: int, n: nat)
    requires Sound(h) && n <= |items|
    ensures Extends(h, HeapOf(StoreNums(k, items, h, ptr, n)), ptr, ElementAddr(ptr, Width(k), n))
    decreases n
  {
    hide Extends, Store, InRange;
    if n == 0 {
      Same(h, ptr, ptr);
    } else {
      NumsFrame(k, items, h, ptr, n - 1);
      var r, at, end := StoreNums(k, items, h, ptr, n - 1), ElementAddr(ptr, Width(k), n - 1), ElementAddr(ptr, Width(k), n);
      FrameSound(h, HeapOf(r), ptr, at);
      Same(HeapOf(r), ptr, at);
      Chain(h, HeapOf(r), HeapOf(r), ptr, at, ptr, at, ptr, end);
      if r.Ok? && ValidNum(k, items[n - 1]) {
        StoreFrame(ViewOf(k), r.value, at, J.Content(items[n - 1].n));
        Chain(h, r.value, HeapOf(Store(ViewOf(k), r.value, at, J.Content(items[n - 1].n))), ptr, at, at, end, ptr, end);
      }
    }
  }

  lemma {:induction false} ElementsFrame(
    L: Layout, realloc: Realloc, t: Ty, items: seq<Js>, h: Heap, ptr: int, n: nat)
    requires GoodLayout(L) && GoodRealloc(realloc) && WellFormed(t) && Sound(h) && n <= |items|
    requires ShortItems(L, t, items)
    ensures Extends(h, HeapOf(LowerElements(L, realloc, t, items, h, ptr, n)), ptr, ElementAddr(ptr, L.size(t), n))
    decreases t, 3, n
  {
    hide Extends, GoodRealloc, Lower, Short;
    if n == 0 {
      Same(h, ptr, ptr);
    } else {
      ElementsFrame(L, realloc, t, items, h, ptr, n - 1);
      var r, at, end := LowerElements(L, realloc, t, items, h, ptr, n - 1), ElementAddr(ptr, L.size(t), n - 1),
        ElementAddr(ptr, L.size(t), n);
      FrameSound(h, HeapOf(r), ptr, at);
      Same(HeapOf(r), ptr, at);
      Chain(h, HeapOf(r), HeapOf(r), ptr, at, ptr, at, ptr, end);
      if r.Ok? {
        LowerFrame(L, realloc, t, items[n - 1], r.value, at);
        Chain(h, r.value, HeapOf(Lower(L, realloc, t, items[n - 1], r.value, at)), ptr, at, at, end, ptr, end);
      }
    }
  }
}
