/** How long lists may be: the guest's allocator sees the number of bytes modulo 2^32. */
module Lengths {
  import opened Wrappers
  import opened Bytes
  import opened Flags
  import opened Abi
  import opened JsRepr
  import opened Heaps
  import opened Lowering
  import opened Taking
  import opened Refusal
  import opened HighBlocks
  import opened LiftExact
  import J = JsHost

  /** All lists that are lowered are short enough for their length and their bytes to be 32-bit numbers. */
  predicate Short(L: Layout, ty: Ty, js: Js)
    decreases ty, 2
  {
    if Discriminated(ty) then ShortArm(L, ty, js)
    else
      match ty
      case BoolTy | NumTy(_) | FlagsTy(_) => true
      case TupleTy(_) => Items(js).Some? ==> ShortFields(L, ty, Items(js).value)
      case ListTy(t) => Items(js).Some? ==> ShortList(L, t, js)
      case AliasTy(t) => Short(L, t, js)
  }

  predicate ShortArm(L: Layout, ty: Ty, js: Js)
    requires Discriminated(ty)
    decreases ty, 1
  {
    match ChooseArm(ty, js)
    case None => true
    case Some((arm, e)) => Arms(ty)[arm].Some? ==> Short(L, Arms(ty)[arm].value, e)
  }

  predicate ShortFields(L: Layout, ty: Ty, items: seq<Js>)
    requires ty.TupleTy?
    decreases ty, 1
  {
    forall i :: 0 <= i < |ty.fields| ==> ShortField(L, ty, items, i)
  }

  predicate ShortField(L: Layout, ty: Ty, items: seq<Js>, i: nat)
    requires ty.TupleTy? && i < |ty.fields|
    decreases ty, 0
  {
    Short(L, ty.fields[i], ItemAt(items, i))
  }

  predicate ShortList(L: Layout, t: Ty, js: Js)
    requires Items(js).Some?
    decreases t, 4
  {
    && LengthOf(t, js) < TWO32
    && (HasBytes(t) ==> LengthOf(t, js) * L.size(t) < TWO32)
    && (ArrayNum(t).None? ==> ShortItems(L, t, Items(js).value))
  }

  predicate ShortItems(L: Layout, t: Ty, items: seq<Js>)
    decreases t, 3
  {
    forall i :: 0 <= i < |items| ==> Short(L, t, items[i])
  }

  /** Arrays are as long as JavaScript allows. */
  predicate JsArrays(js: Js)
  {
    match js
    case Arr(elems) => |elems| < TWO32 && forall i :: 0 <= i < |elems| ==> JsArrays(elems[i])
    case Tagged(_, val) => val.Some? ==> JsArrays(val.value)
    case _ => true
  }

  /** A memory of `m` bytes leaves room for one more element of every list type within 32-bit addresses. */
  predicate Spare(L: Layout, ty: Ty, m: nat)
    decreases ty
  {
    if Discriminated(ty) then forall i :: 0 <= i < |Arms(ty)| && Arms(ty)[i].Some? ==> Spare(L, Arms(ty)[i].value, m)
    else
      match ty
      case BoolTy | NumTy(_) | FlagsTy(_) => true
      case TupleTy(fields) => forall i :: 0 <= i < |fields| ==> Spare(L, fields[i], m)
      case ListTy(t) => (HasBytes(t) ==> m + L.size(t) <= TWO32) && Spare(L, t, m)
      case AliasTy(t) => Spare(L, t, m)
  }

  // ----- the heap grows -----

  predicate Grown(h: Heap, h': Heap) { Sound(h') && |h.mem| <= |h'.mem| && h.used <= h'.used }

  lemma StoreGrows(e: J.Element, h: Heap, at: int, x: int)
    requires Sound(h)
    ensures Grown(h, HeapOf(Store(e, h, at, x)))
  {
  }

  lemma {:induction false} WordsGrow(n: nat, words: seq<int>, h: Heap, addr: int, k: nat)
    requires Sound(h) && k <= |words|
    ensures Grown(h, HeapOf(StoreWords(n, words, h, addr, k)))
    ensures |HeapOf(StoreWords(n, words, h, addr, k)).mem| == |h.mem|
    decreases k
  {
    if k > 0 {
      WordsGrow(n, words, h, addr, k - 1);
    }
  }

  lemma {:induction false} NumsGrow(k: Num, items: seq<Js>, h: Heap, ptr: int, n: nat)
    requires Sound(h) && n <= |items|
    ensures Grown(h, HeapOf(StoreNums(k, items, h, ptr, n)))
    decreases n
  {
    hide Store, ElementAddr, InRange;
    if n > 0 {
      NumsGrow(k, items, h, ptr, n - 1);
      var r := StoreNums(k, items, h, ptr, n - 1);
      if r.Ok? && ValidNum(k, items[n - 1]) {
        StoreGrows(ViewOf(k), r.value, ElementAddr(ptr, Width(k), n - 1), J.Content(items[n - 1].n));
      }
    }
  }

  /** Lowering never shrinks the memory, whether it succeeds or throws. */
  lemma {:induction false} LowerGrows(L: Layout, realloc: Realloc, ty: Ty, js: Js, h: Heap, addr: int)
    requires GoodRealloc(realloc) && Sound(h)
    ensures Grown(h, HeapOf(Lower(L, realloc, ty, js, h, addr)))
    decreases ty, 1
  {
    hide GoodRealloc;
    if Discriminated(ty) {
      ArmGrows(L, realloc, ty, js, h, addr);
    } else if ty.FlagsTy? {
      if FlagsOf(ty.count, js).Some? {
        var words := LowerFlags(FlagsOf(ty.count, js).value);
        WordsGrow(ty.count, words, h, addr, |words|);
      }
    } else if ty.TupleTy? {
      if Items(js).Some? {
        FieldsGrow(L, realloc, ty, Items(js).value, h, addr, |ty.fields|);
      }
    } else if ty.ListTy? {
      ListGrows(L, realloc, ty.elem, js, h, addr);
    } else if ty.AliasTy? {
      LowerGrows(L, realloc, ty.target, js, h, addr);
    }
  }

  lemma {:induction false} ArmGrows(L: Layout, realloc: Realloc, ty: Ty, js: Js, h: Heap, addr: int)
    requires GoodRealloc(realloc) && Sound(h) && Discriminated(ty)
    ensures Grown(h, HeapOf(LowerArm(L, realloc, ty, js, h, addr)))
    decreases ty, 0
  {
    hide GoodRealloc, Store, ChooseArm;
    if ChooseArm(ty, js).Some? {
      var (arm, e) := ChooseArm(ty, js).value;
      StoreGrows(DiscStore(|Arms(ty)|), h, addr, arm);
      var r := Store(DiscStore(|Arms(ty)|), h, addr, arm);
      if r.Ok? && Arms(ty)[arm].Some? {
        LowerGrows(L, realloc, Arms(ty)[arm].value, e, r.value, addr + L.payload(ty));
      }
    }
  }

  lemma {:induction false} FieldsGrow(L: Layout, realloc: Realloc, ty: Ty, items: seq<Js>, h: Heap, addr: int, n: nat)
    requires GoodRealloc(realloc) && Sound(h) && ty.TupleTy? && n <= |ty.fields|
    ensures Grown(h, HeapOf(LowerFields(L, realloc, ty, items, h, addr, n)))
    decreases ty, 0, n
  {
    hide GoodRealloc;
    if n > 0 {
      FieldsGrow(L, realloc, ty, items, h, addr, n - 1);
      var r := LowerFields(L, realloc, ty, items, h, addr, n - 1);
      if r.Ok? {
        LowerGrows(L, realloc, ty.fields[n - 1], ItemAt(items, n - 1), r.value, addr + L.field(ty, n - 1));
      }
    }
  }

  lemma BlockGrows(realloc: Realloc, h: Heap, align: nat, size: nat)
    requires GoodRealloc(realloc) && Sound(h) && realloc(h, align, size).Some?
    ensures Grown(h, realloc(h, align, size).value.1)
  {
    assert Allocates(realloc, h, align, size);
  }

  lemma {:induction false} ListGrows(L: Layout, realloc: Realloc, t: Ty, js: Js, h: Heap, addr: int)
    requires GoodRealloc(realloc) && Sound(h)
    ensures Grown(h, HeapOf(LowerList(L, realloc, t, js, h, addr)))
    decreases t, 4
  {
    hide GoodRealloc, Fill, LengthOf, Store;
    if Items(js).Some? {
      var size := (LengthOf(t, js) * L.size(t)) % TWO32;
      if realloc(h, L.align(t), size).Some? {
        BlockGrows(realloc, h, L.align(t), size);
        var (p, h1) := realloc(h, L.align(t), size).value;
        FillGrows(L, realloc, t, js, h1, Signed(p, 4));
        var r := Fill(L, realloc, t, js, h1, Signed(p, 4));
        if r.Ok? {
          SlotGrows(r.value, addr, Signed(p, 4), LengthOf(t, js));
        }
      }
    }
  }

  lemma SlotGrows(h: Heap, addr: int, ptr: int, len: int)
    requires Sound(h)
    ensures Grown(h, HeapOf(StoreSlot(h, addr, ptr, len)))
  {
    StoreGrows(J.Uint32, h, addr + 4, len);
  }

  lemma {:induction false} FillGrows(L: Layout, realloc: Realloc, t: Ty, js: Js, h: Heap, ptr: int)
    requires GoodRealloc(realloc) && Sound(h) && Items(js).Some?
    ensures Grown(h, HeapOf(Fill(L, realloc, t, js, h, ptr)))
    decreases t, 3
  {
    hide GoodRealloc;
    if ArrayNum(t).None? {
      ElementsGrow(L, realloc, t, Items(js).value, h, ptr, |Items(js).value|);
    } else if js.Arr? {
      NumsGrow(ArrayNum(t).value, js.elems, h, ptr, |js.elems|);
    }
  }

  lemma {:induction false} ElementsGrow(
    L: Layout, realloc: Realloc, t: Ty, items: seq<Js>, h: Heap, ptr: int, n: nat)
    requires GoodRealloc(realloc) && Sound(h) && n <= |items|
    ensures Grown(h, HeapOf(LowerElements(L, realloc, t, items, h, ptr, n)))
    decreases t, 2, n
  {
    hide GoodRealloc;
    if n > 0 {
      ElementsGrow(L, realloc, t, items, h, ptr, n - 1);
      var r := LowerElements(L, realloc, t, items, h, ptr, n - 1);
      if r.Ok? {
        LowerGrows(L, realloc, t, items[n - 1], r.value, ElementAddr(ptr, L.size(t), n - 1));
      }
    }
  }

  // ----- what is lowered starts inside the memory -----

  predicate StartsInside(addr: int, h: Heap) { 0 <= addr < |h.mem| }

  lemma {:induction false} WordsInside(n: nat, words: seq<int>, h: Heap, addr: int, k: nat)
    requires 0 < k <= |words| && StoreWords(n, words, h, addr, k).Ok?
    ensures StartsInside(addr, h)
    decreases k
  {
    if k > 1 {
      WordsInside(n, words, h, addr, k - 1);
    } else {
      assert StoreWords(n, words, h, addr, 0) == Ok(h) && WordOffset(n, 0) == 0;
    }
  }

  /** Whatever takes room and is lowered starts at an address inside the memory. */
  lemma {:induction false} LoweredInside(L: Layout, realloc: Realloc, ty: Ty, js: Js, h: Heap, addr: int, h': Heap)
    requires GoodLayout(L) && GoodRealloc(realloc) && WellFormed(ty) && HasBytes(ty) && Sound(h)
    requires Lower(L, realloc, ty, js, h, addr) == Ok(h')
    ensures StartsInside(addr, h') && Grown(h, h')
    decreases ty, 1
  {
    hide GoodRealloc;
    LowerGrows(L, realloc, ty, js, h, addr);
    if Discriminated(ty) {
    } else if ty.FlagsTy? {
      var words := LowerFlags(FlagsOf(ty.count, js).value);
      WordsInside(ty.count, words, h, addr, |words|);
    } else if ty.TupleTy? {
      assert Roomy(L, ty) && BytesBefore(ty.fields, |ty.fields|);
      var i := FirstWithBytes(ty.fields, |ty.fields|);
      assert FieldLeads(L, ty, i);
      FieldInside(L, realloc, ty, Items(js).value, h, addr, i, |ty.fields|, h');
    } else if ty.ListTy? {
      SlotInside(L, realloc, ty.elem, js, h, addr, h');
    } else if ty.AliasTy? {
      LoweredInside(L, realloc, ty.target, js, h, addr, h');
    }
  }

  lemma SlotInside(L: Layout, realloc: Realloc, t: Ty, js: Js, h: Heap, addr: int, h': Heap)
    requires LowerList(L, realloc, t, js, h, addr) == Ok(h')
    ensures StartsInside(addr, h')
  {
    hide Fill, LengthOf;
  }

  lemma {:induction false} FieldInside(
    L: Layout, realloc: Realloc, ty: Ty, items: seq<Js>, h: Heap, addr: int, i: nat, n: nat, h': Heap)
    requires GoodLayout(L) && GoodRealloc(realloc) && ty.TupleTy? && WellFormed(ty) && i < n <= |ty.fields| && Sound(h)
    requires HasBytes(ty.fields[i]) && L.field(ty, i) == 0
    requires LowerFields(L, realloc, ty, items, h, addr, n) == Ok(h')
    ensures StartsInside(addr, h')
    decreases ty, 0, n
  {
    hide GoodRealloc, GoodLayout, Lower, Sound, Grown, HasBytes, ItemAt;
    FieldsGrow(L, realloc, ty, items, h, addr, n - 1);
    var h1 := LowerFields(L, realloc, ty, items, h, addr, n - 1).value;
    GrownParts(h, h1);
    LowerGrows(L, realloc, ty.fields[n - 1], ItemAt(items, n - 1), h1, addr + L.field(ty, n - 1));
    GrownParts(h1, h');
    if i < n - 1 {
      FieldInside(L, realloc, ty, items, h, addr, i, n - 1, h1);
    } else {
      LoweredInside(L, realloc, ty.fields[i], ItemAt(items, i), h1, addr, h');
    }
  }

  // ----- what is lowered is short -----

  lemma SizePositive(L: Layout, ty: Ty)
    requires GoodLayout(L) && WellFormed(ty) && HasBytes(ty)
    ensures L.size(ty) > 0
    decreases ty
  {
    assert Roomy(L, ty);
    if ty.TupleTy? {
      var i :| 0 <= i < |ty.fields| && HasBytes(ty.fields[i]);
      SizePositive(L, ty.fields[i]);
      FieldsInside(L, ty, i + 1);
    } else if ty.AliasTy? {
      SizePositive(L, ty.target);
    }
  }

  /** Arithmetic of the last element: it starts inside the memory. */
  lemma LastInside(ptr: int, size: nat, n: nat, m: nat)
    requires 0 <= ptr && n > 0 && ElementAddr(ptr, size, n - 1) < m && m + size <= TWO32 && size > 0
    ensures n * size < TWO32 && n < TWO32
  {
    ElementAddrIs(ptr, size, n - 1);
    assert n * size == (n - 1) * size + size;
    assert n * size >= n;
  }

  /** Unless the memory then comes within an element of 4 GiB: whatever is lowered, its lists are short. */
  lemma {:induction false} LoweredShort(
    L: Layout, realloc: Realloc, ty: Ty, js: Js, h: Heap, addr: int, h': Heap, m: nat)
    requires GoodLayout(L) && GoodRealloc(realloc) && WellFormed(ty) && Sound(h) && JsArrays(js)
    requires Lower(L, realloc, ty, js, h, addr) == Ok(h') && |h'.mem| <= m && Spare(L, ty, m)
    ensures Short(L, ty, js)
    decreases ty, 1
  {
    hide GoodRealloc, GoodLayout;
    if Discriminated(ty) {
      ArmShort(L, realloc, ty, js, h, addr, h', m);
    } else if ty.TupleTy? {
      ItemArrays(js);
      FieldsShort(L, realloc, ty, Items(js).value, h, addr, |ty.fields|, h', m);
      assert ShortFields(L, ty, Items(js).value);
    } else if ty.ListTy? {
      ListShort(L, realloc, ty.elem, js, h, addr, h', m);
    } else if ty.AliasTy? {
      LoweredShort(L, realloc, ty.target, js, h, addr, h', m);
    }
  }

  lemma ItemArrays(js: Js)
    requires JsArrays(js) && Items(js).Some?
    ensures forall i: nat :: JsArrays(ItemAt(Items(js).value, i))
    ensures forall i :: 0 <= i < |Items(js).value| ==> JsArrays(Items(js).value[i])
  {
  }

  lemma {:induction false} ArmShort(
    L: Layout, realloc: Realloc, ty: Ty, js: Js, h: Heap, addr: int, h': Heap, m: nat)
    requires GoodLayout(L) && GoodRealloc(realloc) && WellFormed(ty) && Sound(h) && JsArrays(js) && Discriminated(ty)
    requires LowerArm(L, realloc, ty, js, h, addr) == Ok(h') && |h'.mem| <= m && Spare(L, ty, m)
    ensures ShortArm(L, ty, js)
    decreases ty, 0
  {
    hide GoodRealloc, GoodLayout, Store;
    var (arm, e) := ChooseArm(ty, js).value;
    if Arms(ty)[arm].Some? {
      StoreGrows(DiscStore(|Arms(ty)|), h, addr, arm);
      var h1 := Store(DiscStore(|Arms(ty)|), h, addr, arm).value;
      PayloadFormed(ty, arm);
      ArmArrays(ty, js);
      LoweredShort(L, realloc, Arms(ty)[arm].value, e, h1, addr + L.payload(ty), h', m);
    }
  }

  lemma ArmArrays(ty: Ty, js: Js)
    requires JsArrays(js) && Discriminated(ty) && ChooseArm(ty, js).Some?
    ensures JsArrays(ChooseArm(ty, js).value.1)
  {
  }

  lemma SpareField(L: Layout, ty: Ty, i: nat, m: nat)
    requires ty.TupleTy? && WellFormed(ty) && Spare(L, ty, m) && i < |ty.fields|
    ensures WellFormed(ty.fields[i]) && Spare(L, ty.fields[i], m)
  {
  }

  lemma GrownParts(h: Heap, h': Heap)
    requires Grown(h, h')
    ensures Sound(h') && |h.mem| <= |h'.mem| && h.used <= h'.used
  {
  }

  lemma {:induction false} FieldsShort(
    L: Layout, realloc: Realloc, ty: Ty, items: seq<Js>, h: Heap, addr: int, n: nat, h': Heap, m: nat)
    requires GoodLayout(L) && GoodRealloc(realloc) && WellFormed(ty) && Sound(h) && ty.TupleTy? && n <= |ty.fields|
    requires forall i: nat :: JsArrays(ItemAt(items, i))
    requires LowerFields(L, realloc, ty, items, h, addr, n) == Ok(h') && |h'.mem| <= m && Spare(L, ty, m)
    ensures forall i :: 0 <= i < n ==> ShortField(L, ty, items, i)
    decreases ty, 0, n
  {
    hide GoodRealloc, GoodLayout, Lower, JsArrays, Short, WellFormed, ItemAt, Sound, Grown;
    if n > 0 {
      SpareField(L, ty, n - 1, m);
      FieldsGrow(L, realloc, ty, items, h, addr, n - 1);
      var h1 := LowerFields(L, realloc, ty, items, h, addr, n - 1).value;
      GrownParts(h, h1);
      LowerGrows(L, realloc, ty.fields[n - 1], ItemAt(items, n - 1), h1, addr + L.field(ty, n - 1));
      GrownParts(h1, h');
      FieldsShort(L, realloc, ty, items, h, addr, n - 1, h1, m);
      LoweredShort(L, realloc, ty.fields[n - 1], ItemAt(items, n - 1), h1, addr + L.field(ty, n - 1), h', m);
    }
  }

  lemma {:induction false} ListShort(
    L: Layout, realloc: Realloc, t: Ty, js: Js, h: Heap, addr: int, h': Heap, m: nat)
    requires GoodLayout(L) && GoodRealloc(realloc) && WellFormed(t) && Sound(h) && JsArrays(js)
    requires LowerList(L, realloc, t, js, h, addr) == Ok(h') && |h'.mem| <= m && Spare(L, ListTy(t), m)
    ensures Items(js).Some? && ShortList(L, t, js)
    decreases t, 4
  {
    hide GoodRealloc, GoodLayout, Fill, LengthOf, Store, ShortList;
    var size := (LengthOf(t, js) * L.size(t)) % TWO32;
    BlockGrows(realloc, h, L.align(t), size);
    var (p, h1) := realloc(h, L.align(t), size).value;
    var h2 := Fill(L, realloc, t, js, h1, Signed(p, 4)).value;
    FillGrows(L, realloc, t, js, h1, Signed(p, 4));
    SlotGrows(h2, addr, Signed(p, 4), LengthOf(t, js));
    FillShort(L, realloc, t, js, h1, Signed(p, 4), h2, m);
  }

  lemma {:induction false} FillShort(
    L: Layout, realloc: Realloc, t: Ty, js: Js, h: Heap, ptr: int, h': Heap, m: nat)
    requires GoodLayout(L) && GoodRealloc(realloc) && WellFormed(t) && Sound(h) && JsArrays(js) && Items(js).Some?
    requires Fill(L, realloc, t, js, h, ptr) == Ok(h') && |h'.mem| <= m && Spare(L, ListTy(t), m)
    ensures ShortList(L, t, js)
    decreases t, 3
  {
    hide GoodRealloc, GoodLayout, CanonLower, LowerElements, JsArrays, Short, Sound, WellFormed, HasBytes;
    var items := Items(js).value;
    if ArrayNum(t).Some? {
      NumsShort(L, t, js, h, ptr, h', m);
    } else {
      ItemArrays(js);
      ElementsShort(L, realloc, t, items, h, ptr, |items|, h', m);
      if HasBytes(t) && items != [] {
        SizePositive(L, t);
        LoopInside(L, realloc, t, items, h, ptr, |items|, h');
        LastInside(ptr, L.size(t), |items|, m);
      }
      FewItems(L, realloc, t, js, h, ptr, h');
    }
  }

  /** Without bytes, only arrays are lowered, or nothing. */
  lemma FewItems(L: Layout, realloc: Realloc, t: Ty, js: Js, h: Heap, ptr: int, h': Heap)
    requires JsArrays(js) && Items(js).Some?
    requires LowerElements(L, realloc, t, Items(js).value, h, ptr, |Items(js).value|) == Ok(h')
    ensures !HasBytes(t) ==> |Items(js).value| < TWO32
  {
    var items := Items(js).value;
    if !HasBytes(t) && js.Typed? && items != [] {
      assert items[..|items|] == items;
      ElementsLoweredTaken(L, realloc, t, items, h, ptr, |items|);
      assert FromJs(t, items[0]).Some?;
      NumberRefused(t, items[0]);
    }
  }

  lemma {:induction false} NumberRefused(t: Ty, js: Js)
    requires !HasBytes(t) && (js.Primitive? || js.Undefined?)
    ensures FromJs(t, js).None?
  {
    if t.AliasTy? {
      NumberRefused(t.target, js);
    }
  }

  lemma {:induction false} StoresInside(k: Num, items: seq<Js>, h: Heap, ptr: int, n: nat)
    requires 0 < n <= |items| && StoreNums(k, items, h, ptr, n).Ok?
    ensures 0 <= ptr && ElementAddr(ptr, Width(k), n - 1) < |h.mem|
    ensures |StoreNums(k, items, h, ptr, n).value.mem| == |h.mem|
    decreases n
  {
    if n > 1 {
      StoresInside(k, items, h, ptr, n - 1);
    } else {
      assert StoreNums(k, items, h, ptr, 0) == Ok(h) && ElementAddr(ptr, Width(k), 0) == ptr;
    }
  }

  lemma NumsShort(L: Layout, t: Ty, js: Js, h: Heap, ptr: int, h': Heap, m: nat)
    requires GoodLayout(L) && ArrayNum(t).Some? && Items(js).Some? && WellFormed(t)
    requires CanonLower(ArrayNum(t).value, js, LengthOf(t, js), h, ptr) == Ok(h')
    requires |h'.mem| <= m && Spare(L, ListTy(t), m)
    ensures ShortList(L, t, js)
  {
    hide GoodLayout, WellFormed, StoreNums;
    var k, n := ArrayNum(t).value, LengthOf(t, js);
    ArrayNumSize(L, t);
    NumHasBytes(t);
    if n > 0 {
      if js.Arr? {
        StoresInside(k, js.elems, h, ptr, n);
      } else {
        ElementAddrIs(ptr, Width(k), n - 1);
        assert n * Width(k) == (n - 1) * Width(k) + Width(k);
      }
      LastInside(ptr, Width(k), n, m);
    }
  }

  lemma {:induction false} ElementsShort(
    L: Layout, realloc: Realloc, t: Ty, items: seq<Js>, h: Heap, ptr: int, n: nat, h': Heap, m: nat)
    requires GoodLayout(L) && GoodRealloc(realloc) && WellFormed(t) && Sound(h) && n <= |items|
    requires forall i :: 0 <= i < |items| ==> JsArrays(items[i])
    requires LowerElements(L, realloc, t, items, h, ptr, n) == Ok(h') && |h'.mem| <= m && Spare(L, t, m)
    ensures forall i :: 0 <= i < n ==> Short(L, t, items[i])
    decreases t, 2, n
  {
    hide GoodRealloc, GoodLayout, Lower, JsArrays, Short, WellFormed, Spare, Sound, Grown;
    if n > 0 {
      ElementsGrow(L, realloc, t, items, h, ptr, n - 1);
      var h1 := LowerElements(L, realloc, t, items, h, ptr, n - 1).value;
      var at := ElementAddr(ptr, L.size(t), n - 1);
      GrownParts(h, h1);
      LowerGrows(L, realloc, t, items[n - 1], h1, at);
      GrownParts(h1, h');
      ElementsShort(L, realloc, t, items, h, ptr, n - 1, h1, m);
      LoweredShort(L, realloc, t, items[n - 1], h1, at, h', m);
    }
  }

  /** The block starts inside the memory, and so does its last element. */
  lemma {:induction false} LoopInside(
    L: Layout, realloc: Realloc, t: Ty, items: seq<Js>, h: Heap, ptr: int, n: nat, h': Heap)
    requires GoodLayout(L) && GoodRealloc(realloc) && WellFormed(t) && HasBytes(t) && Sound(h) && 0 < n <= |items|
    requires LowerElements(L, realloc, t, items, h, ptr, n) == Ok(h')
    ensures 0 <= ptr && ElementAddr(ptr, L.size(t), n - 1) < |h'.mem|
    decreases n
  {
    hide GoodRealloc, GoodLayout, Lower, HasBytes, WellFormed, Sound, Grown;
    ElementsGrow(L, realloc, t, items, h, ptr, n - 1);
    var h1 := LowerElements(L, realloc, t, items, h, ptr, n - 1).value;
    GrownParts(h, h1);
    LoweredInside(L, realloc, t, items[n - 1], h1, ElementAddr(ptr, L.size(t), n - 1), h');
    if n > 1 {
      LoopInside(L, realloc, t, items, h, ptr, n - 1, h1);
    }
  }
}
