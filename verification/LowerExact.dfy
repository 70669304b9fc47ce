/** For every type: what is lowered makes the memory hold a value, in its place and in new blocks only. */
module LowerExact {
  import opened Wrappers
  import opened Bytes
  import opened Abi
  import opened JsRepr
  import opened Lifting
  import opened LiftExact
  import opened Heaps
  import opened Lowering
  import opened Taking
  import opened Refusal
  import opened HighBlocks
  import opened Lengths
  import opened Stores
  import J = JsHost

  /** Writing only from `lo` up to `hi` and in new blocks, the value is now held at `addr`. */
  ghost predicate Done(L: Layout, ty: Ty, v: Val, h: Heap, h': Heap, addr: nat, lo: int, hi: int)
  {
    Extends(h, h', lo, hi) && Holds(L, ty, v, h'.mem, addr, Own(h, h', lo, hi))
  }

  /** `js` is taken for the value, and its lists are short enough. */
  predicate Taken(L: Layout, ty: Ty, js: Js, v: Val)
  {
    HasType(ty, v) && FromJs(ty, js) == Some(v) && Short(L, ty, js)
  }

  /** The allocator traps, or hands out a block that JavaScript sees at a negative address. */
  ghost predicate MayFail(realloc: Realloc, e: Failure)
  {
    e.fault == Trap || (e.fault == RangeError && !LowRealloc(realloc))
  }

  /** Only the allocator makes lowering fail. */
  ghost predicate Lowered(L: Layout, realloc: Realloc, ty: Ty, v: Val, h: Heap, r: Result<Heap, Failure>, addr: nat)
  {
    match r
    case Err(e) => MayFail(realloc, e)
    case Ok(h') => Done(L, ty, v, h, h', addr, addr, addr + L.size(ty))
  }

  lemma DiscStored(ty: Ty, h: Heap, addr: nat, d: nat)
    requires Discriminated(ty) && Sound(h) && Used(h, addr, addr + DiscSize(|Arms(ty)|))
    ensures addr + DiscSize(|Arms(ty)|) <= |h.mem|
    ensures Store(DiscStore(|Arms(ty)|), h, addr, d) == Ok(Write(h, addr, ToLE(d, DiscSize(|Arms(ty)|))))
  {
    StoreRight(DiscStore(|Arms(ty)|), h, addr, d);
  }

  // ----- all types -----

  /**
   For every type, JavaScript value and allocator: what is taken for a value, and is short, is lowered so that the memory
   holds the value, and only its own place and new blocks are written.
   */
  lemma {:induction false} TakenLowered(L: Layout, realloc: Realloc, ty: Ty, js: Js, v: Val, h: Heap, addr: nat)
    requires GoodLayout(L) && GoodRealloc(realloc) && WellFormed(ty) && Taken(L, ty, js, v)
    requires Sound(h) && Used(h, addr, addr + L.size(ty))
    ensures Lowered(L, realloc, ty, v, h, Lower(L, realloc, ty, js, h, addr), addr)
    decreases ty, 2
  {
    hide Extends, Own, Used, Sound, Holds, LowerArm, LowerList, LowerFields, LowRealloc, GoodRealloc;
    hide ArmFromJs, ListFromJs, FieldsFromJs;
    assert Roomy(L, ty);
    if Discriminated(ty) {
      ArmLowered(L, realloc, ty, js, v, h, addr);
    } else if Scalar(ty) {
      ScalarLowered(L, realloc, ty, js, v, h, addr);
    } else if ty.TupleTy? {
      TupleLowered(L, realloc, ty, Items(js).value, v.fields, h, addr);
    } else if ty.ListTy? {
      ListLowered(L, realloc, ty.elem, js, v.elems, h, addr);
    } else {
      TakenLowered(L, realloc, ty.target, js, v, h, addr);
      AliasLowered(L, realloc, ty, v, h, Lower(L, realloc, ty.target, js, h, addr), addr);
    }
  }

  lemma ScalarLowered(L: Layout, realloc: Realloc, ty: Ty, js: Js, v: Val, h: Heap, addr: nat)
    requires GoodLayout(L) && WellFormed(ty) && Scalar(ty) && Taken(L, ty, js, v)
    requires Sound(h) && Used(h, addr, addr + L.size(ty))
    ensures Lowered(L, realloc, ty, v, h, Lower(L, realloc, ty, js, h, addr), addr)
  {
    hide Lower, FromJs, Extends, Own, Used, Sound;
    ScalarStored(L, realloc, ty, js, v, h, addr);
    Written(h, addr, ScalarBytes(ty, v));
  }

  lemma AliasLowered(L: Layout, realloc: Realloc, ty: Ty, v: Val, h: Heap, r: Result<Heap, Failure>, addr: nat)
    requires Roomy(L, ty) && ty.AliasTy? && Lowered(L, realloc, ty.target, v, h, r, addr)
    ensures Lowered(L, realloc, ty, v, h, r, addr)
  {
  }

  lemma {:induction false} ArmLowered(L: Layout, realloc: Realloc, ty: Ty, js: Js, v: Val, h: Heap, addr: nat)
    requires GoodLayout(L) && GoodRealloc(realloc) && WellFormed(ty) && Taken(L, ty, js, v)
    requires Sound(h) && Used(h, addr, addr + L.size(ty)) && Discriminated(ty)
    ensures Lowered(L, realloc, ty, v, h, LowerArm(L, realloc, ty, js, h, addr), addr)
    decreases ty, 1
  {
    hide Lower, LowerArm, Holds, FromJs, Short, Extends, Used, Own, Sound, LowRealloc, GoodRealloc;
    assert Roomy(L, ty);
    var h1, e := ArmSteps(L, realloc, ty, js, v, h, addr);
    if v.payload.Some? {
      PayloadReady(L, ty, v, h, h1, addr);
      var t, at := Arms(ty)[v.disc].value, addr + L.payload(ty);
      TakenLowered(L, realloc, t, e, v.payload.value, h1, at);
      var r := Lower(L, realloc, t, e, h1, at);
      if r.Ok? {
        ArmDone(L, ty, v, t, h, h1, r.value, addr, at, addr + L.size(ty));
      }
    } else {
      NoPayloadDone(L, realloc, ty, v, h, h1, addr);
    }
  }

  /** The discriminant of the value is stored, and then what is taken for the payload is lowered. */
  lemma ArmSteps(L: Layout, realloc: Realloc, ty: Ty, js: Js, v: Val, h: Heap, addr: nat) returns (h1: Heap, e: Js)
    requires Discriminated(ty) && ArmTyped(ty, v) && FromJs(ty, js) == Some(v) && Short(L, ty, js) && Roomy(L, ty)
    requires Sound(h) && Used(h, addr, addr + L.size(ty))
    ensures DiscDone(ty, v, h, h1, addr)
    ensures v.payload.None? ==> LowerArm(L, realloc, ty, js, h, addr) == Ok(h1)
    ensures v.payload.Some? ==>
      var t := Arms(ty)[v.disc].value;
      && FromJs(t, e) == v.payload && Short(L, t, e)
      && LowerArm(L, realloc, ty, js, h, addr) == Lower(L, realloc, t, e, h1, addr + L.payload(ty))
  {
    hide Extends, Own, Sound, HasType, ChooseArm;
    var s := ToLE(v.disc, DiscSize(|Arms(ty)|));
    e := ChooseArm(ty, js).value.1;
    UsedPart(h, addr, addr + L.size(ty), addr, addr + |s|);
    DiscStored(ty, h, addr, v.disc);
    Written(h, addr, s);
    h1 := Write(h, addr, s);
  }

  lemma NoPayloadDone(L: Layout, realloc: Realloc, ty: Ty, v: Val, h: Heap, h1: Heap, addr: nat)
    requires Roomy(L, ty) && Discriminated(ty) && ArmTyped(ty, v) && v.payload.None? && DiscDone(ty, v, h, h1, addr)
    ensures Lowered(L, realloc, ty, v, h, Ok(h1), addr)
  {
    var size, s := DiscSize(|Arms(ty)|), ToLE(v.disc, DiscSize(|Arms(ty)|));
    Wider(h, h1, addr, addr + size, addr, addr + L.size(ty));
    BytesKept(h1.mem, h1.mem, addr, s, Own(h, h1, addr, addr + size), Own(h, h1, addr, addr + L.size(ty)));
  }

  /** The discriminant is stored: what `ArmDone` needs of the first write. */
  ghost predicate DiscDone(ty: Ty, v: Val, h: Heap, h1: Heap, addr: nat)
    requires Discriminated(ty) && ArmTyped(ty, v)
  {
    var size := DiscSize(|Arms(ty)|);
    Extends(h, h1, addr, addr + size) && BytesAt(h1.mem, addr, ToLE(v.disc, size), Own(h, h1, addr, addr + size))
  }

  /** There is room for the payload. */
  lemma PayloadReady(L: Layout, ty: Ty, v: Val, h: Heap, h1: Heap, addr: nat)
    requires Roomy(L, ty) && WellFormed(ty) && HasType(ty, v)
    requires Discriminated(ty) && ArmTyped(ty, v) && v.payload.Some?
    requires Used(h, addr, addr + L.size(ty)) && DiscDone(ty, v, h, h1, addr)
    ensures Sound(h1)
    ensures var t, at := Arms(ty)[v.disc].value, addr + L.payload(ty);
      WellFormed(t) && HasType(t, v.payload.value) && Used(h1, at, at + L.size(t))
  {
    var t, at := Arms(ty)[v.disc].value, addr + L.payload(ty);
    PayloadFormed(ty, v.disc);
    UsedPart(h, addr, addr + L.size(ty), at, at + L.size(t));
    UsedLater(h, h1, at, at + L.size(t));
  }

  lemma ArmDone(
    L: Layout, ty: Ty, v: Val, t: Ty, h: Heap, h1: Heap, h2: Heap, addr: nat, at: nat, end: nat)
    requires Roomy(L, ty) && Discriminated(ty) && ArmTyped(ty, v) && Arms(ty)[v.disc] == Some(t)
    requires at == addr + L.payload(ty) && end == addr + L.size(ty)
    requires Sound(h) && Used(h, addr, end) && DiscDone(ty, v, h, h1, addr)
    requires Extends(h1, h2, at, at + L.size(t))
    requires Holds(L, t, v.payload.value, h2.mem, at, Own(h1, h2, at, at + L.size(t)))
    ensures Extends(h, h2, addr, end) && Holds(L, ty, v, h2.mem, addr, Own(h, h2, addr, end))
  {
    hide Extends, Own, Used, Sound, BytesAt, DiscSize;
    var size := DiscSize(|Arms(ty)|);
    Frames(h, h1, h2, addr, addr + size, at, at + L.size(t), addr, end);
    BytesKept(h1.mem, h2.mem, addr, ToLE(v.disc, size), Own(h, h1, addr, addr + size), Own(h, h2, addr, end));
    HoldsKept(L, t, v.payload.value, h2.mem, h2.mem, at, Own(h1, h2, at, at + L.size(t)), Own(h, h2, addr, end));
  }

  // ----- tuples -----

  lemma {:induction false} TupleLowered(
    L: Layout, realloc: Realloc, ty: Ty, items: seq<Js>, vs: seq<Val>, h: Heap, addr: nat)
    requires GoodLayout(L) && GoodRealloc(realloc) && WellFormed(ty)
    requires ty.TupleTy? && HasType(ty, TupleV(vs)) && ShortFields(L, ty, items)
    requires FieldsFromJs(ty, items) == Some(TupleV(vs))
    requires Sound(h) && Used(h, addr, addr + L.size(ty))
    ensures Lowered(L, realloc, ty, TupleV(vs), h, LowerFields(L, realloc, ty, items, h, addr, |vs|), addr)
    decreases ty, 1
  {
    FieldsLowered(L, realloc, ty, items, vs, h, addr, |vs|);
    var r := LowerFields(L, realloc, ty, items, h, addr, |vs|);
    if r.Ok? {
      TupleDone(L, ty, vs, h, r.value, addr);
    }
  }

  lemma TupleDone(L: Layout, ty: Ty, vs: seq<Val>, h: Heap, h': Heap, addr: nat)
    requires GoodLayout(L) && ty.TupleTy? && |vs| == |ty.fields| && FieldsDone(L, ty, vs, h, h', addr, |vs|)
    ensures Done(L, ty, TupleV(vs), h, h', addr, addr, addr + L.size(ty))
  {
    assert Roomy(L, ty);
    FieldsInside(L, ty, |vs|);
    var end, size := addr + FieldsEndAt(L, ty, |vs|), addr + L.size(ty);
    Wider(h, h', addr, end, addr, size);
    assert vs[..|vs|] == vs;
    FieldsKept(L, ty, vs, h'.mem, h'.mem, addr, Own(h, h', addr, end), Own(h, h', addr, size));
  }

  /** The first `n` fields are lowered. */
  ghost predicate FieldsDone(L: Layout, ty: Ty, vs: seq<Val>, h: Heap, h': Heap, addr: nat, n: nat)
    requires ty.TupleTy? && |vs| == |ty.fields| && n <= |vs|
  {
    && Extends(h, h', addr, addr + FieldsEndAt(L, ty, n))
    && FieldsAt(L, ty, vs[..n], h'.mem, addr, Own(h, h', addr, addr + FieldsEndAt(L, ty, n)))
  }

  lemma {:induction false} FieldsLowered(
    L: Layout, realloc: Realloc, ty: Ty, items: seq<Js>, vs: seq<Val>, h: Heap, addr: nat, n: nat)
    requires GoodLayout(L) && GoodRealloc(realloc) && WellFormed(ty)
    requires ty.TupleTy? && HasType(ty, TupleV(vs)) && ShortFields(L, ty, items) && n <= |vs|
    requires FieldsFromJs(ty, items) == Some(TupleV(vs))
    requires Sound(h) && Used(h, addr, addr + L.size(ty))
    ensures var r := LowerFields(L, realloc, ty, items, h, addr, n);
      if r.Ok? then FieldsDone(L, ty, vs, h, r.value, addr, n) else MayFail(realloc, r.error)
    decreases ty, 0, n
  {
    hide Lower, Holds, Extends, Used, Own, Sound, Short, FromJs, MayFail, GoodRealloc;
    if n == 0 {
      NoFieldsDone(L, ty, vs, h, addr);
    } else {
      FieldsLowered(L, realloc, ty, items, vs, h, addr, n - 1);
      var r1 := LowerFields(L, realloc, ty, items, h, addr, n - 1);
      if r1.Ok? {
        FieldReady(L, ty, items, vs, h, r1.value, addr, n);
        var t, js, v, at := ty.fields[n - 1], ItemAt(items, n - 1), vs[n - 1], addr + L.field(ty, n - 1);
        TakenLowered(L, realloc, t, js, v, r1.value, at);
        FieldDone(L, realloc, ty, vs, h, r1.value, Lower(L, realloc, t, js, r1.value, at), addr, n);
      }
    }
  }

  lemma NoFieldsDone(L: Layout, ty: Ty, vs: seq<Val>, h: Heap, addr: nat)
    requires ty.TupleTy? && |vs| == |ty.fields| && Sound(h)
    ensures FieldsDone(L, ty, vs, h, h, addr, 0)
  {
  }

  /** There is room for field `n - 1`. */
  lemma FieldReady(L: Layout, ty: Ty, items: seq<Js>, vs: seq<Val>, h: Heap, h1: Heap, addr: nat, n: nat)
    requires GoodLayout(L) && WellFormed(ty)
    requires ty.TupleTy? && HasType(ty, TupleV(vs)) && ShortFields(L, ty, items) && 0 < n <= |vs|
    requires FieldsFromJs(ty, items) == Some(TupleV(vs))
    requires Used(h, addr, addr + L.size(ty)) && FieldsDone(L, ty, vs, h, h1, addr, n - 1)
    ensures Sound(h1) && Roomy(L, ty) && WellFormed(ty.fields[n - 1])
    ensures Taken(L, ty.fields[n - 1], ItemAt(items, n - 1), vs[n - 1])
    ensures var at := addr + L.field(ty, n - 1); Used(h1, at, at + L.size(ty.fields[n - 1]))
  {
    var t, at := ty.fields[n - 1], addr + L.field(ty, n - 1);
    assert FieldFromJs(ty, items, n - 1) == Some(vs[n - 1]);
    assert Roomy(L, ty) && ShortField(L, ty, items, n - 1);
    FieldsInside(L, ty, n);
    UsedPart(h, addr, addr + L.size(ty), at, at + L.size(t));
    UsedLater(h, h1, at, at + L.size(t));
  }

  lemma FieldDone(
    L: Layout, realloc: Realloc, ty: Ty, vs: seq<Val>, h: Heap, h1: Heap, r: Result<Heap, Failure>, addr: nat, n: nat)
    requires ty.TupleTy? && |vs| == |ty.fields| && 0 < n <= |vs| && Roomy(L, ty)
    requires Sound(h) && Used(h, addr, addr + L.size(ty)) && FieldsDone(L, ty, vs, h, h1, addr, n - 1)
    requires Lowered(L, realloc, ty.fields[n - 1], vs[n - 1], h1, r, addr + L.field(ty, n - 1))
    ensures if r.Ok? then FieldsDone(L, ty, vs, h, r.value, addr, n) else MayFail(realloc, r.error)
  {
    if r.Ok? {
      var t, at, h2 := ty.fields[n - 1], addr + L.field(ty, n - 1), r.value;
      var end1, end := addr + FieldsEndAt(L, ty, n - 1), addr + FieldsEndAt(L, ty, n);
      FieldsInside(L, ty, n - 1);
      FieldsInside(L, ty, n);
      UsedPart(h, addr, addr + L.size(ty), addr, end);
      Frames(h, h1, h2, addr, end1, at, at + L.size(t), addr, end);
      FieldsJoin(L, ty, vs[..n - 1], vs[n - 1], h1.mem, h2.mem, addr,
                 Own(h, h1, addr, end1), Own(h1, h2, at, at + L.size(t)), Own(h, h2, addr, end));
      assert vs[..n] == vs[..n - 1] + [vs[n - 1]];
    }
  }

  lemma FieldsJoin(L: Layout, ty: Ty, front: seq<Val>, v: Val, mem1: Memory, mem2: Memory, addr: nat,
                   own1: set<nat>, own2: set<nat>, own: set<nat>)
    requires ty.TupleTy? && |front| < |ty.fields|
    requires FieldsAt(L, ty, front, mem1, addr, own1) && Agree(mem1, mem2, own1) && own1 <= own
    requires Holds(L, ty.fields[|front|], v, mem2, addr + L.field(ty, |front|), own2) && own2 <= own
    ensures FieldsAt(L, ty, front + [v], mem2, addr, own)
  {
    FieldsKept(L, ty, front, mem1, mem2, addr, own1, own);
    HoldsKept(L, ty.fields[|front|], v, mem2, mem2, addr + L.field(ty, |front|), own2, own);
    FieldsSnoc(L, ty, front, v, mem2, addr, own);
  }

  // ----- lists -----

  /** A new block from `p` up to `end`. */
  ghost predicate BlockFor(h: Heap, h1: Heap, p: nat, end: nat)
  {
    && Extends(h, h1, 0, 0) && Used(h1, p, end) && p < TWO32 && end <= |h1.mem|
    && forall a: nat :: p <= a < end ==> a !in h.used
  }

  /** The block has the size that is asked for; for elements that take room, the size is not truncated. */
  lemma BlockNew(L: Layout, realloc: Realloc, t: Ty, n: nat, h: Heap, h1: Heap, p: nat)
    requires GoodRealloc(realloc) && Sound(h) && (HasBytes(t) ==> n * L.size(t) < TWO32)
    requires realloc(h, L.align(t), (n * L.size(t)) % TWO32) == Some((p, h1))
    ensures BlockFor(h, h1, p, BlockEnd(L, t, n, p)) && (LowRealloc(realloc) ==> p < TWO31)
  {
    assert HasBytes(t) ==> (n * L.size(t)) % TWO32 == n * L.size(t);
    assert Allocates(realloc, h, L.align(t), (n * L.size(t)) % TWO32);
    ElementAddrIs(p, L.size(t), n);
  }

  /** Where the elements end; nothing is written for those that take no room. */
  function BlockEnd(L: Layout, t: Ty, n: nat, p: nat): nat { if HasBytes(t) then ElementAddr(p, L.size(t), n) else p }

  lemma LengthRight(t: Ty, js: Js, elems: seq<Val>)
    requires Items(js).Some? && ListFromJs(t, js) == Some(ListV(elems))
    ensures LengthOf(t, js) == |elems|
    ensures ArrayNum(t).Some? ==> NumsFromJs(ArrayNum(t).value, js, |elems|) == Some(ListV(elems))
    ensures ArrayNum(t).None? ==> |Items(js).value| == |elems| && ElementsAre(t, Items(js).value, elems)
  {
  }

  lemma {:induction false} ListLowered(
    L: Layout, realloc: Realloc, t: Ty, js: Js, elems: seq<Val>, h: Heap, addr: nat)
    requires GoodLayout(L) && GoodRealloc(realloc) && WellFormed(t)
    requires ElementsTyped(t, elems) && Items(js).Some? && ShortList(L, t, js)
    requires ListFromJs(t, js) == Some(ListV(elems))
    requires Sound(h) && Used(h, addr, addr + 8)
    ensures var r := LowerList(L, realloc, t, js, h, addr);
      if r.Ok? then Done(L, ListTy(t), ListV(elems), h, r.value, addr, addr, addr + 8) else MayFail(realloc, r.error)
    decreases t, 5
  {
    hide Fill, StoreSlot, ListFromJs, LengthOf, Holds, Extends, Used, LowRealloc, GoodRealloc, BlockFor, Done, ShortItems;
    var n := |elems|;
    LengthRight(t, js, elems);
    var block := realloc(h, L.align(t), (n * L.size(t)) % TWO32);
    if block.Some? {
      var (p, h1) := block.value;
      BlockNew(L, realloc, t, n, h, h1, p);
      Filled(L, realloc, t, js, elems, h, h1, p);
      var r := Fill(L, realloc, t, js, h1, Signed(p, 4));
      if r.Ok? {
        SlotDone(L, t, elems, h, h1, r.value, p, BlockEnd(L, t, n, p), addr);
      }
    }
  }

  /** The block holds the elements. */
  ghost predicate FillDone(L: Layout, t: Ty, elems: seq<Val>, h: Heap, h': Heap, p: nat, end: nat)
  {
    Extends(h, h', p, end) && ElementsAt(L, t, elems, h'.mem, p, Own(h, h', p, end))
  }

  lemma {:induction false} Filled(
    L: Layout, realloc: Realloc, t: Ty, js: Js, elems: seq<Val>, h: Heap, h1: Heap, p: nat)
    requires GoodLayout(L) && GoodRealloc(realloc) && WellFormed(t)
    requires ElementsTyped(t, elems) && Items(js).Some? && ShortList(L, t, js)
    requires ListFromJs(t, js) == Some(ListV(elems))
    requires BlockFor(h, h1, p, BlockEnd(L, t, |elems|, p)) && (LowRealloc(realloc) ==> p < TWO31)
    ensures var r := Fill(L, realloc, t, js, h1, Signed(p, 4));
      if r.Ok? then FillDone(L, t, elems, h1, r.value, p, BlockEnd(L, t, |elems|, p)) else MayFail(realloc, r.error)
    decreases t, 4
  {
    hide Holds, Extends, Used, Own, LowRealloc, GoodRealloc, Lower, LowerElements, CanonLower, FromJs, ElementsAt, Short;
    LengthRight(t, js, elems);
    BlockSound(h, h1, p, BlockEnd(L, t, |elems|, p));
    if !HasBytes(t) {
      NumHasNoBytes(t);
      NoElementsLowered(L, realloc, t, Items(js).value, h1, Signed(p, 4), |elems|);
      NothingFilled(L, t, elems, h1, p);
    } else if p >= TWO31 {
      HighFilled(L, realloc, t, js, elems, h1, p);
    } else {
      PointerSeen(p);
      if ArrayNum(t).Some? {
        NumsLowered(L, t, js, elems, h1, p);
      } else {
        ElementsLowered(L, realloc, t, Items(js).value, elems, h1, p, |elems|);
        assert elems[..|elems|] == elems;
      }
    }
  }

  lemma NumHasNoBytes(t: Ty)
    requires !HasBytes(t)
    ensures ArrayNum(t).None?
  {
    if ArrayNum(t).Some? {
      NumHasBytes(t);
    }
  }

  lemma BlockSound(h: Heap, h1: Heap, p: nat, end: nat)
    requires BlockFor(h, h1, p, end)
    ensures Sound(h1) && Used(h1, p, end) && end <= |h1.mem| && p < TWO32
  {
  }

  lemma PointerSeen(p: nat)
    requires p < TWO31
    ensures Signed(p, 4) == p
  {
    Spans();
  }

  /** In a block from 2^31 on, lowering what takes room fails, or there is nothing to lower. */
  lemma HighFilled(L: Layout, realloc: Realloc, t: Ty, js: Js, elems: seq<Val>, h: Heap, p: nat)
    requires GoodLayout(L) && WellFormed(t) && HasBytes(t) && Sound(h)
    requires Items(js).Some? && ListFromJs(t, js) == Some(ListV(elems))
    requires TWO31 <= p < TWO32 && !LowRealloc(realloc)
    ensures var r := Fill(L, realloc, t, js, h, Signed(p, 4));
      if r.Ok? then FillDone(L, t, elems, h, r.value, p, BlockEnd(L, t, |elems|, p)) else MayFail(realloc, r.error)
  {
    hide Fill, LowRealloc;
    HighFill(L, realloc, t, js, h, p);
    FillNoTypeError(L, realloc, t, js, h, Signed(p, 4));
    if HighFits(t, js) {
      assert elems == [];
    }
  }

  lemma NothingFilled(L: Layout, t: Ty, elems: seq<Val>, h: Heap, p: nat)
    requires ElementsTyped(t, elems) && !HasBytes(t) && Sound(h)
    ensures FillDone(L, t, elems, h, h, p, p)
  {
    var own := Own(h, h, p, p);
    forall i | 0 <= i < |elems|
      ensures Holds(L, t, elems[i], h.mem, ElementAddr(p, L.size(t), i), own)
    {
      NothingHeld(L, t, elems[i], h.mem, ElementAddr(p, L.size(t), i), own);
    }
  }

  /** Length and pointer are stored. */
  lemma SlotDone(
    L: Layout, t: Ty, elems: seq<Val>, h: Heap, h1: Heap, h2: Heap, p: nat, end: nat, addr: nat)
    requires Sound(h) && Used(h, addr, addr + 8) && |elems| < TWO32
    requires BlockFor(h, h1, p, end) && FillDone(L, t, elems, h1, h2, p, end)
    ensures var r := StoreSlot(h2, addr, Signed(p, 4), |elems|);
      r.Ok? && Done(L, ListTy(t), ListV(elems), h, r.value, addr, addr, addr + 8)
  {
    hide Own, Used, StoreSlot;
    UsedLater(h, h2, addr, addr + 8);
    SlotStored(h2, addr, p, |elems|);
    PointerWritten(h2, addr, p, |elems|);
    var h3 := StoreSlot(h2, addr, p, |elems|).value;
    AllocFrames(h, h1, h2, h3, p, end, addr, addr + 8);
    ElementsKept(L, t, elems, h2.mem, h3.mem, p, Own(h1, h2, p, end), Own(h, h3, addr, addr + 8));
    SlotKept(h3.mem, addr, p, |elems|, Own(h2, h3, addr, addr + 8), Own(h, h3, addr, addr + 8));
  }

  /** A pointer that JavaScript sees as negative is stored as the pointer of the guest. */
  lemma PointerWritten(h: Heap, addr: nat, p: nat, len: nat)
    ensures StoreSlot(h, addr, Signed(p, 4), len) == StoreSlot(h, addr, p, len)
  {
    SignedCongruent(p, 4);
    ToLECongruent(Signed(p, 4), p, 4);
  }

  lemma SlotKept(mem: Memory, addr: nat, p: nat, len: nat, own: set<nat>, own': set<nat>)
    requires Slot(mem, addr, own, p, len) && own <= own'
    ensures Slot(mem, addr, own', p, len)
  {
    BytesKept(mem, mem, addr, ToLE(p, 4), own, own');
    BytesKept(mem, mem, addr + 4, ToLE(len, 4), own, own');
  }

  lemma SlotStored(h: Heap, addr: nat, p: nat, len: nat)
    requires Sound(h) && Used(h, addr, addr + 8) && p < TWO32 && len < TWO32
    ensures var r := StoreSlot(h, addr, p, len);
      && r.Ok? && Extends(h, r.value, addr, addr + 8)
      && Slot(r.value.mem, addr, Own(h, r.value, addr, addr + 8), p, len)
  {
    UsedPart(h, addr, addr + 8, addr + 4, addr + 8);
    UsedPart(h, addr, addr + 8, addr, addr + 4);
    StoreRight(J.Uint32, h, addr + 4, len);
    Written(h, addr + 4, ToLE(len, 4));
    var h1 := Write(h, addr + 4, ToLE(len, 4));
    StoreRight(J.Uint32, h1, addr, p);
    Written(h1, addr, ToLE(p, 4));
    var h2 := Write(h1, addr, ToLE(p, 4));
    Frames(h, h1, h2, addr + 4, addr + 8, addr, addr + 4, addr, addr + 8);
    BytesKept(h1.mem, h2.mem, addr + 4, ToLE(len, 4), Own(h, h1, addr + 4, addr + 8), Own(h, h2, addr, addr + 8));
    BytesKept(h2.mem, h2.mem, addr, ToLE(p, 4), Own(h1, h2, addr, addr + 4), Own(h, h2, addr, addr + 8));
  }

  /** The first `n` elements are lowered. */
  ghost predicate ElementsDone(L: Layout, t: Ty, elems: seq<Val>, h: Heap, h': Heap, p: nat, n: nat)
    requires n <= |elems|
  {
    var end := ElementAddr(p, L.size(t), n);
    Extends(h, h', p, end) && ElementsAt(L, t, elems[..n], h'.mem, p, Own(h, h', p, end))
  }

  /** Elements of any type are lowered one after the other, each to its own address. */
  lemma {:induction false} ElementsLowered(
    L: Layout, realloc: Realloc, t: Ty, items: seq<Js>, elems: seq<Val>, h: Heap, p: nat, n: nat)
    requires GoodLayout(L) && GoodRealloc(realloc) && WellFormed(t)
    requires ElementsTyped(t, elems) && ShortItems(L, t, items) && n <= |elems| == |items|
    requires ElementsAre(t, items, elems)
    requires Sound(h) && Used(h, p, ElementAddr(p, L.size(t), |elems|))
    ensures var r := LowerElements(L, realloc, t, items, h, p, n);
      if r.Ok? then ElementsDone(L, t, elems, h, r.value, p, n) else MayFail(realloc, r.error)
    decreases t, 3, n
  {
    hide Lower, Holds, Extends, Used, Own, Sound, Short, ElementsAt, WellFormed, MayFail, FromJs, GoodRealloc;
    if n == 0 {
      NoElementsDone(L, t, elems, h, p);
    } else {
      ElementsLowered(L, realloc, t, items, elems, h, p, n - 1);
      var r1 := LowerElements(L, realloc, t, items, h, p, n - 1);
      if r1.Ok? {
        ElementReady(L, t, |elems|, h, r1.value, p, n);
        var v, at := elems[n - 1], ElementAddr(p, L.size(t), n - 1);
        TakenLowered(L, realloc, t, items[n - 1], v, r1.value, at);
        var r := Lower(L, realloc, t, items[n - 1], r1.value, at);
        if r.Ok? {
          ElementDone(L, t, elems[..n - 1], v, h, r1.value, r.value, p, at, at + L.size(t));
          assert elems[..n] == elems[..n - 1] + [v];
        }
      }
    }
  }

  /** Each item is taken for its element. */
  predicate ElementsAre(t: Ty, items: seq<Js>, elems: seq<Val>)
    requires |items| == |elems|
  {
    forall i :: 0 <= i < |items| ==> FromJs(t, items[i]) == Some(elems[i])
  }

  lemma NoElementsDone(L: Layout, t: Ty, elems: seq<Val>, h: Heap, p: nat)
    requires Sound(h)
    ensures ElementsDone(L, t, elems, h, h, p, 0)
  {
  }

  /** There is room for element `n - 1`. */
  lemma ElementReady(L: Layout, t: Ty, len: nat, h: Heap, h1: Heap, p: nat, n: nat)
    requires 0 < n <= len && Used(h, p, ElementAddr(p, L.size(t), len))
    requires Extends(h, h1, p, ElementAddr(p, L.size(t), n - 1))
    ensures Sound(h1)
    ensures var at := ElementAddr(p, L.size(t), n - 1); Used(h1, at, at + L.size(t)) && Used(h, p, at + L.size(t))
  {
    var at, size := ElementAddr(p, L.size(t), n - 1), L.size(t);
    AddrMonotone(p, size, n, len);
    UsedPart(h, p, ElementAddr(p, size, len), at, at + size);
    UsedPart(h, p, ElementAddr(p, size, len), p, at + size);
    UsedLater(h, h1, at, at + size);
  }

  lemma ElementDone(
    L: Layout, t: Ty, front: seq<Val>, v: Val, h: Heap, h1: Heap, h2: Heap, p: nat, at: nat, end: nat)
    requires at == ElementAddr(p, L.size(t), |front|) && end == at + L.size(t) && Sound(h) && Used(h, p, end)
    requires Extends(h, h1, p, at) && ElementsAt(L, t, front, h1.mem, p, Own(h, h1, p, at))
    requires Extends(h1, h2, at, end) && Holds(L, t, v, h2.mem, at, Own(h1, h2, at, end))
    ensures Extends(h, h2, p, end) && ElementsAt(L, t, front + [v], h2.mem, p, Own(h, h2, p, end))
  {
    Frames(h, h1, h2, p, at, at, end, p, end);
    ElementsJoin(L, t, front, v, h1.mem, h2.mem, p, Own(h, h1, p, at), Own(h1, h2, at, end), Own(h, h2, p, end));
  }

  lemma ElementsJoin(L: Layout, t: Ty, front: seq<Val>, v: Val, mem1: Memory, mem2: Memory, p: nat,
                     own1: set<nat>, own2: set<nat>, own: set<nat>)
    requires ElementsAt(L, t, front, mem1, p, own1) && Agree(mem1, mem2, own1) && own1 <= own
    requires Holds(L, t, v, mem2, ElementAddr(p, L.size(t), |front|), own2) && own2 <= own
    ensures ElementsAt(L, t, front + [v], mem2, p, own)
  {
    ElementsKept(L, t, front, mem1, mem2, p, own1, own);
    HoldsKept(L, t, v, mem2, mem2, ElementAddr(p, L.size(t), |front|), own2, own);
    ElementsSnoc(L, t, front, v, mem2, p, own);
  }

  lemma NumsLowered(L: Layout, t: Ty, js: Js, elems: seq<Val>, h: Heap, p: nat)
    requires GoodLayout(L) && ArrayNum(t).Some? && ElementsTyped(t, elems)
    requires Items(js).Some? && ListFromJs(t, js) == Some(ListV(elems))
    requires Sound(h) && Used(h, p, ElementAddr(p, L.size(t), |elems|))
    requires ElementAddr(p, L.size(t), |elems|) <= |h.mem|
    ensures var r := CanonLower(ArrayNum(t).value, js, |elems|, h, p);
      r.Ok? && FillDone(L, t, elems, h, r.value, p, ElementAddr(p, L.size(t), |elems|))
  {
    hide Holds, HasType, Extends, Own, FromJs, ElementsAt, CanonLower, GoodLayout, Sound, ListFromJs;
    var k := ArrayNum(t).value;
    ArrayNumSize(L, t);
    LengthRight(t, js, elems);
    ElementAddrIs(p, L.size(t), |elems|);
    CanonStored(k, js, |elems|, elems, h, p);
    var s := NumBytes(k, elems);
    Written(h, p, s);
    NumsFromCopy(L, t, elems, Write(h, p, s).mem, p, Own(h, Write(h, p, s), p, p + |s|));
  }
}
