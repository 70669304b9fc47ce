/** For every type: lifting succeeds exactly on what a memory holds, and gives its representation. */
module LiftExact {
  import opened Wrappers
  import opened Bytes
  import opened Abi
  import opened JsRepr
  import opened Lifting
  import opened Held
  import J = JsHost

  // ----- what the memory holds is lifted -----

  lemma DiscViewIs(n: nat, d: nat)
    requires d < n < TWO31
    ensures J.ElementSize(DiscView(n)) == DiscSize(n) && ViewRange(DiscView(n), d)
  {
    Spans();
  }

  lemma ArmCount(ty: Ty)
    requires Discriminated(ty) && WellFormed(ty)
    ensures 0 < |Arms(ty)| < TWO31
  {
  }

  /** For every type, with and without validation: what the memory holds is lifted to its representation. */
  lemma {:induction false} LiftRight(L: Layout, fast: bool, ty: Ty, v: Val, mem: Memory, addr: nat, own: set<nat>)
    requires GoodLayout(L) && WellFormed(ty) && Holds(L, ty, v, mem, addr, own)
    ensures HasType(ty, v) && Lift(L, fast, ty, mem, addr) == Ok(ToJs(ty, v))
    decreases ty, 1
  {
    HoldsTyped(L, ty, v, mem, addr, own);
    if Discriminated(ty) {
      ArmCount(ty);
      DiscViewIs(|Arms(ty)|, v.disc);
      GetHere(DiscView(|Arms(ty)|), mem, addr, v.disc, own);
      PayloadRight(L, fast, ty, v, mem, addr, own);
      ArmRight(L, fast, ty, v, mem, addr);
    } else if Scalar(ty) {
      ScalarRight(L, fast, ty, v, mem, addr, own);
    } else if ty.TupleTy? {
      FieldsRight(L, fast, ty, v.fields, mem, addr, own);
    } else if ty.ListTy? {
      ListRight(L, fast, ty.elem, v.elems, mem, addr, own);
    } else {
      LiftRight(L, fast, ty.target, v, mem, addr, own);
    }
  }

  lemma ScalarRight(L: Layout, fast: bool, ty: Ty, v: Val, mem: Memory, addr: nat, own: set<nat>)
    requires WellFormed(ty) && Scalar(ty) && ScalarAt(ty, v, mem, addr, own)
    ensures Lift(L, fast, ty, mem, addr) == Ok(ToJs(ty, v))
  {
    match ty
    case BoolTy => BoolRight(fast, v.b, mem, addr);
    case NumTy(k) => NumRight(k, v.n, mem, addr);
    case FlagsTy(n) => FlagsRight(fast, v.bits, mem, addr);
  }

  lemma {:induction false} PayloadRight(L: Layout, fast: bool, ty: Ty, v: Val, mem: Memory, addr: nat, own: set<nat>)
    requires GoodLayout(L) && WellFormed(ty) && Discriminated(ty) && ArmAt(L, ty, v, mem, addr, own) && ArmTyped(ty, v)
    ensures LiftPayload(L, fast, ty, v.disc, mem, addr) == Ok(PayloadToJs(ty, v))
    decreases ty, 0
  {
    if v.payload.Some? {
      PayloadFormed(ty, v.disc);
      LiftRight(L, fast, Arms(ty)[v.disc].value, v.payload.value, mem, addr + L.payload(ty), own);
    }
  }

  /** The switch takes the arm of the discriminant. */
  lemma ArmRight(L: Layout, fast: bool, ty: Ty, v: Val, mem: Memory, addr: nat)
    requires Discriminated(ty) && ArmTyped(ty, v)
    requires LiftPayload(L, fast, ty, v.disc, mem, addr) == Ok(PayloadToJs(ty, v))
    ensures LiftArm(L, fast, ty, v.disc, mem, addr) == Ok(ArmToJs(ty, v))
  {
  }

  lemma {:induction false} FieldsRight(L: Layout, fast: bool, ty: Ty, vs: seq<Val>, mem: Memory, addr: nat, own: set<nat>)
    requires GoodLayout(L) && WellFormed(ty) && ty.TupleTy? && |vs| == |ty.fields|
    requires FieldsAt(L, ty, vs, mem, addr, own) && FieldsTyped(ty, vs)
    ensures LiftFields(L, fast, ty, mem, addr, |vs|) == Ok(FieldsToJs(ty, vs))
    decreases ty, 0
  {
    var out := FieldsToJs(ty, vs);
    forall i | 0 <= i < |vs|
      ensures FieldLifts(L, fast, ty, mem, addr, i, out[i])
    {
      FieldRight(L, fast, ty, vs, mem, addr, own, i);
    }
    FieldsLift(L, fast, ty, mem, addr, out, |vs|);
    assert out[..|vs|] == out;
  }

  lemma {:induction false} FieldRight(
    L: Layout, fast: bool, ty: Ty, vs: seq<Val>, mem: Memory, addr: nat, own: set<nat>, i: nat)
    requires GoodLayout(L) && WellFormed(ty) && ty.TupleTy? && |vs| == |ty.fields| && i < |vs|
    requires FieldsAt(L, ty, vs, mem, addr, own) && FieldsTyped(ty, vs)
    ensures FieldLifts(L, fast, ty, mem, addr, i, FieldsToJs(ty, vs)[i])
    decreases ty, 0, 0
  {
    LiftRight(L, fast, ty.fields[i], vs[i], mem, addr + L.field(ty, i), own);
  }

  predicate FieldLifts(L: Layout, fast: bool, ty: Ty, mem: Memory, addr: nat, i: nat, js: Js)
    requires ty.TupleTy? && i < |ty.fields|
  {
    Lift(L, fast, ty.fields[i], mem, addr + L.field(ty, i)) == Ok(js)
  }

  lemma {:induction false} FieldsLift(L: Layout, fast: bool, ty: Ty, mem: Memory, addr: nat, out: seq<Js>, n: nat)
    requires ty.TupleTy? && |out| == |ty.fields| && n <= |out|
    requires forall i :: 0 <= i < |out| ==> FieldLifts(L, fast, ty, mem, addr, i, out[i])
    ensures LiftFields(L, fast, ty, mem, addr, n) == Ok(out[..n])
    decreases n
  {
    if n > 0 {
      FieldsLift(L, fast, ty, mem, addr, out, n - 1);
      assert FieldLifts(L, fast, ty, mem, addr, n - 1, out[n - 1]);
      assert out[..n] == out[..n - 1] + [out[n - 1]];
    }
  }

  lemma {:induction false} ListRight(L: Layout, fast: bool, t: Ty, elems: seq<Val>, mem: Memory, addr: nat, own: set<nat>)
    requires GoodLayout(L) && WellFormed(t) && Holds(L, ListTy(t), ListV(elems), mem, addr, own) && ElementsTyped(t, elems)
    ensures LiftList(L, fast, t, mem, addr) == Ok(ListToJs(t, elems))
    decreases t, 3
  {
    var ptr: nat :| Slot(mem, addr, own, ptr, |elems|) && ElementsAt(L, t, elems, mem, ptr, own);
    SlotRead(mem, addr, own, ptr, |elems|);
    if ArrayNum(t).Some? {
      CanonRight(L, t, elems, mem, ptr, own);
    } else {
      ElementsRight(L, fast, t, elems, mem, ptr, own);
    }
  }

  lemma SlotRead(mem: Memory, addr: nat, own: set<nat>, ptr: nat, len: nat)
    requires Slot(mem, addr, own, ptr, len)
    ensures GetInt(J.Uint32, mem, addr) == Ok(ptr) && GetInt(J.Uint32, mem, addr + 4) == Ok(len)
  {
    Spans();
    GetHere(J.Uint32, mem, addr, ptr, own);
    GetHere(J.Uint32, mem, addr + 4, len, own);
  }

  lemma {:induction false} ElementsRight(L: Layout, fast: bool, t: Ty, elems: seq<Val>, mem: Memory, ptr: nat, own: set<nat>)
    requires GoodLayout(L) && WellFormed(t) && ArrayNum(t).None?
    requires ElementsAt(L, t, elems, mem, ptr, own) && ElementsTyped(t, elems)
    ensures AsArray(LiftElements(L, fast, t, mem, ptr, |elems|)) == Ok(ListToJs(t, elems))
    decreases t, 2
  {
    var out := ListToJs(t, elems).elems;
    forall i | 0 <= i < |elems|
      ensures ElementLifts(L, fast, t, mem, ptr, i, out[i])
    {
      LiftRight(L, fast, t, elems[i], mem, ElementAddr(ptr, L.size(t), i), own);
    }
    ElementsLift(L, fast, t, mem, ptr, out, |elems|);
    assert out[..|elems|] == out;
  }

  predicate ElementLifts(L: Layout, fast: bool, t: Ty, mem: Memory, ptr: nat, i: nat, js: Js)
  {
    Lift(L, fast, t, mem, ElementAddr(ptr, L.size(t), i)) == Ok(js)
  }

  lemma {:induction false} ElementsLift(L: Layout, fast: bool, t: Ty, mem: Memory, ptr: nat, out: seq<Js>, n: nat)
    requires n <= |out| && forall i :: 0 <= i < |out| ==> ElementLifts(L, fast, t, mem, ptr, i, out[i])
    ensures LiftElements(L, fast, t, mem, ptr, n) == Ok(out[..n])
    decreases n
  {
    if n > 0 {
      ElementsLift(L, fast, t, mem, ptr, out, n - 1);
      assert ElementLifts(L, fast, t, mem, ptr, n - 1, out[n - 1]);
      assert out[..n] == out[..n - 1] + [out[n - 1]];
    }
  }

  // ----- lists of numbers -----

  lemma {:induction false} ArrayNumSize(L: Layout, t: Ty)
    requires GoodLayout(L) && ArrayNum(t).Some?
    ensures L.size(t) == Width(ArrayNum(t).value)
  {
    assert Roomy(L, t);
    if t.AliasTy? {
      ArrayNumSize(L, t.target);
    }
  }

  lemma {:induction false} ArrayNumHeld(L: Layout, t: Ty, v: Val, mem: Memory, addr: nat, own: set<nat>)
    requires ArrayNum(t).Some?
    ensures Holds(L, t, v, mem, addr, own) <==> Holds(L, NumTy(ArrayNum(t).value), v, mem, addr, own)
  {
    if t.AliasTy? {
      ArrayNumHeld(L, t.target, v, mem, addr, own);
    }
  }

  /** A number with its bytes. */
  predicate NumAt(k: Num, v: Val, mem: Memory, addr: nat)
  {
    v.NumV? && BytesOf(mem, addr, Width(k)) == Some(ToLE(v.n, Width(k)))
  }

  /** Numbers one after the other. */
  ghost predicate NumsAt(k: Num, elems: seq<Val>, mem: Memory, ptr: nat)
  {
    forall i {:trigger elems[i]} :: 0 <= i < |elems| ==> NumAt(k, elems[i], mem, ElementAddr(ptr, Width(k), i))
  }

  lemma NumHeld(L: Layout, t: Ty, v: Val, mem: Memory, addr: nat, own: set<nat>)
    requires ArrayNum(t).Some? && Holds(L, t, v, mem, addr, own)
    ensures NumAt(ArrayNum(t).value, v, mem, addr)
  {
    ArrayNumHeld(L, t, v, mem, addr, own);
  }

  lemma NumsHeld(L: Layout, t: Ty, elems: seq<Val>, mem: Memory, ptr: nat, own: set<nat>)
    requires GoodLayout(L) && ArrayNum(t).Some? && ElementsAt(L, t, elems, mem, ptr, own)
    ensures NumsAt(ArrayNum(t).value, elems, mem, ptr)
  {
    var w := Width(ArrayNum(t).value);
    ArrayNumSize(L, t);
    forall i | 0 <= i < |elems|
      ensures NumAt(ArrayNum(t).value, elems[i], mem, ElementAddr(ptr, w, i))
    {
      NumHeld(L, t, elems[i], mem, ElementAddr(ptr, L.size(t), i), own);
    }
  }

  lemma {:induction false} NextAddr(ptr: nat, size: nat, i: nat)
    ensures ElementAddr(ptr + size, size, i) == ElementAddr(ptr, size, i + 1)
    decreases i
  {
    if i > 0 {
      NextAddr(ptr, size, i - 1);
    }
  }

  lemma RestAt(k: Num, elems: seq<Val>, mem: Memory, ptr: nat)
    requires NumsAt(k, elems, mem, ptr) && elems != []
    ensures NumsAt(k, elems[1..], mem, ptr + Width(k)) && NumAt(k, elems[0], mem, ptr)
  {
    var w := Width(k);
    assert NumAt(k, elems[0], mem, ElementAddr(ptr, w, 0));
    forall i | 0 <= i < |elems| - 1
      ensures NumAt(k, elems[1..][i], mem, ElementAddr(ptr + w, w, i))
    {
      NextAddr(ptr, w, i);
      assert NumAt(k, elems[i + 1], mem, ElementAddr(ptr, w, i + 1));
    }
  }

  /** The bytes from the first number to the last are those of the list. */
  lemma {:induction false} NumsJoined(k: Num, elems: seq<Val>, mem: Memory, ptr: nat)
    requires forall i :: 0 <= i < |elems| ==> elems[i].NumV?
    requires NumsAt(k, elems, mem, ptr) && elems != []
    ensures BytesOf(mem, ptr, |NumBytes(k, elems)|) == Some(NumBytes(k, elems))
    decreases |elems|
  {
    RestAt(k, elems, mem, ptr);
    if |elems| > 1 {
      NumsJoined(k, elems[1..], mem, ptr + Width(k));
    } else {
      assert mem[ptr + Width(k)..ptr + Width(k)] == [] == NumBytes(k, elems[1..]);
    }
    Adjacent(mem, ptr, ToLE(elems[0].n, Width(k)), NumBytes(k, elems[1..]));
  }

  lemma Adjacent(mem: Memory, at: nat, a: seq<byte>, b: seq<byte>)
    requires BytesOf(mem, at, |a|) == Some(a) && BytesOf(mem, at + |a|, |b|) == Some(b)
    ensures BytesOf(mem, at, |a + b|) == Some(a + b)
  {
    assert mem[at..at + |a| + |b|] == mem[at..at + |a|] + mem[at + |a|..at + |a| + |b|];
  }

  lemma CanonOfBytes(e: J.Element, mem: Memory, ptr: nat, len: nat, bytes: seq<byte>)
    requires |bytes| == len * J.ElementSize(e) && (bytes == [] || BytesOf(mem, ptr, |bytes|) == Some(bytes))
    ensures CanonLift(e, mem, ptr, len) == Ok(Typed(e, bytes, 0, len))
  {
    WholeElements(len, J.ElementSize(e));
    assert Slice(mem, ptr, ptr + |bytes|) == bytes;
  }

  /** The typed array made from the bytes of a list in memory. */
  lemma CanonOfNums(k: Num, elems: seq<Val>, mem: Memory, ptr: nat)
    requires forall i :: 0 <= i < |elems| ==> elems[i].NumV?
    requires NumsAt(k, elems, mem, ptr)
    ensures CanonLift(ViewOf(k), mem, ptr, |elems|) == Ok(Typed(ViewOf(k), NumBytes(k, elems), 0, |elems|))
  {
    NumBytesLength(k, elems);
    if elems != [] {
      NumsJoined(k, elems, mem, ptr);
    }
    CanonOfBytes(ViewOf(k), mem, ptr, |elems|, NumBytes(k, elems));
  }

  lemma CanonRight(L: Layout, t: Ty, elems: seq<Val>, mem: Memory, ptr: nat, own: set<nat>)
    requires GoodLayout(L) && ArrayNum(t).Some? && ElementsAt(L, t, elems, mem, ptr, own) && ElementsTyped(t, elems)
    ensures CanonLift(ViewOf(ArrayNum(t).value), mem, ptr, |elems|) == Ok(ListToJs(t, elems))
  {
    NumsTyped(t, elems);
    NumsHeld(L, t, elems, mem, ptr, own);
    CanonOfNums(ArrayNum(t).value, elems, mem, ptr);
  }

  lemma WholeElements(n: nat, size: nat)
    requires size > 0
    ensures (n * size) % size == 0 && (n * size) / size == n
  {
    ModUnique(n * size, size, n, 0);
  }

  // ----- what is lifted is held -----

  /** Every address of a memory. */
  function Everywhere(mem: Memory): set<nat> { set a: nat | a < |mem| && IsAddress(mem, a) }

  predicate IsAddress(mem: Memory, a: nat) { a < |mem| }

  /** The lists of numbers that lifting reaches lie inside the memory. */
  ghost predicate Inside(L: Layout, ty: Ty, mem: Memory, addr: nat)
    decreases ty, 1
  {
    if Discriminated(ty) then
      var d := GetInt(DiscView(|Arms(ty)|), mem, addr);
      d.Ok? && 0 <= d.value < |Arms(ty)| && Arms(ty)[d.value].Some? ==>
        Inside(L, Arms(ty)[d.value].value, mem, addr + L.payload(ty))
    else if ty.TupleTy? then
      forall i :: 0 <= i < |ty.fields| ==> FieldInside(L, ty, mem, addr, i)
    else if ty.ListTy? then
      var ptr, len := GetInt(J.Uint32, mem, addr), GetInt(J.Uint32, mem, addr + 4);
      ptr.Ok? && len.Ok? && ptr.value >= 0 && len.value >= 0 ==> ListInside(L, ty.elem, mem, ptr.value, len.value)
    else if ty.AliasTy? then Inside(L, ty.target, mem, addr)
    else true
  }

  ghost predicate FieldInside(L: Layout, ty: Ty, mem: Memory, addr: nat, i: nat)
    requires ty.TupleTy? && i < |ty.fields|
    decreases ty, 0
  {
    Inside(L, ty.fields[i], mem, addr + L.field(ty, i))
  }

  ghost predicate ListInside(L: Layout, t: Ty, mem: Memory, ptr: nat, len: nat)
    decreases t, 2
  {
    if ArrayNum(t).Some? then len == 0 || ElementAddr(ptr, Width(ArrayNum(t).value), len) <= |mem|
    else forall i :: 0 <= i < len ==> ElementInside(L, t, mem, ElementAddr(ptr, L.size(t), i))
  }

  ghost predicate ElementInside(L: Layout, t: Ty, mem: Memory, addr: nat)
    decreases t, 2, 0
  {
    Inside(L, t, mem, addr)
  }

  lemma Here(mem: Memory, addr: nat, s: seq<byte>)
    requires BytesOf(mem, addr, |s|) == Some(s)
    ensures BytesAt(mem, addr, s, Everywhere(mem))
  {
  }

  /** Whatever is lifted with validation, from lists inside the memory, is the representation of a held value. */
  lemma {:induction false} LiftedHolds(L: Layout, ty: Ty, mem: Memory, addr: nat) returns (v: Val)
    requires GoodLayout(L) && WellFormed(ty) && Inside(L, ty, mem, addr) && Lift(L, false, ty, mem, addr).Ok?
    ensures Holds(L, ty, v, mem, addr, Everywhere(mem))
    decreases ty, 1
  {
    if Discriminated(ty) {
      v := ArmHolds(L, ty, mem, addr);
    } else if Scalar(ty) {
      v := ScalarHolds(L, ty, mem, addr);
    } else if ty.TupleTy? {
      var vs := FieldsHold(L, ty, mem, addr, |ty.fields|);
      v := TupleV(vs);
    } else if ty.ListTy? {
      v := ListHolds(L, ty.elem, mem, addr);
    } else {
      v := LiftedHolds(L, ty.target, mem, addr);
    }
  }

  lemma ScalarHolds(L: Layout, ty: Ty, mem: Memory, addr: nat) returns (v: Val)
    requires WellFormed(ty) && Scalar(ty) && Lift(L, false, ty, mem, addr).Ok?
    ensures ScalarAt(ty, v, mem, addr, Everywhere(mem))
  {
    if ty.BoolTy? {
      var b := BoolLifted(mem, addr);
      v := BoolV(b);
    } else if ty.NumTy? {
      var n := NumLifted(ty.num, mem, addr);
      v := NumV(n);
    } else {
      var bits := FlagsLifted(ty.count, mem, addr);
      v := FlagsV(bits);
    }
    Here(mem, addr, ScalarBytes(ty, v));
  }

  /** The discriminant that a lifted value was read from. */
  lemma DiscHolds(L: Layout, ty: Ty, mem: Memory, addr: nat) returns (d: nat)
    requires WellFormed(ty) && Discriminated(ty) && Lift(L, false, ty, mem, addr).Ok?
    ensures GetInt(DiscView(|Arms(ty)|), mem, addr) == Ok(d) && d < |Arms(ty)|
    ensures LiftPayload(L, false, ty, d, mem, addr).Ok?
    ensures BytesAt(mem, addr, ToLE(d, DiscSize(|Arms(ty)|)), Everywhere(mem))
  {
    d := GetInt(DiscView(|Arms(ty)|), mem, addr).value;
    ArmCount(ty);
    DiscViewIs(|Arms(ty)|, d);
    GetExact(DiscView(|Arms(ty)|), mem, addr, d);
    Here(mem, addr, ToLE(d, DiscSize(|Arms(ty)|)));
  }

  lemma {:induction false} ArmHolds(L: Layout, ty: Ty, mem: Memory, addr: nat) returns (v: Val)
    requires GoodLayout(L) && WellFormed(ty) && Inside(L, ty, mem, addr) && Lift(L, false, ty, mem, addr).Ok?
    requires Discriminated(ty)
    ensures ArmAt(L, ty, v, mem, addr, Everywhere(mem))
    decreases ty, 0
  {
    var d := DiscHolds(L, ty, mem, addr);
    v := ArmV(d, None);
    if Arms(ty)[d].Some? {
      PayloadFormed(ty, d);
      var p := LiftedHolds(L, Arms(ty)[d].value, mem, addr + L.payload(ty));
      v := ArmV(d, Some(p));
    }
  }

  lemma {:induction false} FieldsHold(L: Layout, ty: Ty, mem: Memory, addr: nat, n: nat) returns (vs: seq<Val>)
    requires GoodLayout(L) && WellFormed(ty) && ty.TupleTy? && n <= |ty.fields| && Inside(L, ty, mem, addr)
    requires LiftFields(L, false, ty, mem, addr, n).Ok?
    ensures |vs| == n && FieldsAt(L, ty, vs, mem, addr, Everywhere(mem))
    decreases ty, 0, n
  {
    vs := [];
    if n > 0 {
      var front := FieldsHold(L, ty, mem, addr, n - 1);
      assert FieldInside(L, ty, mem, addr, n - 1);
      var v := LiftedHolds(L, ty.fields[n - 1], mem, addr + L.field(ty, n - 1));
      FieldsSnoc(L, ty, front, v, mem, addr, Everywhere(mem));
      vs := front + [v];
    }
  }

  lemma {:induction false} ListHolds(L: Layout, t: Ty, mem: Memory, addr: nat) returns (v: Val)
    requires GoodLayout(L) && WellFormed(t) && Inside(L, ListTy(t), mem, addr) && LiftList(L, false, t, mem, addr).Ok?
    ensures Holds(L, ListTy(t), v, mem, addr, Everywhere(mem))
    decreases t, 3
  {
    var ptr, len := SlotHolds(L, t, mem, addr);
    var elems;
    if ArrayNum(t).Some? {
      elems := NumsHold(L, t, mem, ptr, len);
    } else {
      elems := ElementsHold(L, t, mem, ptr, len, len);
    }
    v := ListV(elems);
    assert Slot(mem, addr, Everywhere(mem), ptr, |elems|) && ElementsAt(L, t, elems, mem, ptr, Everywhere(mem));
  }

  lemma SlotHolds(L: Layout, t: Ty, mem: Memory, addr: nat) returns (ptr: nat, len: nat)
    requires LiftList(L, false, t, mem, addr).Ok?
    ensures GetInt(J.Uint32, mem, addr) == Ok(ptr) && GetInt(J.Uint32, mem, addr + 4) == Ok(len)
    ensures Slot(mem, addr, Everywhere(mem), ptr, len)
  {
    ptr, len := GetInt(J.Uint32, mem, addr).value, GetInt(J.Uint32, mem, addr + 4).value;
    Spans();
    GetInRange(J.Uint32, mem, addr);
    GetInRange(J.Uint32, mem, addr + 4);
    GetExact(J.Uint32, mem, addr, ptr);
    GetExact(J.Uint32, mem, addr + 4, len);
    Here(mem, addr, ToLE(ptr, 4));
    Here(mem, addr + 4, ToLE(len, 4));
  }

  lemma {:induction false} ElementsHold(L: Layout, t: Ty, mem: Memory, ptr: nat, len: nat, n: nat)
    returns (elems: seq<Val>)
    requires GoodLayout(L) && WellFormed(t) && ArrayNum(t).None? && ListInside(L, t, mem, ptr, len) && n <= len
    requires LiftElements(L, false, t, mem, ptr, n).Ok?
    ensures |elems| == n && ElementsAt(L, t, elems, mem, ptr, Everywhere(mem))
    decreases t, 2, n
  {
    elems := [];
    if n > 0 {
      var front := ElementsHold(L, t, mem, ptr, len, n - 1);
      assert ElementInside(L, t, mem, ElementAddr(ptr, L.size(t), n - 1));
      var v := LiftedHolds(L, t, mem, ElementAddr(ptr, L.size(t), n - 1));
      ElementsSnoc(L, t, front, v, mem, ptr, Everywhere(mem));
      elems := front + [v];
    }
  }

  lemma NumAlways(k: Num, mem: Memory, addr: nat)
    requires addr + Width(k) <= |mem|
    ensures LiftNum(k, mem, addr).Ok?
  {
    NumNoTypeError(k, mem, addr);
  }

  lemma {:induction false} AddrMonotone(ptr: nat, size: nat, i: nat, n: nat)
    requires i <= n
    ensures ElementAddr(ptr, size, i) <= ElementAddr(ptr, size, n)
    decreases n
  {
    if i < n {
      AddrMonotone(ptr, size, i, n - 1);
    }
  }

  lemma {:induction false} NumsHold(L: Layout, t: Ty, mem: Memory, ptr: nat, n: nat) returns (elems: seq<Val>)
    requires GoodLayout(L) && ArrayNum(t).Some?
    requires n == 0 || ElementAddr(ptr, Width(ArrayNum(t).value), n) <= |mem|
    ensures |elems| == n && ElementsAt(L, t, elems, mem, ptr, Everywhere(mem))
    decreases n
  {
    elems := [];
    if n > 0 {
      var k := ArrayNum(t).value;
      AddrMonotone(ptr, Width(k), n - 1, n);
      var front := NumsHold(L, t, mem, ptr, n - 1);
      var at := ElementAddr(ptr, Width(k), n - 1);
      NumAlways(k, mem, at);
      var x := NumLifted(k, mem, at);
      Here(mem, at, ToLE(x, Width(k)));
      ArrayNumSize(L, t);
      ArrayNumHeld(L, t, NumV(x), mem, at, Everywhere(mem));
      ElementsSnoc(L, t, front, NumV(x), mem, ptr, Everywhere(mem));
      elems := front + [NumV(x)];
    }
  }

  // ----- what is held lies inside -----

  /** The lists of numbers of a held value lie inside the memory. */
  lemma {:induction false} HeldInside(L: Layout, ty: Ty, v: Val, mem: Memory, addr: nat, own: set<nat>)
    requires GoodLayout(L) && WellFormed(ty) && Holds(L, ty, v, mem, addr, own)
    ensures Inside(L, ty, mem, addr)
    decreases ty, 1
  {
    hide GetInt, BytesAt;
    if Discriminated(ty) {
      ArmInside(L, ty, v, mem, addr, own);
    } else if ty.TupleTy? {
      forall i | 0 <= i < |ty.fields|
        ensures FieldInside(L, ty, mem, addr, i)
      {
        HeldInside(L, ty.fields[i], v.fields[i], mem, addr + L.field(ty, i), own);
      }
    } else if ty.ListTy? {
      var ptr: nat :| Slot(mem, addr, own, ptr, |v.elems|) && ElementsAt(L, ty.elem, v.elems, mem, ptr, own);
      SlotRead(mem, addr, own, ptr, |v.elems|);
      ElementsInside(L, ty.elem, v.elems, mem, ptr, own);
    } else if ty.AliasTy? {
      HeldInside(L, ty.target, v, mem, addr, own);
    }
  }

  lemma {:induction false} ArmInside(L: Layout, ty: Ty, v: Val, mem: Memory, addr: nat, own: set<nat>)
    requires GoodLayout(L) && WellFormed(ty) && Discriminated(ty) && ArmAt(L, ty, v, mem, addr, own)
    ensures Inside(L, ty, mem, addr)
    decreases ty, 0
  {
    hide Holds, GetInt, BytesAt, WellFormed, DiscView, DiscSize, ToLE, Arms;
    DiscRead(L, ty, v, mem, addr, own);
    if v.payload.Some? {
      PayloadFormed(ty, v.disc);
      HeldInside(L, Arms(ty)[v.disc].value, v.payload.value, mem, addr + L.payload(ty), own);
    }
  }

  lemma DiscRead(L: Layout, ty: Ty, v: Val, mem: Memory, addr: nat, own: set<nat>)
    requires WellFormed(ty) && Discriminated(ty) && ArmAt(L, ty, v, mem, addr, own)
    ensures GetInt(DiscView(|Arms(ty)|), mem, addr) == Ok(v.disc)
  {
    ArmCount(ty);
    DiscViewIs(|Arms(ty)|, v.disc);
    GetHere(DiscView(|Arms(ty)|), mem, addr, v.disc, own);
  }

  lemma {:induction false} ElementsInside(L: Layout, t: Ty, elems: seq<Val>, mem: Memory, ptr: nat, own: set<nat>)
    requires GoodLayout(L) && WellFormed(t) && ElementsAt(L, t, elems, mem, ptr, own)
    ensures ListInside(L, t, mem, ptr, |elems|)
    decreases t, 2
  {
    var n := |elems|;
    if ArrayNum(t).Some? {
      if n > 0 {
        NumsHeld(L, t, elems, mem, ptr, own);
        assert NumAt(ArrayNum(t).value, elems[n - 1], mem, ElementAddr(ptr, Width(ArrayNum(t).value), n - 1));
      }
    } else {
      forall i | 0 <= i < n
        ensures ElementInside(L, t, mem, ElementAddr(ptr, L.size(t), i))
      {
        HeldInside(L, t, elems[i], mem, ElementAddr(ptr, L.size(t), i), own);
      }
    }
  }

  /** The memory holds some value of the type. */
  ghost predicate HoldsSome(L: Layout, ty: Ty, mem: Memory, addr: nat)
  {
    exists v :: HoldsThere(L, ty, v, mem, addr)
  }

  ghost predicate HoldsThere(L: Layout, ty: Ty, v: Val, mem: Memory, addr: nat)
  {
    Holds(L, ty, v, mem, addr, Everywhere(mem))
  }

  /**
   For every type and memory: the memory holds a value of the type exactly if validated lifting succeeds and the lists
   of numbers that it reaches lie inside the memory. By `LiftRight`, it then gives the value's representation.
   */
  lemma LiftExactly(L: Layout, ty: Ty, mem: Memory, addr: nat)
    requires GoodLayout(L) && WellFormed(ty)
    ensures HoldsSome(L, ty, mem, addr) <==> Lift(L, false, ty, mem, addr).Ok? && Inside(L, ty, mem, addr)
  {
    if HoldsSome(L, ty, mem, addr) {
      var v :| HoldsThere(L, ty, v, mem, addr);
      LiftRight(L, false, ty, v, mem, addr, Everywhere(mem));
      HeldInside(L, ty, v, mem, addr, Everywhere(mem));
    }
    if Lift(L, false, ty, mem, addr).Ok? && Inside(L, ty, mem, addr) {
      var v := LiftedHolds(L, ty, mem, addr);
      assert HoldsThere(L, ty, v, mem, addr);
    }
  }
}
