/** A JavaScript value is refused for its type exactly if it is taken for no value of the type. */
module Refusal {
  import opened Wrappers
  import opened Bytes
  import opened Flags
  import opened Abi
  import opened JsRepr
  import opened Lifting
  import opened Heaps
  import opened Lowering
  import opened Taking

  // ----- what is lowered is taken for a value -----

  lemma {:induction false} StoredValid(k: Num, items: seq<Js>, h: Heap, ptr: int, n: nat, i: nat)
    requires i < n <= |items| && StoreNums(k, items, h, ptr, n).Ok?
    ensures ValidNum(k, items[i])
    decreases n
  {
    hide ValidNum, Store;
    var r := StoreNums(k, items, h, ptr, n - 1);
    if i < n - 1 {
      StoredValid(k, items, h, ptr, n - 1, i);
    } else {
      assert StoreNum(k, items[i], r.value, ElementAddr(ptr, Width(k), i)).Ok?;
    }
  }

  /** What is lowered is taken for a value, whatever the layout, the memory, the address and the allocator. */
  lemma {:induction false} LoweredTaken(L: Layout, realloc: Realloc, ty: Ty, js: Js, h: Heap, addr: int)
    requires Lower(L, realloc, ty, js, h, addr).Ok?
    ensures FromJs(ty, js).Some?
    decreases ty, 1
  {
    if Discriminated(ty) {
      ArmTaken(L, realloc, ty, js, h, addr);
    } else if Scalar(ty) {
    } else if ty.TupleTy? {
      var items := Items(js).value;
      FieldsTaken(L, realloc, ty, items, h, addr, |ty.fields|);
      assert FieldsFromJs(ty, items).Some?;
    } else if ty.ListTy? {
      ListLoweredTaken(L, realloc, ty.elem, js, h, addr);
    } else if ty.AliasTy? {
      LoweredTaken(L, realloc, ty.target, js, h, addr);
    }
  }

  lemma {:induction false} ArmTaken(L: Layout, realloc: Realloc, ty: Ty, js: Js, h: Heap, addr: int)
    requires Discriminated(ty) && LowerArm(L, realloc, ty, js, h, addr).Ok?
    ensures ArmFromJs(ty, js).Some?
    decreases ty, 0
  {
    var (arm, e) := ChooseArm(ty, js).value;
    if Arms(ty)[arm].Some? {
      var h' := Store(DiscStore(|Arms(ty)|), h, addr, arm).value;
      LoweredTaken(L, realloc, Arms(ty)[arm].value, e, h', addr + L.payload(ty));
    }
  }

  lemma {:induction false} FieldsTaken(L: Layout, realloc: Realloc, ty: Ty, items: seq<Js>, h: Heap, addr: int, n: nat)
    requires ty.TupleTy? && n <= |ty.fields| && LowerFields(L, realloc, ty, items, h, addr, n).Ok?
    ensures forall i :: 0 <= i < n ==> FieldFromJs(ty, items, i).Some?
    decreases ty, 0, n
  {
    if n > 0 {
      FieldsTaken(L, realloc, ty, items, h, addr, n - 1);
      var h' := LowerFields(L, realloc, ty, items, h, addr, n - 1).value;
      LoweredTaken(L, realloc, ty.fields[n - 1], ItemAt(items, n - 1), h', addr + L.field(ty, n - 1));
    }
  }

  lemma {:induction false} ListLoweredTaken(L: Layout, realloc: Realloc, t: Ty, js: Js, h: Heap, addr: int)
    requires LowerList(L, realloc, t, js, h, addr).Ok?
    ensures Items(js).Some? && ListFromJs(t, js).Some?
    decreases t, 4
  {
    hide Fill, ListFromJs, StoreSlot, LengthOf;
    var len := LengthOf(t, js);
    var (p, h1) := realloc(h, L.align(t), (len * L.size(t)) % TWO32).value;
    FillTaken(L, realloc, t, js, h1, Signed(p, 4));
  }

  lemma {:induction false} FillTaken(L: Layout, realloc: Realloc, t: Ty, js: Js, h: Heap, ptr: int)
    requires Items(js).Some? && Fill(L, realloc, t, js, h, ptr).Ok?
    ensures ListFromJs(t, js).Some?
    decreases t, 3
  {
    var items := Items(js).value;
    if ArrayNum(t).None? {
      assert items[..|items|] == items;
      ElementsLoweredTaken(L, realloc, t, items, h, ptr, |items|);
    } else if js.Arr? {
      forall i | 0 <= i < |items|
        ensures ValidNum(ArrayNum(t).value, items[i])
      {
        StoredValid(ArrayNum(t).value, items, h, ptr, |items|, i);
      }
    }
  }

  lemma {:induction false} ElementsLoweredTaken(
    L: Layout, realloc: Realloc, t: Ty, items: seq<Js>, h: Heap, ptr: int, n: nat)
    requires n <= |items| && LowerElements(L, realloc, t, items, h, ptr, n).Ok?
    ensures ElementsTaken(t, items[..n])
    decreases t, 2, n
  {
    hide Lower, FromJs, ElementAddr;
    if n > 0 {
      ElementsLoweredTaken(L, realloc, t, items, h, ptr, n - 1);
      var h' := LowerElements(L, realloc, t, items, h, ptr, n - 1).value;
      LoweredTaken(L, realloc, t, items[n - 1], h', ElementAddr(ptr, L.size(t), n - 1));
      assert items[..n] == items[..n - 1] + [items[n - 1]];
    }
  }

  // ----- what is taken for a value is not refused for its type -----

  predicate NoTypeError(r: Result<Heap, Failure>) { r.Ok? || r.error.fault != TypeError }

  lemma {:induction false} WordsNoTypeError(n: nat, words: seq<int>, h: Heap, addr: int, k: nat)
    requires k <= |words|
    ensures NoTypeError(StoreWords(n, words, h, addr, k))
    decreases k
  {
    if k > 0 {
      WordsNoTypeError(n, words, h, addr, k - 1);
    }
  }

  lemma {:induction false} NumsNoTypeError(k: Num, items: seq<Js>, h: Heap, ptr: int, n: nat)
    requires n <= |items| && forall i :: 0 <= i < n ==> ValidNum(k, items[i])
    ensures NoTypeError(StoreNums(k, items, h, ptr, n))
    decreases n
  {
    if n > 0 {
      NumsNoTypeError(k, items, h, ptr, n - 1);
    }
  }

  /** What is taken for a value is never refused with a TypeError. */
  lemma {:induction false} NeverTypeError(L: Layout, realloc: Realloc, ty: Ty, js: Js, h: Heap, addr: int)
    requires FromJs(ty, js).Some?
    ensures NoTypeError(Lower(L, realloc, ty, js, h, addr))
    decreases ty, 1
  {
    if Discriminated(ty) {
      ArmNoTypeError(L, realloc, ty, js, h, addr);
    } else if ty.FlagsTy? {
      var words := LowerFlags(FlagsOf(ty.count, js).value);
      WordsNoTypeError(ty.count, words, h, addr, |words|);
    } else if ty.TupleTy? {
      FieldsNoTypeError(L, realloc, ty, Items(js).value, h, addr, |ty.fields|);
    } else if ty.ListTy? {
      ListNoTypeError(L, realloc, ty.elem, js, h, addr);
    } else if ty.AliasTy? {
      NeverTypeError(L, realloc, ty.target, js, h, addr);
    }
  }

  lemma {:induction false} ArmNoTypeError(L: Layout, realloc: Realloc, ty: Ty, js: Js, h: Heap, addr: int)
    requires Discriminated(ty) && ArmFromJs(ty, js).Some?
    ensures NoTypeError(LowerArm(L, realloc, ty, js, h, addr))
    decreases ty, 0
  {
    var (arm, e) := ChooseArm(ty, js).value;
    var h' := Store(DiscStore(|Arms(ty)|), h, addr, arm);
    if Arms(ty)[arm].Some? && h'.Ok? {
      NeverTypeError(L, realloc, Arms(ty)[arm].value, e, h'.value, addr + L.payload(ty));
    }
  }

  lemma {:induction false} FieldsNoTypeError(
    L: Layout, realloc: Realloc, ty: Ty, items: seq<Js>, h: Heap, addr: int, n: nat)
    requires ty.TupleTy? && n <= |ty.fields|
    requires forall i :: 0 <= i < n ==> FieldFromJs(ty, items, i).Some?
    ensures NoTypeError(LowerFields(L, realloc, ty, items, h, addr, n))
    decreases ty, 0, n
  {
    if n > 0 {
      FieldsNoTypeError(L, realloc, ty, items, h, addr, n - 1);
      var r := LowerFields(L, realloc, ty, items, h, addr, n - 1);
      assert FieldFromJs(ty, items, n - 1).Some?;
      if r.Ok? {
        NeverTypeError(L, realloc, ty.fields[n - 1], ItemAt(items, n - 1), r.value, addr + L.field(ty, n - 1));
      }
    }
  }

  lemma {:induction false} ListNoTypeError(L: Layout, realloc: Realloc, t: Ty, js: Js, h: Heap, addr: int)
    requires Items(js).Some? && ListFromJs(t, js).Some?
    ensures NoTypeError(LowerList(L, realloc, t, js, h, addr))
    decreases t, 4
  {
    hide Fill, ListFromJs, LengthOf;
    var block := realloc(h, L.align(t), (LengthOf(t, js) * L.size(t)) % TWO32);
    if block.Some? {
      var (p, h1) := block.value;
      FillNoTypeError(L, realloc, t, js, h1, Signed(p, 4));
    }
  }

  lemma {:induction false} FillNoTypeError(L: Layout, realloc: Realloc, t: Ty, js: Js, h: Heap, ptr: int)
    requires Items(js).Some? && ListFromJs(t, js).Some?
    ensures NoTypeError(Fill(L, realloc, t, js, h, ptr))
    decreases t, 3
  {
    var items := Items(js).value;
    if ArrayNum(t).None? {
      ElementsNoTypeError(L, realloc, t, items, h, ptr, |items|);
    } else if js.Arr? {
      NumsNoTypeError(ArrayNum(t).value, items, h, ptr, |items|);
    }
  }

  lemma {:induction false} ElementsNoTypeError(
    L: Layout, realloc: Realloc, t: Ty, items: seq<Js>, h: Heap, ptr: int, n: nat)
    requires n <= |items| && ElementsTaken(t, items)
    ensures NoTypeError(LowerElements(L, realloc, t, items, h, ptr, n))
    decreases t, 2, n
  {
    if n > 0 {
      ElementsNoTypeError(L, realloc, t, items, h, ptr, n - 1);
      var r := LowerElements(L, realloc, t, items, h, ptr, n - 1);
      if r.Ok? {
        NeverTypeError(L, realloc, t, items[n - 1], r.value, ElementAddr(ptr, L.size(t), n - 1));
      }
    }
  }

  // ----- null, tags and case names -----

  /** Null is lowered as undefined is: as none where the payload is not tagged, as no flags, and nowhere else. */
  lemma {:induction false} NullLikeUndefined(L: Layout, realloc: Realloc, ty: Ty, h: Heap, addr: int)
    ensures Lower(L, realloc, ty, Null, h, addr) == Lower(L, realloc, ty, Undefined, h, addr)
  {
    if ty.AliasTy? {
      NullLikeUndefined(L, realloc, ty.target, h, addr);
    } else if Discriminated(ty) {
      assert ChooseArm(ty, Null) == ChooseArm(ty, Undefined);
    }
  }

  /** The tags that a value may have; an option whose payload is not tagged takes every value. */
  function TagsOf(ty: Ty): seq<string>
    requires ty.VariantTy? || ty.ResultTy? || (ty.OptionTy? && MaybeNull(ty.some))
  {
    match ty
    case VariantTy(cases) => CaseNames(cases)
    case ResultTy(_, _) => ["ok", "err"]
    case OptionTy(_) => ["none", "some"]
  }

  /** A value is refused exactly if it has none of the tags, or is not the name of a case of an enum. */
  lemma RefusedExactly(ty: Ty, js: Js)
    requires Discriminated(ty)
    ensures ChooseArm(ty, js).None? <==>
      if ty.EnumTy? then !(js.Str? && js.s in ty.names)
      else if ty.OptionTy? && !MaybeNull(ty.some) then false
      else !(js.Tagged? && js.tag in TagsOf(ty))
  {
    if ty.ResultTy? {
      assert TagsOf(ty)[0] == "ok" && TagsOf(ty)[1] == "err";
    } else if ty.OptionTy? && MaybeNull(ty.some) {
      assert TagsOf(ty)[0] == "none" && TagsOf(ty)[1] == "some";
    } else if ty.VariantTy? && js.Tagged? {
      assert js.tag in CaseNames(ty.cases) <==> FindName(CaseNames(ty.cases), js.tag).Some?;
    }
  }

  /** Reading the property `val` of an object, which gives undefined if it is not there. */
  function ValOf(js: Js): Js
    requires js.Tagged?
  {
    match js.val
    case Some(x) => x
    case None => Undefined
  }

  /** The case `d` of the type is the one that `js` names, and `e` is what is lowered for its payload. */
  predicate Chosen(ty: Ty, js: Js, d: nat, e: Js)
    requires Discriminated(ty)
  {
    match ty
    case EnumTy(names) => js.Str? && d < |names| && names[d] == js.s && e == Undefined
    case OptionTy(t) =>
      if MaybeNull(t) then
        js.Tagged? && ((js.tag == "none" && d == 0 && e == Undefined) || (js.tag == "some" && d == 1 && e == ValOf(js)))
      else if js == Null || js == Undefined then d == 0 && e == Undefined
      else d == 1 && e == js
    case ResultTy(_, _) => js.Tagged? && e == ValOf(js) && ((js.tag == "ok" && d == 0) || (js.tag == "err" && d == 1))
    case VariantTy(cases) => js.Tagged? && d < |cases| && cases[d].name == js.tag && e == ValOf(js)
  }

  /** For every type with cases and every JavaScript value. */
  lemma ChosenExactly(ty: Ty, js: Js, d: nat, e: Js)
    requires Discriminated(ty) && WellFormed(ty)
    ensures ChooseArm(ty, js) == Some((d, e)) <==> Chosen(ty, js, d, e)
  {
    Tags();
    match ty
    case EnumTy(names) =>
      if js.Str? && d < |names| && names[d] == js.s {
        FindDistinct(names, d);
      }
    case OptionTy(_) =>
    case ResultTy(_, _) =>
    case VariantTy(cases) =>
      if js.Tagged? && d < |cases| && cases[d].name == js.tag {
        FindDistinct(CaseNames(cases), d);
      }
  }
}
