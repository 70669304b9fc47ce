/** How interface values are represented in JavaScript, and why no two values of a type are represented alike. */
module JsRepr {
  import opened Wrappers
  import opened Bytes
  import opened Abi
  import J = JsHost

  /**
   JavaScript values that lifting makes and lowering takes. In `Tagged`, `val` is None if there is no such property;
   reading it then gives `undefined`. A typed array is a view of `length` elements on a buffer.
   */
  datatype Js =
    | Undefined
    | Null
    | Boolean(b: bool)
    | Primitive(n: J.JsVal)
    | Str(s: string)
    | Tagged(tag: string, val: Option<Js>)
    | FlagsObject(bits: seq<bool>)
    | Arr(elems: seq<Js>)
    | Typed(elem: J.Element, buffer: seq<byte>, offset: nat, length: nat)

  /** `as_nullable`: the payload of an option that is represented by null-or-payload. */
  function AsNullable(ty: Ty): Option<Ty>
    decreases ty, 0
  {
    match ty
    case OptionTy(t) => if !MaybeNull(t) then Some(t) else None
    case AliasTy(t) => AsNullable(t)
    case _ => None
  }

  /** `maybe_null` */
  predicate MaybeNull(ty: Ty)
    decreases ty, 1
  {
    AsNullable(ty).Some?
  }

  /** The element of the numeric array type of `js_array_ty`, if there is one; aliases are looked through. */
  function ArrayNum(ty: Ty): Option<Num>
  {
    match ty
    case NumTy(k) => Some(k)
    case AliasTy(t) => ArrayNum(t)
    case _ => None
  }

  function ViewOf(k: Num): (e: J.Element)
    ensures J.ElementSize(e) == Width(k)
  {
    match k
    case U8 => J.Uint8
    case S8 => J.Int8
    case U16 => J.Uint16
    case S16 => J.Int16
    case U32 => J.Uint32
    case S32 => J.Int32
    case U64 => J.BigUint64
    case S64 => J.BigInt64
    case F32 => J.Float32
    case F64 => J.Float64
  }

  function NumToJs(k: Num, n: int): J.JsVal
    requires InRange(k, n)
  {
    match k
    case U64 | S64 => J.BigInt(n)
    case F32 | F64 => J.Float(n)
    case _ => J.Number(n)
  }

  /** The little-endian bytes of a list of numbers. */
  function NumBytes(k: Num, elems: seq<Val>): seq<byte>
    requires forall i :: 0 <= i < |elems| ==> elems[i].NumV?
  {
    if elems == [] then [] else ToLE(elems[0].n, Width(k)) + NumBytes(k, elems[1..])
  }

  /** Numbers are what an element type with an array type has for values. */
  lemma {:induction false} ArrayNumTyped(ty: Ty, v: Val)
    requires ArrayNum(ty).Some? && HasType(ty, v)
    ensures v.NumV? && InRange(ArrayNum(ty).value, v.n)
  {
    if ty.AliasTy? {
      ArrayNumTyped(ty.target, v);
    }
  }

  lemma NumsTyped(t: Ty, elems: seq<Val>)
    requires ArrayNum(t).Some? && ElementsTyped(t, elems)
    ensures forall i :: 0 <= i < |elems| ==> elems[i].NumV? && InRange(ArrayNum(t).value, elems[i].n)
  {
    forall i | 0 <= i < |elems|
      ensures elems[i].NumV? && InRange(ArrayNum(t).value, elems[i].n)
    {
      ArrayNumTyped(t, elems[i]);
    }
  }

  /** The representation of a value. */
  function ToJs(ty: Ty, v: Val): Js
    requires HasType(ty, v)
    decreases ty, 1
  {
    if Discriminated(ty) then ArmToJs(ty, v)
    else
      match ty
      case BoolTy => Boolean(v.b)
      case NumTy(k) => Primitive(NumToJs(k, v.n))
      case FlagsTy(_) => FlagsObject(v.bits)
      case TupleTy(_) => Arr(FieldsToJs(ty, v.fields))
      case ListTy(t) => ListToJs(t, v.elems)
      case AliasTy(t) => ToJs(t, v)
  }

  /** The representation of the payload, if there is one. */
  function PayloadToJs(ty: Ty, v: Val): Option<Js>
    requires Discriminated(ty) && ArmTyped(ty, v)
    decreases ty, 0, 0
  {
    if v.payload.None? then None else Some(ToJs(Arms(ty)[v.disc].value, v.payload.value))
  }

  function OrUndefined(x: Option<Js>): Js { if x.None? then Undefined else x.value }

  function ArmToJs(ty: Ty, v: Val): Js
    requires Discriminated(ty) && ArmTyped(ty, v)
    decreases ty, 0, 1
  {
    var payload := PayloadToJs(ty, v);
    match ty
    case EnumTy(names) => Str(names[v.disc])
    case OptionTy(t) =>
      if MaybeNull(t) then Tagged(if v.disc == 0 then "none" else "some", payload) else OrUndefined(payload)
    case ResultTy(_, _) => Tagged(if v.disc == 0 then "ok" else "err", Some(OrUndefined(payload)))
    case VariantTy(cases) => Tagged(cases[v.disc].name, payload)
  }

  function FieldsToJs(ty: Ty, vs: seq<Val>): (r: seq<Js>)
    requires ty.TupleTy? && |vs| <= |ty.fields| && FieldsTyped(ty, vs)
    ensures |r| == |vs|
    decreases ty, 0
  {
    seq(|vs|, i requires 0 <= i < |vs| => ToJs(ty.fields[i], vs[i]))
  }

  function ListToJs(t: Ty, elems: seq<Val>): Js
    requires ElementsTyped(t, elems)
    decreases t, 2
  {
    if ArrayNum(t).Some? then
      NumsTyped(t, elems);
      Typed(ViewOf(ArrayNum(t).value), NumBytes(ArrayNum(t).value, elems), 0, |elems|)
    else Arr(seq(|elems|, i requires 0 <= i < |elems| => ToJs(t, elems[i])))
  }

  // ----- undefined stands for none, and for nothing else -----

  /** `undefined` represents a value exactly if its type may be null and the value is none. */
  lemma {:induction false} UndefinedExactly(ty: Ty, v: Val)
    requires HasType(ty, v)
    ensures MaybeNull(ty) ==> v.ArmV?
    ensures ToJs(ty, v) == Undefined <==> MaybeNull(ty) && v.disc == 0
    ensures ToJs(ty, v) != Null
    decreases ty
  {
    if ty.AliasTy? {
      UndefinedExactly(ty.target, v);
      assert AsNullable(ty) == AsNullable(ty.target) && ToJs(ty, v) == ToJs(ty.target, v);
      assert MaybeNull(ty) == MaybeNull(ty.target);
    } else if ty.OptionTy? {
      assert ToJs(ty, v) == ArmToJs(ty, v) && v.disc < 2;
      if v.disc == 1 {
        UndefinedExactly(ty.some, v.payload.value);
        assert PayloadToJs(ty, v) == Some(ToJs(ty.some, v.payload.value));
      } else {
        assert PayloadToJs(ty, v) == None && AsNullable(ty).Some? == !MaybeNull(ty.some);
      }
    } else {
      assert AsNullable(ty).None?;
    }
  }

  // ----- values are represented differently -----

  lemma {:induction false} NumBytesLength(k: Num, elems: seq<Val>)
    requires forall i :: 0 <= i < |elems| ==> elems[i].NumV?
    ensures |NumBytes(k, elems)| == |elems| * Width(k)
  {
    if elems != [] {
      NumBytesLength(k, elems[1..]);
    }
  }

  lemma SameResidue(m: int, n: int, span: int)
    requires span > 0 && -span < m - n < span && m % span == n % span
    ensures m == n
  {
    var a, b := m / span, n / span;
    assert m - n == (a - b) * span;
    SmallMultiple(a - b, span);
  }

  lemma ToLEInjective(k: Num, m: int, n: int)
    requires InRange(k, m) && InRange(k, n) && ToLE(m, Width(k)) == ToLE(n, Width(k))
    ensures m == n
  {
    FromLEToLE(m, Width(k));
    FromLEToLE(n, Width(k));
    SameResidue(m, n, Span(Width(k)));
  }

  lemma {:induction false} NumBytesInjective(k: Num, xs: seq<Val>, ys: seq<Val>)
    requires |xs| == |ys|
    requires forall i :: 0 <= i < |xs| ==> xs[i].NumV? && InRange(k, xs[i].n) && ys[i].NumV? && InRange(k, ys[i].n)
    requires NumBytes(k, xs) == NumBytes(k, ys)
    ensures xs == ys
  {
    if xs != [] {
      var a, b := NumBytes(k, xs), NumBytes(k, ys);
      assert a[..Width(k)] == ToLE(xs[0].n, Width(k)) && b[..Width(k)] == ToLE(ys[0].n, Width(k));
      assert a[Width(k)..] == NumBytes(k, xs[1..]) && b[Width(k)..] == NumBytes(k, ys[1..]);
      ToLEInjective(k, xs[0].n, ys[0].n);
      NumBytesInjective(k, xs[1..], ys[1..]);
      assert xs == [xs[0]] + xs[1..] && ys == [ys[0]] + ys[1..];
    }
  }

  /** Two values of a type with the same representation are the same, at any nesting of options and aliases. */
  lemma {:induction false} ToJsInjective(ty: Ty, v: Val, w: Val)
    requires WellFormed(ty) && HasType(ty, v) && HasType(ty, w) && ToJs(ty, v) == ToJs(ty, w)
    ensures v == w
    decreases ty, 1
  {
    if Discriminated(ty) {
      SameArm(ty, v, w);
    } else if ty.TupleTy? {
      var vs, ws := FieldsToJs(ty, v.fields), FieldsToJs(ty, w.fields);
      forall i | 0 <= i < |ty.fields|
        ensures v.fields[i] == w.fields[i]
      {
        assert vs[i] == ws[i];
        ToJsInjective(ty.fields[i], v.fields[i], w.fields[i]);
      }
      assert v.fields == w.fields;
    } else if ty.ListTy? {
      SameElements(ty.elem, v.elems, w.elems);
    } else if ty.AliasTy? {
      ToJsInjective(ty.target, v, w);
    }
  }

  lemma Tags()
    ensures "none" != "some" && "ok" != "err"
  {
    assert "none"[0] != "some"[0] && |"ok"| != |"err"|;
  }

  /** The same representation has the same discriminant. */
  lemma SameDisc(ty: Ty, v: Val, w: Val)
    requires Discriminated(ty) && WellFormed(ty) && ArmTyped(ty, v) && ArmTyped(ty, w)
    requires ArmToJs(ty, v) == ArmToJs(ty, w)
    ensures v.disc == w.disc
  {
    Tags();
    match ty
    case EnumTy(names) =>
      assert names[v.disc] == names[w.disc];
    case OptionTy(t) =>
      UndefinedExactly(ty, v);
      UndefinedExactly(ty, w);
    case ResultTy(_, _) =>
    case VariantTy(cases) =>
      assert CaseNames(cases)[v.disc] == CaseNames(cases)[w.disc];
  }

  lemma {:induction false} SameArm(ty: Ty, v: Val, w: Val)
    requires Discriminated(ty) && WellFormed(ty) && ArmTyped(ty, v) && ArmTyped(ty, w)
    requires ArmToJs(ty, v) == ArmToJs(ty, w)
    ensures v == w
    decreases ty, 0
  {
    SameDisc(ty, v, w);
    if v.payload.Some? {
      PayloadFormed(ty, v.disc);
      ToJsInjective(Arms(ty)[v.disc].value, v.payload.value, w.payload.value);
    }
  }

  lemma PayloadFormed(ty: Ty, disc: nat)
    requires Discriminated(ty) && WellFormed(ty) && disc < |Arms(ty)| && Arms(ty)[disc].Some?
    ensures WellFormed(Arms(ty)[disc].value)
  {
  }

  lemma {:induction false} SameElements(t: Ty, vs: seq<Val>, ws: seq<Val>)
    requires WellFormed(t) && ElementsTyped(t, vs) && ElementsTyped(t, ws) && ListToJs(t, vs) == ListToJs(t, ws)
    ensures vs == ws
    decreases t, 2
  {
    if ArrayNum(t).Some? {
      NumsTyped(t, vs);
      NumsTyped(t, ws);
      NumBytesInjective(ArrayNum(t).value, vs, ws);
    } else {
      var a, b := ListToJs(t, vs).elems, ListToJs(t, ws).elems;
      forall i | 0 <= i < |vs|
        ensures |ws| == |vs| && vs[i] == ws[i]
      {
        assert a[i] == b[i];
        ToJsInjective(t, vs[i], ws[i]);
      }
    }
  }
}
