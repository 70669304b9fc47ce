/** Which value the lowering code takes a JavaScript value for. */
module Taking {
  import opened Wrappers
  import opened Seqs
  import opened Bytes
  import opened Abi
  import opened JsRepr
  import opened Lowering
  import opened Held
  import J = JsHost

  /** The number stored for `x`; the bits of a float are cut to its width. */
  function TakenNum(k: Num, x: int): int { if k.F32? || k.F64? then x % Span(Width(k)) else Wrap(k, x) }

  /** The value that `js` is lowered as, or None if it is refused whatever the memory and the allocator. */
  function FromJs(ty: Ty, js: Js): Option<Val>
    decreases ty, 3
  {
    if Discriminated(ty) then ArmFromJs(ty, js)
    else
      match ty
      case BoolTy => Some(BoolV(Truthy(js)))
      case NumTy(k) => if js.Primitive? && KindOf(k, js.n) then Some(NumV(TakenNum(k, J.Content(js.n)))) else None
      case FlagsTy(n) => if FlagsOf(n, js).Some? then Some(FlagsV(FlagsOf(n, js).value)) else None
      case TupleTy(fields) => if Items(js).Some? then FieldsFromJs(ty, Items(js).value) else None
      case ListTy(t) => if Items(js).Some? then ListFromJs(t, js) else None
      case AliasTy(t) => FromJs(t, js)
  }

  function ArmFromJs(ty: Ty, js: Js): Option<Val>
    requires Discriminated(ty)
    decreases ty, 2
  {
    match ChooseArm(ty, js)
    case None => None
    case Some((arm, e)) =>
      if Arms(ty)[arm].None? then Some(ArmV(arm, None))
      else
        match FromJs(Arms(ty)[arm].value, e)
        case None => None
        case Some(v) => Some(ArmV(arm, Some(v)))
  }

  /** A missing field is lowered as undefined; items beyond the fields are ignored. */
  function FieldFromJs(ty: Ty, items: seq<Js>, i: nat): Option<Val>
    requires ty.TupleTy? && i < |ty.fields|
    decreases ty, 1
  {
    FromJs(ty.fields[i], ItemAt(items, i))
  }

  function FieldsFromJs(ty: Ty, items: seq<Js>): Option<Val>
    requires ty.TupleTy?
    decreases ty, 2
  {
    if forall i :: 0 <= i < |ty.fields| ==> FieldFromJs(ty, items, i).Some? then
      Some(TupleV(seq(|ty.fields|, i requires 0 <= i < |ty.fields| => FieldFromJs(ty, items, i).value)))
    else None
  }

  predicate ElementsTaken(t: Ty, items: seq<Js>)
    decreases t, 4
  {
    forall i :: 0 <= i < |items| ==> FromJs(t, items[i]).Some?
  }

  function ListFromJs(t: Ty, js: Js): Option<Val>
    requires Items(js).Some?
    decreases t, 5
  {
    var items := Items(js).value;
    if ArrayNum(t).Some? then NumsFromJs(ArrayNum(t).value, js, LengthOf(t, js))
    else if ElementsTaken(t, items) then
      Some(ListV(seq(|items|, i requires 0 <= i < |items| => FromJs(t, items[i]).value)))
    else None
  }

  /** Numbers of a regular array have to be in range; the bytes of a typed array are taken for `len` numbers. */
  function NumsFromJs(k: Num, js: Js, len: nat): Option<Val>
    requires Items(js).Some?
  {
    if js.Arr? then
      if forall i :: 0 <= i < |js.elems| ==> ValidNum(k, js.elems[i]) then Some(ListV(Contents(js.elems))) else None
    else if js.offset + len * Width(k) <= |js.buffer| then
      Some(ListV(NumsOf(k, js.buffer[js.offset..js.offset + len * Width(k)], len)))
    else None
  }

  function Contents(items: seq<Js>): (vs: seq<Val>)
    requires forall i :: 0 <= i < |items| ==> items[i].Primitive?
    ensures |vs| == |items|
  {
    seq(|items|, i requires 0 <= i < |items| => NumV(J.Content(items[i].n)))
  }

  /** The numbers with these bytes. */
  function NumsOf(k: Num, s: seq<byte>, n: nat): (vs: seq<Val>)
    requires |s| == n * Width(k)
    ensures |vs| == n
    decreases n
  {
    if n == 0 then []
    else
      assert n * Width(k) == (n - 1) * Width(k) + Width(k);
      [NumV(NumOf(k, FromLE(s[..Width(k)])))] + NumsOf(k, s[Width(k)..], n - 1)
  }

  // ----- the value is of the type -----

  lemma WrapInRange(k: Num, x: int)
    ensures InRange(k, TakenNum(k, x))
  {
    Spans();
  }

  lemma LowResidue(x: int, m: int, q: int)
    requires m > 0 && q * m == TWO32
    ensures (x % TWO32) % m == x % m
  {
    var r, k := x % TWO32, x / TWO32;
    assert x == r + (k * q) * m by {
      assert x == k * TWO32 + r && (k * q) * m == k * (q * m);
    }
    ModShift(r, k * q, m);
  }

  lemma ModTwice(x: int, m: int)
    requires m > 0
    ensures (x % m) % m == x % m
  {
    ModUnique(x % m, m, 0, x % m);
  }

  /** The conversions keep the residue of a number. */
  lemma WrapCongruent(k: Num, x: int)
    ensures Wrap(k, x) % Span(Width(k)) == x % Span(Width(k))
  {
    hide Signed, Span;
    Spans();
    LowResidue(x, 0x100, 0x100_0000);
    LowResidue(x, 0x1_0000, 0x1_0000);
    ModTwice(x % TWO32, 0x100);
    ModTwice(x % TWO32, 0x1_0000);
    ModTwice(x, TWO32);
    ModTwice(x, TWO64);
    SignedCongruent((x % TWO32) % 0x100, 1);
    SignedCongruent((x % TWO32) % 0x1_0000, 2);
    SignedCongruent(x % TWO32, 4);
    SignedCongruent(x % TWO64, 8);
  }

  /** Only the residue of a number counts when it is taken. */
  lemma TakenCongruent(k: Num, x: int)
    ensures TakenNum(k, x) % Span(Width(k)) == x % Span(Width(k))
  {
    hide Wrap, Span;
    WrapCongruent(k, x);
    ModTwice(x, Span(Width(k)));
  }

  lemma {:induction false} NumsOfTyped(k: Num, s: seq<byte>, n: nat)
    requires |s| == n * Width(k)
    ensures forall i :: 0 <= i < n ==> NumsOf(k, s, n)[i].NumV? && InRange(k, NumsOf(k, s, n)[i].n)
    ensures NumBytes(k, NumsOf(k, s, n)) == s
    decreases n
  {
    hide InRange, NumOf, FromLE, ToLE;
    if n > 0 {
      var w := Width(k);
      assert n * w == (n - 1) * w + w;
      NumsOfTyped(k, s[w..], n - 1);
      NumBack(k, s[..w]);
      assert NumsOf(k, s, n)[1..] == NumsOf(k, s[w..], n - 1);
      assert s == s[..w] + s[w..];
    }
  }

  lemma NumBack(k: Num, s: seq<byte>)
    requires |s| == Width(k)
    ensures InRange(k, NumOf(k, FromLE(s))) && ToLE(NumOf(k, FromLE(s)), Width(k)) == s
  {
    FromLEBound(s);
    NumOfIs(k, FromLE(s));
    ToLEFromLE(s);
    ModUnique(FromLE(s), Span(Width(k)), 0, FromLE(s));
    ToLECongruent(NumOf(k, FromLE(s)), FromLE(s), Width(k));
  }

  lemma {:induction false} ArrayNumHas(t: Ty, n: int)
    requires ArrayNum(t).Some? && InRange(ArrayNum(t).value, n)
    ensures HasType(t, NumV(n))
  {
    if t.AliasTy? {
      ArrayNumHas(t.target, n);
    }
  }

  lemma NumsFromJsTyped(t: Ty, js: Js, len: nat)
    requires ArrayNum(t).Some? && Items(js).Some? && NumsFromJs(ArrayNum(t).value, js, len).Some?
    ensures ElementsTyped(t, NumsFromJs(ArrayNum(t).value, js, len).value.elems)
  {
    var k := ArrayNum(t).value;
    var vs := NumsFromJs(k, js, len).value.elems;
    if js.Typed? {
      NumsOfTyped(k, js.buffer[js.offset..js.offset + len * Width(k)], len);
    }
    forall i | 0 <= i < |vs|
      ensures HasType(t, vs[i])
    {
      ArrayNumHas(t, vs[i].n);
    }
  }

  /** What `js` is taken for is a value of the type. */
  lemma {:induction false} TakenTyped(ty: Ty, js: Js)
    requires FromJs(ty, js).Some?
    ensures HasType(ty, FromJs(ty, js).value)
    decreases ty, 0
  {
    if Discriminated(ty) {
      var (arm, e) := ChooseArm(ty, js).value;
      if Arms(ty)[arm].Some? {
        TakenTyped(Arms(ty)[arm].value, e);
      }
    } else if ty.NumTy? {
      WrapInRange(ty.num, J.Content(js.n));
    } else if ty.TupleTy? {
      var items := Items(js).value;
      forall i | 0 <= i < |ty.fields|
        ensures HasType(ty.fields[i], FieldFromJs(ty, items, i).value)
      {
        assert FieldFromJs(ty, items, i).Some?;
        TakenTyped(ty.fields[i], ItemAt(items, i));
      }
    } else if ty.ListTy? {
      ListTyped(ty.elem, js);
    } else if ty.AliasTy? {
      TakenTyped(ty.target, js);
    }
  }

  lemma {:induction false} ListTyped(t: Ty, js: Js)
    requires Items(js).Some? && ListFromJs(t, js).Some?
    ensures HasType(ListTy(t), ListFromJs(t, js).value)
    decreases t, 1
  {
    if ArrayNum(t).Some? {
      NumsFromJsTyped(t, js, LengthOf(t, js));
    } else {
      var items := Items(js).value;
      forall i | 0 <= i < |items|
        ensures HasType(t, FromJs(t, items[i]).value)
      {
        TakenTyped(t, items[i]);
      }
    }
  }

  // ----- a representation is taken for what it represents -----

  lemma WrapRight(k: Num, n: int)
    requires InRange(k, n)
    ensures Wrap(k, n) == n
  {
    Spans();
    if Width(k) == 8 {
      Residue(n, TWO64);
    } else {
      Residue(n, TWO32);
      if n < 0 {
        ByteOf(n);
      }
    }
  }

  lemma Residue(n: int, m: int)
    requires m > 0 && -m <= n < m
    ensures n % m == if n < 0 then n + m else n
  {
    ModUnique(n, m, if n < 0 then -1 else 0, if n < 0 then n + m else n);
  }

  /** The low bytes of a negative number. */
  lemma ByteOf(n: int)
    requires n < 0
    ensures n >= -0x80 ==> (n + TWO32) % 0x100 == n + 0x100
    ensures n >= -0x8000 ==> (n + TWO32) % 0x1_0000 == n + 0x1_0000
  {
  }

  lemma TakenInRange(k: Num, n: int)
    requires InRange(k, n)
    ensures TakenNum(k, n) == n
  {
    WrapRight(k, n);
    if k.F32? || k.F64? {
      Residue(n, Span(Width(k)));
    }
  }

  lemma {:induction false} FindDistinct(names: seq<string>, i: nat)
    requires i < |names| && Distinct(names)
    ensures FindName(names, names[i]) == Some(i)
  {
    if i > 0 {
      assert names[0] != names[i] && names[1..][i - 1] == names[i];
      assert forall a, b :: 0 <= a < b < |names[1..]| ==> names[1..][a] != names[1..][b];
      FindDistinct(names[1..], i - 1);
    }
  }

  /** The representation of a value chooses its arm, and hands over the representation of its payload. */
  lemma ChooseRight(ty: Ty, v: Val)
    requires WellFormed(ty) && Discriminated(ty) && ArmTyped(ty, v)
    ensures ChooseArm(ty, ArmToJs(ty, v)).Some? && ChooseArm(ty, ArmToJs(ty, v)).value.0 == v.disc
    ensures v.payload.Some? ==> Some(ChooseArm(ty, ArmToJs(ty, v)).value.1) == PayloadToJs(ty, v)
  {
    Tags();
    match ty
    case EnumTy(names) => FindDistinct(names, v.disc);
    case OptionTy(t) =>
      if v.disc == 1 {
        UndefinedExactly(t, v.payload.value);
      }
    case ResultTy(_, _) =>
    case VariantTy(cases) => FindDistinct(CaseNames(cases), v.disc);
  }

  /** The representation of a value is taken for that value, at every type. */
  lemma {:induction false} ToJsTaken(ty: Ty, v: Val)
    requires WellFormed(ty) && HasType(ty, v)
    ensures FromJs(ty, ToJs(ty, v)) == Some(v)
    decreases ty, 1
  {
    if Discriminated(ty) {
      ChooseRight(ty, v);
      if v.payload.Some? {
        PayloadFormed(ty, v.disc);
        ToJsTaken(Arms(ty)[v.disc].value, v.payload.value);
      }
    } else if ty.NumTy? {
      TakenInRange(ty.num, v.n);
    } else if ty.FlagsTy? {
      assert FlagsOf(ty.count, FlagsObject(v.bits)).value == v.bits;
    } else if ty.TupleTy? {
      TupleTaken(ty, v);
    } else if ty.ListTy? {
      ListTaken(ty.elem, v.elems);
    } else if ty.AliasTy? {
      ToJsTaken(ty.target, v);
    }
  }

  lemma {:induction false} TupleTaken(ty: Ty, v: Val)
    requires ty.TupleTy? && WellFormed(ty) && HasType(ty, v)
    ensures FromJs(ty, ToJs(ty, v)) == Some(v)
    decreases ty, 0
  {
    var items := FieldsToJs(ty, v.fields);
    forall i | 0 <= i < |ty.fields|
      ensures FieldFromJs(ty, items, i) == Some(v.fields[i])
    {
      ToJsTaken(ty.fields[i], v.fields[i]);
    }
    assert FieldsFromJs(ty, items).Some?;
    assert FieldsFromJs(ty, items).value.fields == v.fields;
  }

  lemma {:induction false} ListTaken(t: Ty, elems: seq<Val>)
    requires WellFormed(t) && ElementsTyped(t, elems)
    ensures Items(ListToJs(t, elems)).Some? && ListFromJs(t, ListToJs(t, elems)) == Some(ListV(elems))
    decreases t, 2
  {
    if ArrayNum(t).Some? {
      NumsTaken(t, elems);
    } else {
      var items := ListToJs(t, elems).elems;
      forall i | 0 <= i < |items|
        ensures FromJs(t, items[i]) == Some(elems[i])
      {
        ToJsTaken(t, elems[i]);
      }
      assert ListFromJs(t, Arr(items)).Some?;
      assert ListFromJs(t, Arr(items)).value.elems == elems;
    }
  }

  lemma NumsTaken(t: Ty, elems: seq<Val>)
    requires ArrayNum(t).Some? && ElementsTyped(t, elems)
    ensures ListFromJs(t, ListToJs(t, elems)) == Some(ListV(elems))
  {
    var k, n := ArrayNum(t).value, |elems|;
    NumsTyped(t, elems);
    NumBytesLength(k, elems);
    var s := NumBytes(k, elems);
    assert s[0..0 + n * Width(k)] == s;
    NumsOfTyped(k, s, n);
    NumBytesInjective(k, NumsOf(k, s, n), elems);
  }
}
