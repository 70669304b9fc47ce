/**
 The code emitted to lift a value out of linear memory, with validation (`fast` false) and under
 `valid_lifting_optimization` (`fast` true).
 */
module Lifting {
  import opened Wrappers
  import opened Bytes
  import opened Flags
  import opened Abi
  import opened CanonicalSizes
  import opened JsRepr
  import J = JsHost

  datatype Fault = TypeError | RangeError | Trap

  /** A `DataView` getter. */
  function GetInt(e: J.Element, mem: Memory, at: int): Result<int, Fault>
  {
    match J.Get(e, mem, at)
    case None => Err(RangeError)
    case Some(v) => Ok(J.Content(v))
  }

  /** The getter used for a number in memory. */
  function NumView(k: Num): J.Element
  {
    match k
    case U8 => J.Uint8
    case S8 => J.Int8
    case U16 => J.Uint16
    case S16 => J.Int16
    case U32 | S32 => J.Int32
    case U64 | S64 => J.BigInt64
    case F32 => J.Float32
    case F64 => J.Float64
  }

  /** What is done with the loaded number: `clampGuest`, `>>> 0`, `BigInt.asUintN(64, ..)` or nothing. */
  function FromCore(k: Num, v: J.JsVal): Result<J.JsVal, Fault>
  {
    match k
    case U8 => Clamp(v, 0, 255)
    case S8 => Clamp(v, -128, 127)
    case U16 => Clamp(v, 0, 65535)
    case S16 => Clamp(v, -32768, 32767)
    case U32 => Ok(J.Number(J.Content(v) % TWO32))
    case U64 => Ok(J.BigInt(J.Content(v) % TWO64))
    case S32 | S64 | F32 | F64 => Ok(v)
  }

  function Clamp(v: J.JsVal, lo: int, hi: int): Result<J.JsVal, Fault>
  {
    if J.Content(v) < lo || J.Content(v) > hi then Err(TypeError) else Ok(v)
  }

  function LiftNum(k: Num, mem: Memory, addr: int): Result<Js, Fault>
  {
    match J.Get(NumView(k), mem, addr)
    case None => Err(RangeError)
    case Some(v) =>
      match FromCore(k, v)
      case Err(e) => Err(e)
      case Ok(n) => Ok(Primitive(n))
  }

  function LiftBool(fast: bool, mem: Memory, addr: nat): Result<Js, Fault>
  {
    match GetInt(J.Uint8, mem, addr)
    case Err(e) => Err(e)
    case Ok(x) =>
      if fast then Ok(Boolean(x != 0))
      else if x == 0 then Ok(Boolean(false))
      else if x == 1 then Ok(Boolean(true))
      else Err(TypeError)
  }

  function WordView(n: nat): J.Element
  {
    if n <= 8 then J.Uint8 else if n <= 16 then J.Uint16 else J.Int32
  }

  /** The first `k` words of the `n` flags at `addr`. */
  function LoadWords(n: nat, mem: Memory, addr: nat, k: nat): Result<seq<int>, Fault>
    ensures var r := LoadWords(n, mem, addr, k); r.Ok? ==> |r.value| == k
  {
    if k == 0 then Ok([])
    else
      match LoadWords(n, mem, addr, k - 1)
      case Err(e) => Err(e)
      case Ok(words) =>
        match GetInt(WordView(n), mem, addr + WordOffset(n, k - 1))
        case Err(e) => Err(e)
        case Ok(w) => Ok(words + [w])
  }

  function LiftFlagsAt(fast: bool, n: nat, mem: Memory, addr: nat): Result<Js, Fault>
  {
    match LoadWords(n, mem, addr, WordCount(n))
    case Err(e) => Err(e)
    case Ok(words) =>
      if n == 0 then Ok(FlagsObject([]))
      else
        match LiftFlags(fast, n, words)
        case None => Err(TypeError)
        case Some(bits) => Ok(FlagsObject(bits))
  }

  function DiscView(n: nat): J.Element
  {
    if DiscSize(n) == 1 then J.Uint8 else if DiscSize(n) == 2 then J.Uint16 else J.Int32
  }

  /** What a switch without a matching case leaves in its variable, or throws. */
  function NoCase(fast: bool): Result<Js, Fault> { if fast then Ok(Undefined) else Err(TypeError) }

  /** The arm that an option or a result takes: by truth, or by a switch. */
  function TwoWay(fast: bool, d: int): Result<nat, Fault>
  {
    if fast then Ok(if d != 0 then 1 else 0)
    else if d == 0 then Ok(0)
    else if d == 1 then Ok(1)
    else Err(TypeError)
  }

  /** The emitted code for a value of type `ty` at `addr`. */
  function Lift(L: Layout, fast: bool, ty: Ty, mem: Memory, addr: nat): Result<Js, Fault>
    decreases ty, 1, 0
  {
    if Discriminated(ty) then
      match GetInt(DiscView(|Arms(ty)|), mem, addr)
      case Err(e) => Err(e)
      case Ok(d) => LiftArm(L, fast, ty, d, mem, addr)
    else
      match ty
      case BoolTy => LiftBool(fast, mem, addr)
      case NumTy(k) => LiftNum(k, mem, addr)
      case FlagsTy(n) => LiftFlagsAt(fast, n, mem, addr)
      case TupleTy(fields) => AsArray(LiftFields(L, fast, ty, mem, addr, |fields|))
      case ListTy(t) => LiftList(L, fast, t, mem, addr)
      case AliasTy(t) => Lift(L, fast, t, mem, addr)
  }

  function AsArray(r: Result<seq<Js>, Fault>): Result<Js, Fault>
  {
    match r
    case Err(e) => Err(e)
    case Ok(elems) => Ok(Arr(elems))
  }

  function LiftArm(L: Layout, fast: bool, ty: Ty, d: int, mem: Memory, addr: nat): Result<Js, Fault>
    requires Discriminated(ty)
    decreases ty, 0, 1
  {
    match ty
    case EnumTy(names) => if 0 <= d < |names| then Ok(Str(names[d])) else NoCase(fast)
    case VariantTy(cases) =>
      if 0 <= d < |cases| then
        match LiftPayload(L, fast, ty, d, mem, addr)
        case Err(e) => Err(e)
        case Ok(payload) => Ok(Tagged(cases[d].name, payload))
      else NoCase(fast)
    case OptionTy(t) =>
      (match TwoWay(fast, d)
       case Err(e) => Err(e)
       case Ok(arm) =>
         match LiftPayload(L, fast, ty, arm, mem, addr)
         case Err(e) => Err(e)
         case Ok(payload) =>
           Ok(if MaybeNull(t) then Tagged(if arm == 0 then "none" else "some", payload) else OrUndefined(payload)))
    case ResultTy(_, _) =>
      match TwoWay(fast, d)
      case Err(e) => Err(e)
      case Ok(arm) =>
        match LiftPayload(L, fast, ty, arm, mem, addr)
        case Err(e) => Err(e)
        case Ok(payload) => Ok(Tagged(if arm == 0 then "ok" else "err", Some(OrUndefined(payload))))
  }

  function LiftPayload(L: Layout, fast: bool, ty: Ty, arm: nat, mem: Memory, addr: nat): Result<Option<Js>, Fault>
    requires Discriminated(ty)
    decreases ty, 0, 0
  {
    if arm < |Arms(ty)| && Arms(ty)[arm].Some? then
      match Lift(L, fast, Arms(ty)[arm].value, mem, addr + L.payload(ty))
      case Err(e) => Err(e)
      case Ok(js) => Ok(Some(js))
    else Ok(None)
  }

  /** The first `n` fields. */
  function LiftFields(L: Layout, fast: bool, ty: Ty, mem: Memory, addr: nat, n: nat): Result<seq<Js>, Fault>
    requires ty.TupleTy? && n <= |ty.fields|
    decreases ty, 0, n
  {
    if n == 0 then Ok([])
    else
      match LiftFields(L, fast, ty, mem, addr, n - 1)
      case Err(e) => Err(e)
      case Ok(elems) =>
        match Lift(L, fast, ty.fields[n - 1], mem, addr + L.field(ty, n - 1))
        case Err(e) => Err(e)
        case Ok(js) => Ok(elems + [js])
  }

  function LiftList(L: Layout, fast: bool, t: Ty, mem: Memory, addr: nat): Result<Js, Fault>
    decreases t, 3, 0
  {
    match GetInt(J.Uint32, mem, addr)
    case Err(e) => Err(e)
    case Ok(ptr) =>
      match GetInt(J.Uint32, mem, addr + 4)
      case Err(e) => Err(e)
      case Ok(len) =>
        if ptr < 0 || len < 0 then Err(RangeError)
        else if ArrayNum(t).Some? then CanonLift(ViewOf(ArrayNum(t).value), mem, ptr, len)
        else AsArray(LiftElements(L, fast, t, mem, ptr, len))
  }

  /** The loop of `ListLift`, after `n` rounds. */
  function LiftElements(L: Layout, fast: bool, t: Ty, mem: Memory, ptr: nat, n: nat): Result<seq<Js>, Fault>
    decreases t, 2, n
  {
    if n == 0 then Ok([])
    else
      match LiftElements(L, fast, t, mem, ptr, n - 1)
      case Err(e) => Err(e)
      case Ok(elems) =>
        match Lift(L, fast, t, mem, ElementAddr(ptr, L.size(t), n - 1))
        case Err(e) => Err(e)
        case Ok(js) => Ok(elems + [js])
  }

  /** `buffer.slice(begin, end)` of ECMA-262: a negative bound counts from the end, and both are clamped. */
  function Slice(buf: seq<byte>, begin: int, end: int): (r: seq<byte>)
    ensures |r| <= |buf|
  {
    var lo := Clamped(begin, |buf|);
    var hi := Clamped(end, |buf|);
    if lo <= hi then buf[lo..hi] else []
  }

  function Clamped(x: int, n: nat): (r: nat)
    ensures r <= n
  {
    if x < 0 then (if n + x < 0 then 0 else n + x) else if x < n then x else n
  }

  /** `ListCanonLift`: `new XArray(memory.buffer.slice(ptr, ptr + len * size))` */
  function CanonLift(e: J.Element, mem: Memory, ptr: int, len: int): Result<Js, Fault>
  {
    var size := J.ElementSize(e);
    var buf := Slice(mem, ptr, ptr + len * size);
    if |buf| % size != 0 then Err(RangeError) else Ok(Typed(e, buf, 0, |buf| / size))
  }

  /** `base + i * size` */
  method BaseOf(ptr: int, size: nat, i: nat) returns (base: int)
    ensures base == ElementAddr(ptr, size, i)
  {
    ElementAddrIs(ptr, size, i);
    base := ptr + i * size;
  }

  /** The emitted loop: `result.push(..)` for each element. */
  method ListLift(L: Layout, fast: bool, t: Ty, mem: Memory, ptr: nat, len: nat) returns (r: Result<Js, Fault>)
    ensures r == AsArray(LiftElements(L, fast, t, mem, ptr, len))
  {
    var result: seq<Js> := [];
    var i, size := 0, L.size(t);
    while i < len
      invariant 0 <= i <= len && LiftElements(L, fast, t, mem, ptr, i) == Ok(result)
    {
      var base := BaseOf(ptr, size, i);
      var e := Lift(L, fast, t, mem, base);
      if e.Err? {
        LiftStops(L, fast, t, mem, ptr, i + 1, len);
        return Err(e.error);
      }
      result := result + [e.value];
      i := i + 1;
    }
    return Ok(Arr(result));
  }

  lemma {:induction false} LiftStops(L: Layout, fast: bool, t: Ty, mem: Memory, ptr: nat, i: nat, n: nat)
    requires i <= n && LiftElements(L, fast, t, mem, ptr, i).Err?
    ensures LiftElements(L, fast, t, mem, ptr, n) == LiftElements(L, fast, t, mem, ptr, i)
    decreases n
  {
    if i < n {
      LiftStops(L, fast, t, mem, ptr, i, n - 1);
    }
  }

  // ----- the fast code refines the checked code -----

  /** The fast code never throws a TypeError, and otherwise does what the checked code does. */
  ghost predicate Refines<T>(checked: Result<T, Fault>, fast: Result<T, Fault>)
  {
    fast != Err(TypeError) && (checked == Err(TypeError) || checked == fast)
  }

  lemma GetRange(e: J.Element, mem: Memory, at: int)
    ensures var r := GetInt(e, mem, at); r.Ok? ==>
      match e
      case Uint8 => 0 <= r.value < 0x100
      case Int8 => -0x80 <= r.value < 0x80
      case Uint16 => 0 <= r.value < 0x1_0000
      case Int16 => -0x8000 <= r.value < 0x8000
      case Uint32 => 0 <= r.value < TWO32
      case Int32 => -TWO31 <= r.value < TWO31
      case _ => true
  {
    Spans();
    if GetInt(e, mem, at).Ok? {
      FromLEBound(mem[at..at + J.ElementSize(e)]);
    }
  }

  lemma NumNoTypeError(k: Num, mem: Memory, addr: nat)
    ensures LiftNum(k, mem, addr) != Err(TypeError)
  {
    GetRange(NumView(k), mem, addr);
  }

  lemma {:induction false} FastRefines(L: Layout, ty: Ty, mem: Memory, addr: nat)
    ensures Refines(Lift(L, false, ty, mem, addr), Lift(L, true, ty, mem, addr))
    decreases ty, 1, 0
  {
    if Discriminated(ty) {
      var d := GetInt(DiscView(|Arms(ty)|), mem, addr);
      if d.Ok? {
        ArmRefines(L, ty, d.value, mem, addr);
      }
    } else if ty.NumTy? {
      NumNoTypeError(ty.num, mem, addr);
    } else if ty.FlagsTy? {
      WordsNoTypeError(ty.count, mem, addr, WordCount(ty.count));
    } else if ty.TupleTy? {
      FieldsRefine(L, ty, mem, addr, |ty.fields|);
    } else if ty.ListTy? {
      ListRefines(L, ty.elem, mem, addr);
    } else if ty.AliasTy? {
      FastRefines(L, ty.target, mem, addr);
    }
  }

  lemma {:induction false} WordsNoTypeError(n: nat, mem: Memory, addr: nat, k: nat)
    ensures LoadWords(n, mem, addr, k) != Err(TypeError)
  {
    if k > 0 {
      WordsNoTypeError(n, mem, addr, k - 1);
    }
  }

  lemma {:induction false} ArmRefines(L: Layout, ty: Ty, d: int, mem: Memory, addr: nat)
    requires Discriminated(ty)
    ensures Refines(LiftArm(L, false, ty, d, mem, addr), LiftArm(L, true, ty, d, mem, addr))
    decreases ty, 0, 1
  {
    if d >= 0 {
      PayloadRefines(L, ty, d, mem, addr);
    }
    PayloadRefines(L, ty, 1, mem, addr);
  }

  lemma {:induction false} PayloadRefines(L: Layout, ty: Ty, arm: nat, mem: Memory, addr: nat)
    requires Discriminated(ty)
    ensures Refines(LiftPayload(L, false, ty, arm, mem, addr), LiftPayload(L, true, ty, arm, mem, addr))
    decreases ty, 0, 0
  {
    if arm < |Arms(ty)| && Arms(ty)[arm].Some? {
      FastRefines(L, Arms(ty)[arm].value, mem, addr + L.payload(ty));
    }
  }

  lemma {:induction false} FieldsRefine(L: Layout, ty: Ty, mem: Memory, addr: nat, n: nat)
    requires ty.TupleTy? && n <= |ty.fields|
    ensures Refines(LiftFields(L, false, ty, mem, addr, n), LiftFields(L, true, ty, mem, addr, n))
    decreases ty, 0, n
  {
    if n > 0 {
      FieldsRefine(L, ty, mem, addr, n - 1);
      FastRefines(L, ty.fields[n - 1], mem, addr + L.field(ty, n - 1));
    }
  }

  lemma {:induction false} ListRefines(L: Layout, t: Ty, mem: Memory, addr: nat)
    ensures Refines(LiftList(L, false, t, mem, addr), LiftList(L, true, t, mem, addr))
    decreases t, 3, 0
  {
    var ptr, len := GetInt(J.Uint32, mem, addr), GetInt(J.Uint32, mem, addr + 4);
    if ptr.Ok? && len.Ok? && ptr.value >= 0 && len.value >= 0 {
      ElementsRefine(L, t, mem, ptr.value, len.value);
    }
  }

  lemma {:induction false} ElementsRefine(L: Layout, t: Ty, mem: Memory, ptr: nat, n: nat)
    ensures Refines(LiftElements(L, false, t, mem, ptr, n), LiftElements(L, true, t, mem, ptr, n))
    decreases t, 2, n
  {
    if n > 0 {
      ElementsRefine(L, t, mem, ptr, n - 1);
      FastRefines(L, t, mem, ElementAddr(ptr, L.size(t), n - 1));
    }
  }

  /** For every type and memory: the fast code agrees with the checked code exactly if that throws no TypeError. */
  lemma FastExact(L: Layout, ty: Ty, mem: Memory, addr: nat)
    ensures Lift(L, true, ty, mem, addr) == Lift(L, false, ty, mem, addr) <==> Lift(L, false, ty, mem, addr) != Err(TypeError)
  {
    FastRefines(L, ty, mem, addr);
  }

  /** For an invalid enum inside `some`, the fast code gives what represents `none`. */
  lemma FastConfusion(L: Layout, names: seq<string>, mem: Memory, addr: nat)
    requires GetInt(J.Uint8, mem, addr) == Ok(1)
    requires Lift(L, false, EnumTy(names), mem, addr + L.payload(OptionTy(EnumTy(names)))) == Err(TypeError)
    ensures Lift(L, true, OptionTy(EnumTy(names)), mem, addr) == Ok(Undefined)
    ensures ToJs(OptionTy(EnumTy(names)), ArmV(0, None)) == Undefined
  {
    var ty, inner := OptionTy(EnumTy(names)), EnumTy(names);
    assert Arms(ty) == [None, Some(inner)] && !MaybeNull(inner);
    assert Lift(L, true, inner, mem, addr + L.payload(ty)) == Ok(Undefined);
    assert LiftPayload(L, true, ty, 1, mem, addr) == Ok(Some(Undefined));
    UndefinedExactly(ty, ArmV(0, None));
  }

  /** An option of an enum with one case, with discriminant 1 and then 5, which is no case: refused, or taken for none. */
  lemma ConfusionExample()
    ensures var ty, mem: Memory := OptionTy(EnumTy(["a"])), [1, 5];
      Lift(CanonicalLayout(), false, ty, mem, 0) == Err(TypeError) && Lift(CanonicalLayout(), true, ty, mem, 0) == Ok(Undefined)
  {
    var L, mem: Memory, names := CanonicalLayout(), [1, 5], ["a"];
    var inner, ty := EnumTy(names), OptionTy(EnumTy(names));
    assert Arms(ty) == [None, Some(inner)] && |Arms(inner)| == 1;
    OneArm(ty, inner);
    LoadByte(mem, 0);
    LoadByte(mem, 1);
    assert Lift(L, false, inner, mem, 1) == Err(TypeError);
    assert LiftPayload(L, false, ty, 1, mem, 0) == Err(TypeError);
    FastConfusion(L, names, mem, 0);
  }

  lemma OneArm(ty: Ty, inner: Ty)
    requires Discriminated(ty) && Arms(ty) == [None, Some(inner)] && Align(inner) == 1
    ensures PayloadOffset(ty) == 1
  {
    assert ArmsAlign(ty, 0) == 1 && ArmsAlign(ty, 1) == 1 && ArmsAlign(ty, 2) == 1;
  }

  lemma LoadByte(mem: Memory, at: nat)
    requires at < |mem|
    ensures GetInt(J.Uint8, mem, at) == Ok(mem[at])
  {
    assert mem[at..at + 1] == [mem[at]] && FromLE([mem[at]]) == mem[at] + 0x100 * FromLE([mem[at]][1..]);
  }
}
