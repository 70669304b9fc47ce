/** The code emitted to lower a JavaScript value into linear memory. */
module Lowering {
  import opened Wrappers
  import opened Bytes
  import opened Bits
  import opened Flags
  import opened Abi
  import opened JsRepr
  import opened Lifting
  import opened Heaps
  import J = JsHost

  /** What a throw leaves behind: stores and allocations before it stay. */
  datatype Failure = Failure(fault: Fault, left: Heap)

  /** The heap after the code, whether it throws or not. */
  function HeapOf(r: Result<Heap, Failure>): Heap
  {
    match r
    case Ok(h) => h
    case Err(e) => e.left
  }

  /** A `DataView` setter with an integer. */
  function Store(e: J.Element, h: Heap, at: int, x: int): Result<Heap, Failure>
  {
    match J.Set(e, h.mem, at, J.Number(x))
    case None => Err(Failure(RangeError, h))
    case Some(mem) => Ok(h.(mem := mem))
  }

  /** `op ? 1 : 0` */
  predicate Truthy(js: Js)
  {
    match js
    case Undefined | Null => false
    case Boolean(b) => b
    case Primitive(n) => J.Content(n) != 0
    case Str(s) => s != ""
    case _ => true
  }

  function NumStore(k: Num): J.Element
  {
    match k
    case U8 | S8 => J.Int8
    case U16 | S16 => J.Int16
    case U32 | S32 => J.Int32
    case U64 | S64 => J.BigInt64
    case F32 => J.Float32
    case F64 => J.Float64
  }

  /** The primitive types that the conversions accept as they are. */
  predicate KindOf(k: Num, n: J.JsVal)
  {
    match k
    case U64 | S64 => n.BigInt?
    case F32 | F64 => n.Float?
    case _ => n.Number?
  }

  /** `toUint8` and its like. */
  function Wrap(k: Num, x: int): int
  {
    match k
    case U8 => (x % TWO32) % 0x100
    case S8 => Signed((x % TWO32) % 0x100, 1)
    case U16 => (x % TWO32) % 0x1_0000
    case S16 => Signed((x % TWO32) % 0x1_0000, 2)
    case U32 => x % TWO32
    case S32 => Signed(x % TWO32, 4)
    case U64 => x % TWO64
    case S64 => Signed(x % TWO64, 8)
    case F32 | F64 => x
  }

  function LowerNum(k: Num, js: Js, h: Heap, addr: int): Result<Heap, Failure>
  {
    if js.Primitive? && KindOf(k, js.n) then Store(NumStore(k), h, addr, Wrap(k, J.Content(js.n)))
    else Err(Failure(TypeError, h))
  }

  /** The flags of an object; properties that are missing count as false, and so do null and undefined. */
  function FlagsOf(n: nat, js: Js): Option<seq<bool>>
  {
    match js
    case Undefined | Null => Some(seq(n, i => false))
    case Boolean(_) | Primitive(_) | Str(_) => None
    case FlagsObject(bits) => Some(seq(n, i requires 0 <= i < n => i < |bits| && bits[i]))
    case Tagged(_, _) | Arr(_) | Typed(_, _, _, _) => Some(seq(n, i => false))
  }

  function WordStore(n: nat): J.Element { if n <= 8 then J.Int8 else if n <= 16 then J.Int16 else J.Int32 }

  /** The first `k` words are stored. */
  function StoreWords(n: nat, words: seq<int>, h: Heap, addr: int, k: nat): Result<Heap, Failure>
    requires k <= |words|
    decreases k
  {
    if k == 0 then Ok(h)
    else
      match StoreWords(n, words, h, addr, k - 1)
      case Err(e) => Err(e)
      case Ok(h') => Store(WordStore(n), h', addr + WordOffset(n, k - 1), words[k - 1])
  }

  function LowerFlagsAt(n: nat, js: Js, h: Heap, addr: int): Result<Heap, Failure>
  {
    match FlagsOf(n, js)
    case None => Err(Failure(TypeError, h))
    case Some(bits) => StoreWords(n, LowerFlags(bits), h, addr, |LowerFlags(bits)|)
  }

  function DiscStore(n: nat): J.Element
  {
    if DiscSize(n) == 1 then J.Int8 else if DiscSize(n) == 2 then J.Int16 else J.Int32
  }

  /** `switch (x) { case names[0]: .. }` */
  function FindName(names: seq<string>, x: string): (r: Option<nat>)
    ensures r.Some? ==> r.value < |names| && names[r.value] == x
    ensures r.None? ==> x !in names
  {
    if names == [] then None
    else if names[0] == x then Some(0)
    else
      match FindName(names[1..], x)
      case None => None
      case Some(i) => Some(i + 1)
  }

  /** The arm that is lowered, and the value that its block takes for the payload. */
  function ChooseArm(ty: Ty, js: Js): (r: Option<(nat, Js)>)
    requires Discriminated(ty)
    ensures r.Some? ==> r.value.0 < |Arms(ty)|
  {
    match ty
    case EnumTy(names) =>
      if !js.Str? then None
      else
        (match FindName(names, js.s)
         case None => None
         case Some(i) => Some((i, Undefined)))
    case OptionTy(t) =>
      if MaybeNull(t) then
        if js.Tagged? && js.tag == "none" then Some((0, Undefined))
        else if js.Tagged? && js.tag == "some" then Some((1, OrUndefined(js.val)))
        else None
      else if js == Null || js == Undefined then Some((0, Undefined))
      else Some((1, js))
    case ResultTy(_, _) =>
      if js.Tagged? && js.tag == "ok" then Some((0, OrUndefined(js.val)))
      else if js.Tagged? && js.tag == "err" then Some((1, OrUndefined(js.val)))
      else None
    case VariantTy(cases) =>
      if !js.Tagged? then None
      else
        match FindName(CaseNames(cases), js.tag)
        case None => None
        case Some(i) => Some((i, OrUndefined(js.val)))
  }

  /** The element of a typed array. */
  function ItemOf(e: J.Element, buffer: seq<byte>, offset: nat, i: nat): Js
  {
    match J.Get(e, buffer, ElementAddr(offset, J.ElementSize(e), i))
    case None => Undefined
    case Some(n) => Primitive(n)
  }

  /** What iterating over an array gives. */
  function Items(js: Js): Option<seq<Js>>
  {
    match js
    case Arr(elems) => Some(elems)
    case Typed(e, buffer, offset, length) => Some(seq(length, i requires 0 <= i < length => ItemOf(e, buffer, offset, i)))
    case _ => None
  }

  function ItemAt(items: seq<Js>, i: nat): Js { if i < |items| then items[i] else Undefined }

  /** The emitted code for a value of type `ty`, lowered to `addr`. */
  function Lower(L: Layout, realloc: Realloc, ty: Ty, js: Js, h: Heap, addr: int): Result<Heap, Failure>
    decreases ty, 1, 0
  {
    if Discriminated(ty) then LowerArm(L, realloc, ty, js, h, addr)
    else
      match ty
      case BoolTy => Store(J.Int8, h, addr, Digit(Truthy(js)))
      case NumTy(k) => LowerNum(k, js, h, addr)
      case FlagsTy(n) => LowerFlagsAt(n, js, h, addr)
      case TupleTy(fields) =>
        (match Items(js)
         case None => Err(Failure(TypeError, h))
         case Some(items) => LowerFields(L, realloc, ty, items, h, addr, |fields|))
      case ListTy(t) => LowerList(L, realloc, t, js, h, addr)
      case AliasTy(t) => Lower(L, realloc, t, js, h, addr)
  }

  function LowerArm(L: Layout, realloc: Realloc, ty: Ty, js: Js, h: Heap, addr: int): Result<Heap, Failure>
    requires Discriminated(ty)
    decreases ty, 0, 0
  {
    match ChooseArm(ty, js)
    case None => Err(Failure(TypeError, h))
    case Some((arm, e)) =>
      match Store(DiscStore(|Arms(ty)|), h, addr, arm)
      case Err(f) => Err(f)
      case Ok(h') =>
        if Arms(ty)[arm].None? then Ok(h')
        else Lower(L, realloc, Arms(ty)[arm].value, e, h', addr + L.payload(ty))
  }

  /** The first `n` fields. */
  function LowerFields(L: Layout, realloc: Realloc, ty: Ty, items: seq<Js>, h: Heap, addr: int, n: nat):
    Result<Heap, Failure>
    requires ty.TupleTy? && n <= |ty.fields|
    decreases ty, 0, n
  {
    if n == 0 then Ok(h)
    else
      match LowerFields(L, realloc, ty, items, h, addr, n - 1)
      case Err(f) => Err(f)
      case Ok(h') => Lower(L, realloc, ty.fields[n - 1], ItemAt(items, n - 1), h', addr + L.field(ty, n - 1))
  }

  /** The length that a list is taken to have. */
  function LengthOf(t: Ty, js: Js): nat
    requires Items(js).Some?
  {
    if t == NumTy(U8) && js.Typed? then js.length * J.ElementSize(js.elem) else |Items(js).value|
  }

  /** `ListLower` or `ListCanonLower`, then the stores of length and pointer. */
  function LowerList(L: Layout, realloc: Realloc, t: Ty, js: Js, h: Heap, addr: int): Result<Heap, Failure>
    decreases t, 3, 1
  {
    match Items(js)
    case None => Err(Failure(TypeError, h))
    case Some(_) =>
      var len := LengthOf(t, js);
      match realloc(h, L.align(t), (len * L.size(t)) % TWO32)
      case None => Err(Failure(Trap, h))
      case Some((p, h1)) =>
        var ptr := Signed(p, 4);
        match Fill(L, realloc, t, js, h1, ptr)
        case Err(f) => Err(f)
        case Ok(h2) => StoreSlot(h2, addr, ptr, len)
  }

  /** What fills the block of a list. */
  function Fill(L: Layout, realloc: Realloc, t: Ty, js: Js, h: Heap, ptr: int): Result<Heap, Failure>
    requires Items(js).Some?
    decreases t, 3, 0
  {
    var items := Items(js).value;
    if ArrayNum(t).Some? then CanonLower(ArrayNum(t).value, js, LengthOf(t, js), h, ptr)
    else LowerElements(L, realloc, t, items, h, ptr, |items|)
  }

  function StoreSlot(h: Heap, addr: int, ptr: int, len: int): Result<Heap, Failure>
  {
    match Store(J.Uint32, h, addr + 4, len)
    case Err(f) => Err(f)
    case Ok(h') => Store(J.Uint32, h', addr, ptr)
  }

  /** The loop of `ListLower`, after `n` rounds. */
  function LowerElements(L: Layout, realloc: Realloc, t: Ty, items: seq<Js>, h: Heap, ptr: int, n: nat):
    Result<Heap, Failure>
    requires n <= |items|
    decreases t, 2, n
  {
    if n == 0 then Ok(h)
    else
      match LowerElements(L, realloc, t, items, h, ptr, n - 1)
      case Err(f) => Err(f)
      case Ok(h') => Lower(L, realloc, t, items[n - 1], h', ElementAddr(ptr, L.size(t), n - 1))
  }

  /** `_requireValidNumericPrimitive`; a number that is not in range, or of another kind, is refused. */
  predicate ValidNum(k: Num, js: Js) { js.Primitive? && KindOf(k, js.n) && InRange(k, J.Content(js.n)) }

  function StoreNum(k: Num, js: Js, h: Heap, at: int): Result<Heap, Failure>
  {
    if !ValidNum(k, js) then Err(Failure(TypeError, h)) else Store(ViewOf(k), h, at, J.Content(js.n))
  }

  /** The branch for regular arrays, after `n` rounds. */
  function StoreNums(k: Num, items: seq<Js>, h: Heap, ptr: int, n: nat): Result<Heap, Failure>
    requires n <= |items|
    decreases n
  {
    if n == 0 then Ok(h)
    else
      match StoreNums(k, items, h, ptr, n - 1)
      case Err(f) => Err(f)
      case Ok(h') => StoreNum(k, items[n - 1], h', ElementAddr(ptr, Width(k), n - 1))
  }

  /** `new Uint8Array(memory.buffer, ptr, n).set(new Uint8Array(buffer, offset, n))` */
  function CopyBytes(buffer: seq<byte>, offset: nat, h: Heap, ptr: int, n: nat): Result<Heap, Failure>
  {
    if offset + n > |buffer| || ptr < 0 || ptr + n > |h.mem| then Err(Failure(RangeError, h))
    else Ok(Write(h, ptr, buffer[offset..offset + n]))
  }

  /** `ListCanonLower`, after the allocation. */
  function CanonLower(k: Num, js: Js, len: nat, h: Heap, ptr: int): Result<Heap, Failure>
    requires Items(js).Some?
  {
    if js.Arr? then StoreNums(k, js.elems, h, ptr, |js.elems|)
    else CopyBytes(js.buffer, js.offset, h, ptr, len * Width(k))
  }

  lemma {:induction false} LowerStops(
    L: Layout, realloc: Realloc, t: Ty, items: seq<Js>, h: Heap, ptr: int, i: nat, n: nat)
    requires i <= n <= |items| && LowerElements(L, realloc, t, items, h, ptr, i).Err?
    ensures LowerElements(L, realloc, t, items, h, ptr, n) == LowerElements(L, realloc, t, items, h, ptr, i)
    decreases n
  {
    if i < n {
      LowerStops(L, realloc, t, items, h, ptr, i, n - 1);
    }
  }

  lemma LowerRound(L: Layout, realloc: Realloc, t: Ty, items: seq<Js>, h: Heap, ptr: int, i: nat, heap: Heap)
    requires i < |items| && LowerElements(L, realloc, t, items, h, ptr, i) == Ok(heap)
    ensures LowerElements(L, realloc, t, items, h, ptr, i + 1) ==
      Lower(L, realloc, t, items[i], heap, ElementAddr(ptr, L.size(t), i))
  {
  }

  /** The emitted loop over the elements of a list; a throw leaves it. */
  method ListLower(L: Layout, realloc: Realloc, t: Ty, vec: seq<Js>, h: Heap, result: int) returns (r: Result<Heap, Failure>)
    ensures r == LowerElements(L, realloc, t, vec, h, result, |vec|)
  {
    hide Lower;
    r := Ok(h);
    var i, size := 0, L.size(t);
    while i < |vec|
      invariant 0 <= i <= |vec| && r.Ok? && r == LowerElements(L, realloc, t, vec, h, result, i)
    {
      var base := BaseOf(result, size, i);
      LowerRound(L, realloc, t, vec, h, result, i, r.value);
      r := Lower(L, realloc, t, vec[i], r.value, base);
      i := i + 1;
      if r.Err? {
        LowerStops(L, realloc, t, vec, h, result, i, |vec|);
        break;
      }
    }
  }

  lemma StoreRound(k: Num, items: seq<Js>, h: Heap, ptr: int, i: nat, heap: Heap)
    requires i < |items| && StoreNums(k, items, h, ptr, i) == Ok(heap)
    ensures StoreNums(k, items, h, ptr, i + 1) == StoreNum(k, items[i], heap, ElementAddr(ptr, Width(k), i))
  {
  }

  /** The emitted loop over a regular array of numbers. */
  method ListCanonLower(k: Num, val: seq<Js>, h: Heap, ptr: int) returns (r: Result<Heap, Failure>)
    ensures r == StoreNums(k, val, h, ptr, |val|)
  {
    hide StoreNum;
    r := Ok(h);
    var i, offset, size := 0, 0, Width(k);
    while i < |val|
      invariant 0 <= i <= |val| && r.Ok? && r == StoreNums(k, val, h, ptr, i)
      invariant ptr + offset == ElementAddr(ptr, size, i)
    {
      StoreRound(k, val, h, ptr, i, r.value);
      r := StoreNum(k, val[i], r.value, ptr + offset);
      i, offset := i + 1, offset + size;
      if r.Err? {
        StoresStop(k, val, h, ptr, i, |val|);
        break;
      }
    }
  }

  lemma {:induction false} StoresStop(k: Num, items: seq<Js>, h: Heap, ptr: int, i: nat, n: nat)
    requires i <= n <= |items| && StoreNums(k, items, h, ptr, i).Err?
    ensures StoreNums(k, items, h, ptr, n) == StoreNums(k, items, h, ptr, i)
    decreases n
  {
    if i < n {
      StoresStop(k, items, h, ptr, i, n - 1);
    }
  }
}
