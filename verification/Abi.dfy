/**
 Interface types and values, and where their parts stand in linear memory. Sizes and alignments are those of the
 canonical ABI of the WebAssembly component model.
 */
module Abi {
  import opened Wrappers
  import opened Seqs
  import opened Bytes
  import opened Bits
  import opened Flags

  /** Numeric types; a float is the word of its bits. */
  datatype Num = U8 | S8 | U16 | S16 | U32 | S32 | U64 | S64 | F32 | F64

  datatype Case = Case(name: string, payload: Option<Ty>)

  datatype Ty =
    | BoolTy
    | NumTy(num: Num)
    | EnumTy(names: seq<string>)
    | FlagsTy(count: nat)
    | OptionTy(some: Ty)
    | ResultTy(ok: Option<Ty>, err: Option<Ty>)
    | VariantTy(cases: seq<Case>)
    | TupleTy(fields: seq<Ty>)
    | ListTy(elem: Ty)
    | AliasTy(target: Ty)

  /** A value, whatever its representation: `ArmV` is a value of an enum, an option, a result or a variant. */
  datatype Val =
    | BoolV(b: bool)
    | NumV(n: int)
    | FlagsV(bits: seq<bool>)
    | ArmV(disc: nat, payload: Option<Val>)
    | TupleV(fields: seq<Val>)
    | ListV(elems: seq<Val>)

  predicate Discriminated(ty: Ty) { ty.EnumTy? || ty.OptionTy? || ty.ResultTy? || ty.VariantTy? }

  predicate Scalar(ty: Ty) { ty.BoolTy? || ty.NumTy? || ty.FlagsTy? }

  /** The payload types by discriminant. */
  function Arms(ty: Ty): (arms: seq<Option<Ty>>)
    requires Discriminated(ty)
    ensures forall i :: 0 <= i < |arms| && arms[i].Some? ==> arms[i].value < ty
  {
    match ty
    case EnumTy(names) => seq(|names|, i => None)
    case OptionTy(t) => [None, Some(t)]
    case ResultTy(ok, err) => [ok, err]
    case VariantTy(cases) => seq(|cases|, i requires 0 <= i < |cases| => cases[i].payload)
  }

  function CaseNames(cases: seq<Case>): seq<string>
  {
    seq(|cases|, i requires 0 <= i < |cases| => cases[i].name)
  }

  /** What holds of types in a parsed interface. */
  predicate WellFormed(ty: Ty)
    decreases ty
  {
    match ty
    case BoolTy | NumTy(_) => true
    case EnumTy(names) => 0 < |names| < TWO31 && Distinct(names)
    case FlagsTy(n) => n > 0
    case OptionTy(t) => WellFormed(t)
    case ResultTy(ok, err) => (ok.Some? ==> WellFormed(ok.value)) && (err.Some? ==> WellFormed(err.value))
    case VariantTy(cases) =>
      && 0 < |cases| < TWO31 && Distinct(CaseNames(cases))
      && forall i :: 0 <= i < |cases| && cases[i].payload.Some? ==> WellFormed(cases[i].payload.value)
    case TupleTy(fields) => forall i :: 0 <= i < |fields| ==> WellFormed(fields[i])
    case ListTy(t) => WellFormed(t)
    case AliasTy(t) => WellFormed(t)
  }

  function Width(k: Num): nat
  {
    match k
    case U8 | S8 => 1
    case U16 | S16 => 2
    case U32 | S32 | F32 => 4
    case U64 | S64 | F64 => 8
  }

  predicate SignedNum(k: Num) { k.S8? || k.S16? || k.S32? || k.S64? }

  predicate InRange(k: Num, n: int)
  {
    if SignedNum(k) then -(Span(Width(k)) / 2) <= n < Span(Width(k)) / 2 else 0 <= n < Span(Width(k))
  }

  predicate HasType(ty: Ty, v: Val)
    decreases ty, 1
  {
    if Discriminated(ty) then ArmTyped(ty, v)
    else if Scalar(ty) then ScalarTyped(ty, v)
    else if ty.TupleTy? then v.TupleV? && |v.fields| == |ty.fields| && FieldsTyped(ty, v.fields)
    else if ty.ListTy? then v.ListV? && ElementsTyped(ty.elem, v.elems)
    else HasType(ty.target, v)
  }

  predicate ScalarTyped(ty: Ty, v: Val)
    requires Scalar(ty)
  {
    match ty
    case BoolTy => v.BoolV?
    case NumTy(k) => v.NumV? && InRange(k, v.n)
    case FlagsTy(n) => v.FlagsV? && |v.bits| == n
  }

  /** The discriminant is one of the type's, and there is a payload of its type if it has one. */
  predicate ArmTyped(ty: Ty, v: Val)
    requires Discriminated(ty)
    decreases ty, 0
  {
    v.ArmV? && v.disc < |Arms(ty)| && (
      match Arms(ty)[v.disc]
      case None => v.payload.None?
      case Some(t) => v.payload.Some? && HasType(t, v.payload.value))
  }

  predicate FieldsTyped(ty: Ty, vs: seq<Val>)
    requires ty.TupleTy? && |vs| <= |ty.fields|
    decreases ty, 0
  {
    forall i {:trigger vs[i]} :: 0 <= i < |vs| ==> HasType(ty.fields[i], vs[i])
  }

  predicate ElementsTyped(t: Ty, elems: seq<Val>)
    decreases t, 2
  {
    forall i :: 0 <= i < |elems| ==> HasType(t, elems[i])
  }

  // ----- layout -----

  function DiscSize(n: nat): (size: nat)
    ensures size == 1 || size == 2 || size == 4
  {
    if n <= 0x100 then 1 else if n <= 0x1_0000 then 2 else 4
  }

  /** The discriminant is as wide as the number of cases needs, and no wider. */
  lemma DiscSizeLeast(n: nat)
    requires n <= TWO32
    ensures n <= Span(DiscSize(n))
    ensures DiscSize(n) == 2 ==> n > Span(1)
    ensures DiscSize(n) == 4 ==> n > Span(2)
  {
    Spans();
  }

  /** Flags take one byte, two bytes, or as many words of four bytes as they need. */
  lemma FlagsSizeLeast(n: nat)
    requires n > 0
    ensures n <= 8 * FlagsSize(n)
    ensures n <= 8 ==> FlagsSize(n) == 1
    ensures 8 < n <= 16 ==> FlagsSize(n) == 2
    ensures n > 16 ==> FlagsSize(n) % 4 == 0 && 8 * FlagsSize(n) < n + 32
  {
  }

  function FlagsSize(n: nat): nat { WordOffset(n, WordCount(n)) }

  /** Sizes, alignments, payload offsets and field offsets, which the bindings generator looks up. */
  datatype Layout = Layout(size: Ty -> nat, align: Ty -> nat, payload: Ty -> nat, field: (Ty, nat) -> nat)

  /** Values of the type take room in memory: the type is not made of empty tuples only. */
  predicate HasBytes(ty: Ty)
  {
    match ty
    case TupleTy(fields) => exists i :: 0 <= i < |fields| && HasBytes(fields[i])
    case AliasTy(t) => HasBytes(t)
    case BoolTy | NumTy(_) | EnumTy(_) | FlagsTy(_) | OptionTy(_) | ResultTy(_, _) | VariantTy(_) | ListTy(_) => true
  }

  /** One of the first `n` fields takes room. */
  predicate BytesBefore(fields: seq<Ty>, n: nat)
    requires n <= |fields|
  {
    exists i :: 0 <= i < n && HasBytes(fields[i])
  }

  /** The parts of a value of the type have room, do not overlap, and start where the value does. */
  ghost predicate Roomy(L: Layout, ty: Ty)
  {
    if Discriminated(ty) then
      && DiscSize(|Arms(ty)|) <= L.payload(ty) && DiscSize(|Arms(ty)|) <= L.size(ty)
      && forall i :: 0 <= i < |Arms(ty)| && Arms(ty)[i].Some? ==> L.payload(ty) + L.size(Arms(ty)[i].value) <= L.size(ty)
    else
      match ty
      case BoolTy => L.size(ty) == 1
      case NumTy(k) => L.size(ty) == Width(k)
      case FlagsTy(n) => L.size(ty) == FlagsSize(n)
      case TupleTy(fields) => forall i :: 0 <= i < |fields| ==> FieldRoom(L, ty, i) && FieldLeads(L, ty, i)
      case ListTy(_) => L.size(ty) == 8
      case AliasTy(t) => L.size(ty) == L.size(t)
  }

  predicate FieldRoom(L: Layout, ty: Ty, i: nat)
    requires ty.TupleTy? && i < |ty.fields|
  {
    L.field(ty, i) + L.size(ty.fields[i]) <= if i + 1 < |ty.fields| then L.field(ty, i + 1) else L.size(ty)
  }

  /** There is no room before the first field that takes any. */
  predicate FieldLeads(L: Layout, ty: Ty, i: nat)
    requires ty.TupleTy? && i < |ty.fields|
  {
    L.field(ty, i) == 0 || BytesBefore(ty.fields, i)
  }

  ghost predicate GoodLayout(L: Layout) { forall ty: Ty :: Roomy(L, ty) }

  /** Where the room of the first `n` fields ends. */
  function FieldsEndAt(L: Layout, ty: Ty, n: nat): nat
    requires ty.TupleTy? && n <= |ty.fields|
  {
    if n == 0 then 0 else L.field(ty, n - 1) + L.size(ty.fields[n - 1])
  }

  lemma {:induction false} FieldsInside(L: Layout, ty: Ty, n: nat)
    requires ty.TupleTy? && Roomy(L, ty) && n <= |ty.fields|
    ensures FieldsEndAt(L, ty, n) <= L.size(ty)
    ensures n < |ty.fields| ==> FieldsEndAt(L, ty, n) <= L.field(ty, n)
    decreases |ty.fields| - n
  {
    if n > 0 {
      assert FieldRoom(L, ty, n - 1);
    }
    if n < |ty.fields| {
      FieldsInside(L, ty, n + 1);
    }
  }

  // ----- what a memory holds -----

  type Memory = seq<byte>

  /** The bytes `s` stand at `addr`, all at addresses in `own`. */
  predicate BytesAt(mem: Memory, addr: nat, s: seq<byte>, own: set<nat>)
  {
    && addr + |s| <= |mem| && mem[addr..addr + |s|] == s
    && forall a :: addr <= a < addr + |s| ==> a in own
  }

  /** Pointer and length of a list. */
  predicate Slot(mem: Memory, addr: nat, own: set<nat>, ptr: nat, len: nat)
  {
    && ptr < TWO32 && len < TWO32
    && BytesAt(mem, addr, ToLE(ptr, 4), own) && BytesAt(mem, addr + 4, ToLE(len, 4), own)
  }

  /** The memory holds the value at `addr`, with all its parts at addresses in `own`. */
  ghost predicate Holds(L: Layout, ty: Ty, v: Val, mem: Memory, addr: nat, own: set<nat>)
    decreases ty, 1
  {
    if Discriminated(ty) then ArmAt(L, ty, v, mem, addr, own)
    else if Scalar(ty) then ScalarAt(ty, v, mem, addr, own)
    else if ty.TupleTy? then v.TupleV? && |v.fields| == |ty.fields| && FieldsAt(L, ty, v.fields, mem, addr, own)
    else if ty.ListTy? then
      v.ListV? && exists ptr: nat :: Slot(mem, addr, own, ptr, |v.elems|) && ElementsAt(L, ty.elem, v.elems, mem, ptr, own)
    else Holds(L, ty.target, v, mem, addr, own)
  }

  predicate ScalarAt(ty: Ty, v: Val, mem: Memory, addr: nat, own: set<nat>)
    requires Scalar(ty)
  {
    ScalarTyped(ty, v) && BytesAt(mem, addr, ScalarBytes(ty, v), own)
  }

  function ScalarBytes(ty: Ty, v: Val): seq<byte>
    requires Scalar(ty) && ScalarTyped(ty, v)
  {
    match ty
    case BoolTy => [Digit(v.b)]
    case NumTy(k) => ToLE(v.n, Width(k))
    case FlagsTy(n) => ToLE(Pack(v.bits), FlagsSize(n))
  }

  ghost predicate ArmAt(L: Layout, ty: Ty, v: Val, mem: Memory, addr: nat, own: set<nat>)
    requires Discriminated(ty)
    decreases ty, 0
  {
    && v.ArmV? && v.disc < |Arms(ty)|
    && BytesAt(mem, addr, ToLE(v.disc, DiscSize(|Arms(ty)|)), own)
    && match Arms(ty)[v.disc]
       case None => v.payload.None?
       case Some(t) => v.payload.Some? && Holds(L, t, v.payload.value, mem, addr + L.payload(ty), own)
  }

  /** The fields up to `|vs|`, at their offsets. */
  ghost predicate FieldsAt(L: Layout, ty: Ty, vs: seq<Val>, mem: Memory, addr: nat, own: set<nat>)
    requires ty.TupleTy? && |vs| <= |ty.fields|
    decreases ty, 0
  {
    forall i {:trigger vs[i]} :: 0 <= i < |vs| ==> Holds(L, ty.fields[i], vs[i], mem, addr + L.field(ty, i), own)
  }

  /** Where element `i` of a list stands. */
  function ElementAddr(ptr: int, size: nat, i: nat): (r: int)
    ensures r >= ptr
    decreases i
  {
    if i == 0 then ptr else ElementAddr(ptr, size, i - 1) + size
  }

  lemma {:induction false} ElementAddrIs(ptr: int, size: nat, i: nat)
    ensures ElementAddr(ptr, size, i) == ptr + i * size
    decreases i
  {
    if i > 0 {
      ElementAddrIs(ptr, size, i - 1);
      assert i * size == (i - 1) * size + size;
    }
  }

  ghost predicate ElementsAt(L: Layout, t: Ty, elems: seq<Val>, mem: Memory, ptr: nat, own: set<nat>)
    decreases t, 2
  {
    forall i {:trigger elems[i]} :: 0 <= i < |elems| ==> Holds(L, t, elems[i], mem, ElementAddr(ptr, L.size(t), i), own)
  }

  lemma FieldsSnoc(L: Layout, ty: Ty, vs: seq<Val>, v: Val, mem: Memory, addr: nat, own: set<nat>)
    requires ty.TupleTy? && |vs| < |ty.fields| && FieldsAt(L, ty, vs, mem, addr, own)
    requires Holds(L, ty.fields[|vs|], v, mem, addr + L.field(ty, |vs|), own)
    ensures FieldsAt(L, ty, vs + [v], mem, addr, own)
  {
    hide Holds;
    var all := vs + [v];
    forall i | 0 <= i < |all|
      ensures Holds(L, ty.fields[i], all[i], mem, addr + L.field(ty, i), own)
    {
      if i < |vs| {
        assert all[i] == vs[i];
      }
    }
  }

  lemma ElementsSnoc(L: Layout, t: Ty, vs: seq<Val>, v: Val, mem: Memory, ptr: nat, own: set<nat>)
    requires ElementsAt(L, t, vs, mem, ptr, own) && Holds(L, t, v, mem, ElementAddr(ptr, L.size(t), |vs|), own)
    ensures ElementsAt(L, t, vs + [v], mem, ptr, own)
  {
    hide Holds, ElementAddr;
    var all := vs + [v];
    forall i | 0 <= i < |all|
      ensures Holds(L, t, all[i], mem, ElementAddr(ptr, L.size(t), i), own)
    {
      if i < |vs| {
        assert all[i] == vs[i];
      }
    }
  }

  /** What a memory holds is of the type. */
  lemma {:induction false} HoldsTyped(L: Layout, ty: Ty, v: Val, mem: Memory, addr: nat, own: set<nat>)
    requires Holds(L, ty, v, mem, addr, own)
    ensures HasType(ty, v)
    decreases ty, 1
  {
    if Discriminated(ty) {
      ArmHoldsTyped(L, ty, v, mem, addr, own);
    } else if ty.TupleTy? {
      FieldsHoldTyped(L, ty, v.fields, mem, addr, own);
    } else if ty.ListTy? {
      var ptr: nat :| Slot(mem, addr, own, ptr, |v.elems|) && ElementsAt(L, ty.elem, v.elems, mem, ptr, own);
      ElementsHoldTyped(L, ty.elem, v.elems, mem, ptr, own);
    } else if ty.AliasTy? {
      HoldsTyped(L, ty.target, v, mem, addr, own);
    }
  }

  lemma {:induction false} ArmHoldsTyped(L: Layout, ty: Ty, v: Val, mem: Memory, addr: nat, own: set<nat>)
    requires Discriminated(ty) && ArmAt(L, ty, v, mem, addr, own)
    ensures ArmTyped(ty, v)
    decreases ty, 0
  {
    if v.payload.Some? {
      HoldsTyped(L, Arms(ty)[v.disc].value, v.payload.value, mem, addr + L.payload(ty), own);
    }
  }

  lemma {:induction false} FieldsHoldTyped(L: Layout, ty: Ty, vs: seq<Val>, mem: Memory, addr: nat, own: set<nat>)
    requires ty.TupleTy? && |vs| <= |ty.fields| && FieldsAt(L, ty, vs, mem, addr, own)
    ensures FieldsTyped(ty, vs)
    decreases ty, 0
  {
    forall i | 0 <= i < |vs|
      ensures HasType(ty.fields[i], vs[i])
    {
      HoldsTyped(L, ty.fields[i], vs[i], mem, addr + L.field(ty, i), own);
    }
  }

  lemma {:induction false} ElementsHoldTyped(L: Layout, t: Ty, elems: seq<Val>, mem: Memory, ptr: nat, own: set<nat>)
    requires ElementsAt(L, t, elems, mem, ptr, own)
    ensures ElementsTyped(t, elems)
    decreases t, 2
  {
    forall i | 0 <= i < |elems|
      ensures HasType(t, elems[i])
    {
      HoldsTyped(L, t, elems[i], mem, ElementAddr(ptr, L.size(t), i), own);
    }
  }

  /** The second memory agrees with the first on the addresses in `own`. */
  predicate Agree(mem: Memory, mem': Memory, own: set<nat>)
  {
    |mem| <= |mem'| && forall a :: a in own && a < |mem| ==> mem'[a] == mem[a]
  }

  lemma BytesKept(mem: Memory, mem': Memory, addr: nat, s: seq<byte>, own: set<nat>, own': set<nat>)
    requires BytesAt(mem, addr, s, own) && Agree(mem, mem', own) && own <= own'
    ensures BytesAt(mem', addr, s, own')
  {
    forall i | 0 <= i < |s|
      ensures mem'[addr + i] == s[i]
    {
      assert mem[addr..addr + |s|][i] == mem[addr + i] && addr + i in own;
    }
  }

  /** A value is still held if the addresses of its parts are left alone. */
  lemma {:induction false} HoldsKept(
    L: Layout, ty: Ty, v: Val, mem: Memory, mem': Memory, addr: nat, own: set<nat>, own': set<nat>)
    requires Holds(L, ty, v, mem, addr, own) && Agree(mem, mem', own) && own <= own'
    ensures Holds(L, ty, v, mem', addr, own')
    decreases ty, 1
  {
    if Discriminated(ty) {
      ArmKept(L, ty, v, mem, mem', addr, own, own');
    } else if Scalar(ty) {
      BytesKept(mem, mem', addr, ScalarBytes(ty, v), own, own');
    } else if ty.TupleTy? {
      FieldsKept(L, ty, v.fields, mem, mem', addr, own, own');
    } else if ty.ListTy? {
      var ptr: nat :| Slot(mem, addr, own, ptr, |v.elems|) && ElementsAt(L, ty.elem, v.elems, mem, ptr, own);
      BytesKept(mem, mem', addr, ToLE(ptr, 4), own, own');
      BytesKept(mem, mem', addr + 4, ToLE(|v.elems|, 4), own, own');
      ElementsKept(L, ty.elem, v.elems, mem, mem', ptr, own, own');
    } else {
      HoldsKept(L, ty.target, v, mem, mem', addr, own, own');
    }
  }

  lemma {:induction false} ArmKept(
    L: Layout, ty: Ty, v: Val, mem: Memory, mem': Memory, addr: nat, own: set<nat>, own': set<nat>)
    requires Discriminated(ty) && ArmAt(L, ty, v, mem, addr, own) && Agree(mem, mem', own) && own <= own'
    ensures ArmAt(L, ty, v, mem', addr, own')
    decreases ty, 0
  {
    BytesKept(mem, mem', addr, ToLE(v.disc, DiscSize(|Arms(ty)|)), own, own');
    if v.payload.Some? {
      HoldsKept(L, Arms(ty)[v.disc].value, v.payload.value, mem, mem', addr + L.payload(ty), own, own');
    }
  }

  lemma {:induction false} FieldsKept(
    L: Layout, ty: Ty, vs: seq<Val>, mem: Memory, mem': Memory, addr: nat, own: set<nat>, own': set<nat>)
    requires ty.TupleTy? && |vs| <= |ty.fields|
    requires FieldsAt(L, ty, vs, mem, addr, own) && Agree(mem, mem', own) && own <= own'
    ensures FieldsAt(L, ty, vs, mem', addr, own')
    decreases ty, 0
  {
    forall i | 0 <= i < |vs|
      ensures Holds(L, ty.fields[i], vs[i], mem', addr + L.field(ty, i), own')
    {
      HoldsKept(L, ty.fields[i], vs[i], mem, mem', addr + L.field(ty, i), own, own');
    }
  }

  lemma {:induction false} ElementsKept(
    L: Layout, t: Ty, elems: seq<Val>, mem: Memory, mem': Memory, ptr: nat, own: set<nat>, own': set<nat>)
    requires ElementsAt(L, t, elems, mem, ptr, own) && Agree(mem, mem', own) && own <= own'
    ensures ElementsAt(L, t, elems, mem', ptr, own')
    decreases t, 2
  {
    forall i | 0 <= i < |elems|
      ensures Holds(L, t, elems[i], mem', ElementAddr(ptr, L.size(t), i), own')
    {
      HoldsKept(L, t, elems[i], mem, mem', ElementAddr(ptr, L.size(t), i), own, own');
    }
  }
}
