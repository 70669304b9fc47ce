/** One memory instruction against the two-operator sequence that replaces it. */
module Closures {
  import opened Bytes
  import opened Wasm
  import opened JsHost
  import opened Core

  /** The operands of the closure: the operands of the instruction, then its static offset. */
  function ClosureArgs(a: Access, offset: u32, args: seq<Val>): seq<Val>
  {
    if a.SizeOf? then args else args + [I32(offset)]
  }

  /**
   The address that JavaScript computes, with both numbers read as signed, is the effective address; or both
   addresses miss the memory.
   */
  predicate InReach(ptr: u32, offset: u32, width: nat, size: nat)
  {
    var js := Signed(ptr, 4) + Signed(offset, 4);
    (ptr < TWO31 && offset < TWO31) || (ptr + offset + width > size && (js < 0 || js + width > size))
  }

  predicate AddressOk(a: Access, offset: u32, mem: LinearMemory, args: seq<Val>)
    requires TypesOf(args) == Signature(a).params
  {
    a.SizeOf? ||
    assert TypesOf(args)[0] == TypeOf(args[0]);
    InReach(args[0].i, offset, a.width, |mem|)
  }

  /** The number of a few bytes, least significant first. */
  lemma SmallNumbers(a: byte, b: byte)
    ensures FromLE([a]) == a && FromLE([a, b]) == a + 0x100 * b
  {
    assert [a][1..] == [] && [a, b][1..] == [b] && [b][1..] == [];
    assert FromLE([a]) == a + 0x100 * FromLE([a][1..]) && FromLE([b]) == b + 0x100 * FromLE([b][1..]);
    assert FromLE([a, b]) == a + 0x100 * FromLE([a, b][1..]);
  }

  /** Narrow loads, from the two bytes at the address: with and without sign extension. */
  lemma NarrowLoads(mem: LinearMemory, p: u32)
    requires p + 2 <= |mem|
    ensures var a: int, b: int, args := mem[p], mem[p + 1], [I32(p)];
      && Perform(AccessFor(I32Load8U), 0, mem, args) == Effect(mem, [I32(a)])
      && Perform(AccessFor(I32Load8S), 0, mem, args) == Effect(mem, [I32(if a < 0x80 then a else a + 0xFFFF_FF00)])
      && Perform(AccessFor(I32Load16U), 0, mem, args) == Effect(mem, [I32(a + 0x100 * b)])
      && Perform(AccessFor(I32Load16S), 0, mem, args) ==
           Effect(mem, [I32(if b < 0x80 then a + 0x100 * b else a + 0x100 * b + 0xFFFF_0000)])
  {
    Spans();
    SmallNumbers(mem[p], mem[p + 1]);
    assert mem[p..p + 1] == [mem[p]] && mem[p..p + 2] == [mem[p], mem[p + 1]];
    assert TypesOf([I32(p)]) == [TI32];
  }

  /** Agreement of a call with the instruction it replaces; out of reach, exactly one of them faults. */
  predicate Matches(inReach: bool, outcome: Effect, expected: Effect)
  {
    if inReach then outcome == expected else outcome.Fault? != expected.Fault?
  }

  predicate Agrees(a: Access, offset: u32, mem: LinearMemory, args: seq<Val>, outcome: Effect)
    requires TypesOf(args) == Signature(a).params
  {
    Matches(AddressOk(a, offset, mem, args), outcome, Perform(a, offset, mem, args))
  }

  predicate Misses(address: int, width: nat, size: nat) { address < 0 || address + width > size }

  /** The two addresses are the same or both miss, or else exactly one of them misses. */
  predicate AddressesMatch(inReach: bool, ea: int, js: int, width: nat, size: nat)
  {
    if inReach then js == ea || (Misses(ea, width, size) && Misses(js, width, size))
    else Misses(ea, width, size) != Misses(js, width, size)
  }

  lemma Addresses(ptr: u32, offset: u32, width: nat, size: nat)
    requires size <= TWO32 && width > 0
    ensures AddressesMatch(InReach(ptr, offset, width, size),
      ptr + offset, Signed(ptr, 4) + Signed(offset, 4), width, size)
  {
    Spans();
  }

  /** The two readings of the same bytes wrap to the same value. */
  predicate SameReading(e: Element, width: nat, signed: bool, ty: ValType)
  {
    ElementSize(e) == width &&
    forall n: nat :: n < Span(width) ==>
      OfBits(ty, Content(Numeric(e, n))) == OfBits(ty, if signed then Signed(n, width) else n)
  }

  function FromGet(outcome: Outcome, ty: ValType): Effect
  {
    if outcome.Throw? || outcome.result.None? then Fault
    else Effect(outcome.mem, [ToWasm(outcome.result.value, ty)])
  }

  lemma ReadAgrees(e: Element, width: nat, signed: bool, ty: ValType, ea: nat, mem: LinearMemory)
    requires SameReading(e, width, signed, ty)
    ensures FromGet(GetAt(e, mem, ea), ty) == LoadAt(width, signed, ty, mem, ea)
  {
    if ea + width <= |mem| {
      FromLEBound(mem[ea..ea + width]);
    }
  }

  lemma LoadAgrees(e: Element, width: nat, signed: bool, ty: ValType, ok: bool, ea: nat, js: int, mem: LinearMemory)
    requires SameReading(e, width, signed, ty) && AddressesMatch(ok, ea, js, width, |mem|)
    ensures Matches(ok, FromGet(GetAt(e, mem, js), ty), LoadAt(width, signed, ty, mem, ea))
  {
    if js == ea {
      ReadAgrees(e, width, signed, ty, ea, mem);
    }
  }

  /** The bytes of a value and of its JavaScript image are the same. */
  lemma SameBytes(v: Val, width: nat)
    requires width in {1, 2, 4, 8}
    requires v.I32? ==> width <= 4
    ensures ToLE(Content(ToJs(v)), width) == ToLE(BitsOf(v), width)
  {
    Spans();
    match v {
      case I32(n) =>
        ModShift(n, -(TWO32 / Span(width)), Span(width));
        ToLECongruent(Signed(n, 4), n, width);
      case I64(n) =>
        ModShift(n, -(TWO64 / Span(width)), Span(width));
        ToLECongruent(Signed(n, 8), n, width);
      case _ =>
    }
  }

  function FromSet(outcome: Outcome): Effect
  {
    if outcome.Throw? then Fault else Effect(outcome.mem, [])
  }

  lemma StoreAgrees(e: Element, width: nat, ok: bool, ea: nat, js: int, v: Val, mem: LinearMemory)
    requires ElementSize(e) == width && (v.I32? ==> width <= 4) && AddressesMatch(ok, ea, js, width, |mem|)
    ensures Matches(ok, FromSet(SetAt(e, mem, js, ToJs(v))), StoreAt(width, mem, ea, v))
  {
    SameBytes(v, width);
  }

  lemma Readings()
    ensures SameReading(Int32, 4, false, TI32)
    ensures SameReading(Uint8, 1, false, TI32) && SameReading(Int8, 1, true, TI32)
    ensures SameReading(Uint16, 2, false, TI32) && SameReading(Int16, 2, true, TI32)
    ensures SameReading(BigInt64, 8, false, TI64)
    ensures SameReading(Float32, 4, false, TF32) && SameReading(Float64, 8, false, TF64)
  {
    Spans();
    forall n: nat | n < TWO32
      ensures Signed(n, 4) % TWO32 == n % TWO32
    {
      SignedCongruent(n, 4);
    }
    forall n: nat | n < TWO64
      ensures Signed(n, 8) % TWO64 == n % TWO64
    {
      SignedCongruent(n, 8);
    }
  }

  /** The element that the closure of a load reads. */
  function LoadElement(op: MemOp): Element
    requires AccessFor(op).LoadOf?
  {
    match op
    case I32Load => Int32
    case I32Load8U => Uint8
    case I32Load8S => Int8
    case I32Load16U => Uint16
    case I32Load16S => Int16
    case I64Load => BigInt64
    case F32Load => Float32
    case F64Load => Float64
  }

  function StoreElement(op: MemOp): Element
    requires AccessFor(op).StoreOf?
  {
    match op
    case I32Store => Int32
    case I32Store8 => Int8
    case I32Store16 => Int16
    case I64Store => BigInt64
    case F32Store => Float32
    case F64Store => Float64
  }

  lemma ElementReads(op: MemOp)
    requires AccessFor(op).LoadOf?
    ensures var a := AccessFor(op); SameReading(LoadElement(op), a.width, a.signed, a.ty)
  {
    Readings();
  }

  lemma ElementWrites(op: MemOp)
    requires AccessFor(op).StoreOf?
    ensures var a := AccessFor(op); ElementSize(StoreElement(op)) == a.width > 0 && (a.ty == TI32 ==> a.width <= 4)
  {
  }

  lemma LoadClosure(op: MemOp, mem: LinearMemory, args: seq<JsVal>)
    requires AccessFor(op).LoadOf? && |args| == 2
    ensures DeclaredType(AugmentFor(op)) == FuncType([TI32, TI32], [AccessFor(op).ty])
    ensures Closure(AugmentFor(op), mem, args) == GetAt(LoadElement(op), mem, Sum(args[0], args[1]))
  {
  }

  lemma StoreClosure(op: MemOp, mem: LinearMemory, args: seq<JsVal>)
    requires AccessFor(op).StoreOf? && |args| == 3
    ensures DeclaredType(AugmentFor(op)) == FuncType([TI32, AccessFor(op).ty, TI32], [])
    ensures Closure(AugmentFor(op), mem, args) == SetAt(StoreElement(op), mem, Sum(args[0], args[2]), args[1])
  {
  }

  lemma LoadCall(op: MemOp, offset: u32, mem: LinearMemory, ptr: u32)
    requires AccessFor(op).LoadOf?
    requires TypesOf([I32(ptr), I32(offset)]) == DeclaredType(AugmentFor(op)).params
    ensures CallClosure(AugmentFor(op), mem, [I32(ptr), I32(offset)]) ==
      FromGet(GetAt(LoadElement(op), mem, Signed(ptr, 4) + Signed(offset, 4)), AccessFor(op).ty)
  {
    var args := ToJsAll([I32(ptr), I32(offset)]);
    assert args == [Number(Signed(ptr, 4)), Number(Signed(offset, 4))];
    LoadClosure(op, mem, args);
  }

  lemma LoadCallAgrees(op: MemOp, offset: u32, mem: LinearMemory, ptr: u32)
    requires AccessFor(op).LoadOf?
    requires TypesOf([I32(ptr), I32(offset)]) == DeclaredType(AugmentFor(op)).params
    ensures var a := AccessFor(op);
      Matches(InReach(ptr, offset, a.width, |mem|),
        CallClosure(AugmentFor(op), mem, [I32(ptr), I32(offset)]),
        LoadAt(a.width, a.signed, a.ty, mem, ptr + offset))
  {
    var a := AccessFor(op);
    LoadCall(op, offset, mem, ptr);
    ElementReads(op);
    Addresses(ptr, offset, a.width, |mem|);
    LoadAgrees(LoadElement(op), a.width, a.signed, a.ty, InReach(ptr, offset, a.width, |mem|),
      ptr + offset, Signed(ptr, 4) + Signed(offset, 4), mem);
  }

  lemma StoreCall(op: MemOp, offset: u32, mem: LinearMemory, ptr: u32, v: Val)
    requires AccessFor(op).StoreOf?
    requires TypesOf([I32(ptr), v, I32(offset)]) == DeclaredType(AugmentFor(op)).params
    ensures CallClosure(AugmentFor(op), mem, [I32(ptr), v, I32(offset)]) ==
      FromSet(SetAt(StoreElement(op), mem, Signed(ptr, 4) + Signed(offset, 4), ToJs(v)))
  {
    var args := ToJsAll([I32(ptr), v, I32(offset)]);
    assert args == [Number(Signed(ptr, 4)), ToJs(v), Number(Signed(offset, 4))];
    StoreClosure(op, mem, args);
  }

  lemma StoreCallAgrees(op: MemOp, offset: u32, mem: LinearMemory, ptr: u32, v: Val)
    requires AccessFor(op).StoreOf? && TypeOf(v) == AccessFor(op).ty
    requires TypesOf([I32(ptr), v, I32(offset)]) == DeclaredType(AugmentFor(op)).params
    ensures var a := AccessFor(op);
      Matches(InReach(ptr, offset, a.width, |mem|),
        CallClosure(AugmentFor(op), mem, [I32(ptr), v, I32(offset)]),
        StoreAt(a.width, mem, ptr + offset, v))
  {
    var width := AccessFor(op).width;
    StoreCall(op, offset, mem, ptr, v);
    ElementWrites(op);
    Addresses(ptr, offset, width, |mem|);
    StoreAgrees(StoreElement(op), width, InReach(ptr, offset, width, |mem|),
      ptr + offset, Signed(ptr, 4) + Signed(offset, 4), v, mem);
  }

  // ----- operators and their replacements -----

  /** The declared signature is the instruction's, with the static offset as one more parameter. */
  predicate SameShape(d: MemInstr, aug: AugmentedOp)
  {
    && DeclaredType(aug).params == Signature(d.access).params + (if d.access.SizeOf? then [] else [TI32])
    && DeclaredType(aug).results == Signature(d.access).results
  }

  lemma SignatureAgrees(op: Operator)
    requires Decode(op).Some?
    ensures AugmentOf(op).Some?
    ensures var d, (aug, m) := Decode(op).value, AugmentOf(op).value;
      d.memory == m.memory && d.offset == m.offset && SameShape(d, aug)
  {
  }

  lemma TypedArgs(d: MemInstr, aug: AugmentedOp, args: seq<Val>)
    requires SameShape(d, aug)
    ensures TypesOf(args) == Signature(d.access).params <==>
      TypesOf(ClosureArgs(d.access, d.offset, args)) == DeclaredType(aug).params
  {
    if !d.access.SizeOf? {
      var full := ClosureArgs(d.access, d.offset, args);
      assert TypesOf(full) == TypesOf(args) + [TI32];
      assert TypesOf(args) == TypesOf(full)[..|args|];
      var params := DeclaredType(aug).params;
      assert Signature(d.access).params == params[..|params| - 1];
    }
  }

  /** The call of `aug` with the static offset does what `d` does, on operands of the right types. */
  ghost predicate Matched(d: MemInstr, aug: AugmentedOp, mem: LinearMemory, args: seq<Val>)
  {
    TypesOf(args) == Signature(d.access).params ==>
      && TypesOf(ClosureArgs(d.access, d.offset, args)) == DeclaredType(aug).params
      && Agrees(d.access, d.offset, mem, args, CallClosure(aug, mem, ClosureArgs(d.access, d.offset, args)))
  }

  lemma LoadMatched(op: MemOp, m: MemArg, mem: LinearMemory, args: seq<Val>)
    requires AccessFor(op).LoadOf? && TypesOf(args) == Signature(AccessFor(op)).params
    ensures Matched(MemInstr(AccessFor(op), m.memory, m.offset), AugmentFor(op), mem, args)
  {
    SignatureAgrees(Memory(op, m));
    TypedArgs(MemInstr(AccessFor(op), m.memory, m.offset), AugmentFor(op), args);
    assert |TypesOf(args)| == |args| && TypesOf(args)[0] == TypeOf(args[0]);
    assert ClosureArgs(AccessFor(op), m.offset, args) == [I32(args[0].i), I32(m.offset)];
    LoadCallAgrees(op, m.offset, mem, args[0].i);
  }

  lemma StoreMatched(op: MemOp, m: MemArg, mem: LinearMemory, args: seq<Val>)
    requires AccessFor(op).StoreOf? && TypesOf(args) == Signature(AccessFor(op)).params
    ensures Matched(MemInstr(AccessFor(op), m.memory, m.offset), AugmentFor(op), mem, args)
  {
    SignatureAgrees(Memory(op, m));
    TypedArgs(MemInstr(AccessFor(op), m.memory, m.offset), AugmentFor(op), args);
    assert |TypesOf(args)| == |args| && TypesOf(args)[0] == TypeOf(args[0]) && TypesOf(args)[1] == TypeOf(args[1]);
    assert ClosureArgs(AccessFor(op), m.offset, args) == [I32(args[0].i), args[1], I32(m.offset)];
    StoreCallAgrees(op, m.offset, mem, args[0].i, args[1]);
  }

  lemma MemOpMatched(op: MemOp, m: MemArg, mem: LinearMemory, args: seq<Val>)
    requires TypesOf(args) == Signature(AccessFor(op)).params
    ensures Matched(MemInstr(AccessFor(op), m.memory, m.offset), AugmentFor(op), mem, args)
  {
    if AccessFor(op).LoadOf? {
      LoadMatched(op, m, mem, args);
    } else {
      StoreMatched(op, m, mem, args);
    }
  }

  /** `aug` stands for `d`: the same signature but for the offset, and the same effect on every memory. */
  ghost predicate Faithful(d: MemInstr, aug: AugmentedOp)
  {
    SameShape(d, aug) && (forall mem, args :: Matched(d, aug, mem, args))
  }

  /** For every memory operator, on every memory and all operands: the closure does what the operator does. */
  lemma ClosuresFaithful(op: Operator)
    requires Decode(op).Some?
    ensures AugmentOf(op).Some? && AugmentOf(op).value.1.memory == Decode(op).value.memory
    ensures AugmentOf(op).value.1.offset == Decode(op).value.offset
    ensures Faithful(Decode(op).value, AugmentOf(op).value.0)
  {
    SignatureAgrees(op);
    var d, aug := Decode(op).value, AugmentOf(op).value.0;
    forall mem: LinearMemory, args: seq<Val>
      ensures Matched(d, aug, mem, args)
    {
      if TypesOf(args) == Signature(d.access).params && op.Memory? {
        MemOpMatched(op.op, op.memarg, mem, args);
      }
    }
  }

  /** A pointer in the upper half with a small offset: WebAssembly traps, the closure reads the bottom of the memory. */
  lemma WrappedAddressExample(mem: LinearMemory)
    requires |mem| == 0x1_0000
    ensures var args := [I32(0xFFFF_FFFC)];
      TypesOf(args) == [TI32] &&
      Perform(LoadOf(1, false, TI32), 8, mem, args).Fault? &&
      TypesOf(args + [I32(8)]) == [TI32, TI32] &&
      CallClosure(AugI32Load8U, mem, args + [I32(8)]) == Effect(mem, [I32(mem[4])])
  {
    Spans();
    var args := [I32(0xFFFF_FFFC)];
    assert TypesOf(args) == [TI32] && TypesOf(args + [I32(8)]) == [TI32, TI32];
    assert mem[4..5] == [mem[4]];
    assert FromLE([mem[4]]) == mem[4] by {
      assert FromLE([mem[4]][1..]) == 0;
    }
    assert ToJsAll(args + [I32(8)]) == [Number(-4), Number(8)];
  }
}
