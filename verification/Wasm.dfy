/**
 The part of core WebAssembly that adapter modules use: values, operators with a memory index,
 modules, and the meaning of one memory instruction (section 4.4.7 of the WebAssembly Core
 Specification 2.0, with the memory index added by the multi-memory proposal).
 */
module Wasm {
  import opened Wrappers
  import opened Bytes

  datatype ValType = TI32 | TI64 | TF32 | TF64

  /** A value by its bits; floats are opaque words. */
  datatype Val = I32(i: u32) | I64(l: u64) | F32(f: u32) | F64(d: u64)

  datatype FuncType = FuncType(params: seq<ValType>, results: seq<ValType>)

  datatype MemArg = MemArg(memory: nat, offset: u32)

  /** The memory instructions of adapter modules, other than `memory.size`. */
  datatype MemOp =
    | I32Load
    | I32Load8U
    | I32Load8S
    | I32Load16U
    | I32Load16S
    | I64Load
    | F32Load
    | F64Load
    | I32Store
    | I32Store8
    | I32Store16
    | I64Store
    | F32Store
    | F64Store

  datatype Operator =
    | Memory(op: MemOp, memarg: MemArg)
    | MemorySize(mem: nat)
    | OtherMemory(code: nat)  // every other operator with a memory immediate
    | I32Const(value: u32)
    | Call(func: nat)
    | Block(params: nat, results: nat)
    | Loop(params: nat, results: nat)
    | If(params: nat, results: nat)
    | Else
    | End
    | Br(depth: nat)
    | BrIf(depth: nat)
    | BrTable(depths: seq<nat>, default: nat)
    | Return
    | Unreachable
    | Basic(code: nat)  // touches only the operand stack, the locals and the globals

  datatype ImportType = FuncImport(ty: nat) | MemImport | OtherImport

  datatype Import = Import(namespace: string, name: string, ty: ImportType)

  datatype ExportKind = FuncExport | MemoryExport | OtherExport

  datatype Export = Export(name: string, kind: ExportKind, index: nat)

  datatype Body = Body(locals: seq<ValType>, ops: seq<Operator>)

  datatype Module = Module(
    types: seq<FuncType>,
    imports: seq<Import>,
    funcs: seq<nat>,
    exports: seq<Export>,
    code: seq<Body>)

  /** A linear memory: whole pages, at most 4 GiB. */
  type LinearMemory = m: seq<byte> | |m| % 0x1_0000 == 0 && |m| <= TWO32 witness []

  function TypeOf(v: Val): ValType
  {
    match v
    case I32(_) => TI32
    case I64(_) => TI64
    case F32(_) => TF32
    case F64(_) => TF64
  }

  function TypesOf(vs: seq<Val>): (ts: seq<ValType>)
    ensures |ts| == |vs|
  {
    seq(|vs|, i requires 0 <= i < |vs| => TypeOf(vs[i]))
  }

  function BitsOf(v: Val): nat
  {
    match v
    case I32(n) => n
    case I64(n) => n
    case F32(n) => n
    case F64(n) => n
  }

  /** The value of type `ty` whose bits are `n` modulo the width of `ty`. */
  function OfBits(ty: ValType, n: int): Val
  {
    match ty
    case TI32 => I32(n % TWO32)
    case TI64 => I64(n % TWO64)
    case TF32 => F32(n % TWO32)
    case TF64 => F64(n % TWO64)
  }

  function Zero(ty: ValType): Val { OfBits(ty, 0) }

  // ----- one memory instruction -----

  datatype Access =
    | LoadOf(width: nat, signed: bool, ty: ValType)
    | StoreOf(width: nat, ty: ValType)
    | SizeOf

  /** A memory instruction: what it does, to which memory, at which static offset. */
  datatype MemInstr = MemInstr(access: Access, memory: nat, offset: u32)

  function AccessFor(op: MemOp): Access
  {
    match op
    case I32Load => LoadOf(4, false, TI32)
    case I32Load8U => LoadOf(1, false, TI32)
    case I32Load8S => LoadOf(1, true, TI32)
    case I32Load16U => LoadOf(2, false, TI32)
    case I32Load16S => LoadOf(2, true, TI32)
    case I64Load => LoadOf(8, false, TI64)
    case F32Load => LoadOf(4, false, TF32)
    case F64Load => LoadOf(8, false, TF64)
    case I32Store => StoreOf(4, TI32)
    case I32Store8 => StoreOf(1, TI32)
    case I32Store16 => StoreOf(2, TI32)
    case I64Store => StoreOf(8, TI64)
    case F32Store => StoreOf(4, TF32)
    case F64Store => StoreOf(8, TF64)
  }

  function Decode(op: Operator): Option<MemInstr>
  {
    match op
    case Memory(memOp, m) => Some(MemInstr(AccessFor(memOp), m.memory, m.offset))
    case MemorySize(mem) => Some(MemInstr(SizeOf, mem, 0))
    case _ => None
  }

  /** The operand and result types of a memory instruction. */
  function Signature(a: Access): FuncType
  {
    match a
    case LoadOf(_, _, ty) => FuncType([TI32], [ty])
    case StoreOf(_, ty) => FuncType([TI32, ty], [])
    case SizeOf => FuncType([], [TI32])
  }

  datatype Effect = Fault | Effect(mem: LinearMemory, results: seq<Val>)

  function LoadAt(width: nat, signed: bool, ty: ValType, mem: LinearMemory, ea: nat): Effect
  {
    if ea + width > |mem| then Fault else
    var n := FromLE(mem[ea..ea + width]);
    Effect(mem, [OfBits(ty, if signed then Signed(n, width) else n)])
  }

  function StoreAt(width: nat, mem: LinearMemory, ea: nat, v: Val): Effect
  {
    if ea + width > |mem| then Fault else
    Effect(Splice(mem, ea, ToLE(BitsOf(v), width)), [])
  }

  /** Runs a memory instruction on operands of the right types. */
  function Perform(a: Access, offset: u32, mem: LinearMemory, args: seq<Val>): Effect
    requires TypesOf(args) == Signature(a).params
  {
    match a
    case LoadOf(width, signed, ty) =>
      assert TypesOf(args)[0] == TypeOf(args[0]);
      LoadAt(width, signed, ty, mem, args[0].i + offset)
    case StoreOf(width, _) =>
      assert TypesOf(args)[0] == TypeOf(args[0]);
      StoreAt(width, mem, args[0].i + offset, args[1])
    case SizeOf =>
      Effect(mem, [I32(|mem| / 0x1_0000)])
  }
}
