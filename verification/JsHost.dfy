/**
 The JavaScript side of an augmented module: the closures generated for memory operations, and the
 conversions at the boundary between JavaScript and WebAssembly. A `DataView` getter or setter
 follows GetViewValue and SetViewValue of ECMA-262.
 */
module JsHost {
  import opened Wrappers
  import opened Bytes
  import opened Wasm

  datatype AugmentedOp =
    | AugI32Load
    | AugI32Load8U
    | AugI32Load8S
    | AugI32Load16U
    | AugI32Load16S
    | AugI64Load
    | AugF32Load
    | AugF64Load
    | AugI32Store
    | AugI32Store8
    | AugI32Store16
    | AugI64Store
    | AugF32Store
    | AugF64Store
    | AugMemorySize

  /** Integers are exact; a float carries its bits, of 4 or 8 bytes. */
  datatype JsVal = Number(n: int) | BigInt(b: int) | Float(bits: nat)

  function ToJs(v: Val): JsVal
  {
    match v
    case I32(n) => Number(Signed(n, 4))
    case I64(n) => BigInt(Signed(n, 8))
    case F32(n) => Float(n)
    case F64(n) => Float(n)
  }

  function ToJsAll(vs: seq<Val>): (r: seq<JsVal>)
    ensures |r| == |vs|
  {
    seq(|vs|, i requires 0 <= i < |vs| => ToJs(vs[i]))
  }

  function Content(v: JsVal): int
  {
    match v
    case Number(n) => n
    case BigInt(n) => n
    case Float(n) => n
  }

  /** ToWebAssemblyValue: integers wrap modulo the width of the type. */
  function ToWasm(v: JsVal, ty: ValType): Val { OfBits(ty, Content(v)) }

  datatype Element =
    | Int8 | Uint8 | Int16 | Uint16 | Int32 | Uint32 | BigInt64 | BigUint64 | Float32 | Float64

  function ElementSize(e: Element): (size: nat)
    ensures 1 <= size <= 8
  {
    match e
    case Int8 | Uint8 => 1
    case Int16 | Uint16 => 2
    case Int32 | Uint32 | Float32 => 4
    case BigInt64 | BigUint64 | Float64 => 8
  }

  /** RawBytesToNumeric, little-endian. */
  function Numeric(e: Element, raw: nat): JsVal
  {
    match e
    case Int8 | Int16 | Int32 => Number(Signed(raw, ElementSize(e)))
    case Uint8 | Uint16 | Uint32 => Number(raw)
    case BigInt64 => BigInt(Signed(raw, 8))
    case BigUint64 => BigInt(raw)
    case Float32 | Float64 => Float(raw)
  }

  /** `new DataView(buf).getX(index, true)`; None is a RangeError. */
  function Get(e: Element, buf: seq<byte>, index: int): Option<JsVal>
  {
    if index < 0 || index + ElementSize(e) > |buf| then None
    else Some(Numeric(e, FromLE(buf[index..index + ElementSize(e)])))
  }

  /** `new DataView(buf).setX(index, v, true)`; None is a RangeError. */
  function Set(e: Element, buf: seq<byte>, index: int, v: JsVal): (r: Option<seq<byte>>)
    ensures r.Some? ==> |r.value| == |buf|
  {
    if index < 0 || index + ElementSize(e) > |buf| then None
    else Some(Splice(buf, index, ToLE(Content(v), ElementSize(e))))
  }

  datatype Outcome = Throw | Returned(mem: LinearMemory, result: Option<JsVal>)

  function GetAt(e: Element, mem: LinearMemory, index: int): Outcome
  {
    match Get(e, mem, index)
    case None => Throw
    case Some(v) => Returned(mem, Some(v))
  }

  function SetAt(e: Element, mem: LinearMemory, index: int, v: JsVal): Outcome
  {
    match Set(e, mem, index, v)
    case None => Throw
    case Some(mem') => Returned(mem', None)
  }

  /** JavaScript's sum of the pointer and the offset. */
  function Sum(ptr: JsVal, off: JsVal): int { Content(ptr) + Content(off) }

  /** The closure that stands for `op` on the memory `mem`, applied to `args`. */
  function Closure(op: AugmentedOp, mem: LinearMemory, args: seq<JsVal>): Outcome
    requires |args| == |DeclaredType(op).params|
  {
    match op
    case AugI32Load => GetAt(Int32, mem, Sum(args[0], args[1]))
    case AugI32Load8U => GetAt(Uint8, mem, Sum(args[0], args[1]))
    case AugI32Load8S => GetAt(Int8, mem, Sum(args[0], args[1]))
    case AugI32Load16U => GetAt(Uint16, mem, Sum(args[0], args[1]))
    case AugI32Load16S => GetAt(Int16, mem, Sum(args[0], args[1]))
    case AugI64Load => GetAt(BigInt64, mem, Sum(args[0], args[1]))
    case AugF32Load => GetAt(Float32, mem, Sum(args[0], args[1]))
    case AugF64Load => GetAt(Float64, mem, Sum(args[0], args[1]))
    case AugI32Store8 => SetAt(Int8, mem, Sum(args[0], args[2]), args[1])
    case AugI32Store16 => SetAt(Int16, mem, Sum(args[0], args[2]), args[1])
    case AugI32Store => SetAt(Int32, mem, Sum(args[0], args[2]), args[1])
    case AugI64Store => SetAt(BigInt64, mem, Sum(args[0], args[2]), args[1])
    case AugF32Store => SetAt(Float32, mem, Sum(args[0], args[2]), args[1])
    case AugF64Store => SetAt(Float64, mem, Sum(args[0], args[2]), args[1])
    case AugMemorySize => Returned(mem, Some(Number(|mem| / 0x1_0000)))
  }

  /** The function type under which the re-encoded module imports the closure. */
  function DeclaredType(op: AugmentedOp): FuncType
  {
    match op
    case AugI32Load | AugI32Load8U | AugI32Load8S | AugI32Load16U | AugI32Load16S =>
      FuncType([TI32, TI32], [TI32])
    case AugI64Load => FuncType([TI32, TI32], [TI64])
    case AugF32Load => FuncType([TI32, TI32], [TF32])
    case AugF64Load => FuncType([TI32, TI32], [TF64])
    case AugI32Store | AugI32Store8 | AugI32Store16 => FuncType([TI32, TI32, TI32], [])
    case AugI64Store => FuncType([TI32, TI64, TI32], [])
    case AugF32Store => FuncType([TI32, TF32, TI32], [])
    case AugF64Store => FuncType([TI32, TF64, TI32], [])
    case AugMemorySize => FuncType([], [TI32])
  }

  /** What WebAssembly observes when it calls the closure: a throw unwinds like a trap. */
  function CallClosure(op: AugmentedOp, mem: LinearMemory, args: seq<Val>): Effect
    requires TypesOf(args) == DeclaredType(op).params
  {
    assert |args| == |TypesOf(args)|;
    match Closure(op, mem, ToJsAll(args))
    case Throw => Fault
    case Returned(mem', result) =>
      var ty := DeclaredType(op);
      Effect(mem', if ty.results == [] || result.None? then [] else [ToWasm(result.value, ty.results[0])])
  }
}
