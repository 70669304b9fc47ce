/**
 A small-step machine for module instances. Code is the flat operator sequence of the binary format;
 branches go through a label stack and `block`, `if` and `else` find their `end` by scanning.
 Imported functions are either host functions, which may do anything to the store, or the closures
 of an augmented module. Two memory imports may be bound to the same memory.
 */
module Machine {
  import opened Wrappers
  import opened Bytes
  import opened Wasm
  import opened JsHost
  import opened Iteration

  /** A core definition: the identity of a function or a memory outside the module. */
  type CoreDef = nat

  /** What an import of an instantiated module is bound to. */
  datatype Extern = CoreDefExtern(def: CoreDef) | MemoryExtern(mem: CoreDef, op: AugmentedOp)

  datatype Store = Store(mems: seq<LinearMemory>, globals: seq<Val>)

  datatype HostResult = HostTrap(store: Store) | HostReturn(results: seq<Val>, store: Store)

  /** Everything outside the module: the basic operators and the host functions. */
  datatype Env = Env(
    basic: (nat, seq<Val>, seq<Val>, seq<Val>) -> Option<(seq<Val>, seq<Val>, seq<Val>)>,
    host: (CoreDef, seq<Val>, Store) -> HostResult)

  /** An instance: its module, its function imports with their type indices, and its memories. */
  datatype Instance = Instance(mod: Module, funcs: seq<Extern>, funcTys: seq<nat>, mems: seq<CoreDef>)

  datatype Label = Label(cont: nat, height: nat, arity: nat)

  /** An activation of the local function `func`; the top of the stack is its last element. */
  datatype Frame = Frame(func: nat, pc: nat, stack: seq<Val>, locals: seq<Val>, labels: seq<Label>)

  datatype State =
    | Running(top: Frame, callers: seq<Frame>, store: Store)
    | Trapped(store: Store)
    | Finished(results: seq<Val>, store: Store)

  // ----- instantiation -----

  function ImportedFuncs(imports: seq<Import>, externs: seq<Extern>): seq<Extern>
    requires |imports| == |externs|
  {
    if imports == [] then [] else
    var n := |imports| - 1;
    var init := ImportedFuncs(imports[..n], externs[..n]);
    if imports[n].ty.FuncImport? then init + [externs[n]] else init
  }

  function ImportedFuncTypes(imports: seq<Import>): seq<nat>
  {
    if imports == [] then [] else
    var n := |imports| - 1;
    var init := ImportedFuncTypes(imports[..n]);
    if imports[n].ty.FuncImport? then init + [imports[n].ty.ty] else init
  }

  function MemoryOf(e: Extern): CoreDef
  {
    match e
    case CoreDefExtern(def) => def
    case MemoryExtern(mem, _) => mem
  }

  function ImportedMems(imports: seq<Import>, externs: seq<Extern>): seq<CoreDef>
    requires |imports| == |externs|
  {
    if imports == [] then [] else
    var n := |imports| - 1;
    var init := ImportedMems(imports[..n], externs[..n]);
    if imports[n].ty.MemImport? then init + [MemoryOf(externs[n])] else init
  }

  function Instantiate(mod: Module, externs: seq<Extern>): Instance
    requires |externs| == |mod.imports|
  {
    Instance(mod, ImportedFuncs(mod.imports, externs), ImportedFuncTypes(mod.imports),
             ImportedMems(mod.imports, externs))
  }

  // ----- structured control -----

  /** The number of operators up to and including the `end` that closes `depth` open blocks and the current one. */
  function SkipToEnd(ops: seq<Operator>, depth: nat): (r: Option<nat>)
    ensures r.Some? ==> 0 < r.value <= |ops|
  {
    if ops == [] then None
    else if ops[0].End? && depth == 0 then Some(1)
    else
      var depth' :=
        if ops[0].Block? || ops[0].Loop? || ops[0].If? then depth + 1
        else if ops[0].End? then depth - 1
        else depth;
      match SkipToEnd(ops[1..], depth')
      case None => None
      case Some(n) => Some(n + 1)
  }

  /** The number of operators up to and including the `else` of the current `if`, or its `end`. */
  function SkipToElse(ops: seq<Operator>, depth: nat): (r: Option<nat>)
    ensures r.Some? ==> 0 < r.value <= |ops|
  {
    if ops == [] then None
    else if (ops[0].End? || ops[0].Else?) && depth == 0 then Some(1)
    else
      var depth' :=
        if ops[0].Block? || ops[0].Loop? || ops[0].If? then depth + 1
        else if ops[0].End? then depth - 1
        else depth;
      match SkipToElse(ops[1..], depth')
      case None => None
      case Some(n) => Some(n + 1)
  }

  // ----- calls -----

  function TypeOfFunc(inst: Instance, index: nat): Option<FuncType>
  {
    var n := |inst.funcTys|;
    if index < n then
      if inst.funcTys[index] < |inst.mod.types| then Some(inst.mod.types[inst.funcTys[index]]) else None
    else if index - n < |inst.mod.funcs| && inst.mod.funcs[index - n] < |inst.mod.types| then
      Some(inst.mod.types[inst.mod.funcs[index - n]])
    else None
  }

  /** The type of the local function `func`. */
  function TypeOfLocal(inst: Instance, func: nat): Option<FuncType> { TypeOfFunc(inst, |inst.funcTys| + func) }

  function Zeros(tys: seq<ValType>): seq<Val>
  {
    seq(|tys|, i requires 0 <= i < |tys| => Zero(tys[i]))
  }

  /** Calls function `index` with `args`; `callers` are the activations to return to. */
  function Enter(env: Env, inst: Instance, index: nat, args: seq<Val>, callers: seq<Frame>, store: Store): State
  {
    match TypeOfFunc(inst, index)
    case None => Trapped(store)
    case Some(ty) =>
      if TypesOf(args) != ty.params then Trapped(store)
      else if index < |inst.funcs| then
        match inst.funcs[index]
        case CoreDefExtern(def) =>
          (match env.host(def, args, store)
           case HostTrap(store') => Trapped(store')
           case HostReturn(results, store') => Resume(results, callers, store'))
        case MemoryExtern(mem, op) =>
          if mem >= |store.mems| || ty != DeclaredType(op) then Trapped(store)
          else
            match CallClosure(op, store.mems[mem], args)
            case Fault => Trapped(store)
            case Effect(mem', results) => Resume(results, callers, store.(mems := store.mems[mem := mem']))
      else if index - |inst.funcs| < |inst.mod.code| then
        var local := index - |inst.funcs|;
        Running(Frame(local, 0, [], args + Zeros(inst.mod.code[local].locals), []), callers, store)
      else Trapped(store)
  }

  /** Hands `results` to the innermost caller. */
  function Resume(results: seq<Val>, callers: seq<Frame>, store: Store): State
  {
    if callers == [] then Finished(results, store)
    else
      var caller := callers[|callers| - 1];
      Running(caller.(stack := caller.stack + results), callers[..|callers| - 1], store)
  }

  function Leave(inst: Instance, f: Frame, callers: seq<Frame>, store: Store): State
  {
    match TypeOfLocal(inst, f.func)
    case None => Trapped(store)
    case Some(ty) =>
      if |f.stack| < |ty.results| then Trapped(store)
      else Resume(f.stack[|f.stack| - |ty.results|..], callers, store)
  }

  // ----- one step -----

  function Branch(inst: Instance, f: Frame, depth: nat, callers: seq<Frame>, store: Store): State
  {
    if depth == |f.labels| then Leave(inst, f, callers, store)
    else if depth > |f.labels| then Trapped(store)
    else
      var rest := f.labels[..|f.labels| - 1 - depth];
      var target := f.labels[|f.labels| - 1 - depth];
      if |f.stack| < target.height + target.arity then Trapped(store)
      else
        var kept := f.stack[..target.height] + f.stack[|f.stack| - target.arity..];
        Running(f.(pc := target.cont, stack := kept, labels := rest), callers, store)
  }

  /** Runs a memory instruction on the memory it names. */
  function AccessStep(inst: Instance, m: MemInstr, f: Frame, callers: seq<Frame>, store: Store): State
  {
    var ty := Signature(m.access);
    var n := |ty.params|;
    if |f.stack| < n then Trapped(store)
    else
      var args := f.stack[|f.stack| - n..];
      if TypesOf(args) != ty.params || m.memory >= |inst.mems| || inst.mems[m.memory] >= |store.mems| then
        Trapped(store)
      else
        var at := inst.mems[m.memory];
        match Perform(m.access, m.offset, store.mems[at], args)
        case Fault => Trapped(store)
        case Effect(mem', results) =>
          Running(f.(pc := f.pc + 1, stack := f.stack[..|f.stack| - n] + results), callers,
                  store.(mems := store.mems[at := mem']))
  }

  function CallStep(env: Env, inst: Instance, index: nat, f: Frame, callers: seq<Frame>, store: Store): State
  {
    match TypeOfFunc(inst, index)
    case None => Trapped(store)
    case Some(ty) =>
      var n := |ty.params|;
      if |f.stack| < n then Trapped(store)
      else
        Enter(env, inst, index, f.stack[|f.stack| - n..],
              callers + [f.(pc := f.pc + 1, stack := f.stack[..|f.stack| - n])], store)
  }

  /** Opens a block whose label continues at `cont`, and goes on at `pc`. */
  function Open(f: Frame, pc: nat, cont: nat, params: nat, arity: nat, callers: seq<Frame>, store: Store): State
  {
    if |f.stack| < params then Trapped(store)
    else Running(f.(pc := pc, labels := f.labels + [Label(cont, |f.stack| - params, arity)]), callers, store)
  }

  function PopI32(f: Frame): Option<(u32, Frame)>
  {
    if f.stack == [] || !f.stack[|f.stack| - 1].I32? then None
    else Some((f.stack[|f.stack| - 1].i, f.(stack := f.stack[..|f.stack| - 1])))
  }

  /** Where the scans for `end` and for `else` stop, as positions. */
  datatype Targets = Targets(end: Option<nat>, alt: Option<nat>)

  function EndAfter(ops: seq<Operator>, at: nat): Option<nat>
    requires at <= |ops|
  {
    match SkipToEnd(ops[at..], 0) case None => None case Some(n) => Some(at + n)
  }

  function ElseAfter(ops: seq<Operator>, at: nat): Option<nat>
    requires at <= |ops|
  {
    match SkipToElse(ops[at..], 0) case None => None case Some(n) => Some(at + n)
  }

  function TargetsAt(ops: seq<Operator>, pc: nat): Targets
    requires pc < |ops|
  {
    Targets(EndAfter(ops, pc + 1), ElseAfter(ops, pc + 1))
  }

  function IfStep(f: Frame, targets: Targets, params: nat, results: nat, callers: seq<Frame>, store: Store): State
  {
    match (PopI32(f), targets.end, targets.alt)
    case (Some((c, f')), Some(end), Some(alt)) =>
      if c != 0 then Open(f', f.pc + 1, end, params, results, callers, store)
      else if alt == end then Running(f'.(pc := end), callers, store)
      else Open(f', alt, end, params, results, callers, store)
    case _ => Trapped(store)
  }

  function ControlStep(env: Env, inst: Instance, op: Operator, targets: Targets, f: Frame,
                       callers: seq<Frame>, store: Store): State
    requires Decode(op) == None
  {
    match op
    case I32Const(n) => Running(f.(pc := f.pc + 1, stack := f.stack + [I32(n)]), callers, store)
    case Call(index) => CallStep(env, inst, index, f, callers, store)
    case Block(params, results) =>
      if targets.end.None? then Trapped(store)
      else Open(f, f.pc + 1, targets.end.value, params, results, callers, store)
    case Loop(params, _) => Open(f, f.pc + 1, f.pc, params, params, callers, store)
    case If(params, results) => IfStep(f, targets, params, results, callers, store)
    case Else =>
      if targets.end.None? || f.labels == [] then Trapped(store)
      else Running(f.(pc := targets.end.value, labels := f.labels[..|f.labels| - 1]), callers, store)
    case End =>
      if f.labels == [] then Leave(inst, f, callers, store)
      else Running(f.(pc := f.pc + 1, labels := f.labels[..|f.labels| - 1]), callers, store)
    case Br(depth) => Branch(inst, f, depth, callers, store)
    case BrIf(depth) =>
      (match PopI32(f)
       case None => Trapped(store)
       case Some((c, f')) =>
         if c != 0 then Branch(inst, f', depth, callers, store)
         else Running(f'.(pc := f.pc + 1), callers, store))
    case BrTable(depths, default) =>
      (match PopI32(f)
       case None => Trapped(store)
       case Some((c, f')) =>
         Branch(inst, f', if c < |depths| then depths[c] else default, callers, store))
    case Return => Leave(inst, f, callers, store)
    case Basic(code) =>
      (match env.basic(code, f.stack, f.locals, store.globals)
       case None => Trapped(store)
       case Some((stack, locals, globals)) =>
         Running(f.(pc := f.pc + 1, stack := stack, locals := locals), callers, store.(globals := globals)))
    case _ => Trapped(store)
  }

  function OpAt(m: Module, func: nat, pc: nat): Option<Operator>
  {
    if func < |m.code| && pc < |m.code[func].ops| then Some(m.code[func].ops[pc]) else None
  }

  function Step(env: Env, inst: Instance, s: State): State
  {
    match s
    case Running(f, callers, store) =>
      (match OpAt(inst.mod, f.func, f.pc)
       case None => Trapped(store)
       case Some(op) =>
         match Decode(op)
         case Some(m) => AccessStep(inst, m, f, callers, store)
         case None => ControlStep(env, inst, op, TargetsAt(inst.mod.code[f.func].ops, f.pc), f, callers, store))
    case _ => s
  }

  function Stepper(env: Env, inst: Instance): State -> State { (s: State) => Step(env, inst, s) }

  function Steps(env: Env, inst: Instance, s: State, n: nat): State { Iterate(Stepper(env, inst), s, n) }

  predicate Halted(s: State) { !s.Running? }
}
