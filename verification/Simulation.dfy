/**
 The augmented module, instantiated with the closures, runs like the original module: every step of the
 original is one or two steps of the augmented module, from matching states to matching states.
 */
module Simulation {
  import opened Wrappers
  import opened Bytes
  import opened Wasm
  import opened JsHost
  import opened Machine
  import opened Core
  import opened Closures

  import opened Seqs
  import opened Blocks
  import opened Iteration

  // ----- matching states -----

  /** For a local function and a position in it, the matching position. */
  type Positions = (nat, nat) -> nat

  function MapLabels(p: Positions, func: nat, ls: seq<Label>): (s: seq<Label>)
    ensures |s| == |ls|
  {
    seq(|ls|, i requires 0 <= i < |ls| => ls[i].(cont := p(func, ls[i].cont)))
  }

  function MapFrame(p: Positions, frame: Frame): Frame
  {
    frame.(pc := p(frame.func, frame.pc), labels := MapLabels(p, frame.func, frame.labels))
  }

  function MapFrames(p: Positions, fs: seq<Frame>): (s: seq<Frame>)
    ensures |s| == |fs|
  {
    seq(|fs|, i requires 0 <= i < |fs| => MapFrame(p, fs[i]))
  }

  /** The state of the translated module that matches `s`; stacks, locals and the store are the same. */
  function MapState(p: Positions, s: State): State
  {
    match s
    case Running(top, callers, store) => Running(MapFrame(p, top), MapFrames(p, callers), store)
    case _ => s
  }

  function MapTargets(p: Positions, func: nat, t: Targets): Targets
  {
    Targets(match t.end case None => None case Some(n) => Some(p(func, n)),
            match t.alt case None => None case Some(n) => Some(p(func, n)))
  }

  // ----- the two instances -----

  /** Every type index is in range, as in a validated module. */
  predicate TypesInRange(m: Module)
  {
    && (forall i :: 0 <= i < |m.funcs| ==> m.funcs[i] < |m.types|)
    && (forall i :: 0 <= i < |m.imports| && m.imports[i].ty.FuncImport? ==> m.imports[i].ty.ty < |m.types|)
  }

  /** `src` runs `m`, and `tgt` runs the augmented module wired to the same definitions. */
  ghost predicate Linked(m: Module, src: Instance, tgt: Instance)
  {
    var keys := RemapOf(m).keys;
    && src.mod == m && tgt.mod == Augmented(m)
    && |src.funcs| == |src.funcTys| == RemapOf(m).importedFuncs
    && (forall i :: 0 <= i < |src.funcs| ==> src.funcs[i].CoreDefExtern? && src.funcTys[i] < |m.types|)
    && (forall i :: 0 <= i < |m.funcs| ==> m.funcs[i] < |m.types|)
    && |tgt.funcs| == |tgt.funcTys| == |src.funcs| + |keys|
    && tgt.funcs[..|src.funcs|] == src.funcs
    && tgt.funcTys[..|src.funcs|] == src.funcTys
    && (forall k :: 0 <= k < |keys| ==>
          && keys[k].0 + 1 < |src.mems|
          && tgt.funcs[|src.funcs| + k] == MemoryExtern(src.mems[keys[k].0 + 1], keys[k].1)
          && tgt.funcTys[|src.funcs| + k] == |m.types| + k)
    && tgt.mems == (if src.mems == [] then [] else [src.mems[0]])
  }


  // ----- one step of an operator that translates to itself -----

  ghost predicate SameTypes(src: Instance, tgt: Instance)
  {
    forall i: nat :: TypeOfLocal(tgt, i) == TypeOfLocal(src, i)
  }

  /** The operator at hand takes one place in the translated code, and `end` and `else` stay apart. */
  predicate SingleStep(p: Positions, frame: Frame, targets: Targets)
  {
    && p(frame.func, frame.pc + 1) == p(frame.func, frame.pc) + 1
    && (targets.end.Some? && targets.alt.Some? && targets.end != targets.alt ==>
          p(frame.func, targets.end.value) != p(frame.func, targets.alt.value))
  }

  lemma ResumeMaps(p: Positions, results: seq<Val>, callers: seq<Frame>, store: Store)
    ensures Resume(results, MapFrames(p, callers), store) == MapState(p, Resume(results, callers, store))
  {
  }

  lemma LeaveMaps(p: Positions, src: Instance, tgt: Instance, frame: Frame, callers: seq<Frame>, store: Store)
    requires SameTypes(src, tgt)
    ensures Leave(tgt, MapFrame(p, frame), MapFrames(p, callers), store) ==
      MapState(p, Leave(src, frame, callers, store))
  {
    match TypeOfLocal(src, frame.func) {
      case None =>
      case Some(ty) =>
        if |frame.stack| >= |ty.results| {
          ResumeMaps(p, frame.stack[|frame.stack| - |ty.results|..], callers, store);
        }
    }
  }

  lemma MapLabelsPrefix(p: Positions, func: nat, ls: seq<Label>, n: nat)
    requires n <= |ls|
    ensures MapLabels(p, func, ls)[..n] == MapLabels(p, func, ls[..n])
  {
  }

  lemma BranchMaps(p: Positions, src: Instance, tgt: Instance, frame: Frame, depth: nat,
                   callers: seq<Frame>, store: Store)
    requires SameTypes(src, tgt)
    ensures Branch(tgt, MapFrame(p, frame), depth, MapFrames(p, callers), store) ==
      MapState(p, Branch(src, frame, depth, callers, store))
  {
    LeaveMaps(p, src, tgt, frame, callers, store);
    if depth < |frame.labels| {
      MapLabelsPrefix(p, frame.func, frame.labels, |frame.labels| - 1 - depth);
    }
  }

  lemma OpenMaps(p: Positions, frame: Frame, pc: nat, cont: nat, params: nat, arity: nat,
                 callers: seq<Frame>, store: Store)
    ensures
      Open(MapFrame(p, frame), p(frame.func, pc), p(frame.func, cont), params, arity, MapFrames(p, callers), store) ==
      MapState(p, Open(frame, pc, cont, params, arity, callers, store))
  {
    if |frame.stack| >= params {
      var l := Label(cont, |frame.stack| - params, arity);
      assert MapLabels(p, frame.func, frame.labels + [l]) ==
        MapLabels(p, frame.func, frame.labels) + [l.(cont := p(frame.func, cont))];
    }
  }

  lemma PopMaps(p: Positions, frame: Frame)
    ensures PopI32(MapFrame(p, frame)) ==
      (match PopI32(frame) case None => None case Some((c, popped)) => Some((c, MapFrame(p, popped))))
  {
  }

  lemma OpenOpMaps(p: Positions, env: Env, src: Instance, tgt: Instance, op: Operator, targets: Targets, frame: Frame,
      callers: seq<Frame>, store: Store)
    requires SameTypes(src, tgt) && SingleStep(p, frame, targets)
    requires op.Block? || op.Loop? || op.If?
    ensures ControlStep(env, tgt, op, MapTargets(p, frame.func, targets), MapFrame(p, frame), MapFrames(p, callers), store)
      == MapState(p, ControlStep(env, src, op, targets, frame, callers, store))
  {
    PopMaps(p, frame);
    if op.Loop? {
      OpenMaps(p, frame, frame.pc + 1, frame.pc, op.params, op.params, callers, store);
    } else if targets.end.Some? {
      var end := targets.end.value;
      if op.Block? {
        OpenMaps(p, frame, frame.pc + 1, end, op.params, op.results, callers, store);
      } else if targets.alt.Some? && PopI32(frame).Some? {
        var (c, popped) := PopI32(frame).value;
        OpenMaps(p, popped, if c != 0 then frame.pc + 1 else targets.alt.value, end, op.params, op.results, callers, store);
      }
    }
  }

  lemma ElseMaps(p: Positions, env: Env, src: Instance, tgt: Instance, op: Operator, targets: Targets, frame: Frame,
      callers: seq<Frame>, store: Store)
    requires SameTypes(src, tgt) && SingleStep(p, frame, targets)
    requires op.Else?
    ensures ControlStep(env, tgt, op, MapTargets(p, frame.func, targets), MapFrame(p, frame), MapFrames(p, callers), store)
      == MapState(p, ControlStep(env, src, op, targets, frame, callers, store))
  {
    if frame.labels != [] {
      MapLabelsPrefix(p, frame.func, frame.labels, |frame.labels| - 1);
    }
  }

  lemma EndMaps(p: Positions, env: Env, src: Instance, tgt: Instance, op: Operator, targets: Targets, frame: Frame,
      callers: seq<Frame>, store: Store)
    requires SameTypes(src, tgt) && SingleStep(p, frame, targets)
    requires op.End? || op.Return?
    ensures ControlStep(env, tgt, op, MapTargets(p, frame.func, targets), MapFrame(p, frame), MapFrames(p, callers), store)
      == MapState(p, ControlStep(env, src, op, targets, frame, callers, store))
  {
    if op.Return? || frame.labels == [] {
      LeaveMaps(p, src, tgt, frame, callers, store);
    } else {
      MapLabelsPrefix(p, frame.func, frame.labels, |frame.labels| - 1);
    }
  }

  lemma BranchOpMaps(p: Positions, env: Env, src: Instance, tgt: Instance, op: Operator, targets: Targets, frame: Frame,
      callers: seq<Frame>, store: Store)
    requires SameTypes(src, tgt) && SingleStep(p, frame, targets)
    requires op.Br? || op.BrIf? || op.BrTable?
    ensures ControlStep(env, tgt, op, MapTargets(p, frame.func, targets), MapFrame(p, frame), MapFrames(p, callers), store)
      == MapState(p, ControlStep(env, src, op, targets, frame, callers, store))
  {
    PopMaps(p, frame);
    if op.Br? {
      BranchMaps(p, src, tgt, frame, op.depth, callers, store);
    } else if PopI32(frame).Some? {
      var (c, popped) := PopI32(frame).value;
      var depth := if op.BrIf? then op.depth else if c < |op.depths| then op.depths[c] else op.default;
      BranchMaps(p, src, tgt, popped, depth, callers, store);
    }
  }

  /** Every operator other than a memory instruction or a call. */
  lemma ControlMaps(p: Positions, env: Env, src: Instance, tgt: Instance, op: Operator, targets: Targets, frame: Frame,
      callers: seq<Frame>, store: Store)
    requires SameTypes(src, tgt) && SingleStep(p, frame, targets)
    requires Decode(op).None? && !op.Call?
    ensures ControlStep(env, tgt, op, MapTargets(p, frame.func, targets), MapFrame(p, frame), MapFrames(p, callers), store)
      == MapState(p, ControlStep(env, src, op, targets, frame, callers, store))
  {
    if op.Block? || op.Loop? || op.If? {
      OpenOpMaps(p, env, src, tgt, op, targets, frame, callers, store);
    } else if op.Else? {
      ElseMaps(p, env, src, tgt, op, targets, frame, callers, store);
    } else if op.End? || op.Return? {
      EndMaps(p, env, src, tgt, op, targets, frame, callers, store);
    } else if op.Br? || op.BrIf? || op.BrTable? {
      BranchOpMaps(p, env, src, tgt, op, targets, frame, callers, store);
    }
  }

  // ----- the augmented module -----

  /** Where the operators of the original went in the augmented module. */
  function PositionsOf(m: Module): Positions
  {
    (func: nat, pc: nat) => MapPc(Translator(RemapOf(m)), OpsOf(m, func), pc)
  }

  function OpsOf(m: Module, func: nat): seq<Operator>
  {
    if func < |m.code| then m.code[func].ops else []
  }

  lemma TypesLinked(m: Module, src: Instance, tgt: Instance)
    requires Linked(m, src, tgt)
    ensures SameTypes(src, tgt)
    ensures forall i: nat :: TypeOfFunc(tgt, RemapFunc(RemapOf(m), i)) == TypeOfFunc(src, i)
    ensures forall k :: 0 <= k < |RemapOf(m).keys| ==>
      TypeOfFunc(tgt, |src.funcs| + k) == Some(DeclaredType(RemapOf(m).keys[k].1))
  {
    var n := |src.funcs|;
    assert forall i :: 0 <= i < n ==> tgt.funcTys[i] == tgt.funcTys[..n][i];
  }

  /** Entering a function from either side leads to matching states. */
  lemma EnterMaps(m: Module, env: Env, src: Instance, tgt: Instance, index: nat, args: seq<Val>,
                  callers: seq<Frame>, store: Store)
    requires Linked(m, src, tgt)
    ensures Enter(env, tgt, RemapFunc(RemapOf(m), index), args, MapFrames(PositionsOf(m), callers), store) ==
      MapState(PositionsOf(m), Enter(env, src, index, args, callers, store))
  {
    var p := PositionsOf(m);
    TypesLinked(m, src, tgt);
    if TypeOfFunc(src, index).Some? && TypesOf(args) == TypeOfFunc(src, index).value.params {
      if index < |src.funcs| {
        assert tgt.funcs[index] == tgt.funcs[..|src.funcs|][index];
        match env.host(src.funcs[index].def, args, store) {
          case HostTrap(_) =>
          case HostReturn(results, store') => ResumeMaps(p, results, callers, store');
        }
      } else if index - |src.funcs| < |m.code| {
        var local := index - |src.funcs|;
        assert OpsOf(m, local)[..0] == [];
        assert p(local, 0) == 0;
      }
    }
  }

  lemma CallMaps(m: Module, env: Env, src: Instance, tgt: Instance, index: nat, frame: Frame,
                 callers: seq<Frame>, store: Store)
    requires Linked(m, src, tgt)
    requires PositionsOf(m)(frame.func, frame.pc + 1) == PositionsOf(m)(frame.func, frame.pc) + 1
    ensures var p := PositionsOf(m);
      CallStep(env, tgt, RemapFunc(RemapOf(m), index), MapFrame(p, frame), MapFrames(p, callers), store) ==
      MapState(p, CallStep(env, src, index, frame, callers, store))
  {
    hide Enter, PositionsOf, Augmented, Linked, TypeOfFunc;
    var p := PositionsOf(m);
    TypesLinked(m, src, tgt);
    match TypeOfFunc(src, index) {
      case None =>
      case Some(ty) =>
        var n := |ty.params|;
        if |frame.stack| >= n {
          var back := frame.(pc := frame.pc + 1, stack := frame.stack[..|frame.stack| - n]);
          assert MapFrames(p, callers + [back]) == MapFrames(p, callers) + [MapFrame(p, back)];
          EnterMaps(m, env, src, tgt, index, frame.stack[|frame.stack| - n..], callers + [back], store);
        }
    }
  }

  /** The operands that a memory instruction finds on the stack, if they are there and of the right types. */
  function OperandsOf(a: Access, stack: seq<Val>): Option<seq<Val>>
  {
    var n := |Signature(a).params|;
    if |stack| < n || TypesOf(stack[|stack| - n..]) != Signature(a).params then None
    else Some(stack[|stack| - n..])
  }

  /** When the instruction reaches a memory, the address it uses is fit for the closure. */
  predicate GoodAccess(src: Instance, d: MemInstr, frame: Frame, store: Store)
  {
    OperandsOf(d.access, frame.stack).Some? && d.memory < |src.mems| && src.mems[d.memory] < |store.mems| ==>
      AddressOk(d.access, d.offset, store.mems[src.mems[d.memory]], OperandsOf(d.access, frame.stack).value)
  }

  /** The activation just before the call that replaces a memory instruction. */
  function BeforeCall(d: MemInstr, there: Frame): Frame
  {
    if d.access.SizeOf? then there else there.(pc := there.pc + 1, stack := there.stack + [I32(d.offset)])
  }

  /** What the call of a closure sees on the stack. */
  lemma CallOperands(d: MemInstr, aug: AugmentedOp, stack: seq<Val>)
    requires SameShape(d, aug)
    ensures var full := if d.access.SizeOf? then stack else stack + [I32(d.offset)];
      var params := DeclaredType(aug).params;
      match OperandsOf(d.access, stack)
      case None => |full| < |params| || TypesOf(full[|full| - |params|..]) != params
      case Some(args) =>
        && |params| <= |full| && TypesOf(full[|full| - |params|..]) == params
        && full[|full| - |params|..] == ClosureArgs(d.access, d.offset, args)
        && full[..|full| - |params|] == stack[..|stack| - |args|]
  {
    var n := |Signature(d.access).params|;
    if |stack| >= n {
      TypedArgs(d, aug, stack[|stack| - n..]);
      var full := if d.access.SizeOf? then stack else stack + [I32(d.offset)];
      var params := DeclaredType(aug).params;
      assert full[|full| - |params|..] == ClosureArgs(d.access, d.offset, stack[|stack| - n..]);
    }
  }

  lemma TranslatorKeepsBlocks(r: Remap)
    ensures KeepsBlocks(Translator(r))
  {
  }

  /** The call of closure `k` with all its operands. */
  lemma ClosureCall(m: Module, env: Env, src: Instance, tgt: Instance, k: nat, full: seq<Val>,
                    callers: seq<Frame>, store: Store)
    requires Linked(m, src, tgt) && k < |RemapOf(m).keys|
    requires TypesOf(full) == DeclaredType(RemapOf(m).keys[k].1).params
    ensures var key := RemapOf(m).keys[k];
      var at := src.mems[key.0 + 1];
      var outcome := Enter(env, tgt, |src.funcs| + k, full, callers, store);
      if at >= |store.mems| then outcome == Trapped(store)
      else
        match CallClosure(key.1, store.mems[at], full)
        case Fault => outcome == Trapped(store)
        case Effect(mem', results) => outcome == Resume(results, callers, store.(mems := store.mems[at := mem']))
  {
    TypesLinked(m, src, tgt);
  }

  /** Both sides trap, or neither does. */
  predicate SameFate(a: State, b: State) { a.Trapped? <==> b.Trapped? }

  function Fates(): (State, State) -> bool { (a: State, b: State) => SameFate(a, b) }

  /** The activation that the closure returns to. */
  function AfterCall(d: MemInstr, there: Frame, stack: seq<Val>): Frame
    requires OperandsOf(d.access, stack).Some?
  {
    there.(pc := there.pc + 1, stack := stack[..|stack| - |OperandsOf(d.access, stack).value|])
  }

  /** Operands of other types than declared are refused. */
  lemma EnterRefuses(env: Env, inst: Instance, index: nat, args: seq<Val>, callers: seq<Frame>, store: Store, ty: FuncType)
    requires TypeOfFunc(inst, index) == Some(ty) && TypesOf(args) != ty.params
    ensures Enter(env, inst, index, args, callers, store) == Trapped(store)
  {
  }

  lemma CallOfClosure(env: Env, tgt: Instance, index: nat, d: MemInstr, aug: AugmentedOp, there: Frame,
                      stack: seq<Val>, callers: seq<Frame>, store: Store)
    requires TypeOfFunc(tgt, index) == Some(DeclaredType(aug)) && SameShape(d, aug)
    requires there.stack == if d.access.SizeOf? then stack else stack + [I32(d.offset)]
    ensures CallStep(env, tgt, index, there, callers, store) ==
      match OperandsOf(d.access, stack)
      case None => Trapped(store)
      case Some(args) =>
        Enter(env, tgt, index, ClosureArgs(d.access, d.offset, args), callers + [AfterCall(d, there, stack)], store)
  {
    hide Enter, ClosureArgs, Signature, OperandsOf;
    var full, params := there.stack, DeclaredType(aug).params;
    if |full| >= |params| && TypesOf(full[|full| - |params|..]) != params {
      EnterRefuses(env, tgt, index, full[|full| - |params|..], callers + [there.(pc := there.pc + 1,
        stack := full[..|full| - |params|])], store, DeclaredType(aug));
    }
    CallOperands(d, aug, stack);
  }

  lemma ResumeLast(results: seq<Val>, callers: seq<Frame>, back: Frame, store: Store)
    ensures Resume(results, callers + [back], store) ==
      Running(back.(stack := back.stack + results), callers, store)
  {
    assert (callers + [back])[..|callers|] == callers;
  }

  /** Where a memory instruction on memory `at` leads, given what it does. */
  function AfterEffect(effect: Effect, frame: Frame, callers: seq<Frame>, store: Store, at: nat): State
    requires at < |store.mems|
  {
    match effect
    case Fault => Trapped(store)
    case Effect(mem', results) =>
      Running(frame.(stack := frame.stack + results), callers, store.(mems := store.mems[at := mem']))
  }

  lemma EffectsMatch(p: Positions, here: Frame, there: Frame, callers: seq<Frame>, store: Store, at: nat,
                     inReach: bool, outcome: Effect, expected: Effect)
    requires at < |store.mems| && Matches(inReach, outcome, expected)
    requires there == MapFrame(p, here)
    ensures var a, b := AfterEffect(outcome, there, MapFrames(p, callers), store, at),
                        AfterEffect(expected, here, callers, store, at);
      if inReach then a == MapState(p, b) else !SameFate(a, b)
  {
  }

  /** The call of a closure with all its operands, as the effect of the closure. */
  lemma ClosureEffect(m: Module, env: Env, src: Instance, tgt: Instance, k: nat, full: seq<Val>,
                      callers: seq<Frame>, back: Frame, store: Store)
    requires Linked(m, src, tgt) && k < |RemapOf(m).keys|
    requires TypesOf(full) == DeclaredType(RemapOf(m).keys[k].1).params
    ensures var key := RemapOf(m).keys[k];
      var at := src.mems[key.0 + 1];
      var called := Enter(env, tgt, |src.funcs| + k, full, callers + [back], store);
      if at >= |store.mems| then called == Trapped(store)
      else called == AfterEffect(CallClosure(key.1, store.mems[at], full), back, callers, store, at)
  {
    ClosureCall(m, env, src, tgt, k, full, callers + [back], store);
    var key := RemapOf(m).keys[k];
    var at := src.mems[key.0 + 1];
    if at < |store.mems| {
      match CallClosure(key.1, store.mems[at], full) {
        case Fault =>
        case Effect(mem', results) => ResumeLast(results, callers, back, store.(mems := store.mems[at := mem']));
      }
    }
  }

  lemma AccessEffect(src: Instance, d: MemInstr, frame: Frame, callers: seq<Frame>, store: Store, args: seq<Val>)
    requires OperandsOf(d.access, frame.stack) == Some(args) && d.memory < |src.mems|
    ensures var at := src.mems[d.memory];
      var here := frame.(pc := frame.pc + 1, stack := frame.stack[..|frame.stack| - |args|]);
      AccessStep(src, d, frame, callers, store) ==
      if at >= |store.mems| then Trapped(store)
      else AfterEffect(Perform(d.access, d.offset, store.mems[at], args), here, callers, store, at)
  {
  }

  /** The operands are there: closure and instruction have the same effect, or differ in a trap. */
  lemma EffectsCompared(m: Module, env: Env, src: Instance, tgt: Instance, d: MemInstr, k: nat, frame: Frame,
                        back: Frame, callers: seq<Frame>, store: Store, args: seq<Val>)
    requires Linked(m, src, tgt) && k < |RemapOf(m).keys| && d.memory < |src.mems|
    requires d.memory == RemapOf(m).keys[k].0 + 1 && Faithful(d, RemapOf(m).keys[k].1)
    requires OperandsOf(d.access, frame.stack) == Some(args)
    requires back == MapFrame(PositionsOf(m), frame.(pc := frame.pc + 1, stack := frame.stack[..|frame.stack| - |args|]))
    ensures var p := PositionsOf(m);
      var up, full := MapFrames(p, callers) + [back], ClosureArgs(d.access, d.offset, args);
      var called := Enter(env, tgt, |src.funcs| + k, full, up, store);
      var expected := AccessStep(src, d, frame, callers, store);
      if GoodAccess(src, d, frame, store) then called == MapState(p, expected) else !SameFate(called, expected)
  {
    hide Linked, RemapOf, Enter, AccessStep, CallClosure, Perform, AddressOk, DeclaredType, Signature, ClosureArgs;
    var p, aug := PositionsOf(m), RemapOf(m).keys[k].1;
    TypedArgs(d, aug, args);
    ClosureEffect(m, env, src, tgt, k, ClosureArgs(d.access, d.offset, args), MapFrames(p, callers), back, store);
    AccessEffect(src, d, frame, callers, store, args);
    var at := src.mems[d.memory];
    if at < |store.mems| {
      assert Matched(d, aug, store.mems[at], args);
      EffectsMatch(p, frame.(pc := frame.pc + 1, stack := frame.stack[..|frame.stack| - |args|]), back, callers,
        store, at, AddressOk(d.access, d.offset, store.mems[at], args),
        CallClosure(aug, store.mems[at], ClosureArgs(d.access, d.offset, args)),
        Perform(d.access, d.offset, store.mems[at], args));
    }
  }

  /** The call that replaces the memory instruction `d`, against the instruction. */
  lemma MemoryMaps(m: Module, env: Env, src: Instance, tgt: Instance, d: MemInstr, k: nat, frame: Frame,
                   there: Frame, callers: seq<Frame>, store: Store)
    requires Linked(m, src, tgt) && k < |RemapOf(m).keys|
    requires d.memory == RemapOf(m).keys[k].0 + 1 && Faithful(d, RemapOf(m).keys[k].1)
    requires var p := PositionsOf(m);
      there == BeforeCall(d, MapFrame(p, frame)) && p(frame.func, frame.pc + 1) == there.pc + 1
    ensures var p := PositionsOf(m);
      var called := CallStep(env, tgt, |src.funcs| + k, there, MapFrames(p, callers), store);
      var expected := AccessStep(src, d, frame, callers, store);
      if GoodAccess(src, d, frame, store) then called == MapState(p, expected) else !SameFate(called, expected)
  {
    hide RemapOf, Enter, CallStep, AddressOk, DeclaredType, ClosureArgs, PositionsOf;
    var p, aug := PositionsOf(m), RemapOf(m).keys[k].1;
    TypesLinked(m, src, tgt);
    CallOfClosure(env, tgt, |src.funcs| + k, d, aug, there, frame.stack, MapFrames(p, callers), store);
    match OperandsOf(d.access, frame.stack) {
      case None =>
      case Some(args) =>
        EffectsCompared(m, env, src, tgt, d, k, frame, AfterCall(d, there, frame.stack), callers, store, args);
    }
  }

  // ----- one step of the original -----

  function CurrentOp(m: Module, s: State): Option<Operator>
  {
    if s.Running? then OpAt(m, s.top.func, s.top.pc) else None
  }

  /** The number of steps the augmented module takes for one of the original. */
  function Cost(m: Module, s: State): nat
  {
    match CurrentOp(m, s)
    case None => 1
    case Some(op) => |TranslateOp(RemapOf(m), op)|
  }

  /** If the next operator is replaced, its address is fit for the closure. */
  predicate GoodStep(src: Instance, s: State)
  {
    match CurrentOp(src.mod, s)
    case None => true
    case Some(op) => KeyOf(op).Some? && Decode(op).Some? ==> GoodAccess(src, Decode(op).value, s.top, s.store)
  }

  lemma StepConst(env: Env, inst: Instance, s: State, n: u32)
    requires CurrentOp(inst.mod, s) == Some(I32Const(n))
    ensures Step(env, inst, s) ==
      Running(s.top.(pc := s.top.pc + 1, stack := s.top.stack + [I32(n)]), s.callers, s.store)
  {
  }

  lemma StepCall(env: Env, inst: Instance, s: State, index: nat)
    requires CurrentOp(inst.mod, s) == Some(Call(index))
    ensures Step(env, inst, s) == CallStep(env, inst, index, s.top, s.callers, s.store)
  {
  }

  lemma StepMemory(env: Env, inst: Instance, s: State, op: Operator)
    requires CurrentOp(inst.mod, s) == Some(op) && Decode(op).Some?
    ensures Step(env, inst, s) == AccessStep(inst, Decode(op).value, s.top, s.callers, s.store)
  {
  }

  lemma StepControl(env: Env, inst: Instance, s: State, op: Operator)
    requires CurrentOp(inst.mod, s) == Some(op) && Decode(op).None?
    ensures Step(env, inst, s) ==
      ControlStep(env, inst, op, TargetsAt(inst.mod.code[s.top.func].ops, s.top.pc), s.top, s.callers, s.store)
  {
  }

  lemma PositionOf(m: Module, func: nat, pc: nat)
    ensures PositionsOf(m)(func, pc) == MapPc(Translator(RemapOf(m)), OpsOf(m, func), pc)
    ensures func < |m.code| ==> Augmented(m).code[func].ops == FlatMap(Translator(RemapOf(m)), m.code[func].ops)
    ensures |Augmented(m).code| == |m.code|
  {
  }

  /** The augmented module holds the translation of an operator at the image of its position. */
  lemma CodeThere(m: Module, func: nat, pc: nat, i: nat)
    requires OpAt(m, func, pc).Some? && i < |TranslateOp(RemapOf(m), OpAt(m, func, pc).value)|
    ensures var p, piece := PositionsOf(m), TranslateOp(RemapOf(m), OpAt(m, func, pc).value);
      && OpAt(Augmented(m), func, p(func, pc) + i) == Some(piece[i])
      && p(func, pc + 1) == p(func, pc) + |piece|
  {
    var f, ops := Translator(RemapOf(m)), m.code[func].ops;
    FlatMapAt(f, ops, pc);
    PositionOf(m, func, pc);
    PositionOf(m, func, pc + 1);
    var out, at := FlatMap(f, ops), MapPc(f, ops, pc);
    assert out[at..][i] == f(ops[pc])[i];
  }

  lemma OutOfCode(m: Module, func: nat, pc: nat)
    requires OpAt(m, func, pc).None?
    ensures OpAt(Augmented(m), func, PositionsOf(m)(func, pc)).None?
  {
    PositionOf(m, func, pc);
    if func < |m.code| {
      var ops := m.code[func].ops;
      assert ops[..|ops|] == ops;
    }
  }

  lemma KeyDecodes(op: Operator)
    requires KeyOf(op).Some?
    ensures Decode(op).Some? && AugmentOf(op).Some?
    ensures Decode(op).value.memory == KeyOf(op).value.0 + 1 && KeyOf(op).value.1 == AugmentOf(op).value.0
    ensures Decode(op).value.offset == AugmentOf(op).value.1.offset
    ensures Decode(op).value.access.SizeOf? <==> op.MemorySize?
  {
  }

  /** At `at` stand the operators that replace the memory instruction `d` by a call. */
  predicate CallAt(m: Module, func: nat, at: nat, d: MemInstr, index: nat)
  {
    if d.access.SizeOf? then OpAt(m, func, at) == Some(Call(index))
    else OpAt(m, func, at) == Some(I32Const(d.offset)) && OpAt(m, func, at + 1) == Some(Call(index))
  }

  function CallLength(d: MemInstr): nat { if d.access.SizeOf? then 1 else 2 }

  lemma ReplacedPiece(r: Remap, op: Operator)
    requires KeyOf(op).Some?
    ensures Decode(op).Some?
    ensures var d, index := Decode(op).value, r.importedFuncs + IndexOf(r.keys, KeyOf(op).value);
      && |TranslateOp(r, op)| == CallLength(d)
      && TranslateOp(r, op) == (if d.access.SizeOf? then [] else [I32Const(d.offset)]) + [Call(index)]
  {
    KeyDecodes(op);
  }

  lemma CallThere(m: Module, func: nat, pc: nat, op: Operator)
    requires OpAt(m, func, pc) == Some(op) && KeyOf(op).Some?
    ensures Decode(op).Some?
    ensures var p, r := PositionsOf(m), RemapOf(m);
      && CallAt(Augmented(m), func, p(func, pc), Decode(op).value, r.importedFuncs + IndexOf(r.keys, KeyOf(op).value))
      && p(func, pc + 1) == p(func, pc) + CallLength(Decode(op).value)
  {
    ReplacedPiece(RemapOf(m), op);
    CodeThere(m, func, pc, 0);
    CodeThere(m, func, pc, |TranslateOp(RemapOf(m), op)| - 1);
  }

  lemma RunCall(env: Env, tgt: Instance, here: State, d: MemInstr, index: nat)
    requires here.Running? && CallAt(tgt.mod, here.top.func, here.top.pc, d, index)
    ensures Steps(env, tgt, here, CallLength(d)) ==
      CallStep(env, tgt, index, BeforeCall(d, here.top), here.callers, here.store)
  {
    IterateOne(Stepper(env, tgt), here);
    if d.access.SizeOf? {
      StepCall(env, tgt, here, index);
    } else {
      StepConst(env, tgt, here, d.offset);
      StepCall(env, tgt, Running(BeforeCall(d, here.top), here.callers, here.store), index);
    }
  }

  /** The replacement of `d` by a call of closure `k`, run from the matching state. */
  lemma ReplacedRun(m: Module, env: Env, src: Instance, tgt: Instance, s: State, d: MemInstr, k: nat)
    requires Linked(m, src, tgt) && s.Running? && k < |RemapOf(m).keys|
    requires d.memory == RemapOf(m).keys[k].0 + 1 && Faithful(d, RemapOf(m).keys[k].1)
    requires var p := PositionsOf(m);
      && CallAt(tgt.mod, s.top.func, p(s.top.func, s.top.pc), d, |src.funcs| + k)
      && p(s.top.func, s.top.pc + 1) == p(s.top.func, s.top.pc) + CallLength(d)
    ensures var there := Steps(env, tgt, MapState(PositionsOf(m), s), CallLength(d));
      var expected := AccessStep(src, d, s.top, s.callers, s.store);
      if GoodAccess(src, d, s.top, s.store) then there == MapState(PositionsOf(m), expected)
      else !SameFate(there, expected)
  {
    var here := MapState(PositionsOf(m), s);
    RunCall(env, tgt, here, d, |src.funcs| + k);
    MemoryMaps(m, env, src, tgt, d, k, s.top, BeforeCall(d, here.top), s.callers, s.store);
  }

  /** `Cost` steps of the augmented module from the state that matches `s`, against one step from `s`. */
  ghost predicate StepMatches(m: Module, env: Env, src: Instance, tgt: Instance, s: State)
  {
    var there := Steps(env, tgt, MapState(PositionsOf(m), s), Cost(m, s));
    if GoodStep(src, s) then there == MapState(PositionsOf(m), Step(env, src, s))
    else !SameFate(there, Step(env, src, s))
  }

  /** The first pass has a closure for the operator, and the second pass puts a call of it in its place. */
  lemma ReplacementReady(m: Module, func: nat, pc: nat, op: Operator)
    requires OpAt(m, func, pc) == Some(op) && KeyOf(op).Some?
    ensures Decode(op).Some?
    ensures var p, r, d, k := PositionsOf(m), RemapOf(m), Decode(op).value, IndexOf(RemapOf(m).keys, KeyOf(op).value);
      && k < |r.keys| && d.memory == r.keys[k].0 + 1 && Faithful(d, r.keys[k].1)
      && CallAt(Augmented(m), func, p(func, pc), d, r.importedFuncs + k)
      && p(func, pc + 1) == p(func, pc) + CallLength(d)
      && |TranslateOp(r, op)| == CallLength(d)
  {
    KeyDecodes(op);
    ClosuresFaithful(op);
    KeyCollected(m.code, func, pc);
    CallThere(m, func, pc, op);
    ReplacedPiece(RemapOf(m), op);
  }

  /** A replaced memory instruction. */
  lemma ReplacedStep(m: Module, env: Env, src: Instance, tgt: Instance, s: State, op: Operator)
    requires Linked(m, src, tgt) && CurrentOp(m, s) == Some(op) && KeyOf(op).Some?
    ensures StepMatches(m, env, src, tgt, s)
  {
    hide Faithful, CallAt, AccessStep, MapState, Steps, Augmented, CollectBodies, TranslateOp, IndexOf, Step, PositionsOf, SameFate;
    ReplacementReady(m, s.top.func, s.top.pc, op);
    ReplacedRun(m, env, src, tgt, s, Decode(op).value, IndexOf(RemapOf(m).keys, KeyOf(op).value));
    StepMemory(env, src, s, op);
  }

  /** An operator that stands alone in the translated code. */
  lemma SingleThere(m: Module, env: Env, tgt: Instance, s: State, op: Operator, op': Operator, here: State)
    requires tgt.mod == Augmented(m) && CurrentOp(m, s) == Some(op) && TranslateOp(RemapOf(m), op) == [op']
    requires here == MapState(PositionsOf(m), s)
    ensures Steps(env, tgt, here, Cost(m, s)) == Step(env, tgt, here)
    ensures CurrentOp(tgt.mod, here) == Some(op')
    ensures PositionsOf(m)(s.top.func, s.top.pc + 1) == PositionsOf(m)(s.top.func, s.top.pc) + 1
  {
    CodeThere(m, s.top.func, s.top.pc, 0);
    IterateOne(Stepper(env, tgt), here);
  }

  lemma KeptCall(m: Module, env: Env, src: Instance, tgt: Instance, s: State, index: nat)
    requires Linked(m, src, tgt) && CurrentOp(m, s) == Some(Call(index))
    ensures StepMatches(m, env, src, tgt, s)
  {
    var here := MapState(PositionsOf(m), s);
    SingleThere(m, env, tgt, s, Call(index), Call(RemapFunc(RemapOf(m), index)), here);
    StepCall(env, src, s, index);
    StepCall(env, tgt, here, RemapFunc(RemapOf(m), index));
    CallMaps(m, env, src, tgt, index, s.top, s.callers, s.store);
  }

  /** The first memory stays in the module. */
  lemma FirstMemoryMaps(m: Module, src: Instance, tgt: Instance, d: MemInstr, frame: Frame,
                        callers: seq<Frame>, store: Store)
    requires Linked(m, src, tgt) && d.memory == 0
    requires PositionsOf(m)(frame.func, frame.pc + 1) == PositionsOf(m)(frame.func, frame.pc) + 1
    ensures var p := PositionsOf(m);
      AccessStep(tgt, d, MapFrame(p, frame), MapFrames(p, callers), store) ==
      MapState(p, AccessStep(src, d, frame, callers, store))
  {
  }

  lemma KeptMemory(m: Module, env: Env, src: Instance, tgt: Instance, s: State, op: Operator)
    requires Linked(m, src, tgt) && CurrentOp(m, s) == Some(op) && KeyOf(op).None? && Decode(op).Some?
    ensures StepMatches(m, env, src, tgt, s)
  {
    var here := MapState(PositionsOf(m), s);
    SingleThere(m, env, tgt, s, op, op, here);
    StepMemory(env, src, s, op);
    StepMemory(env, tgt, here, op);
    FirstMemoryMaps(m, src, tgt, Decode(op).value, s.top, s.callers, s.store);
  }

  /** Branch targets in the augmented body are those of the original, moved. */
  lemma TargetsLinked(m: Module, func: nat, pc: nat)
    requires func < |m.code| && pc < |m.code[func].ops| && |TranslateOp(RemapOf(m), m.code[func].ops[pc])| == 1
    ensures |Augmented(m).code| == |m.code| && PositionsOf(m)(func, pc) < |Augmented(m).code[func].ops|
    ensures var targets := TargetsAt(m.code[func].ops, pc);
      && TargetsAt(Augmented(m).code[func].ops, PositionsOf(m)(func, pc)) == MapTargets(PositionsOf(m), func, targets)
      && (targets.end.Some? && targets.alt.Some? && targets.end != targets.alt ==>
            PositionsOf(m)(func, targets.end.value) != PositionsOf(m)(func, targets.alt.value))
  {
    hide TargetsAt, MapPc, Augmented, TranslateOp, FlatMap;
    PositionOf(m, func, pc);
    TranslatorKeepsBlocks(RemapOf(m));
    TargetsMap(Translator(RemapOf(m)), m.code[func].ops, pc);
  }

  lemma KeptControl(m: Module, env: Env, src: Instance, tgt: Instance, s: State, op: Operator)
    requires Linked(m, src, tgt) && CurrentOp(m, s) == Some(op) && KeyOf(op).None? && Decode(op).None? && !op.Call?
    ensures StepMatches(m, env, src, tgt, s)
  {
    hide TargetsAt, MapTargets, Augmented, PositionsOf, ControlStep, Step;
    var p, here := PositionsOf(m), MapState(PositionsOf(m), s);
    SingleThere(m, env, tgt, s, op, op, here);
    StepControl(env, src, s, op);
    StepControl(env, tgt, here, op);
    TypesLinked(m, src, tgt);
    TargetsLinked(m, s.top.func, s.top.pc);
    ControlMaps(p, env, src, tgt, op, TargetsAt(m.code[s.top.func].ops, s.top.pc), s.top, s.callers, s.store);
  }

  /**
   One step of the original against `Cost` steps of the augmented module: matching states when the address is
   fit for the closure, and otherwise exactly one of the two traps.
   */
  lemma StepMaps(m: Module, env: Env, src: Instance, tgt: Instance, s: State)
    requires Linked(m, src, tgt)
    ensures StepMatches(m, env, src, tgt, s)
  {
    match CurrentOp(m, s) {
      case None =>
        IterateOne(Stepper(env, tgt), MapState(PositionsOf(m), s));
        if s.Running? {
          OutOfCode(m, s.top.func, s.top.pc);
        }
      case Some(op) =>
        if KeyOf(op).Some? {
          ReplacedStep(m, env, src, tgt, s, op);
        } else if op.Call? {
          KeptCall(m, env, src, tgt, s, op.func);
        } else if Decode(op).Some? {
          KeptMemory(m, env, src, tgt, s, op);
        } else {
          KeptControl(m, env, src, tgt, s, op);
        }
    }
  }

  // ----- whole runs -----

  function Matching(m: Module): State -> State { (s: State) => MapState(PositionsOf(m), s) }

  function Costs(m: Module): State -> nat { (s: State) => Cost(m, s) }

  function Good(src: Instance): State -> bool { (s: State) => GoodStep(src, s) }

  /** The first `n` steps use only addresses that are fit for the closures. */
  predicate FitRun(env: Env, src: Instance, s: State, n: nat) { GoodRun(Stepper(env, src), Good(src), s, n) }

  lemma InLockstep(m: Module, env: Env, src: Instance, tgt: Instance)
    requires Linked(m, src, tgt)
    ensures Lockstep(Stepper(env, src), Stepper(env, tgt), Matching(m), Costs(m), Good(src))
  {
    forall s: State
      ensures StepMatches(m, env, src, tgt, s) && Cost(m, s) > 0
    {
      StepMaps(m, env, src, tgt, s);
    }
  }

  /** Runs of any length lead from matching states to matching states, with at least as many steps. */
  lemma RunMaps(m: Module, env: Env, src: Instance, tgt: Instance, s: State, n: nat) returns (c: nat)
    requires Linked(m, src, tgt) && FitRun(env, src, s, n)
    ensures Steps(env, tgt, Matching(m)(s), c) == Matching(m)(Steps(env, src, s, n)) && c >= n
  {
    InLockstep(m, env, src, tgt);
    c := RunsMatch(Stepper(env, src), Stepper(env, tgt), Matching(m), Costs(m), Good(src), s, n);
  }

  lemma UnfitStep(m: Module, env: Env, src: Instance, tgt: Instance, at: State)
    requires Linked(m, src, tgt) && !GoodStep(src, at)
    ensures !Fates()(Iterate(Stepper(env, tgt), Matching(m)(at), Costs(m)(at)), Stepper(env, src)(at))
  {
    StepMaps(m, env, src, tgt, at);
  }

  /** The first unfit address, after `n` steps, is where the two part: one traps and the other does not. */
  lemma FirstUnfitStep(m: Module, env: Env, src: Instance, tgt: Instance, s: State, n: nat, at: State) returns (c: nat)
    requires Linked(m, src, tgt)
    requires FitRun(env, src, s, n) && at == Steps(env, src, s, n) && !GoodStep(src, at)
    ensures !SameFate(Steps(env, tgt, Matching(m)(s), c), Steps(env, src, s, n + 1)) && c > n
  {
    InLockstep(m, env, src, tgt);
    UnfitStep(m, env, src, tgt, at);
    c := PartingStep(Stepper(env, src), Stepper(env, tgt), Matching(m), Costs(m), Good(src), Fates(), s, n);
  }

  /** The two sides end in the same way, with the same results and the same store, or both run for ever. */
  lemma SameOutcomes(m: Module, env: Env, src: Instance, tgt: Instance, s: State, outcome: State)
    requires Linked(m, src, tgt) && Halted(outcome)
    requires forall n: nat :: FitRun(env, src, s, n)
    ensures (exists n: nat :: Steps(env, src, s, n) == outcome) <==>
      (exists n: nat :: Steps(env, tgt, Matching(m)(s), n) == outcome)
  {
    var here := Matching(m)(s);
    if n: nat :| Steps(env, src, s, n) == outcome {
      var c := RunMaps(m, env, src, tgt, s, n);
      assert Steps(env, tgt, here, c) == outcome;
    }
    if n: nat :| Steps(env, tgt, here, n) == outcome {
      var c := RunMaps(m, env, src, tgt, s, n);
      IterateAdd(Stepper(env, tgt), here, n, c - n);
      IterateFixed(Stepper(env, tgt), outcome, c - n);
      assert Steps(env, src, s, n) == outcome;
    }
  }
}
