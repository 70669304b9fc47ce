/** The augmenter of core.rs: a multi-memory module re-encoded to use one memory and imported functions. */
module Core {
  import opened Wrappers
  import opened Text
  import opened Seqs
  import opened Wasm
  import opened JsHost
  import opened Machine

  /** An augmentation: the index of a removed memory (the original index less one) and the operation. */
  type Key = (nat, AugmentedOp)

  datatype AddedImport = AddedImport(namespace: string, name: string, memory: nat, op: AugmentedOp)

  datatype Payload =
    | TypeSection(types: seq<FuncType>)
    | ImportSection(imports: seq<Import>)
    | FunctionSection(funcs: seq<nat>)
    | ExportSection(exports: seq<Export>)
    | CodeSectionEntry(body: Body)
    | UnsupportedPayload
    | ComponentPayload
    | OtherPayload

  /** The two `bail!`s and the panics of the augmenter. */
  datatype Error = UnsupportedSection | ComponentSection | DuplicateMemoryImport | MissedCase | MemoryExported

  // ----- specification: what is parsed -----

  const EMPTY_MODULE := Module([], [], [], [], [])

  function Extend(m: Module, p: Payload): Module
  {
    match p
    case TypeSection(s) => m.(types := m.types + s)
    case ImportSection(s) => m.(imports := m.imports + s)
    case FunctionSection(s) => m.(funcs := m.funcs + s)
    case ExportSection(s) => m.(exports := m.exports + s)
    case CodeSectionEntry(body) => m.(code := m.code + [body])
    case _ => m
  }

  /** The original module, as the payloads spell it out. */
  function Source(payloads: seq<Payload>): Module
  {
    if payloads == [] then EMPTY_MODULE
    else Extend(Source(payloads[..|payloads| - 1]), payloads[|payloads| - 1])
  }

  function FuncCount(imports: seq<Import>): nat { |ImportedFuncTypes(imports)| }

  predicate HasMemory(imports: seq<Import>)
  {
    exists i :: 0 <= i < |imports| && imports[i].ty.MemImport?
  }

  function Pair(i: Import): (string, string) { (i.namespace, i.name) }

  /** The last import is a memory, and not the first one. */
  predicate LaterMemory(imports: seq<Import>)
    requires imports != []
  {
    imports[|imports| - 1].ty.MemImport? && HasMemory(imports[..|imports| - 1])
  }

  /** The imports without every memory after the first. */
  function Kept(imports: seq<Import>): seq<Import>
  {
    if imports == [] then [] else
    var n := |imports| - 1;
    if LaterMemory(imports) then Kept(imports[..n]) else Kept(imports[..n]) + [imports[n]]
  }

  /** The names of the memories after the first, in order. */
  function Removed(imports: seq<Import>): seq<(string, string)>
  {
    if imports == [] then [] else
    var n := |imports| - 1;
    if LaterMemory(imports) then Removed(imports[..n]) + [Pair(imports[n])] else Removed(imports[..n])
  }

  function Elements<T>(s: seq<T>): set<T> { set x | x in s }

  // ----- specification: what is collected -----

  /** The operation that replaces a memory instruction. */
  function AugmentFor(op: MemOp): AugmentedOp
  {
    match op
    case I32Load => AugI32Load
    case I32Load8U => AugI32Load8U
    case I32Load8S => AugI32Load8S
    case I32Load16U => AugI32Load16U
    case I32Load16S => AugI32Load16S
    case I64Load => AugI64Load
    case F32Load => AugF32Load
    case F64Load => AugF64Load
    case I32Store => AugI32Store
    case I32Store8 => AugI32Store8
    case I32Store16 => AugI32Store16
    case I64Store => AugI64Store
    case F32Store => AugF32Store
    case F64Store => AugF64Store
  }

  /** The augmented operation of a memory operator, its memory and its static offset. */
  function AugmentOf(op: Operator): Option<(AugmentedOp, MemArg)>
  {
    match op
    case Memory(memOp, m) => Some((AugmentFor(memOp), m))
    case MemorySize(mem) => Some((AugMemorySize, MemArg(mem, 0)))
    case _ => None
  }

  /** The key that a lookup for `op` uses, when the operator names a memory other than the first. */
  function KeyOf(op: Operator): Option<Key>
  {
    match AugmentOf(op)
    case Some((aug, m)) => if m.memory > 0 then Some((m.memory - 1, aug)) else None
    case None => None
  }

  /** The collecting visitor's own table of the operations it registers. */
  function CollectedFor(op: MemOp): AugmentedOp
  {
    match op
    case I32Load => AugI32Load
    case I64Load => AugI64Load
    case F32Load => AugF32Load
    case F64Load => AugF64Load
    case I32Load8U => AugI32Load8U
    case I32Load8S => AugI32Load8S
    case I32Load16U => AugI32Load16U
    case I32Load16S => AugI32Load16S
    case I32Store => AugI32Store
    case I64Store => AugI64Store
    case F32Store => AugF32Store
    case F64Store => AugF64Store
    case I32Store8 => AugI32Store8
    case I32Store16 => AugI32Store16
  }

  function CollectedAs(op: Operator): Option<(AugmentedOp, nat)>
  {
    match op
    case Memory(memOp, m) => Some((CollectedFor(memOp), m.memory))
    case MemorySize(mem) => Some((AugMemorySize, mem))
    case _ => None
  }

  function CollectKey(keys: seq<Key>, mem: nat, op: AugmentedOp): seq<Key>
  {
    if mem == 0 || (mem - 1, op) in keys then keys else keys + [(mem - 1, op)]
  }

  function CollectOp(keys: seq<Key>, op: Operator): seq<Key>
  {
    match CollectedAs(op)
    case Some((aug, mem)) => CollectKey(keys, mem, aug)
    case None => keys
  }

  /** The keys of `ops` in order of first use, after those already known. */
  function CollectOps(keys: seq<Key>, ops: seq<Operator>): seq<Key>
  {
    if ops == [] then keys
    else CollectOp(CollectOps(keys, ops[..|ops| - 1]), ops[|ops| - 1])
  }

  function CollectBodies(code: seq<Body>): seq<Key>
  {
    if code == [] then []
    else CollectOps(CollectBodies(code[..|code| - 1]), code[|code| - 1].ops)
  }

  predicate AcceptedOps(ops: seq<Operator>)
  {
    forall i :: 0 <= i < |ops| ==> !ops[i].OtherMemory?
  }

  /** The modules the augmenter takes without an error or a panic. */
  predicate Supported(payloads: seq<Payload>)
  {
    var m := Source(payloads);
    && (forall i :: 0 <= i < |payloads| ==> !payloads[i].UnsupportedPayload? && !payloads[i].ComponentPayload?)
    && Distinct(Removed(m.imports))
    && (forall i :: 0 <= i < |m.code| ==> AcceptedOps(m.code[i].ops))
    && (forall i :: 0 <= i < |m.exports| ==> m.exports[i].kind.MemoryExport? ==> m.exports[i].index == 0)
  }

  // ----- specification: what is encoded -----

  function OpName(op: AugmentedOp): (s: string)
  {
    match op
    case AugI32Load => "I32Load"
    case AugI32Load8U => "I32Load8U"
    case AugI32Load8S => "I32Load8S"
    case AugI32Load16U => "I32Load16U"
    case AugI32Load16S => "I32Load16S"
    case AugI64Load => "I64Load"
    case AugF32Load => "F32Load"
    case AugF64Load => "F64Load"
    case AugI32Store => "I32Store"
    case AugI32Store8 => "I32Store8"
    case AugI32Store16 => "I32Store16"
    case AugI64Store => "I64Store"
    case AugF32Store => "F32Store"
    case AugF64Store => "F64Store"
    case AugMemorySize => "MemorySize"
  }

  function AddedFor(key: Key): AddedImport
  {
    AddedImport("augments", AugmentName(key.0 + 1, key.1), key.0, key.1)
  }

  function AugmentName(mem: nat, op: AugmentedOp): string { "mem" + Decimal(mem) + " " + OpName(op) }

  function AddedAll(keys: seq<Key>): (r: seq<AddedImport>)
    ensures |r| == |keys|
  {
    seq(|keys|, i requires 0 <= i < |keys| => AddedFor(keys[i]))
  }

  /** How indices move: the number of function imports, and the keys of the functions added after them. */
  datatype Remap = Remap(importedFuncs: nat, keys: seq<Key>)

  function RemapFunc(r: Remap, index: nat): nat
  {
    if index < r.importedFuncs then index else index + |r.keys|
  }

  function IndexOf(keys: seq<Key>, key: Key): (i: nat)
    ensures key in keys ==> i < |keys| && keys[i] == key
  {
    if keys == [] || keys[0] == key then 0 else 1 + IndexOf(keys[1..], key)
  }

  function TranslateOp(r: Remap, op: Operator): seq<Operator>
  {
    match KeyOf(op)
    case Some(key) =>
      (if op.MemorySize? then [] else [I32Const(AugmentOf(op).value.1.offset)]) +
      [Call(r.importedFuncs + IndexOf(r.keys, key))]
    case None =>
      [if op.Call? then Call(RemapFunc(r, op.func)) else op]
  }

  function Translator(r: Remap): Operator -> seq<Operator> { (op: Operator) => TranslateOp(r, op) }

  function TranslateOps(r: Remap, ops: seq<Operator>): seq<Operator> { FlatMap(Translator(r), ops) }

  function TranslateBody(r: Remap, b: Body): Body { Body(b.locals, TranslateOps(r, b.ops)) }

  function RemapExport(r: Remap, e: Export): Export
  {
    if e.kind.FuncExport? then e.(index := RemapFunc(r, e.index)) else e
  }

  function RemapOf(m: Module): Remap { Remap(FuncCount(m.imports), CollectBodies(m.code)) }

  function EncodedImport(typeCount: nat, key: Key): Import
  {
    Import(AddedFor(key).namespace, AddedFor(key).name, FuncImport(typeCount))
  }

  function EncodedImports(typeCount: nat, keys: seq<Key>): (r: seq<Import>)
    ensures |r| == |keys|
  {
    seq(|keys|, i requires 0 <= i < |keys| => EncodedImport(typeCount + i, keys[i]))
  }

  function DeclaredTypes(keys: seq<Key>): (r: seq<FuncType>)
    ensures |r| == |keys|
  {
    seq(|keys|, i requires 0 <= i < |keys| => DeclaredType(keys[i].1))
  }

  /** The re-encoded module. */
  function Augmented(m: Module): Module
  {
    var r := RemapOf(m);
    Module(
      m.types + DeclaredTypes(r.keys),
      Kept(m.imports) + EncodedImports(|m.types|, r.keys),
      m.funcs,
      seq(|m.exports|, i requires 0 <= i < |m.exports| => RemapExport(r, m.exports[i])),
      seq(|m.code|, i requires 0 <= i < |m.code| => TranslateBody(r, m.code[i])))
  }

  // ----- the augmenter -----

  /** `augments` and the keys are in bijection, and the index of a key is its position. */
  ghost predicate Bijective(importedFuncs: nat, keys: seq<Key>, augments: map<Key, nat>)
  {
    && (forall i :: 0 <= i < |keys| ==> keys[i] in augments && augments[keys[i]] == importedFuncs + i)
    && (forall key :: key in augments ==> key in keys)
  }

  ghost predicate RemovedAre(imports: seq<Import>, names: set<(string, string)>)
  {
    names == Elements(Removed(imports)) && Distinct(Removed(imports))
  }

  class Augmenter {
    var importsRemoved: set<(string, string)>
    var importsAdded: seq<AddedImport>
    var augments: map<Key, nat>
    var types: seq<FuncType>
    var imports: seq<Import>
    var importedFuncs: nat
    var importedMemories: nat
    var exports: seq<Export>
    var localFuncs: seq<Body>
    var localFuncTys: seq<nat>

    /** The fields record the module `m`. */
    ghost predicate Parsed(m: Module)
      reads this
    {
      && RemovedAre(m.imports, importsRemoved)
      && types == m.types
      && imports == Kept(m.imports)
      && importedFuncs == FuncCount(m.imports)
      && importedMemories == (if HasMemory(m.imports) then 1 else 0)
      && exports == m.exports
      && localFuncs == m.code
      && localFuncTys == m.funcs
    }

    /** The augmentations registered are those of `keys`, in that order. */
    ghost predicate Collected(keys: seq<Key>)
      reads this
    {
      && importsAdded == AddedAll(keys)
      && Bijective(importedFuncs, keys, augments)
    }

    constructor ()
      ensures Parsed(EMPTY_MODULE) && Collected([])
    {
      importsRemoved, importsAdded, augments := {}, [], map[];
      types, imports, importedFuncs, importedMemories := [], [], 0, 0;
      exports, localFuncs, localFuncTys := [], [], [];
    }

    /** One iteration of the import loop. */
    method AddImport(i: Import, ghost m: Module) returns (ok: bool)
      requires Parsed(m)
      modifies this`importsRemoved, this`imports, this`importedFuncs, this`importedMemories
      ensures ok ==> Parsed(m.(imports := m.imports + [i]))
      ensures !ok ==> !Distinct(Removed(m.imports + [i]))
    {
      ImportStep(m.imports, i, importsRemoved);
      match i.ty {
        case FuncImport(_) =>
          importedFuncs := importedFuncs + 1;
        case MemImport =>
          if importedMemories > 0 {
            if Pair(i) in importsRemoved {
              return false;
            }
            importsRemoved := importsRemoved + {Pair(i)};
            return true;
          }
          importedMemories := importedMemories + 1;
        case OtherImport =>
      }
      imports := imports + [i];
      return true;
    }

    method AddImports(section: seq<Import>, ghost m: Module) returns (ok: bool)
      requires Parsed(m)
      modifies this`importsRemoved, this`imports, this`importedFuncs, this`importedMemories
      ensures ok ==> Parsed(m.(imports := m.imports + section))
      ensures !ok ==> !Distinct(Removed(m.imports + section))
    {
      assert m.imports + section[..0] == m.imports;
      for k := 0 to |section|
        invariant Parsed(m.(imports := m.imports + section[..k]))
      {
        assert m.imports + section[..k] + [section[k]] == m.imports + section[..k + 1];
        ok := AddImport(section[k], m.(imports := m.imports + section[..k]));
        if !ok {
          DuplicateStays(m.imports, section, k + 1);
          return false;
        }
      }
      assert section[..|section|] == section;
      return true;
    }

    /** The collecting visitor. */
    method Visit(op: Operator, ghost keys: seq<Key>) returns (ok: bool)
      requires Collected(keys)
      modifies this`importsAdded, this`augments
      ensures ok <==> !op.OtherMemory?
      ensures Collected(CollectOp(keys, op))
    {
      match CollectedAs(op) {
        case Some((aug, mem)) => AugmentOp(mem, aug, keys);
        case None =>
      }
      return !op.OtherMemory?;
    }

    method AugmentOp(mem: nat, op: AugmentedOp, ghost keys: seq<Key>)
      requires Collected(keys)
      modifies this`importsAdded, this`augments
      ensures Collected(CollectKey(keys, mem, op))
    {
      if mem == 0 {
        return;
      }
      var index := mem - 1;
      KnownKey(importedFuncs, keys, augments, (index, op));
      if (index, op) !in augments {
        var idx := importedFuncs + |importsAdded|;
        importsAdded := importsAdded + [AddedImport("augments", AugmentName(mem, op), index, op)];
        augments := augments[(index, op) := idx];
        AddedSnoc(keys, (index, op));
        RegisterKey(importedFuncs, keys, old(augments), (index, op));
      }
    }

    method Collect() returns (ok: bool)
      requires Collected([])
      modifies this`importsAdded, this`augments
      ensures ok <==> forall i :: 0 <= i < |localFuncs| ==> AcceptedOps(localFuncs[i].ops)
      ensures ok ==> Collected(CollectBodies(localFuncs))
    {
      for i := 0 to |localFuncs|
        invariant Collected(CollectBodies(localFuncs[..i]))
        invariant forall k :: 0 <= k < i ==> AcceptedOps(localFuncs[k].ops)
      {
        var ops := localFuncs[i].ops;
        ghost var keys := CollectBodies(localFuncs[..i]);
        assert localFuncs[..i + 1][..i] == localFuncs[..i];
        for j := 0 to |ops|
          invariant Collected(CollectOps(keys, ops[..j]))
          invariant forall k :: 0 <= k < j ==> !ops[k].OtherMemory?
        {
          assert ops[..j + 1][..j] == ops[..j];
          var accepted := Visit(ops[j], CollectOps(keys, ops[..j]));
          if !accepted {
            assert !AcceptedOps(localFuncs[i].ops);
            return false;
          }
        }
        assert ops[..|ops|] == ops;
      }
      assert localFuncs[..|localFuncs|] == localFuncs;
      return true;
    }

    method Translate(op: Operator, ghost r: Remap) returns (code: seq<Operator>)
      requires Collected(r.keys) && importedFuncs == r.importedFuncs
      requires KeyOf(op).Some? ==> KeyOf(op).value in r.keys
      ensures code == TranslateOp(r, op)
    {
      match AugmentOf(op) {
        case Some((aug, m)) =>
          if m.memory > 0 {
            LookupPresent(r, augments, (m.memory - 1, aug));
            var index := augments[(m.memory - 1, aug)];
            return if op.MemorySize? then [Call(index)] else [I32Const(m.offset), Call(index)];
          }
        case None =>
      }
      if op.Call? {
        return [Call(if op.func < importedFuncs then op.func else op.func + |importsAdded|)];
      }
      return [op];
    }

    method EncodeImports(ghost m: Module, ghost keys: seq<Key>)
      returns (outTypes: seq<FuncType>, outImports: seq<Import>)
      requires Parsed(m) && Collected(keys)
      ensures outTypes == m.types + DeclaredTypes(keys)
      ensures outImports == Kept(m.imports) + EncodedImports(|m.types|, keys)
    {
      outTypes, outImports := types, imports;
      for k := 0 to |importsAdded|
        invariant outTypes == m.types + DeclaredTypes(keys)[..k]
        invariant outImports == Kept(m.imports) + EncodedImports(|m.types|, keys)[..k]
      {
        EncodedSnoc(|m.types|, keys, k);
        var cnt := |outTypes|;
        outTypes := outTypes + [DeclaredType(importsAdded[k].op)];
        outImports := outImports + [Import(importsAdded[k].namespace, importsAdded[k].name, FuncImport(cnt))];
      }
    }

    method EncodeExports(ghost m: Module, ghost r: Remap) returns (out: Option<seq<Export>>)
      requires Parsed(m) && |importsAdded| == |r.keys| && importedFuncs == r.importedFuncs
      ensures out.Some? <==>
        forall i :: 0 <= i < |m.exports| ==> m.exports[i].kind.MemoryExport? ==> m.exports[i].index == 0
      ensures out.Some? ==>
        out.value == seq(|m.exports|, i requires 0 <= i < |m.exports| => RemapExport(r, m.exports[i]))
    {
      var outExports := [];
      for k := 0 to |exports|
        invariant |outExports| == k
        invariant forall j :: 0 <= j < k ==> outExports[j] == RemapExport(r, exports[j])
        invariant forall j :: 0 <= j < k ==> exports[j].kind.MemoryExport? ==> exports[j].index == 0
      {
        var e := exports[k];
        match e.kind {
          case FuncExport =>
            outExports := outExports +
              [e.(index := if e.index < importedFuncs then e.index else e.index + |importsAdded|)];
          case MemoryExport =>
            if e.index >= 1 {
              return None;
            }
            outExports := outExports + [e];
          case OtherExport =>
            outExports := outExports + [e];
        }
      }
      return Some(outExports);
    }

    method EncodeCode(ghost m: Module, ghost r: Remap) returns (code: seq<Body>)
      requires Parsed(m) && r == RemapOf(m) && Collected(r.keys)
      requires forall i :: 0 <= i < |m.code| ==> AcceptedOps(m.code[i].ops)
      ensures code == seq(|m.code|, i requires 0 <= i < |m.code| => TranslateBody(r, m.code[i]))
    {
      code := [];
      for k := 0 to |localFuncs|
        invariant |code| == k
        invariant forall j :: 0 <= j < k ==> code[j] == TranslateBody(r, m.code[j])
      {
        var body := localFuncs[k];
        var out := [];
        for j := 0 to |body.ops|
          invariant out == TranslateOps(r, body.ops[..j])
        {
          FlatMapSnoc(Translator(r), body.ops, j);
          KeyCollected(m.code, k, j);
          var piece := Translate(body.ops[j], r);
          out := out + piece;
        }
        assert body.ops[..|body.ops|] == body.ops;
        code := code + [Body(body.locals, out)];
      }
    }

    method Encode(ghost m: Module) returns (r: Result<Module, Error>)
      requires Parsed(m) && Collected(CollectBodies(m.code))
      requires forall i :: 0 <= i < |m.code| ==> AcceptedOps(m.code[i].ops)
      ensures r.Ok? <==> forall i :: 0 <= i < |m.exports| ==> m.exports[i].kind.MemoryExport? ==> m.exports[i].index == 0
      ensures r.Ok? ==> r.value == Augmented(m)
    {
      ghost var remap := RemapOf(m);
      var outTypes, outImports := EncodeImports(m, remap.keys);
      var outExports := EncodeExports(m, remap);
      if outExports == None {
        return Err(MemoryExported);
      }
      var code := EncodeCode(m, remap);
      return Ok(Module(outTypes, outImports, localFuncTys, outExports.value, code));
    }

    /** One iteration of the parsing loop. */
    method Absorb(p: Payload, ghost m: Module) returns (error: Option<Error>)
      requires Parsed(m) && Collected([])
      modifies this
      ensures error.None? ==> Parsed(Extend(m, p)) && Collected([]) && !p.UnsupportedPayload? && !p.ComponentPayload?
      ensures error.Some? ==>
        p.UnsupportedPayload? || p.ComponentPayload? || !Distinct(Removed(Extend(m, p).imports))
    {
      match p {
        case TypeSection(s) => types := types + s;
        case ImportSection(s) =>
          var ok := AddImports(s, m);
          if !ok {
            return Some(DuplicateMemoryImport);
          }
        case FunctionSection(s) => localFuncTys := localFuncTys + s;
        case ExportSection(s) => exports := exports + s;
        case CodeSectionEntry(body) => localFuncs := localFuncs + [body];
        case UnsupportedPayload => return Some(UnsupportedSection);
        case ComponentPayload => return Some(ComponentSection);
        case OtherPayload =>
      }
      return None;
    }

    method Run(payloads: seq<Payload>) returns (r: Result<Module, Error>)
      requires Parsed(EMPTY_MODULE) && Collected([])
      modifies this
      ensures r.Ok? <==> Supported(payloads)
      ensures r.Ok? ==> r.value == Augmented(Source(payloads))
      ensures r.Ok? ==> Parsed(Source(payloads)) && Collected(CollectBodies(Source(payloads).code))
    {
      for k := 0 to |payloads|
        invariant Parsed(Source(payloads[..k])) && Collected([])
        invariant forall i :: 0 <= i < k ==> !payloads[i].UnsupportedPayload? && !payloads[i].ComponentPayload?
      {
        assert payloads[..k + 1][..k] == payloads[..k];
        var error := Absorb(payloads[k], Source(payloads[..k]));
        if error.Some? {
          if !payloads[k].UnsupportedPayload? && !payloads[k].ComponentPayload? {
            RemovedPrefix(payloads, k + 1);
          }
          return Err(error.value);
        }
      }
      assert payloads[..|payloads|] == payloads;
      var accepted := Collect();
      if !accepted {
        return Err(MissedCase);
      }
      r := Encode(Source(payloads));
    }
  }

  // ----- facts the augmenter relies on -----

  lemma KeptStep(before: seq<Import>, i: Import)
    ensures var all, again := before + [i], i.ty.MemImport? && HasMemory(before);
      && Kept(all) == (if again then Kept(before) else Kept(before) + [i])
      && Removed(all) == (if again then Removed(before) + [Pair(i)] else Removed(before))
      && HasMemory(all) == (HasMemory(before) || i.ty.MemImport?)
      && FuncCount(all) == FuncCount(before) + if i.ty.FuncImport? then 1 else 0
  {
    var all := before + [i];
    assert all[..|all| - 1] == before && all[|all| - 1] == i;
    if HasMemory(before) {
      var k :| 0 <= k < |before| && before[k].ty.MemImport?;
      assert all[k].ty.MemImport?;
    }
  }

  lemma DistinctSnoc<T>(s: seq<T>, x: T)
    requires Distinct(s)
    ensures Distinct(s + [x]) <==> x !in s
    ensures Elements(s + [x]) == Elements(s) + {x}
  {
    var all := s + [x];
    if x in s {
      var k :| 0 <= k < |s| && s[k] == x;
      assert all[k] == all[|s|];
    }
  }

  lemma ImportStep(before: seq<Import>, i: Import, names: set<(string, string)>)
    requires RemovedAre(before, names)
    ensures var again := i.ty.MemImport? && HasMemory(before);
      && Kept(before + [i]) == (if again then Kept(before) else Kept(before) + [i])
      && (!again ==> RemovedAre(before + [i], names))
      && (again && Pair(i) !in names ==> RemovedAre(before + [i], names + {Pair(i)}))
      && (again && Pair(i) in names ==> !Distinct(Removed(before + [i])))
    ensures HasMemory(before + [i]) == (HasMemory(before) || i.ty.MemImport?)
    ensures FuncCount(before + [i]) == FuncCount(before) + if i.ty.FuncImport? then 1 else 0
  {
    KeptStep(before, i);
    DistinctSnoc(Removed(before), Pair(i));
  }

  lemma {:induction false} RemovedAppend(imports: seq<Import>, more: seq<Import>)
    ensures Removed(imports) <= Removed(imports + more)
    ensures !Distinct(Removed(imports)) ==> !Distinct(Removed(imports + more))
  {
    var all := imports + more;
    if more == [] {
      assert all == imports;
    } else {
      RemovedAppend(imports, more[..|more| - 1]);
      assert all[..|all| - 1] == imports + more[..|more| - 1];
    }
  }

  lemma DuplicateStays(imports: seq<Import>, section: seq<Import>, k: nat)
    requires k <= |section| && !Distinct(Removed(imports + section[..k]))
    ensures !Distinct(Removed(imports + section))
  {
    RemovedAppend(imports + section[..k], section[k..]);
    assert imports + section[..k] + section[k..] == imports + section;
  }

  lemma {:induction false} SourceGrows(payloads: seq<Payload>, k: nat)
    requires k <= |payloads|
    ensures Source(payloads[..k]).imports <= Source(payloads).imports
    decreases |payloads| - k
  {
    if k == |payloads| {
      assert payloads[..k] == payloads;
    } else {
      SourceGrows(payloads, k + 1);
      assert payloads[..k + 1][..k] == payloads[..k];
    }
  }

  lemma RemovedPrefix(payloads: seq<Payload>, k: nat)
    requires k <= |payloads| && !Distinct(Removed(Source(payloads[..k]).imports))
    ensures !Distinct(Removed(Source(payloads).imports))
  {
    SourceGrows(payloads, k);
    var a, b := Source(payloads[..k]).imports, Source(payloads).imports;
    RemovedAppend(a, b[|a|..]);
    assert a + b[|a|..] == b;
  }

  lemma KnownKey(importedFuncs: nat, keys: seq<Key>, augments: map<Key, nat>, key: Key)
    requires Bijective(importedFuncs, keys, augments)
    ensures key in augments <==> key in keys
  {
  }

  lemma EncodedSnoc(typeCount: nat, keys: seq<Key>, k: nat)
    requires k < |keys|
    ensures EncodedImports(typeCount, keys)[..k + 1] ==
      EncodedImports(typeCount, keys)[..k] + [EncodedImport(typeCount + k, keys[k])]
    ensures DeclaredTypes(keys)[..k + 1] == DeclaredTypes(keys)[..k] + [DeclaredType(keys[k].1)]
    ensures AddedAll(keys)[k] == AddedFor(keys[k])
  {
  }

  lemma AddedSnoc(keys: seq<Key>, key: Key)
    ensures AddedAll(keys + [key]) == AddedAll(keys) + [AddedFor(key)]
  {
  }

  lemma RegisterKey(importedFuncs: nat, keys: seq<Key>, augments: map<Key, nat>, key: Key)
    requires Bijective(importedFuncs, keys, augments) && key !in keys
    ensures Bijective(importedFuncs, keys + [key], augments[key := importedFuncs + |keys|])
  {
  }

  /** Every lookup of a collected key is present and yields the index of its import. */
  lemma LookupPresent(r: Remap, augments: map<Key, nat>, key: Key)
    requires Bijective(r.importedFuncs, r.keys, augments) && key in r.keys
    ensures key in augments && augments[key] == r.importedFuncs + IndexOf(r.keys, key)
  {
    var i := IndexOf(r.keys, key);
    assert r.keys[i] == key;
  }

  lemma {:induction false} CollectGrows(keys: seq<Key>, ops: seq<Operator>)
    ensures keys <= CollectOps(keys, ops)
    ensures forall j :: 0 <= j < |ops| && KeyOf(ops[j]).Some? ==> KeyOf(ops[j]).value in CollectOps(keys, ops)
  {
    if ops != [] {
      CollectGrows(keys, ops[..|ops| - 1]);
    }
  }

  /** The first pass collects the key of every operator the second pass replaces. */
  lemma {:induction false} KeyCollected(code: seq<Body>, i: nat, j: nat)
    requires i < |code| && j < |code[i].ops|
    ensures KeyOf(code[i].ops[j]).Some? ==> KeyOf(code[i].ops[j]).value in CollectBodies(code)
  {
    var n := |code| - 1;
    CollectGrows(CollectBodies(code[..n]), code[n].ops);
    if i < n {
      KeyCollected(code[..n], i, j);
    }
  }
}
