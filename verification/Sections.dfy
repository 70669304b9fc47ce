/** What the encoded sections contain, in terms of the sections that are parsed. */
module Sections {
  import opened Wrappers
  import opened Seqs
  import opened Wasm
  import opened Core

  function TypesIn(p: Payload): seq<FuncType> { if p.TypeSection? then p.types else [] }

  function ImportsIn(p: Payload): seq<Import> { if p.ImportSection? then p.imports else [] }

  function FuncsIn(p: Payload): seq<nat> { if p.FunctionSection? then p.funcs else [] }

  function ExportsIn(p: Payload): seq<Export> { if p.ExportSection? then p.exports else [] }

  function BodiesIn(p: Payload): seq<Body> { if p.CodeSectionEntry? then [p.body] else [] }

  /** The contents of all sections, each kind concatenated in order. */
  function Spelled(payloads: seq<Payload>): Module
  {
    Module(FlatMap(TypesIn, payloads), FlatMap(ImportsIn, payloads), FlatMap(FuncsIn, payloads),
           FlatMap(ExportsIn, payloads), FlatMap(BodiesIn, payloads))
  }

  function CodeEntries(payloads: seq<Payload>): nat
  {
    if payloads == [] then 0 else (if payloads[0].CodeSectionEntry? then 1 else 0) + CodeEntries(payloads[1..])
  }

  /** Body `j` of the encoded module is that of code entry `j`, with its operators translated. */
  predicate BodiesKept(payloads: seq<Payload>, code: seq<Body>)
  {
    && |code| == CodeEntries(payloads)
    && forall k :: 0 <= k < |payloads| && payloads[k].CodeSectionEntry? ==> BodyAt(payloads, code, k)
  }

  predicate BodyAt(payloads: seq<Payload>, code: seq<Body>, k: nat)
    requires k < |payloads| && payloads[k].CodeSectionEntry?
  {
    var j := CodeEntries(payloads[..k]);
    j < |code| && code[j] == TranslateBody(RemapOf(Spelled(payloads)), payloads[k].body)
  }

  /** An export keeps its name, its kind and, unless it is a function, its index. */
  predicate ExportKept(r: Remap, e: Export, e': Export)
  {
    && e'.name == e.name && e'.kind == e.kind
    && e'.index == e.index + if e.kind.FuncExport? && e.index >= r.importedFuncs then |r.keys| else 0
  }

  /** Types and function types are those of the source, exports in the same order, and the kept imports come first. */
  predicate SectionsKept(payloads: seq<Payload>, out: Module)
  {
    var src, r := Spelled(payloads), RemapOf(Spelled(payloads));
    && src.types <= out.types && |out.types| == |src.types| + |r.keys|
    && Kept(src.imports) <= out.imports && |out.imports| == |Kept(src.imports)| + |r.keys|
    && out.funcs == src.funcs
    && |out.exports| == |src.exports|
    && (forall k :: 0 <= k < |src.exports| ==> ExportKept(r, src.exports[k], out.exports[k]))
    && BodiesKept(payloads, out.code)
  }

  /** The parsing loop gathers what the sections spell out. */
  lemma {:induction false} SourceSpelled(payloads: seq<Payload>)
    ensures Source(payloads) == Spelled(payloads)
  {
    if payloads != [] {
      var n := |payloads| - 1;
      SourceSpelled(payloads[..n]);
      assert payloads[..n + 1] == payloads;
      FlatMapSnoc(TypesIn, payloads, n);
      FlatMapSnoc(ImportsIn, payloads, n);
      FlatMapSnoc(FuncsIn, payloads, n);
      FlatMapSnoc(ExportsIn, payloads, n);
      FlatMapSnoc(BodiesIn, payloads, n);
    }
  }

  lemma {:induction false} EntriesCounted(payloads: seq<Payload>)
    ensures |FlatMap(BodiesIn, payloads)| == CodeEntries(payloads)
  {
    if payloads != [] {
      EntriesCounted(payloads[1..]);
    }
  }

  lemma SectionsOf(payloads: seq<Payload>)
    ensures SectionsKept(payloads, Augmented(Source(payloads)))
  {
    hide RemapOf, TranslateBody, Kept, Source;
    SourceSpelled(payloads);
    EntriesCounted(payloads);
    var code := Augmented(Spelled(payloads)).code;
    forall k | 0 <= k < |payloads| && payloads[k].CodeSectionEntry?
      ensures BodyAt(payloads, code, k)
    {
      FlatMapAt(BodiesIn, payloads, k);
      EntriesCounted(payloads[..k]);
      var bodies, j := FlatMap(BodiesIn, payloads), CodeEntries(payloads[..k]);
      assert bodies[j..][0] == payloads[k].body;
    }
  }

  /** The imports up to the first memory are kept, and all but the memories after it. */
  lemma {:induction false} KeptFrom(imports: seq<Import>, first: nat)
    requires first < |imports| && imports[first].ty.MemImport? && !HasMemory(imports[..first])
    ensures Kept(imports) == imports[..first + 1] + FlatMap(NotMemory, imports[first + 1..])
    ensures Removed(imports) == FlatMap(MemoryName, imports[first + 1..])
    decreases |imports|
  {
    hide Kept, Removed, HasMemory, NotMemory, MemoryName, FlatMap;
    var n := |imports| - 1;
    var init := imports[..n];
    assert imports == init + [imports[n]];
    KeptStep(init, imports[n]);
    if first == n {
      KeptAll(init);
      assert imports[n + 1..] == [];
      NothingMore();
    } else {
      assert init[..first] == imports[..first] && init[first] == imports[first];
      KeptFrom(init, first);
      MemoryIn(init, first);
      KeptMore(imports, first);
    }
  }

  lemma NothingMore()
    ensures FlatMap(NotMemory, []) == [] && FlatMap(MemoryName, []) == []
  {
  }

  /** One more import after the first memory. */
  lemma KeptMore(imports: seq<Import>, first: nat)
    requires first < |imports| - 1
    ensures var init, last := imports[..|imports| - 1], imports[|imports| - 1];
      && imports[..first + 1] + FlatMap(NotMemory, imports[first + 1..]) ==
           (init[..first + 1] + FlatMap(NotMemory, init[first + 1..])) + (if last.ty.MemImport? then [] else [last])
      && FlatMap(MemoryName, imports[first + 1..]) ==
           FlatMap(MemoryName, init[first + 1..]) + (if last.ty.MemImport? then [Pair(last)] else [])
  {
    hide NotMemory, MemoryName, FlatMap;
    var n := |imports| - 1;
    RestSnoc(imports, first + 1);
    LastImport(imports[n]);
    assert imports[..n][..first + 1] == imports[..first + 1];
    Assoc(imports[..first + 1], FlatMap(NotMemory, imports[..n][first + 1..]), NotMemory(imports[n]));
  }

  lemma LastImport(i: Import)
    ensures NotMemory(i) == (if i.ty.MemImport? then [] else [i])
    ensures MemoryName(i) == if i.ty.MemImport? then [Pair(i)] else []
  {
  }

  lemma MemoryIn(imports: seq<Import>, i: nat)
    requires i < |imports| && imports[i].ty.MemImport?
    ensures HasMemory(imports)
  {
  }

  lemma RestSnoc(imports: seq<Import>, k: nat)
    requires k < |imports|
    ensures var n := |imports| - 1;
      && FlatMap(NotMemory, imports[k..]) == FlatMap(NotMemory, imports[..n][k..]) + NotMemory(imports[n])
      && FlatMap(MemoryName, imports[k..]) == FlatMap(MemoryName, imports[..n][k..]) + MemoryName(imports[n])
  {
    var rest, n := imports[k..], |imports| - 1;
    assert rest[..n - k] == imports[..n][k..] && rest[..n - k + 1] == rest && rest[n - k] == imports[n];
    FlatMapSnoc(NotMemory, rest, n - k);
    FlatMapSnoc(MemoryName, rest, n - k);
  }

  /** Without a memory, all imports are kept. */
  lemma {:induction false} KeptAll(imports: seq<Import>)
    requires !HasMemory(imports)
    ensures Kept(imports) == imports && Removed(imports) == []
  {
    hide Kept, Removed, HasMemory;
    if imports == [] {
      NothingKept();
    } else {
      var n := |imports| - 1;
      assert imports == imports[..n] + [imports[n]];
      KeptStep(imports[..n], imports[n]);
      KeptAll(imports[..n]);
    }
  }

  lemma NothingKept()
    ensures Kept([]) == [] && Removed([]) == []
  {
  }

  function NotMemory(i: Import): seq<Import> { if i.ty.MemImport? then [] else [i] }

  function MemoryName(i: Import): seq<(string, string)> { if i.ty.MemImport? then [(i.namespace, i.name)] else [] }

  /** What is taken, payload by payload: all but the duplicate names of memories after the first. */
  predicate Takes(payloads: seq<Payload>)
  {
    forall k :: 0 <= k < |payloads| ==>
      match payloads[k]
      case CodeSectionEntry(body) => forall i :: 0 <= i < |body.ops| ==> !body.ops[i].OtherMemory?
      case ExportSection(s) => forall i :: 0 <= i < |s| ==> !(s[i].kind.MemoryExport? && s[i].index > 0)
      case UnsupportedPayload => false
      case ComponentPayload => false
      case _ => true
  }

  /** The augmenter succeeds exactly on these payloads, if the removed memories have distinct names. */
  lemma SupportedExactly(payloads: seq<Payload>)
    ensures Supported(payloads) <==> Takes(payloads) && Distinct(Removed(FlatMap(ImportsIn, payloads)))
  {
    SourceSpelled(payloads);
    var m := Spelled(payloads);
    if Supported(payloads) {
      forall k, i | 0 <= k < |payloads| && payloads[k].CodeSectionEntry? && 0 <= i < |payloads[k].body.ops|
        ensures !payloads[k].body.ops[i].OtherMemory?
      {
        var j := FlatMapHas(BodiesIn, payloads, k, 0);
        assert AcceptedOps(m.code[j].ops);
      }
      forall k, i | 0 <= k < |payloads| && payloads[k].ExportSection? && 0 <= i < |payloads[k].exports|
        ensures !(payloads[k].exports[i].kind.MemoryExport? && payloads[k].exports[i].index > 0)
      {
        var j := FlatMapHas(ExportsIn, payloads, k, i);
      }
    }
    if Takes(payloads) {
      forall j | 0 <= j < |m.code|
        ensures AcceptedOps(m.code[j].ops)
      {
        var k, i := FlatMapFrom(BodiesIn, payloads, j);
      }
      forall j | 0 <= j < |m.exports|
        ensures m.exports[j].kind.MemoryExport? ==> m.exports[j].index == 0
      {
        var k, i := FlatMapFrom(ExportsIn, payloads, j);
      }
    }
  }

  /** The augmenter on a list of payloads, in terms of what the sections contain. */
  method Augment(payloads: seq<Payload>) returns (r: Result<Module, Error>)
    ensures r.Ok? <==> Takes(payloads) && Distinct(Removed(FlatMap(ImportsIn, payloads)))
    ensures r.Ok? ==> SectionsKept(payloads, r.value)
  {
    hide Takes, SectionsKept, Supported, Augmented, Source;
    var augmenter := new Augmenter();
    r := augmenter.Run(payloads);
    SupportedExactly(payloads);
    SectionsOf(payloads);
  }
}
