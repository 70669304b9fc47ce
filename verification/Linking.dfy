/** From the payloads of a module to its running instance: augmentation, imports, import object, and look-up by name. */
module Linking {
  import opened Wrappers
  import opened Wasm
  import opened Machine
  import opened Core
  import opened Wiring
  import opened Simulation
  import opened Augmentation

  type ImportObj = map<(string, string), Extern>

  /** What a host finds for the imports of a module, each by its two names; None if one is missing. */
  function LookUp(imports: seq<Import>, obj: ImportObj): Option<seq<Extern>>
  {
    if forall k :: 0 <= k < |imports| ==> Pair(imports[k]) in obj then
      Some(seq(|imports|, k requires 0 <= k < |imports| => obj[Pair(imports[k])]))
    else None
  }

  /** The object binds the names of the list, and no others. */
  ghost predicate Binds(obj: ImportObj, supplies: seq<Supply>)
  {
    && (forall k :: 0 <= k < |supplies| ==>
          NameOf(supplies[k]) in obj && obj[NameOf(supplies[k])] == supplies[k].extern)
    && (forall name :: name in obj ==> exists k :: 0 <= k < |supplies| && NameOf(supplies[k]) == name)
  }

  /** If the list matches the section, look-up by name gives its entries. */
  lemma FoundInOrder(imports: seq<Import>, supplies: seq<Supply>, obj: ImportObj)
    requires MatchesSection(supplies, imports) && Binds(obj, supplies)
    ensures LookUp(imports, obj) == Some(ExternsOf(supplies))
  {
    forall k | 0 <= k < |imports|
      ensures Pair(imports[k]) in obj && obj[Pair(imports[k])] == supplies[k].extern
    {
    }
    assert LookUp(imports, obj).value == ExternsOf(supplies);
  }

  // ----- clashes -----

  lemma {:induction false} NotRemoved(imports: seq<Import>, args: seq<CoreDef>, removed: set<(string, string)>)
    requires |imports| == |args|
    ensures forall k :: 0 <= k < |KeptByName(imports, args, removed)| ==>
      NameOf(KeptByName(imports, args, removed)[k]) !in removed
  {
    if imports != [] {
      NotRemoved(imports[..|imports| - 1], args[..|args| - 1], removed);
    }
  }

  /** A clash is a kept import with the name of a removed memory. */
  lemma {:induction false} ClashKept(imports: seq<Import>, args: seq<CoreDef>, removed: set<(string, string)>)
    returns (j: nat)
    requires |imports| == |args| && Elements(Removed(imports)) <= removed && !NoClash(imports, removed)
    ensures j < |Kept(imports)| == |KeptSupplies(imports, args)|
    ensures Pair(Kept(imports)[j]) in removed && KeptSupplies(imports, args)[j].extern.CoreDefExtern?
  {
    var n := |imports| - 1;
    assert Removed(imports[..n]) <= Removed(imports);
    assert Elements(Removed(imports[..n])) <= removed;
    KeptMatchesSupplies(imports[..n], args[..n]);
    KeptMatchesSupplies(imports, args);
    if !NoClash(imports[..n], removed) {
      j := ClashKept(imports[..n], args[..n], removed);
    } else {
      assert Pair(imports[n]) in removed && !LaterMemory(imports) by {
        if Pair(imports[n]) in removed <==> LaterMemory(imports) {
          NoClashSnoc(imports, removed);
        }
        if LaterMemory(imports) {
          LaterRemoved(imports);
        }
      }
      j := |Kept(imports[..n])|;
    }
  }

  lemma {:induction false} LaterRemoved(imports: seq<Import>)
    requires imports != [] && LaterMemory(imports)
    ensures Pair(imports[|imports| - 1]) in Elements(Removed(imports))
  {
    assert Removed(imports)[|Removed(imports)| - 1] == Pair(imports[|imports| - 1]);
  }

  lemma {:induction false} NoClashSnoc(imports: seq<Import>, removed: set<(string, string)>)
    requires imports != [] && NoClash(imports[..|imports| - 1], removed)
    requires Pair(imports[|imports| - 1]) in removed <==> LaterMemory(imports)
    ensures NoClash(imports, removed)
  {
    hide HasMemory;
    var init := imports[..|imports| - 1];
    forall k | 0 <= k < |imports|
      ensures Pair(imports[k]) in removed <==> imports[k].ty.MemImport? && HasMemory(imports[..k])
    {
      if k < |init| {
        assert init[..k] == imports[..k] && init[k] == imports[k];
      }
    }
  }

  /** With a clash, a kept import is missing or bound to a closure, never to its own definition. */
  lemma ClashWrong(m: Module, args: seq<CoreDef>, list: seq<Supply>, obj: ImportObj)
    requires WellFormed(m, args) && !NoClash(m.imports, Elements(Removed(m.imports)))
    requires WiredList(m, args) == Some(list) && Binds(obj, list)
    ensures LookUp(Augmented(m).imports, obj) != Some(ExternsOf(Supplies(m, args)))
  {
    var removed := Elements(Removed(m.imports));
    var direct := KeptByName(m.imports, args, removed);
    NotRemoved(m.imports, args, removed);
    KeptMatchesSupplies(m.imports, args);
    var j := ClashKept(m.imports, args, removed);
    var name := Pair(Kept(m.imports)[j]);
    assert Augmented(m).imports[j] == Kept(m.imports)[j] && Supplies(m, args)[j] == KeptSupplies(m.imports, args)[j];
    assert ExternsOf(Supplies(m, args))[j].CoreDefExtern?;
    if name in obj {
      var k :| 0 <= k < |list| && NameOf(list[k]) == name;
      assert k >= |direct| && list[k].extern.MemoryExtern?;
      assert obj[name].MemoryExtern?;
    }
  }

  // ----- the whole pass -----

  /**
   The definitions that an instance of the augmented module gets, from the list of imports through the import object. They
   are those that the section asks for, the closure of every added import included, exactly if no kept import shares its
   name with a removed memory and the names are free.
   */
  method Link(m: Module, wasm: Module, args: seq<CoreDef>, removed: set<(string, string)>, added: seq<AddedImport>)
    returns (r: Option<seq<Extern>>)
    requires WellFormed(m, args) && wasm == Augmented(m)
    requires removed == Elements(Removed(m.imports)) && added == AddedAll(RemapOf(m).keys)
    ensures r == Some(ExternsOf(Supplies(m, args))) <==> NoClash(m.imports, removed) && NamesFree(m)
    ensures r.Some? ==> |r.value| == |wasm.imports|
  {
    hide WellFormed, NamesFree, NoClash, MatchesSection, DistinctNames, Supplies;
    WellFormedParts(m, args);
    WiringExact(m, args);
    DuplicatesExact(m, args);
    var list := Imports(m.imports, args, removed, added);
    if list.None? {
      return None;
    }
    assert list == WiredList(m, args);
    var obj := ImportObject(list.value);
    if obj.None? {
      return None;
    }
    r := LookUp(wasm.imports, obj.value);
    if NoClash(m.imports, removed) {
      FoundInOrder(wasm.imports, list.value, obj.value);
    } else {
      ClashWrong(m, args, list.value, obj.value);
    }
  }

  lemma WellFormedParts(m: Module, args: seq<CoreDef>)
    requires WellFormed(m, args)
    ensures |m.imports| == |args| && KeysInRange(RemapOf(m).keys, |MemoryArgs(m.imports, args)|)
  {
  }

  /** One call of an export, from its start. */
  function Called(env: Env, inst: Instance, k: nat, params: seq<Val>, store: Store): State
    requires k < |inst.mod.exports|
  {
    Enter(env, inst, inst.mod.exports[k].index, params, [], store)
  }

  /** The call ends in this state, or never. */
  ghost predicate Ends(env: Env, inst: Instance, k: nat, params: seq<Val>, store: Store, outcome: State)
    requires k < |inst.mod.exports|
  {
    exists n: nat :: Steps(env, inst, Called(env, inst, k, params, store), n) == outcome
  }

  /** All replaced accesses of the call have fit addresses. */
  ghost predicate InReachThroughout(env: Env, inst: Instance, k: nat, params: seq<Val>, store: Store)
    requires k < |inst.mod.exports|
  {
    forall n: nat :: FitRun(env, inst, Called(env, inst, k, params, store), n)
  }

  /** Calls of all exports end alike on both instances, for every host, as long as all accesses are in reach. */
  ghost predicate SameCalls(src: Instance, tgt: Instance)
    requires |src.mod.exports| == |tgt.mod.exports|
  {
    forall env, k, params, store, outcome ::
      0 <= k < |src.mod.exports| && src.mod.exports[k].kind.FuncExport? && Halted(outcome) &&
      InReachThroughout(env, src, k, params, store) ==>
        (Ends(env, src, k, params, store, outcome) <==> Ends(env, tgt, k, params, store, outcome))
  }

  lemma InstanceModules(m: Module, args: seq<CoreDef>)
    requires WellFormed(m, args)
    ensures OriginalInstance(m, args).mod == m && AugmentedInstance(m, args).mod == Augmented(m)
    ensures |Augmented(m).exports| == |m.exports|
  {
  }

  /** `CallsAgree`, in these terms. */
  lemma CallAgrees(m: Module, args: seq<CoreDef>, env: Env, k: nat, params: seq<Val>, store: Store, outcome: State)
    requires WellFormed(m, args) && OriginalInstance(m, args).mod == m && AugmentedInstance(m, args).mod == Augmented(m)
    requires |Augmented(m).exports| == |m.exports|
    requires k < |m.exports| && m.exports[k].kind.FuncExport? && Halted(outcome)
    requires InReachThroughout(env, OriginalInstance(m, args), k, params, store)
    ensures Ends(env, OriginalInstance(m, args), k, params, store, outcome) <==>
      Ends(env, AugmentedInstance(m, args), k, params, store, outcome)
  {
    hide OriginalInstance, AugmentedInstance, Augmented, Halted, Enter, Steps, FitRun;
    var src, tgt := OriginalInstance(m, args), AugmentedInstance(m, args);
    assert Called(env, src, k, params, store) == Enter(env, src, m.exports[k].index, params, [], store);
    assert Called(env, tgt, k, params, store) == Enter(env, tgt, Augmented(m).exports[k].index, params, [], store);
    CallsAgree(m, args, env, k, params, store, outcome);
  }

  lemma AllCallsAgree(m: Module, args: seq<CoreDef>)
    requires WellFormed(m, args)
    ensures OriginalInstance(m, args).mod == m && AugmentedInstance(m, args).mod == Augmented(m)
    ensures |Augmented(m).exports| == |m.exports|
    ensures SameCalls(OriginalInstance(m, args), AugmentedInstance(m, args))
  {
    hide Halted, Ends, InReachThroughout;
    InstanceModules(m, args);
    var src, tgt := OriginalInstance(m, args), AugmentedInstance(m, args);
    forall env, k, params, store, outcome |
      0 <= k < |m.exports| && m.exports[k].kind.FuncExport? && Halted(outcome) &&
      InReachThroughout(env, src, k, params, store)
      ensures Ends(env, src, k, params, store, outcome) <==> Ends(env, tgt, k, params, store, outcome)
    {
      CallAgrees(m, args, env, k, params, store, outcome);
    }
  }

  /**
   Augmenting the payloads of a module, wiring its imports and instantiating what was encoded. Unless names clash, calls of
   the exports of this instance end as on the original module with its own arguments.
   */
  method AugmentAndInstantiate(payloads: seq<Payload>, args: seq<CoreDef>) returns (r: Option<Instance>)
    requires WellFormed(Source(payloads), args)
    ensures !Supported(payloads) ==> r.None?
    ensures var m := Source(payloads);
      Supported(payloads) && NoClash(m.imports, Elements(Removed(m.imports))) && NamesFree(m) ==>
        && r == Some(AugmentedInstance(m, args)) && |r.value.mod.exports| == |m.exports|
        && SameCalls(OriginalInstance(m, args), r.value)
  {
    hide WellFormed, Source, NamesFree, NoClash, SameCalls, Supported, Supplies;
    var m := Source(payloads);
    var augmenter := new Augmenter();
    var wasm := augmenter.Run(payloads);
    if wasm.Err? {
      return None;
    }
    AllCallsAgree(m, args);
    var externs := Link(m, wasm.value, args, augmenter.importsRemoved, augmenter.importsAdded);
    if externs.None? {
      return None;
    }
    return Some(Instantiate(wasm.value, externs.value));
  }
}
