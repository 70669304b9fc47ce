/** The augmented module from end to end: indices, instantiation, and runs of its exports. */
module Augmentation {
  import opened Wrappers
  import opened Seqs
  import opened Wasm
  import opened Machine
  import opened Core
  import opened Wiring
  import opened Simulation

  // ----- index spaces -----

  /** Indices keep their order; the image and the added imports partition the new index space. */
  lemma RemapPartition(r: Remap, funcs: nat, i: nat, j: nat, x: nat)
    requires r.importedFuncs <= funcs && x < funcs + |r.keys|
    ensures i < j ==> RemapFunc(r, i) < RemapFunc(r, j)
    ensures (exists k: nat :: k < funcs && RemapFunc(r, k) == x) <==>
      !(r.importedFuncs <= x < r.importedFuncs + |r.keys|)
  {
    if x < r.importedFuncs {
      assert RemapFunc(r, x) == x;
    } else if x >= r.importedFuncs + |r.keys| {
      assert RemapFunc(r, x - |r.keys|) == x;
    }
  }

  // ----- the first pass -----

  lemma {:induction false} CollectDistinct(keys: seq<Key>, ops: seq<Operator>)
    requires Distinct(keys)
    ensures Distinct(CollectOps(keys, ops))
  {
    if ops != [] {
      CollectDistinct(keys, ops[..|ops| - 1]);
    }
  }

  lemma {:induction false} KeysDistinct(code: seq<Body>)
    ensures Distinct(CollectBodies(code))
  {
    if code != [] {
      KeysDistinct(code[..|code| - 1]);
      CollectDistinct(CollectBodies(code[..|code| - 1]), code[|code| - 1].ops);
    }
  }

  predicate UsesKey(code: seq<Body>, key: Key)
  {
    exists i, j :: 0 <= i < |code| && 0 <= j < |code[i].ops| && KeyOf(code[i].ops[j]) == Some(key)
  }

  lemma TablesAgree(op: Operator)
    ensures CollectedAs(op) ==
      (match AugmentOf(op) case None => None case Some((aug, m)) => Some((aug, m.memory)))
  {
  }

  lemma {:induction false} CollectOnlyUsed(keys: seq<Key>, ops: seq<Operator>, key: Key)
    requires key in CollectOps(keys, ops)
    ensures key in keys || exists j :: 0 <= j < |ops| && KeyOf(ops[j]) == Some(key)
  {
    if ops != [] {
      var n := |ops| - 1;
      TablesAgree(ops[n]);
      if key in CollectOps(keys, ops[..n]) {
        CollectOnlyUsed(keys, ops[..n], key);
        if key !in keys {
          var j :| 0 <= j < n && KeyOf(ops[..n][j]) == Some(key);
          assert KeyOf(ops[j]) == Some(key);
        }
      } else {
        assert KeyOf(ops[n]) == Some(key);
      }
    }
  }

  /** The keys collected are exactly the (memory, operation) pairs that some body uses. */
  lemma {:induction false} CollectedExactly(code: seq<Body>, key: Key)
    ensures key in CollectBodies(code) <==> UsesKey(code, key)
  {
    if UsesKey(code, key) {
      var i, j :| 0 <= i < |code| && 0 <= j < |code[i].ops| && KeyOf(code[i].ops[j]) == Some(key);
      KeyCollected(code, i, j);
    }
    if key in CollectBodies(code) {
      var n := |code| - 1;
      CollectOnlyUsed(CollectBodies(code[..n]), code[n].ops, key);
      if key in CollectBodies(code[..n]) {
        CollectedExactly(code[..n], key);
        var i, j :| 0 <= i < n && 0 <= j < |code[..n][i].ops| && KeyOf(code[..n][i].ops[j]) == Some(key);
        assert KeyOf(code[i].ops[j]) == Some(key);
      } else {
        var j :| 0 <= j < |code[n].ops| && KeyOf(code[n].ops[j]) == Some(key);
        assert KeyOf(code[n].ops[j]) == Some(key);
      }
    }
  }

  // ----- import names -----

  function AddedPair(key: Key): (string, string) { (AddedFor(key).namespace, AddedFor(key).name) }

  function Pairs(imports: seq<Import>): (r: seq<(string, string)>)
    ensures |r| == |imports|
  {
    seq(|imports|, i requires 0 <= i < |imports| => Pair(imports[i]))
  }

  function AddedPairs(keys: seq<Key>): (r: seq<(string, string)>)
    ensures |r| == |keys|
  {
    seq(|keys|, i requires 0 <= i < |keys| => AddedPair(keys[i]))
  }

  predicate Apart<T(==)>(a: seq<T>, b: seq<T>)
  {
    forall i, j :: 0 <= i < |a| && 0 <= j < |b| ==> a[i] != b[j]
  }

  /** The kept imports have distinct names, and none is called like an augmentation. */
  predicate NamesFree(m: Module)
  {
    Distinct(Pairs(Kept(m.imports))) && Apart(Pairs(Kept(m.imports)), AddedPairs(RemapOf(m).keys))
  }

  lemma DistinctAppend<T>(a: seq<T>, b: seq<T>)
    ensures Distinct(a + b) <==> Distinct(a) && Distinct(b) && Apart(a, b)
  {
    var ab := a + b;
    if Distinct(ab) {
      forall i, j | 0 <= i < j < |b|
        ensures b[i] != b[j]
      {
        assert ab[|a| + i] == b[i] && ab[|a| + j] == b[j];
      }
      forall i, j | 0 <= i < |a| && 0 <= j < |b|
        ensures a[i] != b[j]
      {
        assert ab[i] == a[i] && ab[|a| + j] == b[j];
      }
      assert forall i :: 0 <= i < |a| ==> a[i] == ab[i];
    }
  }

  lemma AddedPairsDistinct(keys: seq<Key>)
    requires Distinct(keys)
    ensures Distinct(AddedPairs(keys))
  {
    forall i, j | 0 <= i < j < |keys|
      ensures AddedPairs(keys)[i] != AddedPairs(keys)[j]
    {
      AddedPairInjective(keys[i], keys[j]);
    }
  }

  lemma AddedPairInjective(a: Key, b: Key)
    ensures AddedPair(a) == AddedPair(b) ==> a == b
  {
    if AddedPair(a) == AddedPair(b) {
      AugmentNameInjective(a.0 + 1, a.1, b.0 + 1, b.1);
    }
  }

  /** The import object can be built, without the panic on a duplicate, exactly when the names are free. */
  lemma DuplicatesExact(m: Module, args: seq<CoreDef>)
    requires |m.imports| == |args| && KeysInRange(RemapOf(m).keys, |MemoryArgs(m.imports, args)|)
    ensures DistinctNames(Supplies(m, args)) <==> NamesFree(m)
  {
    var all, kept, added := Supplies(m, args), Pairs(Kept(m.imports)), AddedPairs(RemapOf(m).keys);
    KeptMatchesSupplies(m.imports, args);
    var names := kept + added;
    assert |all| == |names| && forall i :: 0 <= i < |all| ==> NameOf(all[i]) == names[i];
    DistinctAppend(kept, added);
    KeysDistinct(m.code);
    AddedPairsDistinct(RemapOf(m).keys);
    assert DistinctNames(all) <==> Distinct(names);
  }

  // ----- instantiation -----

  function Defs(args: seq<CoreDef>): (r: seq<Extern>)
    ensures |r| == |args|
  {
    seq(|args|, i requires 0 <= i < |args| => CoreDefExtern(args[i]))
  }

  function ExternsOf(supplies: seq<Supply>): (r: seq<Extern>)
    ensures |r| == |supplies|
  {
    seq(|supplies|, i requires 0 <= i < |supplies| => supplies[i].extern)
  }

  lemma {:induction false} ImportedAppend(a: seq<Import>, b: seq<Import>, x: seq<Extern>, y: seq<Extern>)
    requires |a| == |x| && |b| == |y|
    ensures ImportedFuncs(a + b, x + y) == ImportedFuncs(a, x) + ImportedFuncs(b, y)
    ensures ImportedFuncTypes(a + b) == ImportedFuncTypes(a) + ImportedFuncTypes(b)
    ensures ImportedMems(a + b, x + y) == ImportedMems(a, x) + ImportedMems(b, y)
  {
    if b == [] {
      assert a + b == a && x + y == x;
    } else {
      var n := |b| - 1;
      ImportedAppend(a, b[..n], x, y[..n]);
      assert (a + b)[..|a + b| - 1] == a + b[..n] && (x + y)[..|x + y| - 1] == x + y[..n];
    }
  }

  lemma ExternsSnoc(supplies: seq<Supply>, last: Supply)
    ensures ExternsOf(supplies + [last]) == ExternsOf(supplies) + [last.extern]
  {
  }

  lemma {:induction false} FuncsFromKept(imports: seq<Import>, args: seq<CoreDef>)
    requires |imports| == |args|
    ensures |Kept(imports)| == |KeptSupplies(imports, args)|
    ensures ImportedFuncs(Kept(imports), ExternsOf(KeptSupplies(imports, args))) == ImportedFuncs(imports, Defs(args))
    ensures ImportedFuncTypes(Kept(imports)) == ImportedFuncTypes(imports)
  {
    if imports != [] {
      var n := |imports| - 1;
      var init, rest := imports[..n], args[..n];
      FuncsFromKept(init, rest);
      assert Defs(args)[..n] == Defs(rest);
      if !LaterMemory(imports) {
        ExternsSnoc(KeptSupplies(init, rest), Direct(imports[n], args[n]));
        ImportedSnoc(Kept(init), imports[n], ExternsOf(KeptSupplies(init, rest)), CoreDefExtern(args[n]));
      }
    }
  }

  lemma {:induction false} MemsOfDefs(imports: seq<Import>, args: seq<CoreDef>)
    requires |imports| == |args|
    ensures ImportedMems(imports, Defs(args)) == MemoryArgs(imports, args)
  {
    if imports != [] {
      var n := |imports| - 1;
      MemsOfDefs(imports[..n], args[..n]);
      assert Defs(args)[..n] == Defs(args[..n]);
    }
  }

  lemma {:induction false} MemsFromKept(imports: seq<Import>, args: seq<CoreDef>)
    requires |imports| == |args|
    ensures |Kept(imports)| == |KeptSupplies(imports, args)|
    ensures ImportedMems(Kept(imports), ExternsOf(KeptSupplies(imports, args))) ==
      if MemoryArgs(imports, args) == [] then [] else [MemoryArgs(imports, args)[0]]
  {
    if imports != [] {
      var n := |imports| - 1;
      var init, rest := imports[..n], args[..n];
      MemsFromKept(init, rest);
      MemoryArgsExist(init, rest);
      if !LaterMemory(imports) {
        ExternsSnoc(KeptSupplies(init, rest), Direct(imports[n], args[n]));
        ImportedSnoc(Kept(init), imports[n], ExternsOf(KeptSupplies(init, rest)), CoreDefExtern(args[n]));
      }
    }
  }

  lemma ImportedSnoc(imports: seq<Import>, i: Import, x: seq<Extern>, e: Extern)
    requires |imports| == |x|
    ensures var all, externs := imports + [i], x + [e];
      && ImportedFuncs(all, externs) == (if i.ty.FuncImport? then ImportedFuncs(imports, x) + [e] else ImportedFuncs(imports, x))
      && ImportedFuncTypes(all) ==
           (if i.ty.FuncImport? then ImportedFuncTypes(imports) + [i.ty.ty] else ImportedFuncTypes(imports))
      && ImportedMems(all, externs) ==
           (if i.ty.MemImport? then ImportedMems(imports, x) + [MemoryOf(e)] else ImportedMems(imports, x))
  {
    assert (imports + [i])[..|imports|] == imports && (x + [e])[..|imports|] == x;
  }

  lemma {:induction false} ImportedAdded(typeCount: nat, keys: seq<Key>, x: seq<Extern>)
    requires |x| == |keys|
    ensures ImportedFuncs(EncodedImports(typeCount, keys), x) == x
    ensures ImportedFuncTypes(EncodedImports(typeCount, keys)) == seq(|keys|, k => typeCount + k)
    ensures ImportedMems(EncodedImports(typeCount, keys), x) == []
  {
    if keys != [] {
      var n := |keys| - 1;
      ImportedAdded(typeCount, keys[..n], x[..n]);
      assert EncodedImports(typeCount, keys)[..n] == EncodedImports(typeCount, keys[..n]);
      assert x == x[..n] + [x[n]];
    }
  }

  lemma {:induction false} TypesOfImports(imports: seq<Import>, args: seq<CoreDef>, count: nat)
    requires |imports| == |args|
    requires forall i :: 0 <= i < |imports| && imports[i].ty.FuncImport? ==> imports[i].ty.ty < count
    ensures |ImportedFuncs(imports, Defs(args))| == |ImportedFuncTypes(imports)|
    ensures forall i :: 0 <= i < |ImportedFuncTypes(imports)| ==>
      ImportedFuncs(imports, Defs(args))[i].CoreDefExtern? && ImportedFuncTypes(imports)[i] < count
  {
    if imports != [] {
      var n := |imports| - 1;
      assert Defs(args)[..n] == Defs(args[..n]);
      TypesOfImports(imports[..n], args[..n], count);
    }
  }

  function OriginalInstance(m: Module, args: seq<CoreDef>): Instance
    requires |m.imports| == |args|
  {
    Instantiate(m, Defs(args))
  }

  /** A validated module, with an argument for every import. */
  predicate WellFormed(m: Module, args: seq<CoreDef>)
  {
    && |m.imports| == |args| && TypesInRange(m)
    && KeysInRange(RemapOf(m).keys, |MemoryArgs(m.imports, args)|)
  }

  function AugmentedInstance(m: Module, args: seq<CoreDef>): Instance
    requires WellFormed(m, args)
  {
    KeptMatchesSupplies(m.imports, args);
    Instantiate(Augmented(m), ExternsOf(Supplies(m, args)))
  }

  /** The fields of the augmented instance, in terms of those of the original. */
  lemma AugmentedFields(m: Module, args: seq<CoreDef>)
    requires WellFormed(m, args)
    ensures var src, tgt, keys, all := OriginalInstance(m, args), AugmentedInstance(m, args), RemapOf(m).keys,
                                       MemoryArgs(m.imports, args);
      && tgt.mod == Augmented(m) && src.mems == all
      && tgt.funcs == src.funcs + ExternsOf(seq(|keys|, k requires 0 <= k < |keys| => MemorySupply(all, keys[k])))
      && tgt.funcTys == src.funcTys + seq(|keys|, k => |m.types| + k)
      && tgt.mems == (if all == [] then [] else [all[0]])
  {
    var keys := RemapOf(m).keys;
    var kept := KeptSupplies(m.imports, args);
    var added := seq(|keys|, k requires 0 <= k < |keys| => MemorySupply(MemoryArgs(m.imports, args), keys[k]));
    KeptMatchesSupplies(m.imports, args);
    assert ExternsOf(Supplies(m, args)) == ExternsOf(kept) + ExternsOf(added);
    ImportedAppend(Kept(m.imports), EncodedImports(|m.types|, keys), ExternsOf(kept), ExternsOf(added));
    FuncsFromKept(m.imports, args);
    MemsFromKept(m.imports, args);
    MemsOfDefs(m.imports, args);
    ImportedAdded(|m.types|, keys, ExternsOf(added));
  }

  /** The augmented module given the supplies is linked to the original given the arguments. */
  lemma InstancesLinked(m: Module, args: seq<CoreDef>)
    requires WellFormed(m, args)
    ensures Linked(m, OriginalInstance(m, args), AugmentedInstance(m, args))
  {
    AugmentedFields(m, args);
    TypesOfImports(m.imports, args, |m.types|);
  }

  // ----- exports -----

  /**
   An exported function entered from outside on either side: the new index names the same function, so the two
   sides start in matching states.
   */
  lemma ExportsMatch(m: Module, args: seq<CoreDef>, env: Env, k: nat, params: seq<Val>, store: Store)
    requires WellFormed(m, args) && k < |m.exports| && m.exports[k].kind.FuncExport?
    ensures Augmented(m).exports[k].name == m.exports[k].name && Augmented(m).exports[k].kind == FuncExport
    ensures Enter(env, AugmentedInstance(m, args), Augmented(m).exports[k].index, params, [], store) ==
      Matching(m)(Enter(env, OriginalInstance(m, args), m.exports[k].index, params, [], store))
  {
    InstancesLinked(m, args);
    EnterMaps(m, env, OriginalInstance(m, args), AugmentedInstance(m, args), m.exports[k].index, params, [], store);
    assert MapFrames(PositionsOf(m), []) == [];
  }

  /**
   The whole pass. For every validated module, all arguments, every host, every export and all parameters: if
   every augmented access of the run has a fit address, the augmented module ends the call exactly when the
   original does, with the same results, the same trap and the same contents of every memory.
   */
  lemma CallsAgree(m: Module, args: seq<CoreDef>, env: Env, k: nat, params: seq<Val>, store: Store, outcome: State)
    requires WellFormed(m, args) && k < |m.exports| && m.exports[k].kind.FuncExport? && Halted(outcome)
    requires forall n: nat :: FitRun(env, OriginalInstance(m, args),
      Enter(env, OriginalInstance(m, args), m.exports[k].index, params, [], store), n)
    ensures var src, tgt := OriginalInstance(m, args), AugmentedInstance(m, args);
      (exists n: nat :: Steps(env, src, Enter(env, src, m.exports[k].index, params, [], store), n) == outcome) <==>
      (exists n: nat ::
         Steps(env, tgt, Enter(env, tgt, Augmented(m).exports[k].index, params, [], store), n) == outcome)
  {
    var src, tgt := OriginalInstance(m, args), AugmentedInstance(m, args);
    InstancesLinked(m, args);
    ExportsMatch(m, args, env, k, params, store);
    SameOutcomes(m, env, src, tgt, Enter(env, src, m.exports[k].index, params, [], store), outcome);
  }
}
