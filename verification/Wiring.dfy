/**
 `Translation::imports` and the import object it feeds: which definition each import of an augmented
 module is bound to when the module is instantiated.
 */
module Wiring {
  import opened Wrappers
  import opened Text
  import opened Wasm
  import opened JsHost
  import opened Machine
  import opened Core

  datatype Supply = Supply(namespace: string, name: string, extern: Extern)

  // ----- specification -----

  function Direct(i: Import, arg: CoreDef): Supply { Supply(i.namespace, i.name, CoreDefExtern(arg)) }

  /** The imports not removed by name, with their arguments. */
  function KeptByName(imports: seq<Import>, args: seq<CoreDef>, removed: set<(string, string)>): seq<Supply>
    requires |imports| == |args|
  {
    if imports == [] then [] else
    var n := |imports| - 1;
    var init := KeptByName(imports[..n], args[..n], removed);
    if Pair(imports[n]) in removed then init else init + [Direct(imports[n], args[n])]
  }

  /** The arguments of the imports removed by name. */
  function MemoriesByName(imports: seq<Import>, args: seq<CoreDef>, removed: set<(string, string)>): seq<CoreDef>
    requires |imports| == |args|
  {
    if imports == [] then [] else
    var n := |imports| - 1;
    var init := MemoriesByName(imports[..n], args[..n], removed);
    if Pair(imports[n]) in removed then init + [args[n]] else init
  }

  /** The arguments of all memory imports: the memories of the original instance. */
  function MemoryArgs(imports: seq<Import>, args: seq<CoreDef>): seq<CoreDef>
    requires |imports| == |args|
  {
    if imports == [] then [] else
    var n := |imports| - 1;
    var init := MemoryArgs(imports[..n], args[..n]);
    if imports[n].ty.MemImport? then init + [args[n]] else init
  }

  /** The kept imports with the arguments supplied for them. */
  function KeptSupplies(imports: seq<Import>, args: seq<CoreDef>): (r: seq<Supply>)
    requires |imports| == |args|
  {
    if imports == [] then [] else
    var n := |imports| - 1;
    var init := KeptSupplies(imports[..n], args[..n]);
    if LaterMemory(imports) then init else init + [Direct(imports[n], args[n])]
  }

  function MemorySupply(mems: seq<CoreDef>, key: Key): Supply
    requires key.0 + 1 < |mems|
  {
    Supply(AddedFor(key).namespace, AddedFor(key).name, MemoryExtern(mems[key.0 + 1], key.1))
  }

  predicate KeysInRange(keys: seq<Key>, count: nat)
  {
    forall k :: 0 <= k < |keys| ==> keys[k].0 + 1 < count
  }

  /** What the augmented module should be given: the kept imports, then one closure per added import. */
  function Supplies(m: Module, args: seq<CoreDef>): seq<Supply>
    requires |m.imports| == |args| && KeysInRange(RemapOf(m).keys, |MemoryArgs(m.imports, args)|)
  {
    var keys := RemapOf(m).keys;
    KeptSupplies(m.imports, args) +
    seq(|keys|, k requires 0 <= k < |keys| => MemorySupply(MemoryArgs(m.imports, args), keys[k]))
  }

  /** No import that is kept bears the name of a removed memory. */
  predicate NoClash(imports: seq<Import>, removed: set<(string, string)>)
  {
    forall k :: 0 <= k < |imports| ==>
      (Pair(imports[k]) in removed <==> imports[k].ty.MemImport? && HasMemory(imports[..k]))
  }

  /** One closure per added import, on the memory with its index. */
  function ClosuresFor(added: seq<AddedImport>, mems: seq<CoreDef>): (r: seq<Supply>)
    requires forall k :: 0 <= k < |added| ==> added[k].memory < |mems|
    ensures |r| == |added|
  {
    seq(|added|, k requires 0 <= k < |added| =>
      Supply(added[k].namespace, added[k].name, MemoryExtern(mems[added[k].memory], added[k].op)))
  }

  // ----- the two methods -----

  /** `Translation::imports` on an augmented module; None is the panic of a missing memory. */
  method Imports(imports: seq<Import>, args: seq<CoreDef>, removed: set<(string, string)>, added: seq<AddedImport>)
    returns (r: Option<seq<Supply>>)
    requires |imports| == |args|
    ensures r.Some? <==>
      forall k :: 0 <= k < |added| ==> added[k].memory < |MemoriesByName(imports, args, removed)|
    ensures r.Some? ==> var mems := MemoriesByName(imports, args, removed);
      r.value == KeptByName(imports, args, removed) + ClosuresFor(added, mems)
  {
    var ret: seq<Supply>, memories: seq<CoreDef> := [], [];
    for k := 0 to |imports|
      invariant ret == KeptByName(imports[..k], args[..k], removed)
      invariant memories == MemoriesByName(imports[..k], args[..k], removed)
    {
      assert imports[..k + 1][..k] == imports[..k] && args[..k + 1][..k] == args[..k];
      if (imports[k].namespace, imports[k].name) in removed {
        memories := memories + [args[k]];
      } else {
        ret := ret + [Supply(imports[k].namespace, imports[k].name, CoreDefExtern(args[k]))];
      }
    }
    assert imports[..|imports|] == imports && args[..|args|] == args;
    ghost var direct := ret;
    for k := 0 to |added|
      invariant forall j :: 0 <= j < k ==> added[j].memory < |memories|
      invariant ret == direct + ClosuresFor(added[..k], memories)
    {
      if added[k].memory >= |memories| {
        return None;
      }
      ret := ret + [Supply(added[k].namespace, added[k].name, MemoryExtern(memories[added[k].memory], added[k].op))];
    }
    assert added[..|added|] == added;
    return Some(ret);
  }

  function NameOf(s: Supply): (string, string) { (s.namespace, s.name) }

  predicate DistinctNames(supplies: seq<Supply>)
  {
    forall i, j :: 0 <= i < j < |supplies| ==> NameOf(supplies[i]) != NameOf(supplies[j])
  }

  /** The import object; None is the panic on a duplicate import. */
  method ImportObject(supplies: seq<Supply>) returns (r: Option<map<(string, string), Extern>>)
    ensures r.Some? <==> DistinctNames(supplies)
    ensures r.Some? ==> forall k :: 0 <= k < |supplies| ==>
      NameOf(supplies[k]) in r.value && r.value[NameOf(supplies[k])] == supplies[k].extern
    ensures r.Some? ==> forall name :: name in r.value ==> exists k :: 0 <= k < |supplies| && NameOf(supplies[k]) == name
  {
    var obj: map<(string, string), Extern> := map[];
    for k := 0 to |supplies|
      invariant DistinctNames(supplies[..k])
      invariant forall j :: 0 <= j < k ==>
        NameOf(supplies[j]) in obj && obj[NameOf(supplies[j])] == supplies[j].extern
      invariant forall name :: name in obj ==> exists j :: 0 <= j < k && NameOf(supplies[j]) == name
    {
      if NameOf(supplies[k]) in obj {
        return None;
      }
      obj := obj[NameOf(supplies[k]) := supplies[k].extern];
    }
    return Some(obj);
  }

  // ----- wiring is right exactly when no names clash -----

  lemma NoClashPrefix(imports: seq<Import>, removed: set<(string, string)>, n: nat)
    requires n <= |imports| && NoClash(imports, removed)
    ensures NoClash(imports[..n], removed)
  {
    forall k | 0 <= k < n
      ensures imports[..n][..k] == imports[..k]
    {
    }
  }

  lemma {:induction false} KeptByPosition(imports: seq<Import>, args: seq<CoreDef>, removed: set<(string, string)>)
    requires |imports| == |args| && NoClash(imports, removed)
    ensures KeptByName(imports, args, removed) == KeptSupplies(imports, args)
  {
    if imports != [] {
      var n := |imports| - 1;
      NoClashPrefix(imports, removed, n);
      KeptByPosition(imports[..n], args[..n], removed);
    }
  }

  lemma {:induction false} MemoryArgsExist(imports: seq<Import>, args: seq<CoreDef>)
    requires |imports| == |args|
    ensures MemoryArgs(imports, args) != [] <==> HasMemory(imports)
  {
    if imports != [] {
      var n := |imports| - 1;
      MemoryArgsExist(imports[..n], args[..n]);
      assert imports == imports[..n] + [imports[n]];
    }
  }

  lemma {:induction false} MemoriesByPosition(imports: seq<Import>, args: seq<CoreDef>, removed: set<(string, string)>)
    requires |imports| == |args| && NoClash(imports, removed)
    ensures MemoryArgs(imports, args) != [] ==> MemoriesByName(imports, args, removed) == MemoryArgs(imports, args)[1..]
    ensures MemoryArgs(imports, args) == [] ==> MemoriesByName(imports, args, removed) == []
  {
    if imports != [] {
      var n := |imports| - 1;
      NoClashPrefix(imports, removed, n);
      MemoryArgsExist(imports[..n], args[..n]);
      MemoriesByPosition(imports[..n], args[..n], removed);
    }
  }

  lemma {:induction false} KeptMatchesSupplies(imports: seq<Import>, args: seq<CoreDef>)
    requires |imports| == |args|
    ensures |KeptSupplies(imports, args)| == |Kept(imports)|
    ensures forall k :: 0 <= k < |Kept(imports)| ==> NameOf(KeptSupplies(imports, args)[k]) == Pair(Kept(imports)[k])
  {
    if imports != [] {
      KeptMatchesSupplies(imports[..|imports| - 1], args[..|imports| - 1]);
    }
  }

  /** Every removed memory is removed by name; a clash only removes more. */
  lemma {:induction false} RemovedByName(imports: seq<Import>, args: seq<CoreDef>, removed: set<(string, string)>)
    requires |imports| == |args| && Elements(Removed(imports)) <= removed
    ensures |KeptByName(imports, args, removed)| <= |Kept(imports)|
    ensures !NoClash(imports, removed) ==> |KeptByName(imports, args, removed)| < |Kept(imports)|
  {
    if imports != [] {
      var n := |imports| - 1;
      var again := LaterMemory(imports);
      assert Removed(imports[..n]) <= Removed(imports);
      assert Elements(Removed(imports[..n])) <= removed;
      assert again ==> Removed(imports)[|Removed(imports)| - 1] == Pair(imports[n]);
      RemovedByName(imports[..n], args[..n], removed);
      if !NoClash(imports, removed) && NoClash(imports[..n], removed) {
        forall k | 0 <= k < n
          ensures imports[..n][..k] == imports[..k] && imports[..n][k] == imports[k]
        {
        }
        assert Pair(imports[n]) in removed && !again;
      }
    }
  }

  /** The list `Imports` returns for the fields that the augmenter leaves. */
  function WiredList(m: Module, args: seq<CoreDef>): Option<seq<Supply>>
    requires |m.imports| == |args|
  {
    var removed := Elements(Removed(m.imports));
    var added := AddedAll(RemapOf(m).keys);
    var mems := MemoriesByName(m.imports, args, removed);
    if forall k :: 0 <= k < |added| ==> added[k].memory < |mems| then
      Some(KeptByName(m.imports, args, removed) + ClosuresFor(added, mems))
    else None
  }

  /** Entry `k` of the list bears the names of entry `k` of the encoded import section, and nothing is missing. */
  predicate MatchesSection(supplies: seq<Supply>, imports: seq<Import>)
  {
    && |supplies| == |imports|
    && forall k :: 0 <= k < |imports| ==> NameOf(supplies[k]) == Pair(imports[k])
  }

  /**
   The list matches the encoded import section entry by entry, with every closure on the memory that the
   original operator named, exactly when no kept import shares its name with a removed memory.
   */
  lemma WiringExact(m: Module, args: seq<CoreDef>)
    requires |m.imports| == |args| && KeysInRange(RemapOf(m).keys, |MemoryArgs(m.imports, args)|)
    ensures NoClash(m.imports, Elements(Removed(m.imports))) ==>
      WiredList(m, args) == Some(Supplies(m, args)) && MatchesSection(Supplies(m, args), Augmented(m).imports)
    ensures !NoClash(m.imports, Elements(Removed(m.imports))) ==>
      WiredList(m, args).None? || !MatchesSection(WiredList(m, args).value, Augmented(m).imports)
  {
    var removed := Elements(Removed(m.imports));
    RemovedByName(m.imports, args, removed);
    if NoClash(m.imports, removed) {
      WiredWhenNoClash(m, args);
    }
  }

  lemma WiredWhenNoClash(m: Module, args: seq<CoreDef>)
    requires |m.imports| == |args| && KeysInRange(RemapOf(m).keys, |MemoryArgs(m.imports, args)|)
    requires NoClash(m.imports, Elements(Removed(m.imports)))
    ensures WiredList(m, args) == Some(Supplies(m, args)) && MatchesSection(Supplies(m, args), Augmented(m).imports)
  {
    var removed := Elements(Removed(m.imports));
    KeptByPosition(m.imports, args, removed);
    MemoriesByPosition(m.imports, args, removed);
    KeptMatchesSupplies(m.imports, args);
    ClosuresByPosition(RemapOf(m).keys, MemoryArgs(m.imports, args), MemoriesByName(m.imports, args, removed));
    NamesByPosition(Kept(m.imports), KeptSupplies(m.imports, args), RemapOf(m).keys, MemoryArgs(m.imports, args),
      |m.types|);
  }

  lemma ClosuresByPosition(keys: seq<Key>, all: seq<CoreDef>, mems: seq<CoreDef>)
    requires KeysInRange(keys, |all|) && mems == (if all == [] then [] else all[1..])
    ensures forall k :: 0 <= k < |keys| ==> AddedAll(keys)[k].memory < |mems|
    ensures ClosuresFor(AddedAll(keys), mems) ==
      seq(|keys|, k requires 0 <= k < |keys| => MemorySupply(all, keys[k]))
  {
    forall k | 0 <= k < |keys|
      ensures AddedAll(keys)[k] == AddedFor(keys[k]) && keys[k].0 < |mems| && mems[keys[k].0] == all[keys[k].0 + 1]
    {
    }
  }

  lemma NamesByPosition(kept: seq<Import>, supplies: seq<Supply>, keys: seq<Key>, all: seq<CoreDef>, typeCount: nat)
    requires MatchesSection(supplies, kept) && KeysInRange(keys, |all|)
    ensures MatchesSection(supplies + seq(|keys|, k requires 0 <= k < |keys| => MemorySupply(all, keys[k])),
                           kept + EncodedImports(typeCount, keys))
  {
    var closures := seq(|keys|, k requires 0 <= k < |keys| => MemorySupply(all, keys[k]));
    forall k | 0 <= k < |keys|
      ensures NameOf(closures[k]) == Pair(EncodedImports(typeCount, keys)[k])
    {
      SameName(all, keys[k], typeCount + k);
    }
    SectionAppend(supplies, kept, closures, EncodedImports(typeCount, keys));
  }

  lemma SectionAppend(a: seq<Supply>, x: seq<Import>, b: seq<Supply>, y: seq<Import>)
    requires MatchesSection(a, x) && MatchesSection(b, y)
    ensures MatchesSection(a + b, x + y)
  {
  }

  lemma SameName(all: seq<CoreDef>, key: Key, typeIndex: nat)
    requires key.0 + 1 < |all|
    ensures NameOf(MemorySupply(all, key)) == Pair(EncodedImport(typeIndex, key))
  {
  }

  /** A function import and a memory import of one name: the function is lost. */
  lemma ClashExample()
    ensures var imports :=
        [Import("env", "mem", MemImport), Import("env", "x", MemImport), Import("env", "x", FuncImport(0))];
      var m := Module([FuncType([], [])], imports, [], [], []);
      WiredList(m, [10, 11, 12]).None? ||
      !MatchesSection(WiredList(m, [10, 11, 12]).value, Augmented(m).imports)
  {
    var imports :=
      [Import("env", "mem", MemImport), Import("env", "x", MemImport), Import("env", "x", FuncImport(0))];
    var m := Module([FuncType([], [])], imports, [], [], []);
    assert imports[..2][0].ty.MemImport? && HasMemory(imports[..2][..1]) by {
      assert imports[..2][..1][0].ty.MemImport?;
    }
    assert Removed(imports[..2])[|Removed(imports[..2])| - 1] == Pair(imports[1]);
    assert Removed(imports) == Removed(imports[..2]);
    assert Pair(imports[2]) in Elements(Removed(imports));
    WiringExact(m, [10, 11, 12]);
  }

  // ----- names -----

  lemma AugmentNameExample()
    ensures AugmentName(1, AugI32Load8U) == "mem1 I32Load8U" && AddedFor((0, AugMemorySize)).name == "mem1 MemorySize"
    ensures AddedFor((0, AugMemorySize)).namespace == "augments" && AddedFor((0, AugMemorySize)).memory == 0
  {
    assert Decimal(1) == "1";
  }

  lemma OpNameInjective(a: AugmentedOp, b: AugmentedOp)
    requires OpName(a) == OpName(b)
    ensures a == b
  {
    var s, t := OpName(a), OpName(b);
    assert |s| == |t|;
    assert s[0] == t[0] && s[1] == t[1] && s[3] == t[3];
    assert |s| >= 8 ==> s[|s| - 1] == t[|t| - 1] && s[7] == t[7];
  }

  lemma PrefixInjective<T>(p: seq<T>, x: seq<T>, y: seq<T>)
    requires p + x == p + y
    ensures x == y
  {
    assert x == (p + x)[|p|..] && y == (p + y)[|p|..];
  }

  lemma Regroup<T>(p: seq<T>, a: seq<T>, c: seq<T>, b: seq<T>)
    ensures p + a + c + b == p + (a + c + b)
  {
  }

  lemma LabelInjective(m: nat, a: string, n: nat, b: string)
    requires "mem" + Decimal(m) + " " + a == "mem" + Decimal(n) + " " + b
    ensures m == n && a == b
  {
    Regroup("mem", Decimal(m), " ", a);
    Regroup("mem", Decimal(n), " ", b);
    PrefixInjective("mem", Decimal(m) + " " + a, Decimal(n) + " " + b);
    DecimalDigits(m);
    DecimalDigits(n);
    SplitInjective(Decimal(m), Decimal(n), ' ', a, b);
    DecimalInjective(m, n);
  }

  /** The names made up for augmentations are pairwise distinct. */
  lemma AugmentNameInjective(m: nat, a: AugmentedOp, n: nat, b: AugmentedOp)
    requires AugmentName(m, a) == AugmentName(n, b)
    ensures m == n && a == b
  {
    LabelInjective(m, OpName(a), n, OpName(b));
    OpNameInjective(a, b);
  }
}
