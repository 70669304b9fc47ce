/** Output files, and the loop that inlines small core modules and moves the others up. */
module Slots {
  import opened Wrappers
  import opened Bytes
  import opened Text

  /** The file name of core module `idx`. */
  function CoreFileName(name: string, idx: nat): string
  {
    name + ".core" + (if idx == 0 then "" else Decimal(idx + 1)) + ".wasm"
  }

  /** The first module has no number in its name, and module `i` has `i + 1`. */
  lemma CoreFileNames(name: string, i: nat)
    ensures CoreFileName(name, 0) == name + ".core.wasm" && CoreFileName(name, 1) == name + ".core2.wasm"
    ensures i > 0 ==> exists digits :: Reading(digits) == i + 1 && CoreFileName(name, i) == name + ".core" + digits + ".wasm"
  {
    DecimalReads(i + 1);
    assert name + ".core" + "" + ".wasm" == name + ".core.wasm";
    assert Decimal(2) == "2" && name + ".core" + "2" + ".wasm" == name + ".core2.wasm";
  }

  lemma CoreFileNameInjective(name: string, i: nat, j: nat)
    requires CoreFileName(name, i) == CoreFileName(name, j)
    ensures i == j
  {
    var a, b := if i == 0 then "" else Decimal(i + 1), if j == 0 then "" else Decimal(j + 1);
    var pre := name + ".core";
    var s := pre + a + ".wasm";
    assert s == pre + b + ".wasm" && |a| == |b|;
    assert s[|pre|..|pre| + |a|] == a && (pre + b + ".wasm")[|pre|..|pre| + |a|] == b;
    if i > 0 {
      DecimalDigits(i + 1);
    }
    if j > 0 {
      DecimalDigits(j + 1);
    }
    if i > 0 && j > 0 {
      DecimalInjective(i + 1, j + 1);
    }
  }

  class Files {
    var files: map<string, seq<byte>>

    constructor ()
      ensures files == map[]
    {
      files := map[];
    }

    /** A second push under the same name appends. */
    method Push(name: string, contents: seq<byte>)
      modifies this
      ensures files == old(files)[name := if name in old(files) then old(files)[name] + contents else contents]
    {
      if name in files {
        files := files[name := files[name] + contents];
      } else {
        files := files[name := contents];
      }
    }

    method GetSize(name: string) returns (size: Option<nat>)
      ensures size == if name in files then Some(|files[name]|) else None
    {
      size := if name in files then Some(|files[name]|) else None;
    }

    method Remove(name: string) returns (data: Option<seq<byte>>)
      modifies this
      ensures data == if name in old(files) then Some(old(files)[name]) else None
      ensures files == old(files) - {name}
    {
      data := if name in files then Some(files[name]) else None;
      files := files - {name};
    }
  }

  /** How the generated code gets at a core module: by callback, from its own text, or from a file. */
  datatype Ref = GetCoreModule(file: string) | Inlined(data: seq<byte>) | Fetched(file: string)

  /** What the reference denotes, given the files that are written. */
  function Denotes(files: map<string, seq<byte>>, r: Ref): Option<seq<byte>>
  {
    match r
    case Inlined(data) => Some(data)
    case GetCoreModule(file) => if file in files then Some(files[file]) else None
    case Fetched(file) => if file in files then Some(files[file]) else None
  }

  predicate Small(data: seq<byte>, cutoff: nat) { |data| < cutoff }

  /** The modules among the first `n` that are not inlined, in order. */
  function Kept(cores: seq<seq<byte>>, cutoff: nat, n: nat): (r: seq<nat>)
    requires n <= |cores|
    ensures |r| <= n && forall j :: 0 <= j < |r| ==> r[j] < n
  {
    if n == 0 then []
    else if Small(cores[n - 1], cutoff) then Kept(cores, cutoff, n - 1)
    else Kept(cores, cutoff, n - 1) + [n - 1]
  }

  /** The kept modules are those with at least as many bytes as the cutoff, each once, in their original order. */
  lemma {:induction false} KeptExactly(cores: seq<seq<byte>>, cutoff: nat, n: nat)
    requires n <= |cores|
    ensures var r := Kept(cores, cutoff, n);
      && (forall i :: 0 <= i < n ==> (i in r <==> |cores[i]| >= cutoff))
      && (forall a, b :: 0 <= a < b < |r| ==> r[a] < r[b])
  {
    if n > 0 {
      KeptExactly(cores, cutoff, n - 1);
    }
  }

  /** Slot `j` of `name` holds `data`. */
  predicate Holds(files: map<string, seq<byte>>, name: string, j: nat, data: seq<byte>)
  {
    CoreFileName(name, j) in files && files[CoreFileName(name, j)] == data
  }

  predicate IsCore(name: string, n: nat, file: string)
  {
    exists j :: 0 <= j < n && file == CoreFileName(name, j)
  }

  /** The files besides the core modules are the same. */
  ghost predicate OthersSame(before: map<string, seq<byte>>, after: map<string, seq<byte>>, name: string, n: nat)
  {
    forall f :: !IsCore(name, n, f) ==> (f in after <==> f in before) && (f in after && f in before ==> after[f] == before[f])
  }

  /** After `i` rounds: the kept modules are in the first slots, the slots up to `i` are free, the others untouched. */
  ghost predicate Compacting(
    before: map<string, seq<byte>>, now: map<string, seq<byte>>, name: string, cores: seq<seq<byte>>, cutoff: nat, i: nat)
    requires i <= |cores|
  {
    var kept := Kept(cores, cutoff, i);
    && (forall j :: 0 <= j < |kept| ==> Holds(now, name, j, cores[kept[j]]))
    && (forall j :: |kept| <= j < i ==> CoreFileName(name, j) !in now)
    && (forall j :: i <= j < |cores| ==> Holds(now, name, j, cores[j]))
    && OthersSame(before, now, name, |cores|)
  }

  /** The reference to module `i`. */
  function RefFor(name: string, cores: seq<seq<byte>>, cutoff: nat, i: nat): Ref
    requires i < |cores|
  {
    if Small(cores[i], cutoff) then Inlined(cores[i]) else Fetched(CoreFileName(name, |Kept(cores, cutoff, i)|))
  }

  /** Changing core slots leaves the other files alone. */
  lemma CoreChange(
    before: map<string, seq<byte>>, now: map<string, seq<byte>>, name: string, n: nat, i: nat, k: nat, data: seq<byte>)
    requires OthersSame(before, now, name, n) && i < n && k < n
    ensures OthersSame(before, now - {CoreFileName(name, i)}, name, n)
    ensures OthersSame(before, (now - {CoreFileName(name, i)})[CoreFileName(name, k) := data], name, n)
  {
    hide CoreFileName;
    assert IsCore(name, n, CoreFileName(name, i)) && IsCore(name, n, CoreFileName(name, k));
  }

  /** What is in a slot that is not touched. */
  lemma Untouched(now: map<string, seq<byte>>, name: string, i: nat, k: nat, data: seq<byte>, j: nat, other: seq<byte>)
    ensures var dropped := now - {CoreFileName(name, i)};
      j != i ==> (Holds(dropped, name, j, other) <==> Holds(now, name, j, other))
    ensures var dropped := now - {CoreFileName(name, i)};
      CoreFileName(name, j) in dropped <==> j != i && CoreFileName(name, j) in now
    ensures var next := (now - {CoreFileName(name, i)})[CoreFileName(name, k) := data];
      j != i && j != k ==> (Holds(next, name, j, other) <==> Holds(now, name, j, other))
    ensures var next := (now - {CoreFileName(name, i)})[CoreFileName(name, k) := data];
      j != k ==> (CoreFileName(name, j) in next <==> j != i && CoreFileName(name, j) in now)
  {
    hide CoreFileName;
    if CoreFileName(name, j) == CoreFileName(name, i) {
      CoreFileNameInjective(name, i, j);
    }
    if CoreFileName(name, j) == CoreFileName(name, k) {
      CoreFileNameInjective(name, k, j);
    }
  }

  /** Round `i` drops a small module. */
  lemma Dropped(
    before: map<string, seq<byte>>, now: map<string, seq<byte>>, name: string, cores: seq<seq<byte>>, cutoff: nat, i: nat)
    requires i < |cores| && Compacting(before, now, name, cores, cutoff, i) && Small(cores[i], cutoff)
    ensures Compacting(before, now - {CoreFileName(name, i)}, name, cores, cutoff, i + 1)
  {
    hide CoreFileName, Small, OthersSame, Holds;
    var kept, next := Kept(cores, cutoff, i), now - {CoreFileName(name, i)};
    CoreChange(before, now, name, |cores|, i, i, []);
    forall j | 0 <= j < |kept|
      ensures Holds(next, name, j, cores[kept[j]])
    {
      Untouched(now, name, i, i, [], j, cores[kept[j]]);
    }
    forall j | |kept| <= j < i + 1
      ensures CoreFileName(name, j) !in next
    {
      Untouched(now, name, i, i, [], j, []);
    }
    forall j | i + 1 <= j < |cores|
      ensures Holds(next, name, j, cores[j])
    {
      Untouched(now, name, i, i, [], j, cores[j]);
    }
  }

  /** Round `i` keeps a module, in slot `k`. */
  lemma Moved(
    before: map<string, seq<byte>>, now: map<string, seq<byte>>, name: string, cores: seq<seq<byte>>, cutoff: nat, i: nat)
    requires i < |cores| && Compacting(before, now, name, cores, cutoff, i) && !Small(cores[i], cutoff)
    ensures var k := |Kept(cores, cutoff, i)|;
      && (k < i ==> CoreFileName(name, k) !in now && CoreFileName(name, k) != CoreFileName(name, i))
      && Compacting(before, (now - {CoreFileName(name, i)})[CoreFileName(name, k) := cores[i]], name, cores, cutoff, i + 1)
  {
    hide CoreFileName, Small, OthersSame;
    var kept, data := Kept(cores, cutoff, i), cores[i];
    var k := |kept|;
    var next := (now - {CoreFileName(name, i)})[CoreFileName(name, k) := data];
    CoreChange(before, now, name, |cores|, i, k, data);
    if CoreFileName(name, k) == CoreFileName(name, i) {
      CoreFileNameInjective(name, i, k);
    }
    assert Kept(cores, cutoff, i + 1) == kept + [i];
    assert Holds(next, name, k, data);
    hide Holds, Kept;
    forall j | 0 <= j < k + 1
      ensures Holds(next, name, j, cores[(kept + [i])[j]])
    {
      if j < k {
        Untouched(now, name, i, k, data, j, cores[kept[j]]);
      }
    }
    forall j | k + 1 <= j < i + 1
      ensures CoreFileName(name, j) !in next
    {
      Untouched(now, name, i, k, data, j, []);
    }
    forall j | i + 1 <= j < |cores|
      ensures Holds(next, name, j, cores[j])
    {
      Untouched(now, name, i, k, data, j, cores[j]);
    }
  }

  /** The free slots are an interval. */
  ghost predicate Free(removed: set<nat>, k: nat, i: nat)
  {
    forall j: nat :: j in removed <==> k <= j < i
  }

  lemma LeastFree(removed: set<nat>, k: nat, i: nat)
    requires Free(removed, k, i)
    ensures removed == {} <==> i <= k
    ensures k < i ==> k in removed && forall j :: j in removed ==> k <= j
  {
    if k < i {
      assert k in removed;
    } else {
      assert forall j :: j !in removed;
    }
  }

  /** `removed.iter().next()` of an ordered set. */
  method First(removed: set<nat>) returns (least: Option<nat>)
    ensures least.None? <==> removed == {}
    ensures least.Some? ==> least.value in removed && forall j :: j in removed ==> least.value <= j
  {
    if removed == {} {
      return None;
    }
    var rest := removed;
    var best :| best in removed;
    while rest != {}
      invariant rest <= removed && best in removed
      invariant forall j :: j in removed && j !in rest ==> best <= j
      decreases |rest|
    {
      var j :| j in rest;
      if j < best {
        best := j;
      }
      rest := rest - {j};
    }
    return Some(best);
  }

  /** One round without a loader callback: the module is inlined, or kept and moved up to the first free slot. */
  method CompileCore(files: Files, name: string, ghost cores: seq<seq<byte>>, cutoff: nat, i: nat, removed: set<nat>,
                     ghost before: map<string, seq<byte>>)
    returns (removed': set<nat>, r: Ref)
    requires i < |cores| && Compacting(before, files.files, name, cores, cutoff, i)
    requires Free(removed, |Kept(cores, cutoff, i)|, i)
    modifies files
    ensures Compacting(before, files.files, name, cores, cutoff, i + 1)
    ensures Free(removed', |Kept(cores, cutoff, i + 1)|, i + 1)
    ensures r == RefFor(name, cores, cutoff, i)
  {
    hide CoreFileName, OthersSame;
    var nameIdx := CoreFileName(name, i);
    ghost var k, now := |Kept(cores, cutoff, i)|, files.files;
    assert Holds(now, name, i, cores[i]);
    var size := files.GetSize(nameIdx);
    if size.value < cutoff {
      Dropped(before, now, name, cores, cutoff, i);
      assert i !in removed;
      removed' := removed + {i};
      var data := files.Remove(nameIdx);
      r := Inlined(data.value);
    } else {
      Moved(before, now, name, cores, cutoff, i);
      LeastFree(removed, k, i);
      var replacement := First(removed);
      removed' := removed;
      if replacement.Some? {
        assert replacement.value == k && i !in removed;
        removed' := removed - {replacement.value} + {i};
        var data := files.Remove(nameIdx);
        nameIdx := CoreFileName(name, replacement.value);
        assert nameIdx !in files.files;
        files.Push(nameIdx, data.value);
      } else {
        assert (now - {nameIdx})[nameIdx := cores[i]] == now;
      }
      r := Fetched(nameIdx);
    }
  }

  /**
   The loop over the core modules. Every reference denotes its own module in the files that are left; these are the
   modules that are not inlined, in the first slots and in order.
   */
  method CompileCores(files: Files, name: string, cores: seq<seq<byte>>, instantiation: bool, cutoff: nat)
    returns (refs: seq<Ref>)
    requires forall j :: 0 <= j < |cores| ==> Holds(files.files, name, j, cores[j])
    modifies files
    ensures |refs| == |cores|
    ensures forall i :: 0 <= i < |cores| ==> Denotes(files.files, refs[i]) == Some(cores[i])
    ensures instantiation ==> files.files == old(files.files)
    ensures instantiation ==> forall i :: 0 <= i < |cores| ==> refs[i] == GetCoreModule(CoreFileName(name, i))
    ensures !instantiation ==> forall i :: 0 <= i < |cores| ==> (refs[i].Inlined? <==> |cores[i]| < cutoff)
    ensures !instantiation ==> forall i :: 0 <= i < |cores| ==> !refs[i].GetCoreModule?
    ensures !instantiation ==>
      && Compacting(old(files.files), files.files, name, cores, cutoff, |cores|)
      && forall i :: 0 <= i < |cores| ==> refs[i] == RefFor(name, cores, cutoff, i)
  {
    hide CoreFileName, OthersSame;
    ghost var before := files.files;
    refs := [];
    var removed: set<nat> := {};
    Unchanged(before, name, |cores|);
    for i := 0 to |cores|
      invariant |refs| == i
      invariant instantiation ==> files.files == before
      invariant instantiation ==> forall m :: 0 <= m < i ==> refs[m] == GetCoreModule(CoreFileName(name, m))
      invariant !instantiation ==> Free(removed, |Kept(cores, cutoff, i)|, i)
      invariant !instantiation ==> Compacting(before, files.files, name, cores, cutoff, i)
      invariant !instantiation ==> forall m :: 0 <= m < i ==> refs[m] == RefFor(name, cores, cutoff, m)
    {
      var r;
      if instantiation {
        r := GetCoreModule(CoreFileName(name, i));
      } else {
        removed, r := CompileCore(files, name, cores, cutoff, i, removed, before);
      }
      refs := refs + [r];
    }
    if instantiation {
      assert forall i :: 0 <= i < |cores| ==> Holds(before, name, i, cores[i]);
    } else {
      RefsDenote(files.files, before, name, cores, cutoff);
    }
  }

  lemma Unchanged(files: map<string, seq<byte>>, name: string, n: nat)
    ensures OthersSame(files, files, name, n)
  {
  }

  lemma {:induction false} KeptPrefix(cores: seq<seq<byte>>, cutoff: nat, i: nat, n: nat)
    requires i < n <= |cores| && !Small(cores[i], cutoff)
    ensures |Kept(cores, cutoff, i)| < |Kept(cores, cutoff, n)|
    ensures Kept(cores, cutoff, n)[|Kept(cores, cutoff, i)|] == i
    decreases n
  {
    if i < n - 1 {
      KeptPrefix(cores, cutoff, i, n - 1);
    }
  }

  /** A kept module's slot is not taken by another one later. */
  lemma RefsDenote(
    files: map<string, seq<byte>>, before: map<string, seq<byte>>, name: string, cores: seq<seq<byte>>, cutoff: nat)
    requires Compacting(before, files, name, cores, cutoff, |cores|)
    ensures forall i :: 0 <= i < |cores| ==> Denotes(files, RefFor(name, cores, cutoff, i)) == Some(cores[i])
  {
    hide CoreFileName;
    forall i | 0 <= i < |cores|
      ensures Denotes(files, RefFor(name, cores, cutoff, i)) == Some(cores[i])
    {
      if !Small(cores[i], cutoff) {
        KeptPrefix(cores, cutoff, i, |cores|);
        assert Holds(files, name, |Kept(cores, cutoff, i)|, cores[i]);
      }
    }
  }
}
