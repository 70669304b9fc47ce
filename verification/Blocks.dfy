/** Scanning for the end of a block commutes with any translation that keeps the block structure. */
module Blocks {
  import opened Wrappers
  import opened Seqs
  import opened Wasm
  import opened Machine

  type Translation = Operator -> seq<Operator>

  predicate Structural(op: Operator)
  {
    op.Block? || op.Loop? || op.If? || op.Else? || op.End?
  }

  /** Block operators translate to themselves; all others translate to operators that open and close nothing. */
  ghost predicate KeepsBlocks(f: Translation)
  {
    forall op :: |f(op)| > 0 &&
      if Structural(op) then f(op) == [op] else forall i :: 0 <= i < |f(op)| ==> !Structural(f(op)[i])
  }

  function MapCount(f: Translation, ops: seq<Operator>, n: Option<nat>): Option<nat>
  {
    match n
    case None => None
    case Some(k) => if k <= |ops| then Some(|FlatMap(f, ops[..k])|) else None
  }

  function Plus(k: nat, n: Option<nat>): Option<nat>
  {
    match n
    case None => None
    case Some(m) => Some(k + m)
  }

  lemma {:induction false} SkipFlat(prefix: seq<Operator>, rest: seq<Operator>, depth: nat)
    requires forall i :: 0 <= i < |prefix| ==> !Structural(prefix[i])
    ensures SkipToEnd(prefix + rest, depth) == Plus(|prefix|, SkipToEnd(rest, depth))
    ensures SkipToElse(prefix + rest, depth) == Plus(|prefix|, SkipToElse(rest, depth))
  {
    if prefix == [] {
      assert prefix + rest == rest;
    } else {
      SkipFlat(prefix[1..], rest, depth);
      assert (prefix + rest)[1..] == prefix[1..] + rest;
      assert (prefix + rest)[0] == prefix[0];
    }
  }

  lemma CountCons(f: Translation, ops: seq<Operator>, n: Option<nat>)
    requires ops != [] && (n.Some? ==> n.value < |ops|)
    ensures MapCount(f, ops, Plus(1, n)) == Plus(|f(ops[0])|, MapCount(f, ops[1..], n))
  {
    if n.Some? {
      assert ops[..1 + n.value][1..] == ops[1..][..n.value];
    }
  }

  lemma {:induction false} SkipToEndCommutes(f: Translation, ops: seq<Operator>, depth: nat)
    requires KeepsBlocks(f)
    ensures SkipToEnd(FlatMap(f, ops), depth) == MapCount(f, ops, SkipToEnd(ops, depth))
  {
    if ops != [] {
      var op, tail := ops[0], FlatMap(f, ops[1..]);
      if Structural(op) {
        assert ([op] + tail)[1..] == tail;
        if op.End? && depth == 0 {
          assert ops[..1] == [op] && FlatMap(f, [op]) == f(op) + FlatMap(f, [op][1..]);
        } else {
          var depth' := if op.End? then depth - 1 else if op.Else? then depth else depth + 1;
          SkipToEndCommutes(f, ops[1..], depth');
          CountCons(f, ops, SkipToEnd(ops[1..], depth'));
        }
      } else {
        SkipToEndCommutes(f, ops[1..], depth);
        SkipFlat(f(op), tail, depth);
        CountCons(f, ops, SkipToEnd(ops[1..], depth));
      }
    }
  }

  lemma {:induction false} SkipToElseCommutes(f: Translation, ops: seq<Operator>, depth: nat)
    requires KeepsBlocks(f)
    ensures SkipToElse(FlatMap(f, ops), depth) == MapCount(f, ops, SkipToElse(ops, depth))
  {
    if ops != [] {
      var op, tail := ops[0], FlatMap(f, ops[1..]);
      if Structural(op) {
        assert ([op] + tail)[1..] == tail;
        if (op.End? || op.Else?) && depth == 0 {
          assert ops[..1] == [op] && FlatMap(f, [op]) == f(op) + FlatMap(f, [op][1..]);
        } else {
          var depth' := if op.End? then depth - 1 else if op.Else? then depth else depth + 1;
          SkipToElseCommutes(f, ops[1..], depth');
          CountCons(f, ops, SkipToElse(ops[1..], depth'));
        }
      } else {
        SkipToElseCommutes(f, ops[1..], depth);
        SkipFlat(f(op), tail, depth);
        CountCons(f, ops, SkipToElse(ops[1..], depth));
      }
    }
  }

  // ----- positions and frames -----

  /** The position in the translated code of position `pc` of the original. */
  function MapPc(f: Translation, ops: seq<Operator>, pc: nat): nat
  {
    if pc <= |ops| then |FlatMap(f, ops[..pc])| else |FlatMap(f, ops)| + (pc - |ops|)
  }

  lemma MapPcAdd(f: Translation, ops: seq<Operator>, pc: nat, n: nat)
    requires pc + n <= |ops|
    ensures MapPc(f, ops, pc + n) == MapPc(f, ops, pc) + |FlatMap(f, ops[pc..][..n])|
  {
    FlatMapSkip(f, ops, pc, n);
  }

  /** An operator that translates to one operator, and what follows it. */
  lemma SingleAt(f: Translation, ops: seq<Operator>, pc: nat)
    requires pc < |ops| && |f(ops[pc])| == 1
    ensures var out, at := FlatMap(f, ops), MapPc(f, ops, pc);
      at < |out| && out[at] == f(ops[pc])[0] && out[at + 1..] == FlatMap(f, ops[pc + 1..]) &&
      MapPc(f, ops, pc + 1) == at + 1
  {
    FlatMapAt(f, ops, pc);
    var out, at := FlatMap(f, ops), MapPc(f, ops, pc);
    assert out[at..][1..] == out[at + 1..];
    assert out[at] == out[at..][0];
  }

  /** Different positions have different images. */
  lemma {:induction false} MapPcMonotone(f: Translation, ops: seq<Operator>, a: nat, b: nat)
    requires KeepsBlocks(f) && a < b <= |ops|
    ensures MapPc(f, ops, a) < MapPc(f, ops, b)
    decreases b
  {
    FlatMapSnoc(f, ops, b - 1);
    if a < b - 1 {
      MapPcMonotone(f, ops, a, b - 1);
    }
  }

  function MapTarget(f: Translation, ops: seq<Operator>, target: Option<nat>): Option<nat>
  {
    match target case None => None case Some(n) => Some(MapPc(f, ops, n))
  }

  lemma EndFrom(f: Translation, ops: seq<Operator>, at: nat)
    requires KeepsBlocks(f) && at <= |ops|
    ensures SkipToEnd(FlatMap(f, ops[at..]), 0) == (match SkipToEnd(ops[at..], 0)
      case None => None
      case Some(n) => Some(MapPc(f, ops, at + n) - MapPc(f, ops, at)))
  {
    SkipToEndCommutes(f, ops[at..], 0);
    if SkipToEnd(ops[at..], 0).Some? {
      MapPcAdd(f, ops, at, SkipToEnd(ops[at..], 0).value);
    }
  }

  lemma EndMaps(f: Translation, ops: seq<Operator>, at: nat, out: seq<Operator>, at': nat)
    requires KeepsBlocks(f) && at <= |ops| && at' <= |out| && at' == MapPc(f, ops, at)
    requires out[at'..] == FlatMap(f, ops[at..])
    ensures EndAfter(out, at') == MapTarget(f, ops, EndAfter(ops, at))
  {
    EndFrom(f, ops, at);
  }

  lemma ElseFrom(f: Translation, ops: seq<Operator>, at: nat)
    requires KeepsBlocks(f) && at <= |ops|
    ensures SkipToElse(FlatMap(f, ops[at..]), 0) == (match SkipToElse(ops[at..], 0)
      case None => None
      case Some(n) => Some(MapPc(f, ops, at + n) - MapPc(f, ops, at)))
  {
    SkipToElseCommutes(f, ops[at..], 0);
    if SkipToElse(ops[at..], 0).Some? {
      MapPcAdd(f, ops, at, SkipToElse(ops[at..], 0).value);
    }
  }

  lemma ElseMaps(f: Translation, ops: seq<Operator>, at: nat, out: seq<Operator>, at': nat)
    requires KeepsBlocks(f) && at <= |ops| && at' <= |out| && at' == MapPc(f, ops, at)
    requires out[at'..] == FlatMap(f, ops[at..])
    ensures ElseAfter(out, at') == MapTarget(f, ops, ElseAfter(ops, at))
  {
    ElseFrom(f, ops, at);
  }

  lemma TargetsApart(f: Translation, ops: seq<Operator>, a: nat, b: nat)
    requires KeepsBlocks(f) && a <= |ops| && b <= |ops| && a != b
    ensures MapPc(f, ops, a) != MapPc(f, ops, b)
  {
    if a < b {
      MapPcMonotone(f, ops, a, b);
    } else {
      MapPcMonotone(f, ops, b, a);
    }
  }

  /** The scans in the translated code stop at the images of where they stop in the original. */
  lemma TargetsMap(f: Translation, ops: seq<Operator>, pc: nat)
    requires KeepsBlocks(f) && pc < |ops| && |f(ops[pc])| == 1
    ensures MapPc(f, ops, pc) < |FlatMap(f, ops)|
    ensures var there, here := TargetsAt(FlatMap(f, ops), MapPc(f, ops, pc)), TargetsAt(ops, pc);
      && there.end == MapTarget(f, ops, here.end)
      && there.alt == MapTarget(f, ops, here.alt)
      && (here.end.Some? && here.alt.Some? && here.end != here.alt ==>
            MapPc(f, ops, here.end.value) != MapPc(f, ops, here.alt.value))
  {
    SingleAt(f, ops, pc);
    EndMaps(f, ops, pc + 1, FlatMap(f, ops), MapPc(f, ops, pc + 1));
    ElseMaps(f, ops, pc + 1, FlatMap(f, ops), MapPc(f, ops, pc + 1));
    var here := TargetsAt(ops, pc);
    if here.end.Some? && here.alt.Some? && here.end != here.alt {
      TargetsApart(f, ops, here.end.value, here.alt.value);
    }
  }
}
