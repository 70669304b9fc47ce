/** `runOptimizeComponent`: size accounting over the rebuilt tree, then one pass that writes the new bytes. */
module Optimize {
  import opened Wrappers
  import opened Bytes
  import opened Filters
  import opened Leb128
  import opened ComponentTree
  import opened Metadata
  import opened Descent

  /** The fields that the optimizer adds to a metadata object. */
  datatype Enhanced = Enhanced(
    prevLEBLen: nat,
    newLEBLen: Option<nat>,
    sizeChange: Option<int>,
    optimized: Option<seq<byte>>,
    children: Option<seq<nat>>)

  function OldLen(p: Payload): nat { |Body(p.tree)| }

  function NewLen(f: Optimizer, p: Payload): nat { |Body(Optimized(f, p.tree))| }

  /** A metadata object before the tree is rebuilt: only modules know their change. */
  function Prepared(f: Optimizer, p: Payload): Enhanced
  {
    var prev := |Leb(OldLen(p))|;
    if p.tree.Module? then
      Enhanced(prev, Some(|NewPrefix(Optimized(f, p.tree))|), Some(NewLen(f, p) - OldLen(p)), Some(f(p.tree.bytes)), None)
    else Enhanced(prev, None, None, None, None)
  }

  /** A metadata object whose subtree is rebuilt and accounted for. */
  function Accounted(f: Optimizer, p: Payload, kids: seq<nat>): Enhanced
  {
    Enhanced(|Leb(OldLen(p))|, Some(|NewPrefix(Optimized(f, p.tree))|), Some(NewLen(f, p) - OldLen(p)),
             if p.tree.Module? then Some(f(p.tree.bytes)) else None, Some(kids))
  }

  /** A body that keeps its length keeps the width of its prefix. */
  lemma NoChange(f: Optimizer, bytes: seq<byte>, p: Payload)
    requires Sound(bytes, p)
    ensures NewLen(f, p) == OldLen(p) ==> Change(f, p.tree) == 0
  {
  }

  /** `sizeChange || 0` */
  function OrZero(x: Option<int>): int { if x.None? then 0 else x.value }

  /** Entry `d` is below `p`, in the part of the tree through the children before `limit`. */
  predicate Gone(metas: seq<Meta>, d: nat, p: nat, limit: nat)
  {
    Below(metas, d, p) && Branch(metas, d, p) < limit
  }

  lemma GoneNext(metas: seq<Meta>, d: nat, p: nat, limit: nat)
    requires limit < |metas| && metas[limit].parent == Some(p) && p < limit
    ensures Gone(metas, d, p, limit + 1) <==> Gone(metas, d, p, limit) || d == limit || Below(metas, d, limit)
  {
    BranchIs(metas, d, p, limit);
  }

  function Staying(metas: seq<Meta>, p: nat, limit: nat): nat -> bool { (d: nat) => !Gone(metas, d, p, limit) }

  function NotBelow(metas: seq<Meta>, p: nat): nat -> bool { (d: nat) => !Below(metas, d, p) }

  function Except(k: nat): nat -> bool { (d: nat) => d != k }

  /** The entries with parent `p` are exactly its child range, which comes later. */
  ghost predicate ChildrenAre(metas: seq<Meta>, p: nat)
    requires p < |metas|
  {
    && p < Start(metas, p) && Start(metas, p) + Count(metas[p]) <= |metas|
    && forall j :: 0 <= j < |metas| ==>
         (metas[j].parent == Some(p) <==> Start(metas, p) <= j < Start(metas, p) + Count(metas[p]))
  }

  lemma ChildrenOf(metas: seq<Meta>, all: seq<Entry>, root: Payload, p: nat)
    requires Flattened(metas, all, root) && p < |metas|
    ensures ChildrenAre(metas, p)
  {
    assert Listed(metas, all, p);
    forall j | 0 <= j < |metas|
      ensures metas[j].parent == Some(p) <==> Start(metas, p) <= j < Start(metas, p) + Count(metas[p])
    {
      ParentExactly(metas, all, root, p, j);
    }
  }

  lemma NothingGone(metas: seq<Meta>, p: nat, d: nat)
    requires p < |metas| && ChildrenAre(metas, p)
    ensures !Gone(metas, d, p, Start(metas, p))
    ensures Gone(metas, d, p, Start(metas, p) + Count(metas[p])) <==> Below(metas, d, p)
  {
    if Below(metas, d, p) {
      BranchIsChild(metas, d, p);
    }
  }

  /** Past the last child, everything below is gone. */
  lemma AllGone(metas: seq<Meta>, p: nat, limit: nat, before: seq<nat>)
    requires p < |metas| && ChildrenAre(metas, p) && limit == Start(metas, p) + Count(metas[p])
    ensures forall d: nat :: Gone(metas, d, p, limit) <==> Below(metas, d, p)
    ensures Filter(Staying(metas, p, limit), before) == Filter(NotBelow(metas, p), before)
  {
    forall d: nat
      ensures Gone(metas, d, p, limit) <==> Below(metas, d, p)
    {
      NothingGone(metas, p, d);
    }
    FilterSame(Staying(metas, p, limit), NotBelow(metas, p), before);
  }

  /** The child at the scan position is the next one in order. */
  lemma NextChild(metas: seq<Meta>, p: nat, limit: nat, before: seq<nat>, nodes: seq<nat>, i: nat)
    requires p < |metas| && ChildrenAre(metas, p)
    requires Start(metas, p) <= limit <= Start(metas, p) + Count(metas[p])
    requires Increasing(before) && (forall d :: d in before ==> d < |metas|)
    requires forall d: nat :: Below(metas, d, p) ==> d in before
    requires nodes == Filter(Staying(metas, p, limit), before) && i <= |nodes|
    requires forall j :: 0 <= j < i ==> nodes[j] < |metas| && metas[nodes[j]].parent != Some(p)
    ensures Increasing(nodes)
    ensures i < |nodes| ==> nodes[i] < |metas|
    ensures i < |nodes| && metas[nodes[i]].parent == Some(p) ==>
      nodes[i] == limit < Start(metas, p) + Count(metas[p]) && p < limit
    ensures i == |nodes| ==> limit == Start(metas, p) + Count(metas[p])
  {
    FilterIncreasing(Staying(metas, p, limit), before);
    if i < |nodes| {
      FilterIn(Staying(metas, p, limit), before, nodes[i]);
    }
    if limit < Start(metas, p) + Count(metas[p]) {
      RemainingChild(metas, p, limit, before, nodes);
      var j :| 0 <= j < |nodes| && nodes[j] == limit;
      assert i <= j;
    }
    if i < |nodes| && metas[nodes[i]].parent == Some(p) {
      NotYetGone(metas, p, limit, before, nodes, nodes[i]);
    }
  }

  lemma RemainingChild(metas: seq<Meta>, p: nat, limit: nat, before: seq<nat>, nodes: seq<nat>)
    requires p < |metas| && ChildrenAre(metas, p)
    requires Start(metas, p) <= limit < Start(metas, p) + Count(metas[p])
    requires forall d: nat :: Below(metas, d, p) ==> d in before
    requires nodes == Filter(Staying(metas, p, limit), before)
    ensures limit in nodes && metas[limit].parent == Some(p)
  {
    assert Below(metas, limit, p) && Branch(metas, limit, p) == limit;
    FilterIn(Staying(metas, p, limit), before, limit);
  }

  lemma NotYetGone(metas: seq<Meta>, p: nat, limit: nat, before: seq<nat>, nodes: seq<nat>, k: nat)
    requires p < |metas| && ChildrenAre(metas, p) && k < |metas| && metas[k].parent == Some(p)
    requires nodes == Filter(Staying(metas, p, limit), before) && k in nodes
    ensures limit <= k < Start(metas, p) + Count(metas[p]) && p < k
  {
    assert Below(metas, k, p) && Branch(metas, k, p) == k;
    FilterIn(Staying(metas, p, limit), before, k);
  }

  /** Taking out the next child and then all below it moves the limit by one and leaves the scanned part alone. */
  lemma SpliceAndRecurse(metas: seq<Meta>, p: nat, limit: nat, before: seq<nat>, nodes: seq<nat>, i: nat)
    requires Increasing(nodes) && nodes == Filter(Staying(metas, p, limit), before)
    requires i < |nodes| && nodes[i] == limit < |metas| && metas[limit].parent == Some(p) && p < limit
    ensures var spliced := nodes[..i] + nodes[i + 1..];
      var after := Filter(NotBelow(metas, limit), spliced);
      && spliced == Filter(Except(limit), nodes)
      && after == Filter(Staying(metas, p, limit + 1), before)
      && i <= |after| && after[..i] == nodes[..i]
  {
    var spliced := nodes[..i] + nodes[i + 1..];
    FilterOut(Except(limit), nodes, i);
    var both := (d: nat) => Staying(metas, p, limit)(d) && Except(limit)(d);
    FilterTwice(Staying(metas, p, limit), Except(limit), both, before);
    forall d: nat
      ensures Staying(metas, p, limit + 1)(d) == (both(d) && NotBelow(metas, limit)(d))
    {
      GoneNext(metas, d, p, limit);
    }
    FilterTwice(both, NotBelow(metas, limit), Staying(metas, p, limit + 1), before);
    forall j | 0 <= j < i
      ensures NotBelow(metas, limit)(spliced[j])
    {
      NotBelowSelf(metas, spliced[j], limit);
    }
    FilterKeepsFront(NotBelow(metas, limit), spliced, i);
  }

  lemma NodesNext(metas: seq<Meta>, p: nat, limit: nat, before: seq<nat>, nodes: seq<nat>, i: nat, nodes': seq<nat>)
    requires Increasing(before) && nodes == Filter(Staying(metas, p, limit), before)
    requires i < |nodes| && nodes[i] == limit < |metas| && metas[limit].parent == Some(p) && p < limit
    requires nodes' == Filter(NotBelow(metas, limit), nodes[..i] + nodes[i + 1..])
    ensures nodes' == Filter(Staying(metas, p, limit + 1), before) && i <= |nodes'|
    ensures forall j :: 0 <= j < i ==> nodes'[j] == nodes[j]
  {
    FilterIncreasing(Staying(metas, p, limit), before);
    SpliceAndRecurse(metas, p, limit, before, nodes, i);
    forall j | 0 <= j < i
      ensures nodes'[j] == nodes[j]
    {
      assert nodes'[..i][j] == nodes[..i][j];
    }
  }

  lemma RangeNext(metas: seq<Meta>, p: nat, limit: nat, children: seq<nat>)
    requires p < |metas| && Start(metas, p) <= limit < Start(metas, p) + Count(metas[p])
    requires children == ChildRange(metas, p)[..limit - Start(metas, p)]
    ensures children + [limit] == ChildRange(metas, p)[..limit + 1 - Start(metas, p)]
  {
  }

  class Rewriter {
    const f: Optimizer
    const bytes: seq<byte>
    const metas: seq<Meta>
    ghost const all: seq<Entry>
    ghost const root: Payload
    var info: seq<Enhanced>
    var nodes: seq<nat>

    ghost predicate Context()
    {
      && Flattened(metas, all, root)
      && forall k :: 0 <= k < |metas| ==> Sound(bytes, all[k].1)
    }

    /** What entry `k` describes. */
    ghost function Node(k: nat): Payload
      requires Context() && k < |metas|
    {
      all[k].1
    }

    ghost function PreparedAt(k: nat): Enhanced
      requires Context() && k < |metas|
    {
      Prepared(f, Node(k))
    }

    ghost function AccountedAt(k: nat): Enhanced
      requires Context() && k < |metas|
    {
      Accounted(f, Node(k), ChildRange(metas, k))
    }

    constructor (f: Optimizer, bytes: seq<byte>, metas: seq<Meta>, ghost all: seq<Entry>, ghost root: Payload)
      requires Flattened(metas, all, root)
      requires forall k :: 0 <= k < |metas| ==> Sound(bytes, all[k].1)
      ensures Context() && this.f == f && this.bytes == bytes && this.metas == metas
      ensures this.all == all && this.root == root
      ensures |info| == |metas| && forall k :: 0 <= k < |metas| ==> info[k] == PreparedAt(k)
      ensures |nodes| == |metas| - 1 && forall i :: 0 <= i < |nodes| ==> nodes[i] == i + 1
    {
      this.f, this.bytes, this.metas, this.all, this.root := f, bytes, metas, all, root;
      nodes := seq(|metas| - 1, i => i + 1);
      info := [];
      new;
      Measure();
      OptimizeModules();
    }

    /** The width of every length prefix, as it is before. */
    method Measure()
      requires Context()
      modifies this`info
      ensures |info| == |metas|
      ensures forall k :: 0 <= k < |metas| ==> info[k] == Enhanced(|Leb(OldLen(Node(k)))|, None, None, None, None)
    {
      hide Leb, Body, Optimized, PrefixesRight, ChildPayloads;
      info := [];
      for k := 0 to |metas|
        invariant |info| == k
        invariant forall j :: 0 <= j < k ==> info[j] == Enhanced(|Leb(OldLen(Node(j)))|, None, None, None, None)
      {
        assert Listed(metas, all, k) && Sound(bytes, Node(k));
        var width := ByteLengthLEB128(metas[k].hi - metas[k].lo);
        info := info + [Enhanced(width, None, None, None, None)];
      }
    }

    /** Runs the optimizer on every module. */
    method OptimizeModules()
      requires Context() && |info| == |metas|
      requires forall k :: 0 <= k < |metas| ==> info[k] == Enhanced(|Leb(OldLen(Node(k)))|, None, None, None, None)
      modifies this`info
      ensures |info| == |metas| && forall k :: 0 <= k < |metas| ==> info[k] == PreparedAt(k)
    {
      for k := 0 to |metas|
        invariant |info| == |metas|
        invariant forall j :: 0 <= j < k ==> info[j] == PreparedAt(j)
        invariant forall j :: k <= j < |metas| ==>
          info[j] == Enhanced(|Leb(OldLen(Node(j)))|, None, None, None, None)
      {
        OptimizeModule(k);
      }
    }

    method OptimizeModule(k: nat)
      requires Context() && k < |metas| && |info| == |metas|
      requires info[k] == Enhanced(|Leb(OldLen(Node(k)))|, None, None, None, None)
      modifies this`info
      ensures info == old(info)[k := PreparedAt(k)]
    {
      assert Listed(metas, all, k) && Sound(bytes, Node(k));
      if metas[k].kind.ModuleKind? {
        var optimized := f(bytes[metas[k].lo..metas[k].hi]);
        var width := ByteLengthLEB128(|optimized|);
        info := info[k := info[k].(newLEBLen := Some(width), optimized := Some(optimized),
                                   sizeChange := Some(|optimized| - (metas[k].hi - metas[k].lo)))];
      }
    }

    /** The fold over the children of `k`, added to `start`. */
    method FoldChildren(k: nat, kids: seq<nat>, start: int) returns (total: int)
      requires Context() && k < |metas| && kids == ChildRange(metas, k) && |info| == |metas|
      requires forall c :: 0 <= c < |kids| ==> kids[c] < |metas| && info[kids[c]] == AccountedAt(kids[c])
      ensures total == start + SumChanges(f, ChildPayloads(Node(k)))
    {
      hide Leb, Body, Optimized, NewPrefix, PrefixesRight, ItemPayloads;
      total := start;
      ghost var payloads := ChildPayloads(Node(k));
      assert Listed(metas, all, k);
      for c := 0 to |kids|
        invariant total == start + SumChanges(f, payloads[..c])
      {
        ChildAt(metas, all, root, k, c);
        var child := info[kids[c]];
        assert child == Accounted(f, payloads[c], ChildRange(metas, kids[c]));
        assert payloads[..c + 1][..c] == payloads[..c];
        assert Sound(bytes, all[kids[c]].1);
        NoChange(f, bytes, payloads[c]);
        if OrZero(child.sizeChange) != 0 {
          total := total + child.sizeChange.value + child.newLEBLen.value - child.prevLEBLen;
        }
      }
      assert payloads[..|kids|] == payloads;
    }

    /** The state in which `GetChildren(p)` may be called. */
    ghost predicate ReadyState(p: nat, nodes: seq<nat>, info: seq<Enhanced>)
      requires Context() && p < |metas|
    {
      && |info| == |metas|
      && Increasing(nodes) && (forall d :: d in nodes ==> d < |metas|)
      && (forall d: nat :: Below(metas, d, p) ==> d in nodes && info[d] == PreparedAt(d))
    }

    /** The objects below `p`, up to the children before `limit`, are accounted for; the others are as before. */
    ghost predicate InfoAt(p: nat, limit: nat, before: seq<Enhanced>, now: seq<Enhanced>)
      requires Context()
    {
      && |before| == |metas| && |now| == |metas|
      && (forall d :: 0 <= d < |metas| && Gone(metas, d, p, limit) ==> now[d] == AccountedAt(d))
      && (forall d :: 0 <= d < |metas| && !Gone(metas, d, p, limit) ==> now[d] == before[d])
    }

    /** What one call of `AccountChild` changes. */
    ghost predicate InfoStep(k: nat, now: seq<Enhanced>, next: seq<Enhanced>)
      requires Context()
    {
      && |now| == |metas| && |next| == |metas|
      && (forall d :: 0 <= d < |metas| && (d == k || Below(metas, d, k)) ==> next[d] == AccountedAt(d))
      && (forall d :: 0 <= d < |metas| && !(d == k || Below(metas, d, k)) ==> next[d] == now[d])
    }

    lemma InfoNext(p: nat, limit: nat, before: seq<Enhanced>, now: seq<Enhanced>, next: seq<Enhanced>)
      requires Context() && limit < |metas| && metas[limit].parent == Some(p) && p < limit
      requires InfoAt(p, limit, before, now) && InfoStep(limit, now, next)
      ensures InfoAt(p, limit + 1, before, next)
    {
      forall d | 0 <= d < |metas|
        ensures Gone(metas, d, p, limit + 1) <==> Gone(metas, d, p, limit) || d == limit || Below(metas, d, limit)
      {
        GoneNext(metas, d, p, limit);
      }
    }

    /** All objects below `p` are accounted for; the others are as before. */
    ghost predicate InfoBelow(p: nat, before: seq<Enhanced>, now: seq<Enhanced>)
      requires Context()
    {
      && |before| == |metas| && |now| == |metas|
      && (forall d :: 0 <= d < |metas| && Below(metas, d, p) ==> now[d] == AccountedAt(d))
      && (forall d :: 0 <= d < |metas| && !Below(metas, d, p) ==> now[d] == before[d])
    }

    /** After the splice, the objects below the child are still all there, and untouched. */
    lemma ChildReady(p: nat, limit: nat, before: seq<nat>, info0: seq<Enhanced>, nodes: seq<nat>, info: seq<Enhanced>)
      requires Context() && limit < |metas| && metas[limit].parent == Some(p) && p < limit
      requires ReadyState(p, before, info0) && InfoAt(p, limit, info0, info)
      requires nodes == Filter(Except(limit), Filter(Staying(metas, p, limit), before))
      ensures ReadyState(limit, nodes, info) && info[limit] == PreparedAt(limit)
    {
      var staying := Filter(Staying(metas, p, limit), before);
      FilterIncreasing(Staying(metas, p, limit), before);
      FilterIncreasing(Except(limit), staying);
      assert Below(metas, limit, p) && Branch(metas, limit, p) == limit;
      forall d: nat
        ensures d in nodes ==> d < |metas|
        ensures Below(metas, d, limit) ==> d in nodes && info[d] == PreparedAt(d)
      {
        FilterIn(Staying(metas, p, limit), before, d);
        FilterIn(Except(limit), staying, d);
        BranchIs(metas, d, p, limit);
        NotBelowSelf(metas, d, limit);
      }
    }

    /** The loop of `GetChildren(p)`: the children before `limit` are done, and no other stands before position `i`. */
    ghost predicate Scanning(p: nat, limit: nat, before: seq<nat>, info0: seq<Enhanced>,
                             nodes: seq<nat>, info: seq<Enhanced>, i: nat, children: seq<nat>)
      requires Context() && p < |metas|
    {
      && ReadyState(p, before, info0)
      && Start(metas, p) <= limit <= Start(metas, p) + Count(metas[p])
      && children == ChildRange(metas, p)[..limit - Start(metas, p)]
      && nodes == Filter(Staying(metas, p, limit), before)
      && InfoAt(p, limit, info0, info)
      && i <= |nodes|
      && forall j :: 0 <= j < i ==> nodes[j] < |metas| && metas[nodes[j]].parent != Some(p)
    }

    lemma ScanStart(p: nat, before: seq<nat>, info0: seq<Enhanced>)
      requires Context() && p < |metas| && ReadyState(p, before, info0)
      ensures Scanning(p, Start(metas, p), before, info0, before, info0, 0, [])
    {
      ChildrenOf(metas, all, root, p);
      forall d: nat
        ensures !Gone(metas, d, p, Start(metas, p))
      {
        NothingGone(metas, p, d);
      }
      FilterAll(Staying(metas, p, Start(metas, p)), before);
    }

    lemma ScanEnd(p: nat, limit: nat, before: seq<nat>, info0: seq<Enhanced>,
                  nodes: seq<nat>, info: seq<Enhanced>, i: nat, children: seq<nat>)
      requires Context() && p < |metas| && Scanning(p, limit, before, info0, nodes, info, i, children)
      requires i == |nodes|
      ensures children == ChildRange(metas, p)
      ensures nodes == Filter(NotBelow(metas, p), before) && InfoBelow(p, info0, info)
    {
      ChildrenOf(metas, all, root, p);
      NextChild(metas, p, limit, before, nodes, i);
      AllGone(metas, p, limit, before);
    }

    lemma ScanChild(p: nat, limit: nat, before: seq<nat>, info0: seq<Enhanced>,
                    nodes: seq<nat>, info: seq<Enhanced>, i: nat, children: seq<nat>)
      requires Context() && p < |metas| && Scanning(p, limit, before, info0, nodes, info, i, children)
      requires i < |nodes|
      ensures nodes[i] < |metas|
      ensures metas[nodes[i]].parent == Some(p) ==>
        && nodes[i] == limit < Start(metas, p) + Count(metas[p]) && p < limit
        && ReadyState(limit, nodes[..i] + nodes[i + 1..], info) && info[limit] == PreparedAt(limit)
    {
      ChildrenOf(metas, all, root, p);
      NextChild(metas, p, limit, before, nodes, i);
      if metas[nodes[i]].parent == Some(p) {
        SpliceAndRecurse(metas, p, limit, before, nodes, i);
        ChildReady(p, limit, before, info0, nodes[..i] + nodes[i + 1..], info);
      }
    }

    lemma ScanHead(p: nat, limit: nat, before: seq<nat>, info0: seq<Enhanced>,
                   nodes: seq<nat>, info: seq<Enhanced>, i: nat, children: seq<nat>)
      requires Context() && p < |metas| && Scanning(p, limit, before, info0, nodes, info, i, children)
      requires i < |nodes|
      ensures nodes[i] < |metas| && limit <= Start(metas, p) + Count(metas[p])
      ensures metas[nodes[i]].parent != Some(p) ==>
        Scanning(p, limit, before, info0, nodes, info, i + 1, children)
    {
      ScanChild(p, limit, before, info0, nodes, info, i, children);
    }

    lemma ScanNext(p: nat, limit: nat, before: seq<nat>, info0: seq<Enhanced>,
                   nodes: seq<nat>, info: seq<Enhanced>, i: nat, children: seq<nat>,
                   nodes': seq<nat>, info': seq<Enhanced>)
      requires Context() && p < |metas| && Scanning(p, limit, before, info0, nodes, info, i, children)
      requires i < |nodes| && nodes[i] == limit < Start(metas, p) + Count(metas[p]) && p < limit
      requires limit < |metas| && metas[limit].parent == Some(p)
      requires nodes' == Filter(NotBelow(metas, limit), nodes[..i] + nodes[i + 1..]) && InfoStep(limit, info, info')
      ensures Scanning(p, limit + 1, before, info0, nodes', info', i, children + [limit])
    {
      NodesNext(metas, p, limit, before, nodes, i, nodes');
      InfoNext(p, limit, info0, info, info');
      RangeNext(metas, p, limit, children);
    }

    method GetChildren(p: nat) returns (children: seq<nat>)
      requires Context() && p < |metas| && ReadyState(p, nodes, info)
      modifies this
      ensures children == ChildRange(metas, p)
      ensures nodes == Filter(NotBelow(metas, p), old(nodes))
      ensures InfoBelow(p, old(info), info)
      decreases |metas| - p, 2
    {
      ghost var before, info0, limit, end := nodes, info, Start(metas, p), Start(metas, p) + Count(metas[p]);
      ScanStart(p, nodes, info);
      children := [];
      var i := 0;
      while i < |nodes|
        invariant 0 <= i && Scanning(p, limit, before, info0, nodes, info, i, children)
        decreases end - limit, |nodes| - i
      {
        ScanHead(p, limit, before, info0, nodes, info, i, children);
        var k := nodes[i];
        if metas[k].parent == Some(p) {
          TakeChild(p, i, limit, before, info0, children);
          i := i - 1;
          children := children + [k];
          limit := limit + 1;
        }
        i := i + 1;
      }
      ScanEnd(p, limit, before, info0, nodes, info, i, children);
    }

    /** Removes the child of `p` at position `i` from the shared list and accounts for it. */
    method TakeChild(ghost p: nat, i: nat, ghost limit: nat, ghost before: seq<nat>, ghost info0: seq<Enhanced>,
                     ghost children: seq<nat>)
      requires Context() && p < |metas| && Scanning(p, limit, before, info0, nodes, info, i, children)
      requires i < |nodes| && nodes[i] < |metas| && metas[nodes[i]].parent == Some(p)
      modifies this
      ensures old(nodes)[i] == limit < Start(metas, p) + Count(metas[p])
      ensures Scanning(p, limit + 1, before, info0, nodes, info, i, children + [limit])
      decreases |metas| - p, 1
    {
      ScanChild(p, limit, before, info0, nodes, info, i, children);
      var k := nodes[i];
      nodes := nodes[..i] + nodes[i + 1..];
      AccountChild(p, k);
      ScanNext(p, limit, before, info0, old(nodes), old(info), i, children, nodes, info);
    }

    /** The loop body for child `k` of `p`: its own children, its change of size and its new prefix width. */
    method AccountChild(ghost p: nat, k: nat)
      requires Context() && p < k < |metas| && metas[k].parent == Some(p)
      requires ReadyState(k, nodes, info) && info[k] == PreparedAt(k)
      modifies this
      ensures nodes == Filter(NotBelow(metas, k), old(nodes))
      ensures InfoStep(k, old(info), info)
      decreases |metas| - k, 3
    {
      var kids := GetChildren(k);
      NotBelowSelf(metas, k, k);
      KidsAccounted(k, old(info), info);
      var total := FoldChildren(k, kids, OrZero(info[k].sizeChange));
      TotalIs(k, total);
      var width := ByteLengthLEB128(metas[k].hi - metas[k].lo + total);
      info := info[k := info[k].(children := Some(kids), sizeChange := Some(total), newLEBLen := Some(width))];
    }

    lemma KidsAccounted(k: nat, before: seq<Enhanced>, now: seq<Enhanced>)
      requires Context() && k < |metas| && InfoBelow(k, before, now)
      ensures forall c :: 0 <= c < Count(metas[k]) ==>
        ChildRange(metas, k)[c] < |metas| && now[ChildRange(metas, k)[c]] == AccountedAt(ChildRange(metas, k)[c])
    {
      forall c | 0 <= c < Count(metas[k])
        ensures ChildRange(metas, k)[c] < |metas| && now[ChildRange(metas, k)[c]] == AccountedAt(ChildRange(metas, k)[c])
      {
        ChildAt(metas, all, root, k, c);
        assert Below(metas, ChildRange(metas, k)[c], k);
      }
    }

    /** The fold gives the change of size of the node. */
    lemma TotalIs(k: nat, total: int)
      requires Context() && k < |metas|
      requires total == OrZero(PreparedAt(k).sizeChange) + SumChanges(f, ChildPayloads(Node(k)))
      ensures total == NewLen(f, Node(k)) - OldLen(Node(k))
      ensures metas[k].hi - metas[k].lo == OldLen(Node(k))
    {
      assert Listed(metas, all, k) && Sound(bytes, Node(k));
      if Node(k).tree.Component? {
        SizeAccounting(f, Node(k));
      }
    }
  }
}
