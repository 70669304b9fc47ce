/** `runOptimizeComponent`, from the bytes of a component to the bytes of the optimized component. */
module OptimizeComponent {
  import opened Bytes
  import opened Filters
  import opened Leb128
  import opened ComponentTree
  import opened Metadata
  import opened Descent
  import opened Optimize
  import opened Write

  /** The list without the root is ready for `GetChildren(0)`, and nothing is left in it afterwards. */
  lemma RootReady(r: Rewriter)
    requires r.Context() && |r.nodes| == |r.metas| - 1 && forall i :: 0 <= i < |r.nodes| ==> r.nodes[i] == i + 1
    requires |r.info| == |r.metas| && forall k :: 0 <= k < |r.metas| ==> r.info[k] == r.PreparedAt(k)
    ensures r.ReadyState(0, r.nodes, r.info)
    ensures Filter(NotBelow(r.metas, 0), r.nodes) == []
  {
    forall d: nat | Below(r.metas, d, 0)
      ensures d in r.nodes
    {
      NotBelowSelf(r.metas, d, 0);
      assert r.nodes[d - 1] == d;
    }
    forall i | 0 <= i < |r.nodes|
      ensures !NotBelow(r.metas, 0)(r.nodes[i])
    {
      AllBelowRoot(r.metas, r.all, r.root, i + 1);
    }
    FilterNone(NotBelow(r.metas, 0), r.nodes);
  }

  /** All of the root's descendants are accounted for. */
  lemma RootAccounted(r: Rewriter, before: seq<Enhanced>)
    requires r.Context() && r.InfoBelow(0, before, r.info)
    ensures forall k :: 1 <= k < |r.metas| ==> r.info[k] == r.AccountedAt(k)
  {
    forall k | 1 <= k < |r.metas|
      ensures r.info[k] == r.AccountedAt(k)
    {
      AllBelowRoot(r.metas, r.all, r.root, k);
    }
  }

  /** What the whole run produces: a binary that is a module itself is left alone. */
  function Output(f: Optimizer, t: Tree): seq<byte>
  {
    if t.Module? then Body(t) else Body(Optimized(f, t))
  }

  /** The second fold, over the children of the root; it does not skip children without change. */
  method TotalChange(r: Rewriter, children: seq<nat>) returns (total: int)
    requires r.Context() && children == ChildRange(r.metas, 0) && |r.info| == |r.metas|
    requires forall k :: 1 <= k < |r.metas| ==> r.info[k] == r.AccountedAt(k)
    ensures total == |Output(r.f, r.root.tree)| - |Body(r.root.tree)|
  {
    hide Leb, Body, Optimized, PrefixesRight;
    total := 0;
    ghost var kids := ChildPayloads(r.root);
    assert Listed(r.metas, r.all, 0);
    for c := 0 to |children|
      invariant total == SumChanges(r.f, kids[..c])
    {
      ChildAt(r.metas, r.all, r.root, 0, c);
      var child := r.info[children[c]];
      assert child == Accounted(r.f, kids[c], ChildRange(r.metas, children[c]));
      assert kids[..c + 1][..c] == kids[..c];
      total := total + OrZero(child.sizeChange) + child.newLEBLen.value - child.prevLEBLen;
    }
    assert kids[..|children|] == kids;
    if r.root.tree.Component? {
      assert Sound(r.bytes, r.all[0].1);
      SizeAccounting(r.f, r.root);
    }
  }

  /** Everything before the output is allocated. */
  method Account(f: Optimizer, bytes: seq<byte>, metas: seq<Meta>, ghost all: seq<Entry>, ghost root: Payload)
    returns (children: seq<nat>, info: seq<Enhanced>, change: int)
    requires Flattened(metas, all, root)
    requires forall k :: 0 <= k < |metas| ==> Sound(bytes, all[k].1)
    ensures children == ChildRange(metas, 0) && |info| == |metas|
    ensures forall k :: 1 <= k < |metas| ==> info[k] == Accounted(f, all[k].1, ChildRange(metas, k))
    ensures change == |Output(f, root.tree)| - |Body(root.tree)|
  {
    var r := new Rewriter(f, bytes, metas, all, root);
    RootReady(r);
    ghost var before := r.info;
    children := r.GetChildren(0);
    RootAccounted(r, before);
    change := TotalChange(r, children);
    info := r.info;
  }

  lemma OutputIs(f: Optimizer, t: Tree)
    ensures Output(f, t) == if t.Module? then Body(t) else Body(Optimized(f, t))
  {
  }

  lemma RootSound(bytes: seq<byte>, root: Payload)
    requires root.start == 0 && bytes == Body(root.tree) && PrefixesRight(root.tree) && |bytes| < TWO32
    ensures Sound(bytes, root)
  {
    assert bytes[0..|bytes|] == bytes;
  }

  /**
   The whole run on the bytes of a parsed binary whose prefixes are right: the output has the bytes of the tree as the
   optimizer rewrites it, and fills the array exactly. They are the wanted bytes exactly if every prefix works.
   */
  method RunOptimizeComponent(f: Optimizer, bytes: seq<byte>, payload: Payload) returns (out: array<byte>)
    requires payload.start == 0 && bytes == Body(payload.tree) && PrefixesRight(payload.tree)
    requires |bytes| < TWO32
    ensures fresh(out) && out[..] == Output(f, payload.tree)
    ensures payload.tree.Module? ==> out[..] == bytes
    ensures payload.tree.Component? ==>
      (out[..] == Body(Rewrite(f, payload.tree)) <==> PrefixesWork(f, payload.tree))
    ensures payload.tree.Component? && SizesFit(f, payload.tree) ==>
      (out[..] == Body(Rewrite(f, payload.tree)) <==> PrefixesMinimal(payload.tree))
    ensures payload.tree.Component? && PrefixesMinimal(payload.tree) ==>
      (out[..] == Body(Rewrite(f, payload.tree)) <==> SizesFit(f, payload.tree))
  {
    hide Output, Sound, Body, Optimized, Rewrite, PrefixesWork, PrefixesMinimal, SizesFit, PrefixesRight, Flattened, ItemPayloads;
    var metas, all := MetadataShow(payload);
    OutputIs(f, payload.tree);
    RootSound(bytes, payload);
    forall k | 0 <= k < |metas|
      ensures Sound(bytes, all[k].1)
    {
      AllSound(bytes, metas, all, payload, k);
    }
    var children, info, change := Account(f, bytes, metas, all, payload);
    var w := new Writer(f, bytes, metas, info, |bytes| + change, all, payload);
    if payload.tree.Component? {
      w.WriteChildren(0, children);
      RightExactly(f, payload.tree);
      RightExactlyWhenMinimal(f, payload.tree);
    }
    w.WriteRest();
    out := w.out;
  }
}
