/** `metadata_show`: the breadth-first flattening of a parsed component, and why it loses nothing. */
module Metadata {
  import opened Wrappers
  import opened ComponentTree

  /** A parsed node: what is there, and where its body starts in the binary. */
  datatype Payload = Payload(tree: Tree, start: nat)

  datatype Kind = ModuleKind | ComponentKind(children: nat)

  /** One entry of the flat list. */
  datatype Meta = Meta(parent: Option<nat>, kind: Kind, lo: nat, hi: nat)

  type Entry = (Option<nat>, Payload)

  function ItemPayloads(items: Items, at: nat): seq<Payload>
  {
    match items
    case Tail(_) => []
    case Child(gap, prefix, t, rest) =>
      var start := at + |gap| + |prefix|;
      [Payload(t, start)] + ItemPayloads(rest, start + |Body(t)|)
  }

  /** The children of a payload, in order, with their places in the binary. */
  function ChildPayloads(p: Payload): seq<Payload>
  {
    if p.tree.Module? then [] else ItemPayloads(p.tree.items, p.start)
  }

  function KindOf(p: Payload): Kind
  {
    if p.tree.Module? then ModuleKind else ComponentKind(|ChildPayloads(p)|)
  }

  function MetaFor(e: Entry): Meta { Meta(e.0, KindOf(e.1), e.1.start, e.1.start + |Body(e.1.tree)|) }

  function Count(m: Meta): nat { if m.kind.ComponentKind? then m.kind.children else 0 }

  /** The index of the first child of entry `i`: the children of all earlier entries come before it. */
  function Start(metas: seq<Meta>, i: nat): nat
    requires i <= |metas|
  {
    if i == 0 then 1 else Start(metas, i - 1) + Count(metas[i - 1])
  }

  /**
   `metas` lists the tree under `root`: `all` is what each entry describes, every node's children stand together, in
   order, with its index for parent, and there is nothing else.
   */
  ghost predicate Flattened(metas: seq<Meta>, all: seq<Entry>, root: Payload)
  {
    && |metas| == |all| > 0 && all[0] == (None, root)
    && Start(metas, |metas|) == |metas|
    && (forall i :: 0 <= i < |all| ==> Listed(metas, all, i))
  }

  ghost predicate Listed(metas: seq<Meta>, all: seq<Entry>, i: nat)
    requires i < |metas| && i < |all|
  {
    var kids := ChildPayloads(all[i].1);
    && metas[i] == MetaFor(all[i])
    && i < Start(metas, i)
    && Start(metas, i) + |kids| <= |all|
    && forall c :: 0 <= c < |kids| ==> all[Start(metas, i) + c] == (Some(i), kids[c])
  }

  // ----- the queue -----

  function Nodes(t: Tree): (n: nat)
    ensures n > 0
  {
    match t
    case Module(_) => 1
    case Component(items) => 1 + ItemNodes(items)
  }

  function ItemNodes(items: Items): nat
  {
    match items
    case Tail(_) => 0
    case Child(_, _, t, rest) => Nodes(t) + ItemNodes(rest)
  }

  function Weight(queue: seq<Entry>): nat
  {
    if queue == [] then 0 else Nodes(queue[0].1.tree) + Weight(queue[1..])
  }

  lemma {:induction false} WeightAppend(a: seq<Entry>, b: seq<Entry>)
    ensures Weight(a + b) == Weight(a) + Weight(b)
  {
    if a == [] {
      assert a + b == b;
    } else {
      WeightAppend(a[1..], b);
      assert (a + b)[1..] == a[1..] + b;
    }
  }

  function Entries(parent: nat, kids: seq<Payload>): (r: seq<Entry>)
    ensures |r| == |kids|
  {
    seq(|kids|, c requires 0 <= c < |kids| => (Some(parent), kids[c]))
  }

  lemma {:induction false} WeightOfItems(parent: nat, items: Items, at: nat)
    ensures Weight(Entries(parent, ItemPayloads(items, at))) == ItemNodes(items)
  {
    if items.Child? {
      var start := at + |items.gap| + |items.prefix|;
      var kids := ItemPayloads(items, at);
      WeightOfItems(parent, items.rest, start + |Body(items.tree)|);
      assert Entries(parent, kids)[1..] == Entries(parent, ItemPayloads(items.rest, start + |Body(items.tree)|));
    }
  }

  lemma QueueShrinks(queue: seq<Entry>, parent: nat)
    requires queue != []
    ensures Weight(queue[1..] + Entries(parent, ChildPayloads(queue[0].1))) < Weight(queue)
  {
    var node := queue[0].1;
    WeightAppend(queue[1..], Entries(parent, ChildPayloads(node)));
    if node.tree.Component? {
      WeightOfItems(parent, node.tree.items, node.start);
    }
  }

  lemma {:induction false} StartPrefix(metas: seq<Meta>, m: Meta, i: nat)
    requires i <= |metas|
    ensures Start(metas + [m], i) == Start(metas, i)
  {
    if i > 0 {
      StartPrefix(metas, m, i - 1);
    }
  }

  /** The state between two iterations: everything that was ever queued, and how much of it is listed. */
  ghost predicate Flattening(metas: seq<Meta>, all: seq<Entry>, root: Payload)
  {
    && |metas| <= |all| && |all| > 0 && all[0] == (None, root)
    && Start(metas, |metas|) == |all|
    && (forall i :: 0 <= i < |metas| ==> Listed(metas, all, i))
  }

  lemma FlattenStep(metas: seq<Meta>, all: seq<Entry>, root: Payload)
    requires Flattening(metas, all, root) && |metas| < |all|
    ensures var e := all[|metas|];
      Flattening(metas + [MetaFor(e)], all + Entries(|metas|, ChildPayloads(e.1)), root)
  {
    var k, e := |metas|, all[|metas|];
    var metas', all' := metas + [MetaFor(e)], all + Entries(k, ChildPayloads(e.1));
    forall i | 0 <= i <= k
      ensures Start(metas', i) == Start(metas, i)
    {
      StartPrefix(metas, MetaFor(e), i);
    }
    forall i | 0 <= i <= k
      ensures Listed(metas', all', i)
    {
      if i < k {
        assert Listed(metas, all, i);
      }
    }
  }

  // ----- parents and children by index -----

  /** The indices of the children of entry `i`, in order. */
  function ChildRange(metas: seq<Meta>, i: nat): (r: seq<nat>)
    requires i < |metas|
    ensures |r| == Count(metas[i])
  {
    seq(Count(metas[i]), c => Start(metas, i) + c)
  }

  lemma {:induction false} StartMonotone(metas: seq<Meta>, i: nat, j: nat)
    requires i <= j <= |metas|
    ensures Start(metas, i) <= Start(metas, j)
    decreases j
  {
    if i < j {
      StartMonotone(metas, i, j - 1);
    }
  }

  /** The entry among whose children index `j` is. */
  lemma {:induction false} FindParent(metas: seq<Meta>, j: nat, n: nat) returns (i: nat)
    requires n <= |metas| && 1 <= j < Start(metas, n)
    ensures i < n && Start(metas, i) <= j < Start(metas, i + 1)
  {
    if j >= Start(metas, n - 1) {
      i := n - 1;
    } else {
      i := FindParent(metas, j, n - 1);
    }
  }

  /** Every entry but the first has a parent with a smaller index, and it is one of that parent's children. */
  lemma ParentSmaller(metas: seq<Meta>, all: seq<Entry>, root: Payload, j: nat)
    requires Flattened(metas, all, root) && 1 <= j < |metas|
    ensures metas[j].parent.Some? && metas[j].parent.value < j
    ensures var i := metas[j].parent.value; Start(metas, i) <= j < Start(metas, i) + Count(metas[i])
  {
    var i := FindParent(metas, j, |metas|);
    assert Listed(metas, all, i) && Listed(metas, all, j);
    assert all[Start(metas, i) + (j - Start(metas, i))] == (Some(i), ChildPayloads(all[i].1)[j - Start(metas, i)]);
  }

  /** Child `c` of entry `i`. */
  lemma ChildAt(metas: seq<Meta>, all: seq<Entry>, root: Payload, i: nat, c: nat)
    requires Flattened(metas, all, root) && i < |metas| && c < Count(metas[i])
    ensures Start(metas, i) + c < |metas| && c < |ChildPayloads(all[i].1)| && all[i].1.tree.Component?
    ensures i < Start(metas, i)
    ensures all[Start(metas, i) + c] == (Some(i), ChildPayloads(all[i].1)[c])
    ensures metas[Start(metas, i) + c] == MetaFor((Some(i), ChildPayloads(all[i].1)[c]))
  {
    assert Listed(metas, all, i);
    assert Listed(metas, all, Start(metas, i) + c);
  }

  /** The entries with parent `i` are exactly the child range of `i`. */
  lemma ParentExactly(metas: seq<Meta>, all: seq<Entry>, root: Payload, i: nat, j: nat)
    requires Flattened(metas, all, root) && i < |metas| && j < |metas|
    ensures metas[j].parent == Some(i) <==> Start(metas, i) <= j < Start(metas, i) + Count(metas[i])
  {
    if Start(metas, i) <= j < Start(metas, i) + Count(metas[i]) {
      ChildAt(metas, all, root, i, j - Start(metas, i));
    }
    assert Listed(metas, all, j);
    if metas[j].parent == Some(i) && j > 0 {
      ParentSmaller(metas, all, root, j);
    }
  }

  // ----- nothing is lost -----

  /** A tree of ranges: all that the flat list says about a node and its descendants. */
  datatype Outline = Outline(lo: nat, hi: nat, isModule: bool, children: seq<Outline>)

  function OutlineOf(t: Tree, start: nat): Outline
  {
    Outline(start, start + |Body(t)|, t.Module?, if t.Module? then [] else OutlineItems(t.items, start))
  }

  function OutlineItems(items: Items, at: nat): seq<Outline>
  {
    match items
    case Tail(_) => []
    case Child(gap, prefix, t, rest) =>
      var start := at + |gap| + |prefix|;
      [OutlineOf(t, start)] + OutlineItems(rest, start + |Body(t)|)
  }

  predicate ForwardLinks(metas: seq<Meta>)
  {
    forall i :: 0 <= i < |metas| ==> i < Start(metas, i) && Start(metas, i) + Count(metas[i]) <= |metas|
  }

  /** The tree read back from the flat list. */
  function Rebuild(metas: seq<Meta>, i: nat): Outline
    requires ForwardLinks(metas) && i < |metas|
    decreases |metas| - i
  {
    Outline(metas[i].lo, metas[i].hi, metas[i].kind.ModuleKind?,
      seq(Count(metas[i]), c requires 0 <= c < Count(metas[i]) => Rebuild(metas, Start(metas, i) + c)))
  }

  lemma {:induction false} OutlineAt(items: Items, at: nat, c: nat)
    requires c < |ItemPayloads(items, at)|
    ensures |OutlineItems(items, at)| == |ItemPayloads(items, at)|
    ensures var kid := ItemPayloads(items, at)[c]; OutlineItems(items, at)[c] == OutlineOf(kid.tree, kid.start)
  {
    var start := at + |items.gap| + |items.prefix|;
    var next := start + |Body(items.tree)|;
    OutlineCount(items, at);
    if c > 0 {
      OutlineAt(items.rest, next, c - 1);
    }
  }

  lemma {:induction false} OutlineCount(items: Items, at: nat)
    ensures |OutlineItems(items, at)| == |ItemPayloads(items, at)|
  {
    if items.Child? {
      OutlineCount(items.rest, at + |items.gap| + |items.prefix| + |Body(items.tree)|);
    }
  }

  lemma FlattenedLinks(metas: seq<Meta>, all: seq<Entry>, root: Payload)
    requires Flattened(metas, all, root)
    ensures ForwardLinks(metas)
  {
    forall i | 0 <= i < |metas|
      ensures i < Start(metas, i) && Start(metas, i) + Count(metas[i]) <= |metas|
    {
      assert Listed(metas, all, i);
    }
  }

  lemma {:induction false} RebuildKid(metas: seq<Meta>, all: seq<Entry>, root: Payload, i: nat, c: nat)
    requires Flattened(metas, all, root) && ForwardLinks(metas) && i < |metas| && c < Count(metas[i])
    ensures all[i].1.tree.Component? && c < |OutlineItems(all[i].1.tree.items, all[i].1.start)|
    ensures Rebuild(metas, Start(metas, i) + c) == OutlineItems(all[i].1.tree.items, all[i].1.start)[c]
    decreases |metas| - i, 0
  {
    hide Body, Listed, ItemPayloads, Rebuild, OutlineItems, OutlineOf, ForwardLinks;
    ChildAt(metas, all, root, i, c);
    var k := Start(metas, i) + c;
    RebuildInverse(metas, all, root, k);
    var kid := ChildPayloads(all[i].1)[c];
    assert Rebuild(metas, k) == OutlineOf(kid.tree, kid.start);
    OutlineAt(all[i].1.tree.items, all[i].1.start, c);
  }

  /** The outline of a node, from the outlines of its children. */
  lemma OutlineFromKids(node: Payload, m: Meta, kids: seq<Outline>)
    requires m.lo == node.start && m.hi == node.start + |Body(node.tree)| && m.kind == KindOf(node)
    requires |kids| == Count(m)
    requires node.tree.Component? ==> (
      && |kids| <= |OutlineItems(node.tree.items, node.start)|
      && forall c :: 0 <= c < |kids| ==> kids[c] == OutlineItems(node.tree.items, node.start)[c])
    ensures Outline(m.lo, m.hi, m.kind.ModuleKind?, kids) == OutlineOf(node.tree, node.start)
  {
    if node.tree.Component? {
      OutlineCount(node.tree.items, node.start);
      assert kids == OutlineItems(node.tree.items, node.start);
    }
  }

  lemma MetaOf(metas: seq<Meta>, all: seq<Entry>, root: Payload, i: nat)
    requires Flattened(metas, all, root) && i < |metas|
    ensures metas[i] == MetaFor(all[i])
  {
    assert Listed(metas, all, i);
  }

  /** Reading the list back gives the tree that was flattened: every node once, under its parent, in order. */
  lemma {:induction false} RebuildInverse(metas: seq<Meta>, all: seq<Entry>, root: Payload, i: nat)
    requires Flattened(metas, all, root) && i < |metas|
    ensures ForwardLinks(metas)
    ensures Rebuild(metas, i) == OutlineOf(all[i].1.tree, all[i].1.start)
    decreases |metas| - i, 1
  {
    hide Body, ItemPayloads, Listed, ForwardLinks;
    FlattenedLinks(metas, all, root);
    MetaOf(metas, all, root, i);
    var node, kids := all[i].1, Rebuild(metas, i).children;
    if node.tree.Component? {
      OutlineCount(node.tree.items, node.start);
      forall c | 0 <= c < |kids|
        ensures kids[c] == OutlineItems(node.tree.items, node.start)[c]
      {
        RebuildKid(metas, all, root, i, c);
      }
    }
    OutlineFromKids(node, metas[i], kids);
  }

  // ----- the loop -----

  /** The whole tree can be read back from the list that the queue loop makes. */
  method MetadataShow(payload: Payload) returns (metas: seq<Meta>, ghost all: seq<Entry>)
    ensures Flattened(metas, all, payload)
    ensures metas != [] && ForwardLinks(metas)
    ensures Rebuild(metas, 0) == OutlineOf(payload.tree, payload.start)
  {
    metas := [];
    var queue: seq<Entry> := [(None, payload)];
    all := queue;
    while queue != []
      invariant Flattening(metas, all, payload)
      invariant queue == all[|metas|..]
      decreases Weight(queue)
    {
      var (parentIndex, node) := queue[0];
      ghost var before := queue;
      queue := queue[1..];
      var kind := ModuleKind;
      if node.tree.Component? {
        var children := ChildPayloads(node);
        for c := 0 to |children|
          invariant queue == before[1..] + Entries(|metas|, children)[..c]
        {
          queue := queue + [(Some(|metas|), children[c])];
        }
        kind := ComponentKind(|children|);
      }
      assert queue == before[1..] + Entries(|metas|, ChildPayloads(node));
      QueueShrinks(before, |metas|);
      FlattenStep(metas, all, payload);
      all := all + Entries(|metas|, ChildPayloads(node));
      metas := metas + [Meta(parentIndex, kind, node.start, node.start + |Body(node.tree)|)];
    }
    RebuildInverse(metas, all, payload, 0);
  }
}
