/** Ancestors in a flat list, and the sizes along the way. */
module Descent {
  import opened Wrappers
  import opened Bytes
  import opened Leb128
  import opened ComponentTree
  import opened Metadata

  /** Entry `d` is below entry `p`: its parent is `p` or is below `p`. */
  predicate Below(metas: seq<Meta>, d: nat, p: nat)
    decreases d
  {
    d < |metas| && metas[d].parent.Some? && metas[d].parent.value < d &&
    (metas[d].parent.value == p || Below(metas, metas[d].parent.value, p))
  }

  /** The child of `p` that `d` is, or is below. */
  function Branch(metas: seq<Meta>, d: nat, p: nat): nat
    requires Below(metas, d, p)
    decreases d
  {
    if metas[d].parent.value == p then d else Branch(metas, metas[d].parent.value, p)
  }

  lemma {:induction false} BranchIsChild(metas: seq<Meta>, d: nat, p: nat)
    requires Below(metas, d, p)
    ensures var b := Branch(metas, d, p); b <= d && p < b && b < |metas| && metas[b].parent == Some(p)
    decreases d
  {
    if metas[d].parent.value != p {
      BranchIsChild(metas, metas[d].parent.value, p);
    }
  }

  /** The branch through the child `b` is `b` and all below it. */
  lemma {:induction false} BranchIs(metas: seq<Meta>, d: nat, p: nat, b: nat)
    requires b < |metas| && metas[b].parent == Some(p) && p < b
    ensures Below(metas, d, p) && Branch(metas, d, p) == b <==> d == b || Below(metas, d, b)
    decreases d
  {
    if d < |metas| && metas[d].parent.Some? && metas[d].parent.value < d {
      var up := metas[d].parent.value;
      BranchIs(metas, up, p, b);
      if up == p {
        NotBelowSelf(metas, p, b);
      }
    }
  }

  lemma {:induction false} NotBelowSelf(metas: seq<Meta>, d: nat, p: nat)
    ensures Below(metas, d, p) ==> p < d
    decreases d
  {
    if Below(metas, d, p) && metas[d].parent.value != p {
      NotBelowSelf(metas, metas[d].parent.value, p);
    }
  }

  /** Everything but the root is below the root. */
  lemma {:induction false} AllBelowRoot(metas: seq<Meta>, all: seq<Entry>, root: Payload, d: nat)
    requires Flattened(metas, all, root) && 1 <= d < |metas|
    ensures Below(metas, d, 0)
    decreases d
  {
    ParentSmaller(metas, all, root, d);
    if metas[d].parent.value != 0 {
      AllBelowRoot(metas, all, root, metas[d].parent.value);
    }
  }

  // ----- sizes -----

  /** The change of length that a child brings to its parent's body, its prefix included. */
  function Change(f: Optimizer, t: Tree): int
  {
    |Body(Optimized(f, t))| - |Body(t)| + |NewPrefix(Optimized(f, t))| - |Leb(|Body(t)|)|
  }

  function ItemsChange(f: Optimizer, items: Items): int
  {
    if items.Tail? then 0 else Change(f, items.tree) + ItemsChange(f, items.rest)
  }

  /** The sum over the children is the change of length of the whole body. */
  lemma {:induction false} ItemsChangeIs(f: Optimizer, items: Items)
    requires ItemsRight(items)
    ensures ItemsChange(f, items) == |ItemsBody(OptimizedItems(f, items))| - |ItemsBody(items)|
  {
    if items.Child? {
      ItemsChangeIs(f, items.rest);
      LebShortest(items.prefix);
    }
  }

  function SumChanges(f: Optimizer, kids: seq<Payload>): int
  {
    if kids == [] then 0 else SumChanges(f, kids[..|kids| - 1]) + Change(f, kids[|kids| - 1].tree)
  }

  lemma {:induction false} SumFront(f: Optimizer, kid: Payload, kids: seq<Payload>)
    ensures SumChanges(f, [kid] + kids) == Change(f, kid.tree) + SumChanges(f, kids)
  {
    var all := [kid] + kids;
    if kids == [] {
      assert all[..0] == [];
    } else {
      SumFront(f, kid, kids[..|kids| - 1]);
      assert all[..|all| - 1] == [kid] + kids[..|kids| - 1];
    }
  }

  lemma {:induction false} SumIsItemsChange(f: Optimizer, items: Items, at: nat)
    ensures SumChanges(f, ItemPayloads(items, at)) == ItemsChange(f, items)
  {
    if items.Child? {
      var start := at + |items.gap| + |items.prefix|;
      var next := start + |Body(items.tree)|;
      var rest := ItemPayloads(items.rest, next);
      SumIsItemsChange(f, items.rest, next);
      assert ItemPayloads(items, at) == [Payload(items.tree, start)] + rest;
      SumFront(f, Payload(items.tree, start), rest);
    }
  }

  /** For every component with right prefixes: the fold over its children gives the change of its own length. */
  lemma SizeAccounting(f: Optimizer, p: Payload)
    requires p.tree.Component? && PrefixesRight(p.tree)
    ensures SumChanges(f, ChildPayloads(p)) == |Body(Optimized(f, p.tree))| - |Body(p.tree)|
  {
    SumIsItemsChange(f, p.tree.items, p.start);
    ItemsChangeIs(f, p.tree.items);
  }

  /** A child is no longer than its parent, and has right prefixes. */
  lemma {:induction false} ChildSmaller(items: Items, at: nat, c: nat)
    requires ItemsRight(items) && c < |ItemPayloads(items, at)|
    ensures var kid := ItemPayloads(items, at)[c];
      && PrefixesRight(kid.tree)
      && |Body(kid.tree)| <= |ItemsBody(items)|
      && at <= kid.start && kid.start + |Body(kid.tree)| <= at + |ItemsBody(items)|
  {
    var start := at + |items.gap| + |items.prefix|;
    if c > 0 {
      ChildSmaller(items.rest, start + |Body(items.tree)|, c - 1);
    }
  }

  /** The facts about a node that hold at every depth. */
  predicate Sound(bytes: seq<byte>, p: Payload)
  {
    && PrefixesRight(p.tree)
    && |Body(p.tree)| < TWO32
    && p.start + |Body(p.tree)| <= |bytes|
    && bytes[p.start..p.start + |Body(p.tree)|] == Body(p.tree)
  }

  lemma {:induction false} ItemSlice(items: Items, at: nat, bytes: seq<byte>, c: nat)
    requires c < |ItemPayloads(items, at)|
    requires at + |ItemsBody(items)| <= |bytes| && bytes[at..at + |ItemsBody(items)|] == ItemsBody(items)
    ensures var kid := ItemPayloads(items, at)[c];
      kid.start + |Body(kid.tree)| <= |bytes| && bytes[kid.start..kid.start + |Body(kid.tree)|] == Body(kid.tree)
  {
    SliceParts(items, at, bytes);
    if c > 0 {
      var next := at + |items.gap| + |items.prefix| + |Body(items.tree)|;
      ItemSlice(items.rest, next, bytes, c - 1);
    }
  }

  /** The parts of a component in the binary. */
  lemma SliceParts(items: Items, at: nat, bytes: seq<byte>)
    requires items.Child?
    requires at + |ItemsBody(items)| <= |bytes| && bytes[at..at + |ItemsBody(items)|] == ItemsBody(items)
    ensures var a := at + |items.gap|;
      var b := a + |items.prefix|;
      var c := b + |Body(items.tree)|;
      && bytes[at..a] == items.gap && bytes[a..b] == items.prefix && bytes[b..c] == Body(items.tree)
      && c + |ItemsBody(items.rest)| == at + |ItemsBody(items)|
      && bytes[c..c + |ItemsBody(items.rest)|] == ItemsBody(items.rest)
  {
    var a, b := at + |items.gap|, at + |items.gap| + |items.prefix|;
    var body, rest := Body(items.tree), ItemsBody(items.rest);
    assert ItemsBody(items) == items.gap + (items.prefix + (body + rest));
    Cut(bytes, at, items.gap, items.prefix + (body + rest));
    Cut(bytes, a, items.prefix, body + rest);
    Cut(bytes, b, body, rest);
  }

  lemma Cut<T>(s: seq<T>, at: nat, x: seq<T>, y: seq<T>)
    requires at + |x| + |y| <= |s| && s[at..at + |x| + |y|] == x + y
    ensures s[at..at + |x|] == x && s[at + |x|..at + |x| + |y|] == y
  {
    var w := s[at..at + |x| + |y|];
    assert w[..|x|] == x && w[|x|..] == y;
    assert w[..|x|] == s[at..at + |x|] && w[|x|..] == s[at + |x|..at + |x| + |y|];
  }

  lemma ChildSound(bytes: seq<byte>, p: Payload, c: nat)
    requires Sound(bytes, p) && c < |ChildPayloads(p)|
    ensures Sound(bytes, ChildPayloads(p)[c])
  {
    ChildSmaller(p.tree.items, p.start, c);
    ItemSlice(p.tree.items, p.start, bytes, c);
  }

  lemma {:induction false} AllSound(
    bytes: seq<byte>, metas: seq<Meta>, all: seq<Entry>, root: Payload, k: nat)
    requires Flattened(metas, all, root) && Sound(bytes, root) && k < |metas|
    ensures Sound(bytes, all[k].1)
    decreases k
  {
    if k > 0 {
      ParentSmaller(metas, all, root, k);
      var i := metas[k].parent.value;
      AllSound(bytes, metas, all, root, i);
      ChildAt(metas, all, root, i, k - Start(metas, i));
      ChildSound(bytes, all[i].1, k - Start(metas, i));
    }
  }
}
