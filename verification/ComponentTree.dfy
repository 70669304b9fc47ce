/**
 Component binaries as the optimizer sees them: bytes with nested modules and components, each after a length
 prefix. All other bytes, section ids included, are gaps.
 */
module ComponentTree {
  import opened Bytes
  import opened Leb128

  datatype Tree = Module(bytes: seq<byte>) | Component(items: Items)

  /** The children of a component in order, each with the gap before its prefix, and the bytes after the last one. */
  datatype Items = Tail(bytes: seq<byte>) | Child(gap: seq<byte>, prefix: seq<byte>, tree: Tree, rest: Items)

  /** The bytes of a node, without its own prefix. */
  function Body(t: Tree): seq<byte>
  {
    match t
    case Module(bytes) => bytes
    case Component(items) => ItemsBody(items)
  }

  function ItemsBody(items: Items): seq<byte>
  {
    match items
    case Tail(bytes) => bytes
    case Child(gap, prefix, t, rest) => gap + prefix + Body(t) + ItemsBody(rest)
  }

  /** Every prefix is an encoding of the length of its body. */
  predicate PrefixesRight(t: Tree) { t.Component? ==> ItemsRight(t.items) }

  predicate ItemsRight(items: Items)
  {
    items.Child? ==>
      && Encoding(items.prefix) && Value(items.prefix) == |Body(items.tree)|
      && PrefixesRight(items.tree) && ItemsRight(items.rest)
  }

  /** Every prefix is the shortest encoding. */
  predicate PrefixesMinimal(t: Tree) { t.Component? ==> ItemsMinimal(t.items) }

  predicate ItemsMinimal(items: Items)
  {
    items.Child? ==>
      && items.prefix == Leb(|Body(items.tree)|)
      && PrefixesMinimal(items.tree) && ItemsMinimal(items.rest)
  }

  type Optimizer = seq<byte> -> seq<byte>

  /** What optimizing a component means: every module payload replaced, every prefix re-encoded, all else kept. */
  function Rewrite(f: Optimizer, t: Tree): Tree
  {
    match t
    case Module(bytes) => Module(f(bytes))
    case Component(items) => Component(RewriteItems(f, items))
  }

  function RewriteItems(f: Optimizer, items: Items): Items
  {
    match items
    case Tail(bytes) => items
    case Child(gap, _, t, rest) =>
      var t' := Rewrite(f, t);
      Child(gap, Leb(|Body(t')|), t', RewriteItems(f, rest))
  }

  /** The payloads of all modules, in the order of the binary. */
  function Modules(t: Tree): seq<seq<byte>>
  {
    match t
    case Module(bytes) => [bytes]
    case Component(items) => ItemModules(items)
  }

  function ItemModules(items: Items): seq<seq<byte>>
  {
    match items
    case Tail(_) => []
    case Child(_, _, t, rest) => Modules(t) + ItemModules(rest)
  }

  /** The nesting, and all bytes that are neither prefixes nor modules. */
  datatype Frame = Leaf | Node(parts: seq<(seq<byte>, Frame)>, tail: seq<byte>)

  function FrameOf(t: Tree): Frame
  {
    match t
    case Module(_) => Leaf
    case Component(items) => Node(ItemFrames(items), TailOf(items))
  }

  function ItemFrames(items: Items): seq<(seq<byte>, Frame)>
  {
    match items
    case Tail(_) => []
    case Child(gap, _, t, rest) => [(gap, FrameOf(t))] + ItemFrames(rest)
  }

  function TailOf(items: Items): seq<byte>
  {
    match items
    case Tail(bytes) => bytes
    case Child(_, _, _, rest) => TailOf(rest)
  }

  /** Wanted is that each module is optimized in its place and all else stays. */
  lemma {:induction false} RewriteParts(f: Optimizer, t: Tree)
    ensures FrameOf(Rewrite(f, t)) == FrameOf(t) && |Modules(Rewrite(f, t))| == |Modules(t)|
    ensures forall i :: 0 <= i < |Modules(t)| ==> Modules(Rewrite(f, t))[i] == f(Modules(t)[i])
    decreases t, 1
  {
    if t.Component? {
      RewriteItemParts(f, t.items);
    }
  }

  lemma {:induction false} RewriteItemParts(f: Optimizer, items: Items)
    ensures ItemFrames(RewriteItems(f, items)) == ItemFrames(items) && TailOf(RewriteItems(f, items)) == TailOf(items)
    ensures |ItemModules(RewriteItems(f, items))| == |ItemModules(items)|
    ensures forall i :: 0 <= i < |ItemModules(items)| ==> ItemModules(RewriteItems(f, items))[i] == f(ItemModules(items)[i])
    decreases items, 0
  {
    if items.Child? {
      RewriteParts(f, items.tree);
      RewriteItemParts(f, items.rest);
    }
  }

  /** The bytes of a prefix beyond the shortest width, which the optimizer takes for part of the gap. */
  function Excess(prefix: seq<byte>, t: Tree): seq<byte>
  {
    if |Leb(|Body(t)|)| <= |prefix| then prefix[..|prefix| - |Leb(|Body(t)|)|] else []
  }

  /** The prefix that is written for a body: its length wraps at 2^32. */
  function NewPrefix(t: Tree): seq<byte> { Leb(|Body(t)| % TWO32) }

  /** What the optimizer produces: it assumes that every prefix has the shortest width. */
  function Optimized(f: Optimizer, t: Tree): Tree
  {
    match t
    case Module(bytes) => Module(f(bytes))
    case Component(items) => Component(OptimizedItems(f, items))
  }

  function OptimizedItems(f: Optimizer, items: Items): Items
  {
    match items
    case Tail(bytes) => items
    case Child(gap, prefix, t, rest) =>
      var t' := Optimized(f, t);
      Child(gap + Excess(prefix, t), NewPrefix(t'), t', OptimizedItems(f, rest))
  }

  // ----- when the optimizer is right -----

  /** What is left of the old prefix, with the new one, is the encoding of the new length. */
  predicate PrefixWorks(prefix: seq<byte>, t: Tree, t': Tree) { Excess(prefix, t) + NewPrefix(t') == Leb(|Body(t')|) }

  predicate PrefixesWork(f: Optimizer, t: Tree) { t.Component? ==> ItemsWork(f, t.items) }

  predicate ItemsWork(f: Optimizer, items: Items)
  {
    items.Child? ==>
      && PrefixWorks(items.prefix, items.tree, Rewrite(f, items.tree))
      && PrefixesWork(f, items.tree) && ItemsWork(f, items.rest)
  }

  /** Encodings delimit themselves. */
  lemma {:induction false} PrefixCode(a: seq<byte>, b: seq<byte>, x: seq<byte>, y: seq<byte>)
    requires Encoding(a) && Encoding(b) && a + x == b + y
    ensures a == b && x == y
  {
    assert (a + x)[0] == a[0] && (b + y)[0] == b[0];
    if |a| > 1 {
      assert (a + x)[1..] == a[1..] + x && (b + y)[1..] == b[1..] + y;
      PrefixCode(a[1..], b[1..], x, y);
      assert a == [a[0]] + a[1..] && b == [b[0]] + b[1..];
    } else {
      assert (a + x)[1..] == x && (b + y)[1..] == y;
    }
  }

  lemma CancelFront(a: seq<byte>, x: seq<byte>, y: seq<byte>)
    requires a + x == a + y
    ensures x == y
  {
    assert (a + x)[|a|..] == x && (a + y)[|a|..] == y;
  }

  /** After the same gap, the prefix and what follows it. */
  lemma SplitChild(gap: seq<byte>, e: seq<byte>, p: seq<byte>, u: seq<byte>, q: seq<byte>, v: seq<byte>)
    requires Encoding(e + p) && Encoding(q) && ((gap + e) + p) + u == (gap + q) + v
    ensures e + p == q && u == v
  {
    assert ((gap + e) + p) + u == gap + ((e + p) + u) && (gap + q) + v == gap + (q + v);
    CancelFront(gap, (e + p) + u, q + v);
    PrefixCode(e + p, q, u, v);
  }

  lemma ExcessEncodes(prefix: seq<byte>, t: Tree, t': Tree)
    requires Encoding(prefix) && Value(prefix) == |Body(t)|
    ensures Encoding(Excess(prefix, t) + NewPrefix(t'))
  {
    LebShortest(prefix);
    LebRoundTrip(|Body(t')| % TWO32);
  }

  /** The two outputs have the same gaps, and prefixes that delimit themselves: equal bytes have equal parts. */
  lemma {:induction false} SameParts(f: Optimizer, t: Tree, x: seq<byte>, y: seq<byte>)
    requires PrefixesRight(t) && Body(Optimized(f, t)) + x == Body(Rewrite(f, t)) + y
    ensures PrefixesWork(f, t) && Body(Optimized(f, t)) == Body(Rewrite(f, t)) && x == y
    decreases t, 1
  {
    if t.Component? {
      SameItems(f, t.items, x, y);
    } else {
      CancelFront(f(t.bytes), x, y);
    }
  }

  lemma {:induction false} SameItems(f: Optimizer, items: Items, x: seq<byte>, y: seq<byte>)
    requires ItemsRight(items) && ItemsBody(OptimizedItems(f, items)) + x == ItemsBody(RewriteItems(f, items)) + y
    ensures ItemsWork(f, items) && ItemsBody(OptimizedItems(f, items)) == ItemsBody(RewriteItems(f, items)) && x == y
    decreases items, 0
  {
    if items.Tail? {
      CancelFront(items.bytes, x, y);
    } else {
      hide Leb, NewPrefix, Excess, Optimized, Rewrite, OptimizedItems, RewriteItems;
      var a, b := Optimized(f, items.tree), Rewrite(f, items.tree);
      var e, p, q := Excess(items.prefix, items.tree), NewPrefix(a), Leb(|Body(b)|);
      var r, s := ItemsBody(OptimizedItems(f, items.rest)), ItemsBody(RewriteItems(f, items.rest));
      ExcessEncodes(items.prefix, items.tree, a);
      LebRoundTrip(|Body(b)|);
      ItemsBodyOpens(f, items, x, y);
      SplitChild(items.gap, e, p, Body(a) + (r + x), q, Body(b) + (s + y));
      SameParts(f, items.tree, r + x, s + y);
      SameItems(f, items.rest, x, y);
      ItemsWorkRight(f, items);
    }
  }

  lemma ItemsBodyOpens(f: Optimizer, items: Items, x: seq<byte>, y: seq<byte>)
    requires items.Child?
    ensures var a, b := Optimized(f, items.tree), Rewrite(f, items.tree);
      var e, p, q := Excess(items.prefix, items.tree), NewPrefix(a), Leb(|Body(b)|);
      var r, s := ItemsBody(OptimizedItems(f, items.rest)), ItemsBody(RewriteItems(f, items.rest));
      && ItemsBody(OptimizedItems(f, items)) + x == ((items.gap + e) + p) + (Body(a) + (r + x))
      && ItemsBody(RewriteItems(f, items)) + y == (items.gap + q) + (Body(b) + (s + y))
  {
    hide Leb, NewPrefix, Excess;
    var a, b := Optimized(f, items.tree), Rewrite(f, items.tree);
    var e, p, q := Excess(items.prefix, items.tree), NewPrefix(a), Leb(|Body(b)|);
    var r, s := ItemsBody(OptimizedItems(f, items.rest)), ItemsBody(RewriteItems(f, items.rest));
    Reassociate((items.gap + e) + p, Body(a), r, x);
    Reassociate(items.gap + q, Body(b), s, y);
  }

  lemma Reassociate(a: seq<byte>, b: seq<byte>, c: seq<byte>, d: seq<byte>)
    ensures (a + b + c) + d == a + (b + (c + d))
  {
  }

  lemma {:induction false} WorksIsRight(f: Optimizer, t: Tree)
    requires PrefixesWork(f, t)
    ensures Body(Optimized(f, t)) == Body(Rewrite(f, t))
    decreases t, 1
  {
    if t.Component? {
      ItemsWorkRight(f, t.items);
    }
  }

  lemma {:induction false} ItemsWorkRight(f: Optimizer, items: Items)
    requires ItemsWork(f, items)
    ensures ItemsBody(OptimizedItems(f, items)) == ItemsBody(RewriteItems(f, items))
    decreases items, 0
  {
    if items.Child? {
      WorksIsRight(f, items.tree);
      ItemsWorkRight(f, items.rest);
      var e, p := Excess(items.prefix, items.tree), NewPrefix(Optimized(f, items.tree));
      assert (items.gap + e) + p == items.gap + (e + p);
    }
  }

  /** For every component with right prefixes: the optimizer's bytes are the wanted ones iff every prefix works. */
  lemma RightExactly(f: Optimizer, t: Tree)
    requires PrefixesRight(t)
    ensures Body(Optimized(f, t)) == Body(Rewrite(f, t)) <==> PrefixesWork(f, t)
  {
    if PrefixesWork(f, t) {
      WorksIsRight(f, t);
    }
    if Body(Optimized(f, t)) == Body(Rewrite(f, t)) {
      assert Body(Optimized(f, t)) + [] == Body(Rewrite(f, t)) + [];
      SameParts(f, t, [], []);
    }
  }

  /** A prefix works if it was minimal and the new length is below 2^32; if one of the two holds, then only so. */
  lemma WorksExactly(prefix: seq<byte>, t: Tree, t': Tree)
    requires Encoding(prefix) && Value(prefix) == |Body(t)|
    ensures |Body(t')| < TWO32 ==> (PrefixWorks(prefix, t, t') <==> prefix == Leb(|Body(t)|))
    ensures prefix == Leb(|Body(t)|) ==> (PrefixWorks(prefix, t, t') <==> |Body(t')| < TWO32)
  {
    hide Leb, Excess, Body;
    NothingBefore(Excess(prefix, t), NewPrefix(t'));
    LebExact(|Body(t')|);
    LebRoundTrip(|Body(t')|);
    NothingLeft(prefix, t);
  }

  lemma NothingBefore(e: seq<byte>, p: seq<byte>)
    ensures e + p == p <==> e == []
  {
    assert |e + p| == |e| + |p|;
    assert [] + p == p;
  }

  lemma NothingLeft(prefix: seq<byte>, t: Tree)
    requires Encoding(prefix) && Value(prefix) == |Body(t)|
    ensures Excess(prefix, t) == [] <==> prefix == Leb(|Body(t)|)
  {
    LebShortest(prefix);
  }

  /** Every nested body is shorter than 2^32 after it is rewritten. */
  predicate SizesFit(f: Optimizer, t: Tree) { t.Component? ==> ItemsFit(f, t.items) }

  predicate ItemsFit(f: Optimizer, items: Items)
  {
    items.Child? ==>
      |Body(Rewrite(f, items.tree))| < TWO32 && SizesFit(f, items.tree) && ItemsFit(f, items.rest)
  }

  lemma {:induction false} FitOrMinimal(f: Optimizer, t: Tree)
    requires PrefixesRight(t)
    ensures SizesFit(f, t) ==> (PrefixesWork(f, t) <==> PrefixesMinimal(t))
    ensures PrefixesMinimal(t) ==> (PrefixesWork(f, t) <==> SizesFit(f, t))
    decreases t, 1
  {
    if t.Component? {
      FitOrMinimalItems(f, t.items);
    }
  }

  lemma {:induction false} FitOrMinimalItems(f: Optimizer, items: Items)
    requires ItemsRight(items)
    ensures ItemsFit(f, items) ==> (ItemsWork(f, items) <==> ItemsMinimal(items))
    ensures ItemsMinimal(items) ==> (ItemsWork(f, items) <==> ItemsFit(f, items))
    decreases items, 0
  {
    hide PrefixWorks, Leb, Body;
    if items.Child? {
      WorksExactly(items.prefix, items.tree, Rewrite(f, items.tree));
      FitOrMinimal(f, items.tree);
      FitOrMinimalItems(f, items.rest);
    }
  }

  /** With sizes below 2^32 the bytes are the wanted ones iff all prefixes are minimal; with these, iff all sizes are. */
  lemma RightExactlyWhenMinimal(f: Optimizer, t: Tree)
    requires PrefixesRight(t)
    ensures SizesFit(f, t) ==> (Body(Optimized(f, t)) == Body(Rewrite(f, t)) <==> PrefixesMinimal(t))
    ensures PrefixesMinimal(t) ==> (Body(Optimized(f, t)) == Body(Rewrite(f, t)) <==> SizesFit(f, t))
  {
    RightExactly(f, t);
    FitOrMinimal(f, t);
  }

  lemma {:induction false} RewriteMinimal(f: Optimizer, t: Tree)
    ensures PrefixesMinimal(Rewrite(f, t))
    decreases t, 1
  {
    if t.Component? {
      RewriteItemsMinimal(f, t.items);
    }
  }

  lemma {:induction false} RewriteItemsMinimal(f: Optimizer, items: Items)
    ensures ItemsMinimal(RewriteItems(f, items))
    decreases items, 0
  {
    if items.Child? {
      RewriteMinimal(f, items.tree);
      RewriteItemsMinimal(f, items.rest);
    }
  }

  lemma {:induction false} MinimalIsEncoded(t: Tree)
    requires PrefixesMinimal(t)
    ensures PrefixesRight(t)
    decreases t, 1
  {
    if t.Component? {
      MinimalItemsEncoded(t.items);
    }
  }

  lemma {:induction false} MinimalItemsEncoded(items: Items)
    requires ItemsMinimal(items)
    ensures ItemsRight(items)
    decreases items, 0
  {
    if items.Child? {
      LebRoundTrip(|Body(items.tree)|);
      MinimalIsEncoded(items.tree);
      MinimalItemsEncoded(items.rest);
    }
  }

  /** What is wanted is itself a component with right and minimal prefixes, so it can be optimized again. */
  lemma RewriteWellFormed(f: Optimizer, t: Tree)
    ensures PrefixesMinimal(Rewrite(f, t)) && PrefixesRight(Rewrite(f, t))
  {
    RewriteMinimal(f, t);
    MinimalIsEncoded(Rewrite(f, t));
  }

  /** A module behind a padded two-byte prefix: with nothing to change, a stale byte is left before the new prefix. */
  lemma PaddedPrefixExample()
    ensures var t := Component(Child([1], [0x81, 0x00], Module([7]), Tail([])));
      && PrefixesRight(t)
      && Body(t) == [1, 0x81, 0x00, 7]
      && Body(Optimized((b: seq<byte>) => b, t)) == [1, 0x81, 1, 7]
  {
    var prefix: seq<byte> := [0x81, 0x00];
    assert prefix[1..] == [0x00];
    assert Value(prefix) == 1 + 0x80 * Value(prefix[1..]);
    assert prefix[..1] == [0x81];
  }

  const LONG: nat := 4328785936

  /** An optimizer that makes every module so long. */
  function Inflate(): Optimizer { (b: seq<byte>) => seq(LONG, i => 0) }

  /**
   A padded prefix and a length that wraps: the stale byte, with the wrapped prefix, happens to encode the length. The
   length is 128 * (LONG % 2^32) + 16, and 0x90 holds the digit 16.
   */
  lemma CoincidenceExample(bytes: seq<byte>)
    requires |bytes| == 16
    ensures var f := Inflate();
      var t := Component(Child([1], [0x90, 0x00], Module(bytes), Tail([])));
      PrefixesRight(t) && !PrefixesMinimal(t) && !SizesFit(f, t) && Body(Optimized(f, t)) == Body(Rewrite(f, t))
  {
    var f := Inflate();
    var prefix: seq<byte>, kid := [0x90, 0x00], Module(bytes);
    var t := Component(Child([1], prefix, kid, Tail([])));
    assert prefix[1..] == [0x00] && prefix[..1] == [0x90];
    assert Value(prefix) == 0x10 + 0x80 * Value(prefix[1..]) && Value([0x00]) == 0;
    assert Leb(16) == [16];
    assert |Body(Rewrite(f, kid))| == LONG;
    assert LONG % TWO32 == LONG / 0x80 && LONG % 0x80 == 0x10;
    assert Excess(prefix, kid) == [0x90];
    assert Leb(LONG) == [0x90] + Leb(LONG % TWO32);
    assert PrefixWorks(prefix, kid, Rewrite(f, kid));
    assert t.items.rest == Tail([]) && ItemsWork(f, t.items.rest) && PrefixesWork(f, kid);
    assert ItemsWork(f, t.items);
    RightExactly(f, t);
    assert !ItemsMinimal(t.items) && !ItemsFit(f, t.items);
  }
}
