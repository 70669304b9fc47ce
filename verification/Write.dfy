/** The writing half of `runOptimizeComponent`: one pass over the tree, with two shared cursors. */
module Write {
  import opened Bytes
  import opened Leb128
  import opened ComponentTree
  import opened Metadata
  import opened Descent
  import opened Optimize

  class Writer {
    const f: Optimizer
    const bytes: seq<byte>
    const metas: seq<Meta>
    const info: seq<Enhanced>
    ghost const all: seq<Entry>
    ghost const root: Payload
    const out: array<byte>
    var nextReadPos: nat
    var nextWritePos: nat

    /** Every entry below the root is accounted for. */
    ghost predicate Context()
    {
      && Flattened(metas, all, root)
      && (forall k :: 0 <= k < |metas| ==> Sound(bytes, all[k].1))
      && |info| == |metas|
      && (forall k :: 1 <= k < |metas| ==> info[k] == Accounted(f, all[k].1, ChildRange(metas, k)))
    }

    /** What has been written so far. */
    ghost function Written(): seq<byte>
      reads this, out
      requires nextWritePos <= out.Length
    {
      out[..nextWritePos]
    }

    constructor (f: Optimizer, bytes: seq<byte>, metas: seq<Meta>, info: seq<Enhanced>, size: nat,
                 ghost all: seq<Entry>, ghost root: Payload)
      ensures this.f == f && this.bytes == bytes && this.metas == metas && this.info == info
      ensures this.all == all && this.root == root
      ensures nextReadPos == 0 && nextWritePos == 0 && fresh(out) && out.Length == size
    {
      this.f, this.bytes, this.metas, this.info, this.all, this.root := f, bytes, metas, info, all, root;
      out := new byte[size];
      nextReadPos, nextWritePos := 0, 0;
    }

    /** `out.set(src, nextWritePos)`, and the cursor moves on; the array must have room. */
    method Append(src: seq<byte>)
      requires nextWritePos + |src| <= out.Length
      modifies this`nextWritePos, out
      ensures nextWritePos == old(nextWritePos) + |src|
      ensures Written() == old(Written()) + src
    {
      forall i | 0 <= i < |src| {
        out[nextWritePos + i] := src[i];
      }
      nextWritePos := nextWritePos + |src|;
    }

    method AppendByte(b: byte)
      requires nextWritePos < out.Length
      modifies this`nextWritePos, out
      ensures nextWritePos == old(nextWritePos) + 1
      ensures Written() == old(Written()) + [b]
    {
      out[nextWritePos] := b;
      nextWritePos := nextWritePos + 1;
    }

    /** The do-while loop that writes a length prefix. */
    method WriteLeb(val: nat)
      requires nextWritePos + |Leb(val % TWO32)| <= out.Length
      modifies this`nextWritePos, out
      ensures nextWritePos == old(nextWritePos) + |Leb(val % TWO32)|
      ensures Written() == old(Written()) + Leb(val % TWO32)
    {
      var v: nat := val;
      ghost var goal := Written() + Leb(val % TWO32);
      while true
        invariant nextWritePos + |Leb(v % TWO32)| == |goal| <= out.Length
        invariant Written() + Leb(v % TWO32) == goal
        decreases v
      {
        Step(v);
        ghost var written, rest := Written(), Leb(Shift7(v));
        var b := v % 0x80;
        v := Shift7(v);
        if v == 0 {
          AppendByte(b);
          break;
        }
        AppendByte(b + 0x80);
        assert written + ([b + 0x80] + rest) == Written() + rest;
      }
    }

    /** What entry `k` describes, and where its body ends in the input. */
    ghost function Node(k: nat): Payload
      requires Context() && k < |metas|
    {
      all[k].1
    }

    ghost function EndOf(k: nat): nat
      requires Context() && k < |metas|
    {
      Node(k).start + |Body(Node(k).tree)|
    }

    /** What `Write(k)` puts after the bytes copied from the gap. */
    ghost function NewBytes(k: nat): seq<byte>
      requires Context() && k < |metas|
    {
      var t := Optimized(f, Node(k).tree);
      NewPrefix(t) + Body(t)
    }

    /** Where the gap before the prefix of entry `k` ends, as the optimizer takes it. */
    ghost function GapEnd(k: nat): int
      requires Context() && k < |metas|
    {
      Node(k).start - |Leb(|Body(Node(k).tree)|)|
    }

    /** The cursors can take the bytes up to and including entry `k`. */
    ghost predicate Room(k: nat, read: nat, write: nat)
      requires Context() && k < |metas|
    {
      read <= GapEnd(k) && write + (GapEnd(k) - read) + |NewBytes(k)| <= out.Length
    }

    lemma EntryFacts(k: nat)
      requires Context() && 1 <= k < |metas|
      ensures info[k] == Accounted(f, Node(k), ChildRange(metas, k))
      ensures metas[k].lo == Node(k).start && metas[k].hi == EndOf(k) <= |bytes|
      ensures bytes[metas[k].lo..metas[k].hi] == Body(Node(k).tree)
      ensures Count(metas[k]) == |ChildPayloads(Node(k))|
    {
      assert Listed(metas, all, k) && Sound(bytes, all[k].1);
    }

    /** The bytes up to the start of the prefix, and the new prefix. */
    method WriteFront(k: nat)
      requires Context() && 1 <= k < |metas| && Room(k, nextReadPos, nextWritePos)
      modifies this`nextWritePos, out
      ensures GapEnd(k) <= EndOf(k) <= |bytes|
      ensures nextWritePos + |Body(Optimized(f, Node(k).tree))| ==
        old(nextWritePos) + (GapEnd(k) - nextReadPos) + |NewBytes(k)| <= out.Length
      ensures Written() ==
        old(Written()) + bytes[nextReadPos..GapEnd(k)] + NewPrefix(Optimized(f, Node(k).tree))
    {
      hide Leb, Body, Optimized, ChildRange;
      EntryFacts(k);
      var m, e := metas[k], info[k];
      Append(bytes[nextReadPos..m.lo - e.prevLEBLen]);
      WriteLeb(m.hi - m.lo + e.sizeChange.value);
    }

    /** The body: the optimized module, the children, or the bytes as they are. */
    method WriteBody(k: nat)
      requires Context() && 1 <= k < |metas|
      requires nextWritePos + |Body(Optimized(f, Node(k).tree))| <= out.Length
      modifies this, out
      ensures nextReadPos <= EndOf(k) <= |bytes| && nextWritePos <= out.Length
      ensures Written() + bytes[nextReadPos..EndOf(k)] == old(Written()) + Body(Optimized(f, Node(k).tree))
      decreases |metas| - k, 2
    {
      EntryFacts(k);
      var m, e := metas[k], info[k];
      if e.optimized.Some? {
        Append(e.optimized.value);
        nextReadPos := m.hi;
      } else if |e.children.value| > 0 {
        nextReadPos := m.lo;
        WriteChildren(k, e.children.value);
      } else {
        NoChildren(f, Node(k).tree.items, Node(k).start);
        Append(bytes[m.lo..m.hi]);
        nextReadPos := m.hi;
      }
    }

    /**
     Writes entry `k`. Trailing bytes of the node may be left for a later call: what is written and what is still
     to be read, up to the end of the node, make up the new bytes.
     */
    method Write(k: nat)
      requires Context() && 1 <= k < |metas| && Room(k, nextReadPos, nextWritePos)
      modifies this, out
      ensures nextReadPos <= EndOf(k) <= |bytes| && nextWritePos <= out.Length
      ensures Written() + bytes[nextReadPos..EndOf(k)] ==
        old(Written()) + bytes[old(nextReadPos)..GapEnd(k)] + NewBytes(k)
      decreases |metas| - k, 3
    {
      ghost var prefix, body := NewPrefix(Optimized(f, Node(k).tree)), Body(Optimized(f, Node(k).tree));
      ghost var before := Written() + bytes[nextReadPos..GapEnd(k)];
      WriteFront(k);
      assert Written() + body == before + (prefix + body);
      WriteBody(k);
    }

    /** The next child is the first of the remaining items, and there is room for it. */
    lemma NextItem(k: nat, c: nat, left: Remaining, written: seq<byte>, read: nat, goal: seq<byte>)
      requires Context() && k < |metas| && c < |ChildPayloads(Node(k))|
      requires Between(f, bytes, ChildPayloads(Node(k))[c..], EndOf(k), left, written, read, goal)
      requires |goal| <= out.Length
      ensures c < Count(metas[k]) && k < ChildRange(metas, k)[c] < |metas| && left.items.Child?
      ensures var kid := ChildRange(metas, k)[c];
        && Node(kid) == FirstChild(left)
        && Room(kid, read, |written|)
    {
      hide Leb, Body, Optimized, OptimizedItems, ChildPayloads, Between, NewPrefix;
      CountIs(k);
      ChildAt(metas, all, root, k, c);
      assert ChildPayloads(Node(k))[c..][0] == ChildPayloads(Node(k))[c];
      NextFacts(f, bytes, ChildPayloads(Node(k))[c..], EndOf(k), left, written, read, goal);
    }

    /** After the call for child `c`, its siblings after it remain. */
    lemma ChildWritten(k: nat, c: nat, child: nat, left: Remaining, before: seq<byte>, read: nat, goal: seq<byte>,
                       written: seq<byte>, read': nat)
      requires Context() && k < |metas| && c < |ChildPayloads(Node(k))| && child < |metas|
      requires Between(f, bytes, ChildPayloads(Node(k))[c..], EndOf(k), left, before, read, goal)
      requires left.items.Child? && Node(child) == FirstChild(left)
      requires read <= GapEnd(child) && read' <= EndOf(child) <= |bytes|
      requires written + bytes[read'..EndOf(child)] == before + bytes[read..GapEnd(child)] + NewBytes(child)
      ensures c + 1 <= |ChildPayloads(Node(k))|
      ensures Between(f, bytes, ChildPayloads(Node(k))[c + 1..], EndOf(k), After(left), written, read', goal)
    {
      hide Context, Between, Leb, Body, Optimized, ChildPayloads;
      assert ChildPayloads(Node(k))[c + 1..] == ChildPayloads(Node(k))[c..][1..];
      AfterItem(f, bytes, ChildPayloads(Node(k))[c..], EndOf(k), left, before, read, goal, written, read');
    }

    /** One child of the loop below. */
    method WriteChild(k: nat, c: nat, child: nat, ghost left: Remaining, ghost goal: seq<byte>)
      returns (ghost left': Remaining)
      requires Context() && k < |metas| && c < Count(metas[k]) && child == ChildRange(metas, k)[c]
      requires c < |ChildPayloads(Node(k))|
      requires nextWritePos <= out.Length && |goal| <= out.Length
      requires Between(f, bytes, ChildPayloads(Node(k))[c..], EndOf(k), left, Written(), nextReadPos, goal)
      modifies this, out
      ensures nextWritePos <= out.Length
      ensures c + 1 <= |ChildPayloads(Node(k))|
      ensures Between(f, bytes, ChildPayloads(Node(k))[c + 1..], EndOf(k), left', Written(), nextReadPos, goal)
      decreases |metas| - k, 0
    {
      hide Context, Between, Leb, Body, Optimized, ChildPayloads, NewBytes, EndOf, GapEnd, Node;
      ghost var before, read := Written(), nextReadPos;
      NextItem(k, c, left, before, read, goal);
      Write(child);
      left' := After(left);
      ChildWritten(k, c, child, left, before, read, goal, Written(), nextReadPos);
    }

    /** `children.forEach(write)`, for the children of entry `k`. */
    method WriteChildren(k: nat, children: seq<nat>)
      requires Context() && k < |metas| && Node(k).tree.Component? && children == ChildRange(metas, k)
      requires nextReadPos == Node(k).start
      requires nextWritePos + |Body(Optimized(f, Node(k).tree))| <= out.Length
      modifies this, out
      ensures nextReadPos <= EndOf(k) <= |bytes| && nextWritePos <= out.Length
      ensures Written() + bytes[nextReadPos..EndOf(k)] == old(Written()) + Body(Optimized(f, Node(k).tree))
      decreases |metas| - k, 1
    {
      ghost var left, kids, end := Remaining(Node(k).tree.items, Node(k).start), ChildPayloads(Node(k)), EndOf(k);
      ghost var goal := Written() + Body(Optimized(f, Node(k).tree));
      assert Sound(bytes, Node(k));
      Starting(f, bytes, Node(k), Written());
      CountIs(k);
      for c := 0 to |children|
        invariant nextWritePos <= out.Length
        invariant Between(f, bytes, kids[c..], end, left, Written(), nextReadPos, goal)
      {
        left := WriteChild(k, c, children[c], left, goal);
      }
      Finished(f, bytes, kids[|kids|..], end, left, Written(), nextReadPos, goal);
    }

    /** The final copy of what is not yet read; the cursors end where both byte strings end. */
    method WriteRest()
      requires nextReadPos <= |bytes| && nextWritePos + (|bytes| - nextReadPos) == out.Length
      modifies out
      ensures out[..] == old(Written()) + bytes[nextReadPos..]
    {
      var rest := bytes[nextReadPos..];
      forall i | 0 <= i < |rest| {
        out[nextWritePos + i] := rest[i];
      }
      assert out[..] == out[..nextWritePos] + out[nextWritePos..];
    }

    lemma CountIs(k: nat)
      requires Context() && k < |metas|
      ensures Count(metas[k]) == |ChildPayloads(Node(k))|
    {
      assert Listed(metas, all, k);
    }
  }

  /** The items still to come, and where they start in the input. */
  datatype Remaining = Remaining(items: Items, pos: nat)

  function FirstChild(left: Remaining): Payload
    requires left.items.Child?
  {
    Payload(left.items.tree, left.pos + |left.items.gap| + |left.items.prefix|)
  }

  function After(left: Remaining): Remaining
    requires left.items.Child?
  {
    var kid := FirstChild(left);
    Remaining(left.items.rest, kid.start + |Body(kid.tree)|)
  }

  /**
   The state between two children of a node that ends at `end`: `kids` are still to be written, and what is written,
   with the bytes not yet read and the new form of what is left, is `goal`.
   */
  ghost predicate Between(
    f: Optimizer, bytes: seq<byte>, kids: seq<Payload>, end: nat, left: Remaining, written: seq<byte>, read: nat,
    goal: seq<byte>)
  {
    && ItemsRight(left.items) && kids == ItemPayloads(left.items, left.pos)
    && left.pos + |ItemsBody(left.items)| == end <= |bytes|
    && bytes[left.pos..end] == ItemsBody(left.items)
    && read <= left.pos
    && written + bytes[read..left.pos] + ItemsBody(OptimizedItems(f, left.items)) == goal
  }

  /** The next child, and the room that it takes in the goal. */
  lemma NextFacts(
    f: Optimizer, bytes: seq<byte>, kids: seq<Payload>, end: nat, left: Remaining, written: seq<byte>, read: nat,
    goal: seq<byte>)
    requires Between(f, bytes, kids, end, left, written, read, goal) && kids != []
    ensures left.items.Child? && kids[0] == FirstChild(left)
    ensures var kid, t := FirstChild(left), Optimized(f, left.items.tree);
      var gapEnd := kid.start - |Leb(|Body(kid.tree)|)|;
      read <= gapEnd && |written| + (gapEnd - read) + |NewPrefix(t) + Body(t)| <= |goal|
  {
    hide Leb, Body, Optimized, PrefixesRight, NewPrefix;
    LebShortest(left.items.prefix);
  }

  /** Before the first child. */
  lemma Starting(f: Optimizer, bytes: seq<byte>, p: Payload, written: seq<byte>)
    requires Sound(bytes, p) && p.tree.Component?
    ensures Between(f, bytes, ChildPayloads(p)[0..], p.start + |Body(p.tree)|, Remaining(p.tree.items, p.start), written,
                    p.start, written + Body(Optimized(f, p.tree)))
  {
    assert bytes[p.start..p.start] == [] && ChildPayloads(p)[0..] == ChildPayloads(p);
    assert written + [] == written;
  }

  /** What the input holds before the next child. */
  lemma NextGap(
    f: Optimizer, bytes: seq<byte>, kids: seq<Payload>, end: nat, left: Remaining, written: seq<byte>, read: nat,
    goal: seq<byte>)
    requires Between(f, bytes, kids, end, left, written, read, goal) && left.items.Child?
    ensures var kid := FirstChild(left);
      var gapEnd := kid.start - |Leb(|Body(kid.tree)|)|;
      && read <= gapEnd <= |bytes|
      && bytes[read..gapEnd] == bytes[read..left.pos] + (left.items.gap + Excess(left.items.prefix, left.items.tree))
  {
    hide Leb, NewPrefix, Value, Encoding, Body, OptimizedItems, PrefixesRight, ItemPayloads;
    SliceParts(left.items, left.pos, bytes);
    LebShortest(left.items.prefix);
    GapBytes(bytes, read, left.pos, left.items);
  }

  /** Writing a child moves on to the items after it. */
  lemma AfterItem(
    f: Optimizer, bytes: seq<byte>, kids: seq<Payload>, end: nat, left: Remaining, written: seq<byte>, read: nat,
    goal: seq<byte>, written': seq<byte>, read': nat)
    requires Between(f, bytes, kids, end, left, written, read, goal) && left.items.Child?
    requires var kid, t := FirstChild(left), Optimized(f, left.items.tree);
      var gapEnd := kid.start - |Leb(|Body(kid.tree)|)|;
      && read <= gapEnd <= |bytes| && read' <= After(left).pos <= |bytes|
      && written' + bytes[read'..After(left).pos] == written + bytes[read..gapEnd] + (NewPrefix(t) + Body(t))
    ensures kids != [] && Between(f, bytes, kids[1..], end, After(left), written', read', goal)
  {
    var t := Optimized(f, left.items.tree);
    NextGap(f, bytes, kids, end, left, written, read, goal);
    Regroup(written' + bytes[read'..After(left).pos], written, bytes[read..left.pos],
            left.items.gap + Excess(left.items.prefix, left.items.tree), NewPrefix(t), Body(t),
            ItemsBody(OptimizedItems(f, left.items.rest)));
    SliceParts(left.items, left.pos, bytes);
  }

  /** The bytes from the read cursor to the start of the shortest prefix. */
  lemma GapBytes(bytes: seq<byte>, read: nat, pos: nat, items: Items)
    requires items.Child? && read <= pos
    requires pos + |items.gap| + |items.prefix| <= |bytes| && |Leb(|Body(items.tree)|)| <= |items.prefix|
    requires bytes[pos..pos + |items.gap|] == items.gap
    requires bytes[pos + |items.gap|..pos + |items.gap| + |items.prefix|] == items.prefix
    ensures var end := pos + |items.gap| + |items.prefix| - |Leb(|Body(items.tree)|)|;
      bytes[read..end] == bytes[read..pos] + (items.gap + Excess(items.prefix, items.tree))
  {
    var a, width := pos + |items.gap|, |items.prefix| - |Leb(|Body(items.tree)|)|;
    assert bytes[a..a + width] == items.prefix[..width] by {
      assert bytes[a..a + |items.prefix|][..width] == bytes[a..a + width];
    }
    assert bytes[read..a + width] == bytes[read..pos] + (bytes[pos..a] + bytes[a..a + width]);
  }

  lemma Regroup(
    now: seq<byte>, written: seq<byte>, left: seq<byte>, gap: seq<byte>, prefix: seq<byte>, body: seq<byte>,
    after: seq<byte>)
    requires now == written + (left + gap) + (prefix + body)
    ensures now + after == written + left + (gap + prefix + body + after)
  {
  }

  lemma NoChildren(f: Optimizer, items: Items, at: nat)
    requires |ItemPayloads(items, at)| == 0
    ensures OptimizedItems(f, items) == items
  {
  }

  lemma Finished(
    f: Optimizer, bytes: seq<byte>, kids: seq<Payload>, end: nat, left: Remaining, written: seq<byte>, read: nat,
    goal: seq<byte>)
    requires Between(f, bytes, kids, end, left, written, read, goal) && kids == []
    ensures read <= end <= |bytes| && written + bytes[read..end] == goal
  {
    assert left.items.Tail?;
    assert bytes[read..end] == bytes[read..left.pos] + bytes[left.pos..end];
  }
}
