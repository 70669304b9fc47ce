/** Numbers, flags and lists of numbers in memory: what the setters and the copies write. */
module Stores {
  import opened Wrappers
  import opened Bytes
  import opened Bits
  import opened Flags
  import opened Abi
  import opened JsRepr
  import opened Held
  import opened LiftExact
  import opened Heaps
  import opened Lowering
  import opened Taking
  import J = JsHost

  // ----- scalars -----

  lemma StoreRight(e: J.Element, h: Heap, at: nat, x: int)
    requires Sound(h) && Used(h, at, at + J.ElementSize(e))
    ensures at + J.ElementSize(e) <= |h.mem|
    ensures Store(e, h, at, x) == Ok(Write(h, at, ToLE(x, J.ElementSize(e))))
  {
    UsedInside(h, at, at + J.ElementSize(e));
  }

  lemma StoreFits(e: J.Element, h: Heap, at: nat, x: int)
    requires at + J.ElementSize(e) <= |h.mem|
    ensures Store(e, h, at, x) == Ok(Write(h, at, ToLE(x, J.ElementSize(e))))
  {
  }

  lemma WriteAppend(h: Heap, at: nat, s: seq<byte>, t: seq<byte>)
    requires at + |s| + |t| <= |h.mem|
    ensures Write(Write(h, at, s), at + |s|, t) == Write(h, at, s + t)
  {
    var a, b := Write(Write(h, at, s), at + |s|, t).mem, Write(h, at, s + t).mem;
    assert a == b;
  }

  lemma WriteNothing(h: Heap, at: nat)
    requires at <= |h.mem|
    ensures Write(h, at, []) == h
  {
    assert Write(h, at, []).mem == h.mem;
  }

  /** Storing words stores the bytes that they are in. */
  lemma {:induction false} StoredWords(n: nat, words: seq<int>, all: seq<byte>, h: Heap, addr: nat, k: nat)
    requires n > 0 && WordsIn(n, all, words) && k <= |words|
    requires addr + |all| <= |h.mem|
    ensures WordOffset(n, k) <= |all|
    ensures StoreWords(n, words, h, addr, k) == Ok(Write(h, addr, all[..WordOffset(n, k)]))
    decreases k
  {
    hide Store, Write, WordIn;
    if k == 0 {
      WriteNothing(h, addr);
      assert all[..0] == [];
    } else {
      StoredWords(n, words, all, h, addr, k - 1);
      var h1 := Write(h, addr, all[..WordOffset(n, k - 1)]);
      StoredWord(n, words[k - 1], all, h, h1, addr, k - 1);
    }
  }

  lemma AllWordsStored(n: nat, words: seq<int>, all: seq<byte>, h: Heap, addr: nat)
    requires n > 0 && WordsIn(n, all, words) && addr + |all| <= |h.mem|
    ensures StoreWords(n, words, h, addr, |words|) == Ok(Write(h, addr, all))
  {
    StoredWords(n, words, all, h, addr, |words|);
    assert all[..WordOffset(n, |words|)] == all;
  }

  lemma StoredWord(n: nat, x: int, all: seq<byte>, h: Heap, h1: Heap, addr: nat, j: nat)
    requires n > 0 && WordIn(n, all, j, x) && j < WordCount(n) && |all| == FlagsSize(n)
    requires addr + |all| <= |h.mem|
    requires h1 == Write(h, addr, all[..WordOffset(n, j)])
    ensures WordOffset(n, j) <= WordOffset(n, j + 1) <= |all|
    ensures Store(WordStore(n), h1, addr + WordOffset(n, j), x) == Ok(Write(h, addr, all[..WordOffset(n, j + 1)]))
  {
    var at, w := WordOffset(n, j), WordWidth(n);
    assert WordOffset(n, j + 1) == at + w && J.ElementSize(WordStore(n)) == w;
    StoreFits(WordStore(n), h1, addr + at, x);
    WriteAppend(h, addr, all[..at], all[at..at + w]);
    assert all[..at] + all[at..at + w] == all[..at + w];
  }

  lemma FlagsStored(bits: seq<bool>, js: Js, h: Heap, addr: nat)
    requires |bits| > 0 && FlagsOf(|bits|, js) == Some(bits)
    requires Sound(h) && Used(h, addr, addr + FlagsSize(|bits|))
    ensures addr + FlagsSize(|bits|) <= |h.mem|
    ensures LowerFlagsAt(|bits|, js, h, addr) == Ok(Write(h, addr, ToLE(Pack(bits), FlagsSize(|bits|))))
  {
    var n := |bits|;
    PackedWords(bits);
    UsedInside(h, addr, addr + FlagsSize(n));
    AllWordsStored(n, LowerFlags(bits), ToLE(Pack(bits), FlagsSize(n)), h, addr);
  }

  lemma NumStored(k: Num, js: Js, h: Heap, addr: nat)
    requires js.Primitive? && KindOf(k, js.n) && Sound(h) && Used(h, addr, addr + Width(k))
    ensures addr + Width(k) <= |h.mem|
    ensures LowerNum(k, js, h, addr) == Ok(Write(h, addr, ToLE(TakenNum(k, J.Content(js.n)), Width(k))))
  {
    var x := J.Content(js.n);
    StoreRight(NumStore(k), h, addr, Wrap(k, x));
    if k.F32? || k.F64? {
      ModUnique(x % Span(Width(k)), Span(Width(k)), 0, x % Span(Width(k)));
      ToLECongruent(x, x % Span(Width(k)), Width(k));
    }
  }

  /** A scalar is stored by the bytes of the value that it is taken for. */
  lemma ScalarStored(L: Layout, realloc: Realloc, ty: Ty, js: Js, v: Val, h: Heap, addr: nat)
    requires GoodLayout(L) && WellFormed(ty) && Scalar(ty) && FromJs(ty, js) == Some(v) && ScalarTyped(ty, v)
    requires Sound(h) && Used(h, addr, addr + L.size(ty))
    ensures |ScalarBytes(ty, v)| == L.size(ty) && addr + L.size(ty) <= |h.mem|
    ensures Lower(L, realloc, ty, js, h, addr) == Ok(Write(h, addr, ScalarBytes(ty, v)))
  {
    hide LowerFlagsAt, LowerNum, TakenNum, FlagsOf, InRange;
    assert Roomy(L, ty);
    match ty
    case BoolTy =>
      ToLEByte(Digit(v.b));
      StoreRight(J.Int8, h, addr, Digit(v.b));
    case NumTy(k) => NumStored(k, js, h, addr);
    case FlagsTy(n) => FlagsStored(v.bits, js, h, addr);
  }

  // ----- lists of numbers -----

  lemma {:induction false} NumBytesSnoc(k: Num, front: seq<Val>, v: Val)
    requires v.NumV? && forall i :: 0 <= i < |front| ==> front[i].NumV?
    ensures NumBytes(k, front + [v]) == NumBytes(k, front) + ToLE(v.n, Width(k))
  {
    if front == [] {
      assert [v][1..] == [] && NumBytes(k, [v]) == ToLE(v.n, Width(k)) + NumBytes(k, []);
    } else {
      NumBytesSnoc(k, front[1..], v);
      assert (front + [v])[1..] == front[1..] + [v];
    }
  }

  /** The loop over a regular array writes the bytes of its numbers. */
  lemma {:induction false} NumsStored(k: Num, items: seq<Js>, elems: seq<Val>, h: Heap, p: nat, n: nat)
    requires n <= |items| && (forall i :: 0 <= i < |items| ==> items[i].Primitive? && ValidNum(k, items[i]))
    requires elems == Contents(items)
    requires p + |elems| * Width(k) <= |h.mem|
    ensures |NumBytes(k, elems[..n])| == n * Width(k) && p + n * Width(k) <= |h.mem|
    ensures StoreNums(k, items, h, p, n) == Ok(Write(h, p, NumBytes(k, elems[..n])))
    decreases n
  {
    hide StoreNum, Write, ToLE, ValidNum;
    NumBytesLength(k, elems[..n]);
    Product(n, |elems|, Width(k));
    if n == 0 {
      WriteNothing(h, p);
    } else {
      NumsStored(k, items, elems, h, p, n - 1);
      NumBytesSnoc(k, elems[..n - 1], elems[n - 1]);
      assert elems[..n] == elems[..n - 1] + [elems[n - 1]];
      ElementAddrIs(p, Width(k), n - 1);
      NextNum(k, items[n - 1], h, p, NumBytes(k, elems[..n - 1]));
    }
  }

  lemma Product(m: nat, n: nat, w: nat)
    requires m <= n
    ensures m * w <= n * w && (m > 0 ==> m * w == (m - 1) * w + w)
  {
  }

  lemma NextNum(k: Num, item: Js, h: Heap, p: nat, front: seq<byte>)
    requires ValidNum(k, item) && p + |front| + Width(k) <= |h.mem|
    ensures StoreNum(k, item, Write(h, p, front), p + |front|) ==
      Ok(Write(h, p, front + ToLE(J.Content(item.n), Width(k))))
  {
    WriteAppend(h, p, front, ToLE(J.Content(item.n), Width(k)));
  }

  /** Copied or stored one by one, a list of numbers is written as the bytes of the numbers that it is taken for. */
  lemma CanonStored(k: Num, js: Js, len: nat, elems: seq<Val>, h: Heap, p: nat)
    requires Items(js).Some? && (js.Arr? ==> len == |js.elems|)
    requires NumsFromJs(k, js, len) == Some(ListV(elems)) && p + len * Width(k) <= |h.mem|
    ensures |elems| == len && (forall i :: 0 <= i < len ==> elems[i].NumV?)
    ensures |NumBytes(k, elems)| == len * Width(k)
    ensures CanonLower(k, js, len, h, p) == Ok(Write(h, p, NumBytes(k, elems)))
  {
    hide InRange, StoreNums, NumsOf, Width, CopyBytes;
    if js.Arr? {
      NumsStored(k, js.elems, elems, h, p, len);
      assert elems[..len] == elems;
    } else {
      CopyStored(k, js, len, h, p);
    }
  }

  lemma CopyStored(k: Num, js: Js, len: nat, h: Heap, p: nat)
    requires js.Typed? && js.offset + len * Width(k) <= |js.buffer| && p + len * Width(k) <= |h.mem|
    ensures var s := js.buffer[js.offset..js.offset + len * Width(k)];
      && (forall i :: 0 <= i < len ==> NumsOf(k, s, len)[i].NumV?) && NumBytes(k, NumsOf(k, s, len)) == s
      && CopyBytes(js.buffer, js.offset, h, p, len * Width(k)) == Ok(Write(h, p, s))
  {
    NumsOfTyped(k, js.buffer[js.offset..js.offset + len * Width(k)], len);
  }

  /** Copied bytes hold the numbers. */
  lemma {:induction false} NumsFromBytes(k: Num, elems: seq<Val>, mem: Memory, ptr: nat, own: set<nat>, i: nat)
    requires forall j :: 0 <= j < |elems| ==> elems[j].NumV?
    requires BytesAt(mem, ptr, NumBytes(k, elems), own) && i < |elems|
    ensures BytesAt(mem, ElementAddr(ptr, Width(k), i), ToLE(elems[i].n, Width(k)), own)
    decreases i
  {
    var w, all := Width(k), NumBytes(k, elems);
    var first, rest := ToLE(elems[0].n, w), NumBytes(k, elems[1..]);
    Parts(mem, ptr, first, rest, own);
    if i > 0 {
      NumsFromBytes(k, elems[1..], mem, ptr + w, own, i - 1);
      NextAddr(ptr, w, i - 1);
    }
  }

  lemma Parts(mem: Memory, at: nat, a: seq<byte>, b: seq<byte>, own: set<nat>)
    requires BytesAt(mem, at, a + b, own)
    ensures BytesAt(mem, at, a, own) && BytesAt(mem, at + |a|, b, own)
  {
    var all := mem[at..at + |a| + |b|];
    assert all[..|a|] == mem[at..at + |a|] && all[|a|..] == mem[at + |a|..at + |a| + |b|];
    assert (a + b)[..|a|] == a && (a + b)[|a|..] == b;
  }

  lemma NumsFromCopy(L: Layout, t: Ty, elems: seq<Val>, mem: Memory, p: nat, own: set<nat>)
    requires GoodLayout(L) && ArrayNum(t).Some? && ElementsTyped(t, elems)
    requires (forall j :: 0 <= j < |elems| ==> elems[j].NumV?)
    requires BytesAt(mem, p, NumBytes(ArrayNum(t).value, elems), own)
    ensures ElementsAt(L, t, elems, mem, p, own)
  {
    var k := ArrayNum(t).value;
    ArrayNumSize(L, t);
    forall i | 0 <= i < |elems|
      ensures Holds(L, t, elems[i], mem, ElementAddr(p, L.size(t), i), own)
    {
      NumsFromBytes(k, elems, mem, p, own, i);
      ArrayNumTyped(t, elems[i]);
      ArrayNumHeld(L, t, elems[i], mem, ElementAddr(p, L.size(t), i), own);
    }
  }
}
