/** Lists of numbers: the fast forms for arrays against storing and loading one element after the other. */
module CanonLists {
  import opened Wrappers
  import opened Bytes
  import opened Abi
  import opened JsRepr
  import opened Lifting
  import opened Held
  import opened LiftExact
  import opened Heaps
  import opened Lowering
  import opened Taking
  import opened HighBlocks
  import opened Stores
  import J = JsHost

  // ----- lowering -----

  lemma ViewNumeric(k: Num, raw: nat)
    requires raw < Span(Width(k)) && InRange(k, NumOf(k, raw))
    ensures J.Numeric(ViewOf(k), raw) == NumToJs(k, NumOf(k, raw))
  {
  }

  /** The element of a typed array that has these bytes. */
  lemma ItemIs(k: Num, buffer: seq<byte>, offset: nat, i: nat) returns (n: int)
    requires ElementAddr(offset, Width(k), i) + Width(k) <= |buffer|
    ensures InRange(k, n) && ItemOf(ViewOf(k), buffer, offset, i) == Primitive(NumToJs(k, n))
    ensures var at := ElementAddr(offset, Width(k), i); ToLE(n, Width(k)) == buffer[at..at + Width(k)]
  {
    var at := ElementAddr(offset, Width(k), i);
    var s := buffer[at..at + Width(k)];
    FromLEBound(s);
    n := NumOf(k, FromLE(s));
    NumOfIs(k, FromLE(s));
    ViewNumeric(k, FromLE(s));
    ToLEFromLE(s);
    ModUnique(FromLE(s), Span(Width(k)), 0, FromLE(s));
    ToLECongruent(n, FromLE(s), Width(k));
  }

  /** A valid number is stored by its bytes, whichever of the two setters is used. */
  lemma NumStores(k: Num, n: int, h: Heap, at: nat)
    requires InRange(k, n) && at + Width(k) <= |h.mem|
    ensures StoreNum(k, Primitive(NumToJs(k, n)), h, at) == Ok(Write(h, at, ToLE(n, Width(k))))
    ensures LowerNum(k, Primitive(NumToJs(k, n)), h, at) == Ok(Write(h, at, ToLE(n, Width(k))))
  {
    hide ToLE, InRange;
    WrapRight(k, n);
  }

  lemma {:induction false} AliasNum(L: Layout, realloc: Realloc, t: Ty, js: Js, h: Heap, at: int)
    requires ArrayNum(t).Some?
    ensures Lower(L, realloc, t, js, h, at) == LowerNum(ArrayNum(t).value, js, h, at)
  {
    if t.AliasTy? {
      AliasNum(L, realloc, t.target, js, h, at);
    }
  }

  /** The bytes of the first `n` elements of a typed array. */
  function Front(k: Num, buffer: seq<byte>, offset: nat, n: nat): seq<byte>
  {
    if ElementAddr(offset, Width(k), n) <= |buffer| then buffer[offset..ElementAddr(offset, Width(k), n)] else []
  }

  lemma FrontLength(k: Num, buffer: seq<byte>, offset: nat, n: nat)
    requires ElementAddr(offset, Width(k), n) <= |buffer|
    ensures |Front(k, buffer, offset, n)| == n * Width(k)
  {
    ElementAddrIs(offset, Width(k), n);
  }

  /** One more element of the array is written. */
  lemma NextStored(k: Num, buffer: seq<byte>, offset: nat, h: Heap, ptr: nat, i: nat)
    requires ElementAddr(offset, Width(k), i + 1) <= |buffer| && ElementAddr(ptr, Width(k), i + 1) <= |h.mem|
    ensures ptr + |Front(k, buffer, offset, i)| <= |h.mem| && ptr + |Front(k, buffer, offset, i + 1)| <= |h.mem|
    ensures var h1, at, item := Write(h, ptr, Front(k, buffer, offset, i)), ElementAddr(ptr, Width(k), i),
        ItemOf(ViewOf(k), buffer, offset, i);
      && StoreNum(k, item, h1, at) == Ok(Write(h, ptr, Front(k, buffer, offset, i + 1)))
      && LowerNum(k, item, h1, at) == Ok(Write(h, ptr, Front(k, buffer, offset, i + 1)))
  {
    hide StoreNum, LowerNum, ItemOf, Write;
    var w := Width(k);
    ElementAddrIs(offset, w, i);
    ElementAddrIs(ptr, w, i);
    var front := Front(k, buffer, offset, i);
    var n := ItemIs(k, buffer, offset, i);
    WriteLength(h, ptr, front);
    NumStores(k, n, Write(h, ptr, front), ptr + |front|);
    WriteAppend(h, ptr, front, ToLE(n, w));
    var at := ElementAddr(offset, w, i);
    SplitAt(buffer, offset, at, at + w);
  }

  lemma SplitAt<T>(s: seq<T>, lo: nat, mid: nat, hi: nat)
    requires lo <= mid <= hi <= |s|
    ensures s[lo..hi] == s[lo..mid] + s[mid..hi]
  {
  }

  lemma WriteLength(h: Heap, at: nat, s: seq<byte>)
    requires at + |s| <= |h.mem|
    ensures |Write(h, at, s).mem| == |h.mem|
  {
  }

  /** Storing the elements of a typed array in turn, by the setters of either form, writes its bytes. */
  lemma {:induction false} EachStored(
    L: Layout, realloc: Realloc, t: Ty, buffer: seq<byte>, offset: nat, items: seq<Js>, h: Heap, ptr: nat, n: nat)
    requires GoodLayout(L) && ArrayNum(t).Some? && n <= |items|
    requires forall i :: 0 <= i < |items| ==> items[i] == ItemOf(ViewOf(ArrayNum(t).value), buffer, offset, i)
    requires ElementAddr(offset, Width(ArrayNum(t).value), n) <= |buffer|
    requires ElementAddr(ptr, Width(ArrayNum(t).value), n) <= |h.mem|
    ensures var k := ArrayNum(t).value;
      && ptr + |Front(k, buffer, offset, n)| <= |h.mem|
      && StoreNums(k, items, h, ptr, n) == Ok(Write(h, ptr, Front(k, buffer, offset, n)))
      && LowerElements(L, realloc, t, items, h, ptr, n) == Ok(Write(h, ptr, Front(k, buffer, offset, n)))
    decreases n
  {
    hide StoreNum, LowerNum, ItemOf, Write, Lower, Front;
    var k := ArrayNum(t).value;
    if n == 0 {
      FrontLength(k, buffer, offset, 0);
      WriteNothing(h, ptr);
    } else {
      EachStored(L, realloc, t, buffer, offset, items, h, ptr, n - 1);
      NextStored(k, buffer, offset, h, ptr, n - 1);
      ArrayNumSize(L, t);
      AliasNum(L, realloc, t, items[n - 1], Write(h, ptr, Front(k, buffer, offset, n - 1)),
               ElementAddr(ptr, Width(k), n - 1));
    }
  }

  /**
   For every numeric element type and typed array of its width, in a block inside the memory: the copy, the loop over
   the same numbers in a regular array, and lowering each element as in any other list, all write the same bytes.
   */
  lemma CanonLowerAgrees(
    L: Layout, realloc: Realloc, t: Ty, buffer: seq<byte>, offset: nat, len: nat, h: Heap, ptr: nat)
    requires GoodLayout(L) && ArrayNum(t).Some?
    requires offset + len * Width(ArrayNum(t).value) <= |buffer| && ptr + len * Width(ArrayNum(t).value) <= |h.mem|
    ensures var k := ArrayNum(t).value;
      var js := Typed(ViewOf(k), buffer, offset, len);
      var items := Items(js).value;
      && CanonLower(k, js, len, h, ptr) == Ok(Write(h, ptr, buffer[offset..offset + len * Width(k)]))
      && CanonLower(k, Arr(items), len, h, ptr) == CanonLower(k, js, len, h, ptr)
      && LowerElements(L, realloc, t, items, h, ptr, len) == CanonLower(k, js, len, h, ptr)
  {
    hide StoreNum, ItemOf, Write, Lower, LowerElements, StoreNums;
    var k := ArrayNum(t).value;
    var js := Typed(ViewOf(k), buffer, offset, len);
    ElementAddrIs(offset, Width(k), len);
    ElementAddrIs(ptr, Width(k), len);
    EachStored(L, realloc, t, buffer, offset, Items(js).value, h, ptr, len);
  }

  /** At an address that JavaScript sees as negative, which is any from 2^31 on, only an empty regular array is lowered. */
  lemma HighPointer(k: Num, js: Js, len: nat, h: Heap, p: nat)
    requires TWO31 <= p < TWO32 && Items(js).Some? && (js.Arr? ==> len == |js.elems|)
    ensures CanonLower(k, js, len, h, Signed(p, 4)).Ok? <==> js == Arr([])
  {
    Spans();
    assert Signed(p, 4) < 0;
    if js.Arr? && js.elems != [] {
      FirstStoreFails(k, js.elems, h, Signed(p, 4), |js.elems|);
    }
  }

  /** A typed array cannot be copied to a block at 2^31, even if it is empty; an empty regular array can be stored. */
  lemma HighPointerExample()
    ensures var h := Heap([], {});
      && CanonLower(U8, Typed(J.Uint8, [], 0, 0), 0, h, Signed(TWO31, 4)) == Err(Failure(RangeError, h))
      && CanonLower(U8, Arr([Primitive(J.Number(1))]), 1, h, Signed(TWO31, 4)).Err?
      && CanonLower(U8, Arr([]), 0, h, Signed(TWO31, 4)) == Ok(h)
  {
    var h := Heap([], {});
    HighPointer(U8, Arr([Primitive(J.Number(1))]), 1, h, TWO31);
    HighPointer(U8, Arr([]), 0, h, TWO31);
    HighPointer(U8, Typed(J.Uint8, [], 0, 0), 0, h, TWO31);
  }

  // ----- lifting -----

  /** The first `n` numbers, each loaded as it would be in any other list. */
  function LoadEach(k: Num, mem: Memory, ptr: int, n: nat): Result<seq<Js>, Fault>
    decreases n
  {
    if n == 0 then Ok([])
    else
      match LoadEach(k, mem, ptr, n - 1)
      case Err(e) => Err(e)
      case Ok(elems) =>
        match LiftNum(k, mem, ElementAddr(ptr, Width(k), n - 1))
        case Err(e) => Err(e)
        case Ok(js) => Ok(elems + [js])
  }

  /** All `len` elements lie in memory. */
  predicate InBounds(k: Num, mem: Memory, ptr: int, len: nat) { 0 <= ptr && ptr + len * Width(k) <= |mem| }

  /** An element in memory is the element of the typed array over its bytes. */
  lemma SameItem(k: Num, mem: Memory, ptr: nat, buf: seq<byte>, i: nat)
    requires ptr + |buf| <= |mem| && buf == mem[ptr..ptr + |buf|] && ElementAddr(0, Width(k), i) + Width(k) <= |buf|
    ensures LiftNum(k, mem, ElementAddr(ptr, Width(k), i)) == Ok(ItemOf(ViewOf(k), buf, 0, i))
  {
    hide LiftNum, ItemOf;
    var w := Width(k);
    var n := ItemIs(k, buf, 0, i);
    ElementAddrIs(ptr, w, i);
    ElementAddrIs(0, w, i);
    Within(mem, ptr, ptr + |buf|, ElementAddr(0, w, i), w);
    NumRight(k, n, mem, ElementAddr(ptr, w, i));
  }

  lemma {:induction false} LoadsInside(k: Num, mem: Memory, ptr: nat, buf: seq<byte>, n: nat)
    requires ptr + |buf| <= |mem| && buf == mem[ptr..ptr + |buf|] && ElementAddr(0, Width(k), n) <= |buf|
    ensures LoadEach(k, mem, ptr, n).Ok? && |LoadEach(k, mem, ptr, n).value| == n
    ensures forall i :: 0 <= i < n ==> LoadEach(k, mem, ptr, n).value[i] == ItemOf(ViewOf(k), buf, 0, i)
    decreases n
  {
    hide LiftNum, ItemOf;
    if n > 0 {
      LoadsInside(k, mem, ptr, buf, n - 1);
      SameItem(k, mem, ptr, buf, n - 1);
    }
  }

  lemma {:induction false} LoadsStop(k: Num, mem: Memory, ptr: int, m: nat, n: nat)
    requires m <= n && LoadEach(k, mem, ptr, m) == Err(RangeError)
    ensures LoadEach(k, mem, ptr, n) == Err(RangeError)
    decreases n
  {
    if m < n {
      LoadsStop(k, mem, ptr, m, n - 1);
    }
  }

  lemma {:induction false} LoadsNoTypeError(k: Num, mem: Memory, ptr: int, n: nat)
    ensures LoadEach(k, mem, ptr, n).Ok? || LoadEach(k, mem, ptr, n) == Err(RangeError)
    decreases n
  {
    if n > 0 {
      LoadsNoTypeError(k, mem, ptr, n - 1);
      OneLoad(k, mem, ElementAddr(ptr, Width(k), n - 1));
    }
  }

  /** A load throws exactly outside the memory, and then a RangeError. */
  lemma OneLoad(k: Num, mem: Memory, at: int)
    ensures LiftNum(k, mem, at) == Err(RangeError) <==> at < 0 || at + Width(k) > |mem|
    ensures LiftNum(k, mem, at).Ok? || LiftNum(k, mem, at) == Err(RangeError)
  {
    GetRange(NumView(k), mem, at);
  }

  /** Outside the memory, some load throws. */
  lemma LoadsOutside(k: Num, mem: Memory, ptr: int, len: nat)
    requires len > 0 && !InBounds(k, mem, ptr, len)
    ensures LoadEach(k, mem, ptr, len) == Err(RangeError)
  {
    if ptr < 0 {
      OneLoad(k, mem, ElementAddr(ptr, Width(k), 0));
      assert LoadEach(k, mem, ptr, 0) == Ok([]);
      LoadsStop(k, mem, ptr, 1, len);
    } else {
      ElementAddrIs(ptr, Width(k), len);
      LoadsNoTypeError(k, mem, ptr, len - 1);
      OneLoad(k, mem, ElementAddr(ptr, Width(k), len - 1));
    }
  }

  /** What `slice` leaves of the list. */
  function Cut(k: Num, mem: Memory, ptr: int, len: nat): seq<byte> { Slice(mem, ptr, ptr + len * Width(k)) }

  /** The typed array has the elements that were loaded one by one, or both ways throw. */
  predicate SameList(typed: Result<Js, Fault>, each: Result<seq<Js>, Fault>)
  {
    if each.Ok? then typed.Ok? && Items(typed.value) == Some(each.value) else typed.Err?
  }

  lemma NoElements(k: Num, mem: Memory, ptr: int)
    ensures SameList(CanonLift(ViewOf(k), mem, ptr, 0), LoadEach(k, mem, ptr, 0))
  {
    assert Cut(k, mem, ptr, 0) == [] && LoadEach(k, mem, ptr, 0) == Ok([]);
    WholeElements(0, Width(k));
    assert Items(Typed(ViewOf(k), [], 0, 0)).value == [];
  }

  lemma CanonInside(k: Num, mem: Memory, ptr: nat, len: nat)
    requires InBounds(k, mem, ptr, len) || len == 0
    ensures SameList(CanonLift(ViewOf(k), mem, ptr, len), LoadEach(k, mem, ptr, len))
  {
    hide LiftNum, ItemOf;
    var e, buf := ViewOf(k), Cut(k, mem, ptr, len);
    WholeElements(len, Width(k));
    if len == 0 {
      NoElements(k, mem, ptr);
    } else {
      ElementAddrIs(0, Width(k), len);
      LoadsInside(k, mem, ptr, buf, len);
      var items := Items(Typed(e, buf, 0, len)).value;
      assert items == LoadEach(k, mem, ptr, len).value;
    }
  }

  /**
   For every numeric element type, memory, pointer and length: the typed array agrees with loading each element exactly
   if the list is empty or lies in memory, or the clamped slice is not made of whole elements.
   */
  lemma CanonLiftExact(k: Num, mem: Memory, ptr: int, len: nat)
    ensures SameList(CanonLift(ViewOf(k), mem, ptr, len), LoadEach(k, mem, ptr, len)) <==>
      len == 0 || InBounds(k, mem, ptr, len) || |Cut(k, mem, ptr, len)| % Width(k) != 0
  {
    if len > 0 && !InBounds(k, mem, ptr, len) {
      LoadsOutside(k, mem, ptr, len);
    } else if ptr >= 0 {
      CanonInside(k, mem, ptr, len);
    } else {
      NoElements(k, mem, ptr);
    }
  }

  /** A list that starts in memory and ends outside it is shortened without an error, at a whole element. */
  lemma ShortenedExample()
    ensures var mem: Memory := [1, 2, 3];
      && CanonLift(J.Uint8, mem, 1, 5) == Ok(Typed(J.Uint8, [2, 3], 0, 2))
      && LoadEach(U8, mem, 1, 5) == Err(RangeError)
  {
    var mem: Memory := [1, 2, 3];
    assert Slice(mem, 1, 6) == [2, 3];
    LoadsOutside(U8, mem, 1, 5);
  }
}
