/** A typed array of any view, given for a list of numbers: what the copy takes it for, and what its elements are. */
module CanonViews {
  import opened Wrappers
  import opened Bytes
  import opened Abi
  import opened JsRepr
  import opened Held
  import opened Lowering
  import opened Taking
  import opened RoundTrips
  import J = JsHost

  /** The elements of the view are of the primitive type that the numbers are lowered from. */
  predicate SameKind(k: Num, e: J.Element) { KindOf(k, J.Numeric(e, 0)) }

  /** Float bits are not converted between widths here. */
  predicate NoRounding(k: Num, e: J.Element) { SameKind(k, e) && (k.F32? || k.F64?) ==> J.ElementSize(e) == Width(k) }

  /** What the copy takes the array for. */
  function CopyTaken(t: Ty, js: Js): Option<Val>
    requires ArrayNum(t).Some? && js.Typed?
  {
    NumsFromJs(ArrayNum(t).value, js, LengthOf(t, js))
  }

  /** What the elements are taken for, one by one. */
  function EachTaken(t: Ty, items: seq<Js>): Option<Val>
  {
    if ElementsTaken(t, items) then Some(ListV(Values(t, items))) else None
  }

  // ----- one number -----

  lemma {:induction false} AliasTaken(t: Ty, js: Js)
    requires ArrayNum(t).Some?
    ensures var k := ArrayNum(t).value;
      FromJs(t, js) ==
        if js.Primitive? && KindOf(k, js.n) then Some(NumV(TakenNum(k, J.Content(js.n)))) else None
  {
    if t.AliasTy? {
      AliasTaken(t.target, js);
    }
  }

  lemma KindFixed(k: Num, e: J.Element, raw: nat)
    ensures KindOf(k, J.Numeric(e, raw)) <==> SameKind(k, e)
  {
  }

  /** The bytes of element `i` of the view. */
  function ItemBytes(e: J.Element, buffer: seq<byte>, offset: nat, i: nat): seq<byte>
    requires ElementAddr(offset, J.ElementSize(e), i) + J.ElementSize(e) <= |buffer|
  {
    var at := ElementAddr(offset, J.ElementSize(e), i);
    buffer[at..at + J.ElementSize(e)]
  }

  lemma ItemTaken(t: Ty, e: J.Element, buffer: seq<byte>, offset: nat, i: nat)
    requires ArrayNum(t).Some? && ElementAddr(offset, J.ElementSize(e), i) + J.ElementSize(e) <= |buffer|
    ensures var k, raw := ArrayNum(t).value, FromLE(ItemBytes(e, buffer, offset, i));
      FromJs(t, ItemOf(e, buffer, offset, i)) ==
        if SameKind(k, e) then Some(NumV(TakenNum(k, J.Content(J.Numeric(e, raw))))) else None
  {
    var k, raw := ArrayNum(t).value, FromLE(ItemBytes(e, buffer, offset, i));
    AliasTaken(t, ItemOf(e, buffer, offset, i));
    KindFixed(k, e, raw);
  }

  lemma InView(e: J.Element, buffer: seq<byte>, offset: nat, length: nat, i: nat)
    requires offset + length * J.ElementSize(e) <= |buffer| && i < length
    ensures ElementAddr(offset, J.ElementSize(e), i) + J.ElementSize(e) <= |buffer|
  {
    var s := J.ElementSize(e);
    ElementAddrIs(offset, s, i);
    assert (i + 1) * s == i * s + s;
    assert (i + 1) * s <= length * s;
  }

  /** An element of the same width and kind is the number with these bytes, signed or not. */
  lemma SameWidthSame(k: Num, e: J.Element, raw: nat)
    requires SameKind(k, e) && J.ElementSize(e) == Width(k) && raw < Span(Width(k))
    ensures TakenNum(k, J.Content(J.Numeric(e, raw))) == NumOf(k, raw)
  {
    var x := J.Content(J.Numeric(e, raw));
    SignedCongruent(raw, Width(k));
    TakenCongruent(k, x);
    WrapInRange(k, x);
    NumOfIs(k, raw);
    ModUnique(raw, Span(Width(k)), 0, raw);
    SameResidue(TakenNum(k, x), NumOf(k, raw), Span(Width(k)));
  }

  // ----- the list -----

  lemma Scaled(i: nat, n: nat, w: nat)
    requires i < n
    ensures i * w + w <= n * w && (i > 0 ==> (i - 1) * w + w == i * w) && (n - 1) * w + w == n * w
  {
  }

  lemma NumsOpen(k: Num, s: seq<byte>, n: nat)
    requires |s| == n * Width(k) && n > 0
    ensures Width(k) <= |s| && |s[Width(k)..]| == (n - 1) * Width(k)
    ensures NumsOf(k, s, n) == [NumV(NumOf(k, FromLE(s[..Width(k)])))] + NumsOf(k, s[Width(k)..], n - 1)
  {
    Scaled(0, n, Width(k));
  }

  lemma {:induction false} NumsAt(k: Num, s: seq<byte>, n: nat, i: nat, at: nat)
    requires |s| == n * Width(k) && i < n && at == i * Width(k)
    ensures at + Width(k) <= |s| && NumsOf(k, s, n)[i] == NumV(NumOf(k, FromLE(s[at..at + Width(k)])))
    decreases n
  {
    hide NumOf, FromLE, Width, NumsOf;
    var w := Width(k);
    Scaled(i, n, w);
    NumsOpen(k, s, n);
    if i > 0 {
      NumsAt(k, s[w..], n - 1, i - 1, at - w);
      Within(s, w, |s|, at - w, w);
      assert s[w..|s|] == s[w..];
    } else {
      assert s[..w] == s[0..w];
    }
  }

  /** The numbers that the copy and the elements give at position `i`. */
  predicate SameAt(k: Num, e: J.Element, buffer: seq<byte>, offset: nat, i: nat)
  {
    && ElementAddr(offset, J.ElementSize(e), i) + J.ElementSize(e) <= |buffer|
    && ElementAddr(offset, Width(k), i) + Width(k) <= |buffer|
    && NumOf(k, FromLE(ItemBytes(ViewOf(k), buffer, offset, i))) ==
         TakenNum(k, J.Content(J.Numeric(e, FromLE(ItemBytes(e, buffer, offset, i)))))
  }

  predicate SameNumbers(k: Num, e: J.Element, buffer: seq<byte>, offset: nat, length: nat)
  {
    forall i :: 0 <= i < length ==> SameAt(k, e, buffer, offset, i)
  }

  lemma CopiedAt(k: Num, buffer: seq<byte>, offset: nat, n: nat, i: nat)
    requires offset + n * Width(k) <= |buffer| && i < n
    ensures ElementAddr(offset, Width(k), i) + Width(k) <= |buffer|
    ensures NumsOf(k, buffer[offset..offset + n * Width(k)], n)[i] ==
      NumV(NumOf(k, FromLE(ItemBytes(ViewOf(k), buffer, offset, i))))
  {
    hide NumsOf, NumOf, FromLE, Width;
    var w, m := Width(k), n * Width(k);
    Scaled(i, n, w);
    NumsAt(k, buffer[offset..offset + m], n, i, i * w);
    Within(buffer, offset, offset + m, i * w, w);
    ElementAddrIs(offset, w, i);
  }

  lemma SameItem(t: Ty, e: J.Element, buffer: seq<byte>, offset: nat, n: nat, i: nat)
    requires ArrayNum(t).Some? && SameKind(ArrayNum(t).value, e) && i < n
    requires ElementAddr(offset, J.ElementSize(e), i) + J.ElementSize(e) <= |buffer|
    requires offset + n * Width(ArrayNum(t).value) <= |buffer|
    ensures var k, item := ArrayNum(t).value, FromJs(t, ItemOf(e, buffer, offset, i));
      && ElementAddr(offset, Width(k), i) + Width(k) <= |buffer| && item.Some?
      && (NumsOf(k, buffer[offset..offset + n * Width(k)], n)[i] == item.value <==> SameAt(k, e, buffer, offset, i))
  {
    hide ItemOf, NumOf, TakenNum, ItemBytes, KindOf, NumsOf, Width, FromLE;
    ItemTaken(t, e, buffer, offset, i);
    CopiedAt(ArrayNum(t).value, buffer, offset, n, i);
  }

  /** Equal lengths: the values are the same exactly if the numbers are, position by position. */
  lemma SameValues(t: Ty, e: J.Element, buffer: seq<byte>, offset: nat, n: nat)
    requires ArrayNum(t).Some? && SameKind(ArrayNum(t).value, e)
    requires offset + n * J.ElementSize(e) <= |buffer| && offset + n * Width(ArrayNum(t).value) <= |buffer|
    ensures var k, items := ArrayNum(t).value, Items(Typed(e, buffer, offset, n)).value;
      && ElementsTaken(t, items)
      && (NumsOf(k, buffer[offset..offset + n * Width(k)], n) == Values(t, items) <==>
            SameNumbers(k, e, buffer, offset, n))
  {
    hide ItemOf, NumOf, TakenNum, ItemBytes, KindOf, NumsOf, SameAt, Width;
    var k, items := ArrayNum(t).value, Items(Typed(e, buffer, offset, n)).value;
    var copied := NumsOf(k, buffer[offset..offset + n * Width(k)], n);
    forall i | 0 <= i < n
      ensures ElementAddr(offset, J.ElementSize(e), i) + J.ElementSize(e) <= |buffer|
      ensures ElementAddr(offset, Width(k), i) + Width(k) <= |buffer|
      ensures FromJs(t, items[i]).Some?
      ensures copied[i] == FromJs(t, items[i]).value <==> SameAt(k, e, buffer, offset, i)
    {
      InView(e, buffer, offset, n, i);
      SameItem(t, e, buffer, offset, n, i);
    }
    assert ElementsTaken(t, items);
    var values := Values(t, items);
    if copied != values {
      var i :| 0 <= i < n && copied[i] != values[i];
      assert !SameAt(k, e, buffer, offset, i);
    } else {
      forall i | 0 <= i < n
        ensures SameAt(k, e, buffer, offset, i)
      {
        assert copied[i] == values[i];
      }
    }
  }

  /** The copy would read beyond the buffer, and throws. */
  predicate TooShort(t: Ty, js: Js)
    requires ArrayNum(t).Some? && js.Typed?
  {
    js.offset + LengthOf(t, js) * Width(ArrayNum(t).value) > |js.buffer|
  }

  /**
   For every list of numbers and every typed array, whatever its view: the copy takes the array for the list of its
   elements exactly if it is empty; or the elements are of another kind, so that they are refused, and the buffer is too
   short for the copy; or the lengths agree, and the bytes in the width of the list are those of the same numbers.
   */
  lemma ViewsAgreeExactly(t: Ty, e: J.Element, buffer: seq<byte>, offset: nat, length: nat)
    requires ArrayNum(t).Some? && offset + length * J.ElementSize(e) <= |buffer| && NoRounding(ArrayNum(t).value, e)
    ensures var k, js := ArrayNum(t).value, Typed(e, buffer, offset, length);
      CopyTaken(t, js) == EachTaken(t, Items(js).value) <==>
        (length == 0
         || (!SameKind(k, e) && TooShort(t, js))
         || (SameKind(k, e) && LengthOf(t, js) == length && !TooShort(t, js) && SameNumbers(k, e, buffer, offset, length)))
  {
    hide ItemOf, NumOf, TakenNum, ItemBytes, SameKind, SameNumbers, NumsFromJs, ElementsTaken, TooShort, LengthOf;
    var k, js := ArrayNum(t).value, Typed(e, buffer, offset, length);
    if length == 0 {
      NothingTaken(t, js);
    } else if SameKind(k, e) {
      KindTaken(t, e, buffer, offset, length);
      CopyForm(t, js);
      if LengthOf(t, js) == length && !TooShort(t, js) {
        SameList(t, js);
        SameValues(t, e, buffer, offset, length);
      }
    } else {
      OtherKind(t, e, buffer, offset, length);
      CopyForm(t, js);
    }
  }

  /** When the copy is made, and how long the list is then. */
  lemma CopyForm(t: Ty, js: Js)
    requires ArrayNum(t).Some? && js.Typed?
    ensures CopyTaken(t, js).None? <==> TooShort(t, js)
    ensures CopyTaken(t, js).Some? ==>
      CopyTaken(t, js).value.ListV? && |CopyTaken(t, js).value.elems| == LengthOf(t, js)
  {
  }

  lemma SameList(t: Ty, js: Js)
    requires ArrayNum(t).Some? && js.Typed? && LengthOf(t, js) == js.length && !TooShort(t, js)
    ensures var k := ArrayNum(t).value;
      && js.offset + js.length * Width(k) <= |js.buffer|
      && CopyTaken(t, js) ==
           Some(ListV(NumsOf(k, js.buffer[js.offset..js.offset + js.length * Width(k)], js.length)))
  {
  }

  lemma NothingTaken(t: Ty, js: Js)
    requires ArrayNum(t).Some? && js.Typed? && js.length == 0 && js.offset <= |js.buffer|
    ensures CopyTaken(t, js) == EachTaken(t, Items(js).value) == Some(ListV([]))
  {
    assert LengthOf(t, js) == 0;
    assert Values(t, Items(js).value) == [];
  }

  lemma OtherKind(t: Ty, e: J.Element, buffer: seq<byte>, offset: nat, length: nat)
    requires ArrayNum(t).Some? && !SameKind(ArrayNum(t).value, e) && length > 0
    requires offset + length * J.ElementSize(e) <= |buffer|
    ensures !ElementsTaken(t, Items(Typed(e, buffer, offset, length)).value)
  {
    hide ItemOf, NumOf, TakenNum, ItemBytes, KindOf;
    var items := Items(Typed(e, buffer, offset, length)).value;
    InView(e, buffer, offset, length, 0);
    ItemTaken(t, e, buffer, offset, 0);
    assert FromJs(t, items[0]).None?;
  }

  lemma KindTaken(t: Ty, e: J.Element, buffer: seq<byte>, offset: nat, n: nat)
    requires ArrayNum(t).Some? && SameKind(ArrayNum(t).value, e) && offset + n * J.ElementSize(e) <= |buffer|
    ensures ElementsTaken(t, Items(Typed(e, buffer, offset, n)).value)
  {
    hide ItemOf, NumOf, TakenNum, ItemBytes, KindOf;
    var items := Items(Typed(e, buffer, offset, n)).value;
    forall i | 0 <= i < n
      ensures FromJs(t, items[i]).Some?
    {
      InView(e, buffer, offset, n, i);
      ItemTaken(t, e, buffer, offset, i);
    }
  }

  /** So it is for every view of the same width and kind, signed or not. */
  lemma SameWidthAgrees(t: Ty, e: J.Element, buffer: seq<byte>, offset: nat, length: nat)
    requires ArrayNum(t).Some? && SameKind(ArrayNum(t).value, e) && J.ElementSize(e) == Width(ArrayNum(t).value)
    requires offset + length * J.ElementSize(e) <= |buffer|
    ensures var js := Typed(e, buffer, offset, length);
      CopyTaken(t, js) == EachTaken(t, Items(js).value) && CopyTaken(t, js).Some?
  {
    hide SameAt, EachTaken, Span, NumsOf, Width, SameKind;
    var k, js := ArrayNum(t).value, Typed(e, buffer, offset, length);
    forall i | 0 <= i < length
      ensures SameAt(k, e, buffer, offset, i)
    {
      InView(e, buffer, offset, length, i);
      SameWidthAt(k, e, buffer, offset, i);
    }
    assert SameNumbers(k, e, buffer, offset, length);
    SameLength(t, e, buffer, offset, length);
    ViewsAgreeExactly(t, e, buffer, offset, length);
  }

  lemma SameLength(t: Ty, e: J.Element, buffer: seq<byte>, offset: nat, length: nat)
    requires ArrayNum(t).Some? && J.ElementSize(e) == Width(ArrayNum(t).value)
    requires offset + length * J.ElementSize(e) <= |buffer|
    ensures LengthOf(t, Typed(e, buffer, offset, length)) == length && !TooShort(t, Typed(e, buffer, offset, length))
  {
  }

  lemma SameWidthAt(k: Num, e: J.Element, buffer: seq<byte>, offset: nat, i: nat)
    requires SameKind(k, e) && J.ElementSize(e) == Width(k)
    requires ElementAddr(offset, J.ElementSize(e), i) + J.ElementSize(e) <= |buffer|
    ensures SameAt(k, e, buffer, offset, i)
  {
    hide NumOf, TakenNum, SameKind, FromLE, Span;
    FromLEBound(ItemBytes(e, buffer, offset, i));
    SameWidthSame(k, e, FromLE(ItemBytes(e, buffer, offset, i)));
  }

  /** Two bytes, given for a list of 16-bit numbers: the copy takes them, with the two that follow, for other numbers. */
  lemma OtherViewExample()
    ensures var js := Typed(J.Uint8, [1, 2, 3, 4], 0, 2);
      && CopyTaken(NumTy(U16), js) == Some(ListV([NumV(0x201), NumV(0x403)]))
      && EachTaken(NumTy(U16), Items(js).value) == Some(ListV([NumV(1), NumV(2)]))
  {
    var buffer: seq<byte> := [1, 2, 3, 4];
    CopyOfFour(buffer);
    BytesOfFour(buffer);
  }

  lemma CopyOfFour(buffer: seq<byte>)
    requires buffer == [1, 2, 3, 4]
    ensures NumsOf(U16, buffer, 2) == [NumV(0x201), NumV(0x403)] && buffer[0..0 + 2 * Width(U16)] == buffer
  {
    assert buffer[0..2] == [1, 2] && buffer[2..4] == [3, 4];
    TwoBytes(1, 2);
    TwoBytes(3, 4);
    NumsAt(U16, buffer, 2, 0, 0);
    NumsAt(U16, buffer, 2, 1, 2);
  }

  lemma BytesOfFour(buffer: seq<byte>)
    requires buffer == [1, 2, 3, 4]
    ensures EachTaken(NumTy(U16), Items(Typed(J.Uint8, buffer, 0, 2)).value) == Some(ListV([NumV(1), NumV(2)]))
  {
    hide ItemOf, ToLE, Wrap;
    var items := Items(Typed(J.Uint8, buffer, 0, 2)).value;
    assert TakenNum(U16, 1) == 1 && TakenNum(U16, 2) == 2 by {
      TakenInRange(U16, 1);
      TakenInRange(U16, 2);
    }
    assert buffer[0..1] == [1] && buffer[1..2] == [2] && ElementAddr(0, 1, 0) == 0 && ElementAddr(0, 1, 1) == 1;
    TwoBytes(1, 2);
    ItemTaken(NumTy(U16), J.Uint8, buffer, 0, 0);
    ItemTaken(NumTy(U16), J.Uint8, buffer, 0, 1);
    assert Values(NumTy(U16), items) == [NumV(1), NumV(2)];
  }

  lemma TwoBytes(a: byte, b: byte)
    ensures FromLE([a]) == a && FromLE([b]) == b && FromLE([a, b]) == a + 0x100 * b
  {
    assert [a][1..] == [] && [b][1..] == [] && [a, b][1..] == [b];
    assert FromLE([a]) == a + 0x100 * FromLE([a][1..]) && FromLE([b]) == b + 0x100 * FromLE([b][1..]);
    assert FromLE([a, b]) == a + 0x100 * FromLE([a, b][1..]);
  }
}
