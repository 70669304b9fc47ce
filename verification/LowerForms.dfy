/** What the code for each type stores, read off the bytes of the memory and the JavaScript value alone. */
module LowerForms {
  import opened Wrappers
  import opened Bytes
  import opened Bits
  import opened Flags
  import opened Abi
  import opened JsRepr
  import opened Lifting
  import opened Held
  import opened Heaps
  import opened Lowering
  import opened Taking
  import opened Stores
  import J = JsHost

  // ----- truth values and numbers -----

  /** What JavaScript takes for false; floats other than 0 are not told apart. */
  predicate Falsy(js: Js)
  {
    || js == Undefined || js == Null || js == Boolean(false) || js == Str("")
    || js == Primitive(J.Number(0)) || js == Primitive(J.BigInt(0)) || js == Primitive(J.Float(0))
  }

  /** A truth value is one byte, 0 or 1, and every JavaScript value has one. */
  lemma BoolStored(L: Layout, realloc: Realloc, js: Js, h: Heap, addr: int)
    ensures var r := Lower(L, realloc, BoolTy, js, h, addr);
      && (r.Ok? <==> 0 <= addr < |h.mem|) && (r.Err? ==> r.error == Failure(RangeError, h))
      && (r.Ok? ==> r.value == h.(mem := h.mem[addr := if Falsy(js) then 0 else 1]))
  {
    hide ToLE, Splice;
    var b: byte := if Falsy(js) then 0 else 1;
    assert b == Digit(Truthy(js));
    if 0 <= addr < |h.mem| {
      ToLEByte(b);
      StoreFits(J.Int8, h, addr, b);
      assert Splice(h.mem, addr, [b]) == h.mem[addr := b];
    }
  }

  /** The primitive that a number is lowered from. */
  predicate OfKind(k: Num, js: Js)
  {
    && js.Primitive?
    && (if k == U64 || k == S64 then js.n.BigInt? else if k == F32 || k == F64 then js.n.Float? else js.n.Number?)
  }

  /** A number is stored modulo the span of its width; a TypeError is for other primitives only. */
  lemma NumStoredAs(L: Layout, realloc: Realloc, k: Num, js: Js, h: Heap, addr: int)
    ensures var r := Lower(L, realloc, NumTy(k), js, h, addr);
      && (r.Ok? <==> OfKind(k, js) && 0 <= addr && addr + Width(k) <= |h.mem|)
      && (r.Err? ==> r.error == Failure(if OfKind(k, js) then RangeError else TypeError, h))
      && (r.Ok? ==> r.value == Write(h, addr, ToLE(J.Content(js.n), Width(k))))
  {
    hide ToLE, Splice, Span, Wrap, Write;
    if OfKind(k, js) {
      NumSet(k, J.Content(js.n), h, addr);
    }
  }

  lemma NumSet(k: Num, x: int, h: Heap, addr: int)
    ensures var r := Store(NumStore(k), h, addr, Wrap(k, x));
      if 0 <= addr && addr + Width(k) <= |h.mem| then r == Ok(Write(h, addr, ToLE(x, Width(k))))
      else r == Err(Failure(RangeError, h))
  {
    hide ToLE, Splice, Span, Wrap;
    if 0 <= addr && addr + Width(k) <= |h.mem| {
      StoreFits(NumStore(k), h, addr, Wrap(k, x));
      WrapCongruent(k, x);
      ToLECongruent(Wrap(k, x), x, Width(k));
    }
  }

  // ----- flags -----

  /** Digit `i` of a number is digit `i % 8` of its byte `i / 8`. */
  lemma {:induction false} BitOfByte(v: nat, w: nat, i: nat)
    requires i < 8 * w
    ensures Bit(ToLE(v, w)[i / 8], i % 8) == Bit(v, i)
    decreases w
  {
    if i < 8 {
      LowBits(v, i);
    } else {
      BitOfByte(v / 0x100, w - 1, i - 8);
      assert ToLE(v, w)[i / 8] == ToLE(v / 0x100, w - 1)[(i - 8) / 8];
      ByteShift(v, i);
    }
  }

  lemma ByteShift(v: nat, i: nat)
    requires i >= 8
    ensures Bit(v, i) == Bit(v / 0x100, i - 8)
  {
    NibbleShift(v, i);
    NibbleShift(v / 0x10, i - 4);
    assert v / 0x10 / 0x10 == v / 0x100;
  }

  lemma NibbleShift(v: nat, i: nat)
    requires i >= 4
    ensures Bit(v, i) == Bit(v / 0x10, i - 4)
  {
    assert Bit(v, i) == Bit(v / 2, i - 1) == Bit(v / 2 / 2, i - 2) == Bit(v / 2 / 2 / 2, i - 3);
    assert v / 2 / 2 / 2 / 2 == v / 0x10;
  }

  /** The digits of a byte are the first ones of the number. */
  lemma LowBits(v: nat, i: nat)
    requires i < 8
    ensures Bit(v % 0x100, i) == Bit(v, i)
  {
    Pow32();
    LowDigit(v, 8, i);
  }

  lemma {:induction false} LowDigit(v: nat, k: nat, i: nat)
    requires i < k
    ensures Bit(v % Pow2(k), i) == Bit(v, i)
    decreases k
  {
    var m := Pow2(k - 1);
    HalfMod(v, m);
    if i > 0 {
      LowDigit(v / 2, k - 1, i - 1);
    }
  }

  lemma HalfMod(v: nat, m: nat)
    requires m > 0
    ensures (v % (2 * m)) / 2 == (v / 2) % m && (v % (2 * m)) % 2 == v % 2
  {
    var q, r := (v / 2) / m, (v / 2) % m;
    assert v == 2 * (q * m + r) + v % 2;
    assert 2 * (q * m) == q * (2 * m);
    ModUnique(v, 2 * m, q, 2 * r + v % 2);
  }

  /** Digits beyond the packed ones are 0. */
  lemma {:induction false} PackEnds(bits: seq<bool>, i: nat)
    requires i >= |bits|
    ensures !Bit(Pack(bits), i)
    decreases |bits|
  {
    if bits == [] {
      BitZero(i);
    } else {
      PackEnds(bits[1..], i - 1);
    }
  }

  /** The flag with this number is set in the object. */
  predicate SetIn(js: Js, i: nat) { js.FlagsObject? && i < |js.bits| && js.bits[i] }

  /**
   For every number of flags, memory and JavaScript value: digit `i` of the stored bytes is set exactly for a flag that the
   object sets. Missing properties, further ones and other objects set none, and the digits that are no flags are 0.
   */
  lemma FlagBytes(L: Layout, realloc: Realloc, n: nat, js: Js, h: Heap, addr: int, h': Heap, i: nat)
    requires n > 0 && Lower(L, realloc, FlagsTy(n), js, h, addr) == Ok(h') && i < 8 * FlagsSize(n)
    ensures 0 <= addr && addr + FlagsSize(n) <= |h'.mem| == |h.mem|
    ensures Bit(h'.mem[addr + i / 8], i % 8) <==> i < n && SetIn(js, i)
  {
    hide FlagsOf, SetIn, Bit, ToLE, Pack, Lower, FlagsSize;
    FlagsTaken(n, js);
    FlagsLaid(L, realloc, n, js, h, addr, h');
    var bits, size := FlagsOf(n, js).value, FlagsSize(n);
    assert h'.mem[addr..addr + size][i / 8] == h'.mem[addr + i / 8];
    BitOfByte(Pack(bits), size, i);
    if i < n {
      BitPack(bits, i);
    } else {
      PackEnds(bits, i);
    }
  }

  /** The stored bytes are those of the packed flags. */
  lemma FlagsLaid(L: Layout, realloc: Realloc, n: nat, js: Js, h: Heap, addr: int, h': Heap)
    requires n > 0 && Lower(L, realloc, FlagsTy(n), js, h, addr) == Ok(h')
    ensures FlagsOf(n, js).Some? && 0 <= addr && addr + FlagsSize(n) <= |h'.mem| == |h.mem|
    ensures h'.mem[addr..addr + FlagsSize(n)] == ToLE(Pack(FlagsOf(n, js).value), FlagsSize(n))
  {
    hide FlagsOf, ToLE, Pack, LowerFlags, WordsIn;
    FlagsTaken(n, js);
    var bits := FlagsOf(n, js).value;
    FlagsFit(n, LowerFlags(bits), h, addr, WordCount(n));
    PackedWords(bits);
    AllWordsStored(n, LowerFlags(bits), ToLE(Pack(bits), FlagsSize(n)), h, addr);
  }

  lemma FlagsTaken(n: nat, js: Js)
    ensures FlagsOf(n, js).None? <==> js.Boolean? || js.Primitive? || js.Str?
    ensures FlagsOf(n, js).Some? ==>
      |FlagsOf(n, js).value| == n && forall i :: 0 <= i < n ==> (FlagsOf(n, js).value[i] <==> SetIn(js, i))
  {
  }

  /** Words that are stored without a throw are inside the memory. */
  lemma {:induction false} FlagsFit(n: nat, words: seq<int>, h: Heap, addr: int, k: nat)
    requires n > 0 && 0 < k <= |words| && StoreWords(n, words, h, addr, k).Ok?
    ensures 0 <= addr && addr + WordOffset(n, k) <= |h.mem|
    ensures |StoreWords(n, words, h, addr, k).value.mem| == |h.mem|
    decreases k
  {
    assert WordOffset(n, k) == WordOffset(n, k - 1) + WordWidth(n) && J.ElementSize(WordStore(n)) == WordWidth(n);
    if k > 1 {
      FlagsFit(n, words, h, addr, k - 1);
    } else {
      assert StoreWords(n, words, h, addr, 0) == Ok(h) && WordOffset(n, 0) == 0;
    }
  }

  /** Flags are refused exactly for truth values, other primitives and strings. */
  lemma FlagsRefused(L: Layout, realloc: Realloc, n: nat, js: Js, h: Heap, addr: int)
    ensures var r := Lower(L, realloc, FlagsTy(n), js, h, addr);
      r.Err? && r.error.fault == TypeError <==> js.Boolean? || js.Primitive? || js.Str?
  {
    if !js.Boolean? && !js.Primitive? && !js.Str? {
      var words := LowerFlags(FlagsOf(n, js).value);
      WordsOnlyRange(n, words, h, addr, |words|);
    }
  }

  lemma {:induction false} WordsOnlyRange(n: nat, words: seq<int>, h: Heap, addr: int, k: nat)
    requires k <= |words|
    ensures var r := StoreWords(n, words, h, addr, k); r.Ok? || r.error.fault == RangeError
    decreases k
  {
    if k > 0 {
      WordsOnlyRange(n, words, h, addr, k - 1);
    }
  }

  // ----- tuples -----

  lemma {:induction false} SameItems(
    L: Layout, realloc: Realloc, ty: Ty, a: seq<Js>, b: seq<Js>, h: Heap, addr: int, n: nat)
    requires ty.TupleTy? && n <= |ty.fields| && forall i: nat :: i < n ==> ItemAt(a, i) == ItemAt(b, i)
    ensures LowerFields(L, realloc, ty, a, h, addr, n) == LowerFields(L, realloc, ty, b, h, addr, n)
    decreases n
  {
    if n > 0 {
      SameItems(L, realloc, ty, a, b, h, addr, n - 1);
    }
  }

  /** An array that is too short is lowered as if it were filled up with undefined; what is too many is ignored. */
  lemma TupleItems(L: Layout, realloc: Realloc, fields: seq<Ty>, items: seq<Js>, more: Js, h: Heap, addr: int)
    ensures |items| < |fields| ==>
      Lower(L, realloc, TupleTy(fields), Arr(items), h, addr) ==
        Lower(L, realloc, TupleTy(fields), Arr(items + [Undefined]), h, addr)
    ensures |items| >= |fields| ==>
      Lower(L, realloc, TupleTy(fields), Arr(items), h, addr) ==
        Lower(L, realloc, TupleTy(fields), Arr(items + [more]), h, addr)
  {
    SameItems(L, realloc, TupleTy(fields), items, items + [if |items| < |fields| then Undefined else more], h, addr,
              |fields|);
  }

  // ----- lists -----

  /** The length that is stored: of an array, or of a typed array, which for a list of bytes is its length in bytes. */
  function CountOf(t: Ty, js: Js): nat
  {
    match js
    case Arr(elems) => |elems|
    case Typed(e, _, _, length) => if t == NumTy(U8) then length * J.ElementSize(e) else length
    case _ => 0
  }

  /** The pointer of a list is stored before its length, and is aligned for the elements. */
  lemma SlotForm(L: Layout, realloc: Realloc, t: Ty, js: Js, h: Heap, addr: int, h': Heap)
    requires GoodRealloc(realloc) && Sound(h) && Lower(L, realloc, ListTy(t), js, h, addr) == Ok(h')
    ensures 0 <= addr && addr + 8 <= |h'.mem| && (js.Arr? || js.Typed?)
    ensures FromLE(h'.mem[addr + 4..addr + 8]) == CountOf(t, js) % TWO32
    ensures L.align(t) > 0 ==> FromLE(h'.mem[addr..addr + 4]) % L.align(t) == 0
  {
    hide Fill, GoodRealloc, StoreSlot, Sound;
    var len := LengthOf(t, js);
    var (p, h1) := realloc(h, L.align(t), (len * L.size(t)) % TWO32).value;
    StartAligned(realloc, h, L.align(t), (len * L.size(t)) % TWO32, p, h1);
    var h2 := Fill(L, realloc, t, js, h1, Signed(p, 4)).value;
    SlotBytes(h2, addr, p, len, h');
  }

  lemma StartAligned(realloc: Realloc, h: Heap, align: nat, size: nat, p: nat, h1: Heap)
    requires GoodRealloc(realloc) && Sound(h) && realloc(h, align, size) == Some((p, h1))
    ensures p < TWO32 && (align > 0 ==> p % align == 0)
  {
    assert Allocates(realloc, h, align, size);
  }

  lemma SlotBytes(h: Heap, addr: int, p: nat, len: nat, h': Heap)
    requires StoreSlot(h, addr, Signed(p, 4), len) == Ok(h') && p < TWO32
    ensures 0 <= addr && addr + 8 <= |h'.mem|
    ensures FromLE(h'.mem[addr + 4..addr + 8]) == len % TWO32 && FromLE(h'.mem[addr..addr + 4]) == p
  {
    var h1 := Store(J.Uint32, h, addr + 4, len).value;
    assert h'.mem[addr + 4..addr + 8] == h1.mem[addr + 4..addr + 8] == ToLE(len, 4);
    assert h'.mem[addr..addr + 4] == ToLE(Signed(p, 4), 4);
    FromLEToLE(len, 4);
    FromLEToLE(Signed(p, 4), 4);
    SignedCongruent(p, 4);
    Spans();
    ModUnique(p, TWO32, 0, p);
  }
}
