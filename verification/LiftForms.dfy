/** What lifting gives for each type, read off the bytes of the memory alone, with and without validation. */
module LiftForms {
  import opened Wrappers
  import opened Bytes
  import opened Bits
  import opened Flags
  import opened Abi
  import opened JsRepr
  import opened Lifting
  import opened Held
  import opened Verdicts
  import opened LowerForms
  import J = JsHost

  /** A byte is a truth value; without validation, every byte but 0 is taken for true. */
  lemma BoolForm(L: Layout, fast: bool, mem: Memory, addr: nat)
    requires addr < |mem| && (fast || mem[addr] <= 1)
    ensures Lift(L, fast, BoolTy, mem, addr) == Ok(Boolean(mem[addr] != 0))
  {
    LoadByte(mem, addr);
  }

  predicate SignedOne(k: Num) { k == S8 || k == S16 || k == S32 || k == S64 }

  /** A number is read as two's complement or unsigned, and is of the primitive type for its width. */
  lemma NumForm(L: Layout, fast: bool, k: Num, mem: Memory, addr: nat)
    requires addr + Width(k) <= |mem|
    ensures var r := Lift(L, fast, NumTy(k), mem, addr);
      var raw := Raw(mem, addr, Width(k));
      && r.Ok? && OfKind(k, r.value)
      && J.Content(r.value.n) == (if SignedOne(k) && 2 * raw >= Span(Width(k)) then raw - Span(Width(k)) else raw)
  {
    hide LiftNum, NumOf, NumToJs, FromLE, Span;
    NumRead(k, mem, addr);
    NumContent(k, Raw(mem, addr, Width(k)));
  }

  lemma NumRead(k: Num, mem: Memory, addr: nat)
    requires addr + Width(k) <= |mem|
    ensures var raw := Raw(mem, addr, Width(k));
      && raw < Span(Width(k)) && InRange(k, NumOf(k, raw))
      && LiftNum(k, mem, addr) == Ok(Primitive(NumToJs(k, NumOf(k, raw))))
  {
    hide NumOf, NumToJs, FromLE, Span, FromCore, InRange;
    NumGet(k, mem, addr);
    NumOfIs(k, Raw(mem, addr, Width(k)));
    FromNumeric(k, Raw(mem, addr, Width(k)));
  }

  lemma NumContent(k: Num, raw: nat)
    requires raw < Span(Width(k)) && InRange(k, NumOf(k, raw))
    ensures OfKind(k, Primitive(NumToJs(k, NumOf(k, raw))))
    ensures J.Content(NumToJs(k, NumOf(k, raw))) ==
      if SignedOne(k) && 2 * raw >= Span(Width(k)) then raw - Span(Width(k)) else raw
  {
    hide Span;
    SpanEven(Width(k));
  }

  /** Flag `i` is digit `i` of the bytes, whatever the digits are that are no flags. */
  lemma FlagsForm(L: Layout, fast: bool, n: nat, mem: Memory, addr: nat, i: nat)
    requires i < n && addr + FlagsSize(n) <= |mem| && (fast || !ExtraBits(n, mem, addr))
    ensures var r := Lift(L, fast, FlagsTy(n), mem, addr);
      && r.Ok? && r.value.FlagsObject? && |r.value.bits| == n
      && (r.value.bits[i] <==> Bit(mem[addr + i / 8], i % 8))
  {
    hide JsAnd, Mask, Extraneous, Pow2, ExtraBits, Lifted, Bit, LoadWords, LiftFlagsAt, Words, WordsIn;
    FlagsOpen(L, fast, n, mem, addr);
    var words := LoadWords(n, mem, addr, WordCount(n)).value;
    WordsThere(n, mem, addr);
    FlagOfWord(n, words, mem[addr..addr + FlagsSize(n)], i);
    assert mem[addr..addr + FlagsSize(n)][i / 8] == mem[addr + i / 8];
  }

  /** The flags are lifted from the words. */
  lemma FlagsOpen(L: Layout, fast: bool, n: nat, mem: Memory, addr: nat)
    requires n > 0 && addr + FlagsSize(n) <= |mem| && (fast || !ExtraBits(n, mem, addr))
    ensures LoadWords(n, mem, addr, WordCount(n)).Ok?
    ensures var words, r := LoadWords(n, mem, addr, WordCount(n)).value, Lift(L, fast, FlagsTy(n), mem, addr);
      && r.Ok? && r.value.FlagsObject? && |r.value.bits| == n
      && forall i :: 0 <= i < n ==> (r.value.bits[i] <==> Lifted(words[i / 32], i % 32))
  {
    hide JsAnd, Mask, Extraneous, Pow2, ExtraBits, Lifted, LoadWords;
    WordsJudged(n, mem, addr, WordCount(n));
    LastWord(n, mem, addr);
    NotFastExtra(n, LoadWords(n, mem, addr, WordCount(n)).value);
  }

  lemma NotFastExtra(n: nat, words: seq<int>)
    requires n > 0 && |words| == WordCount(n)
    ensures !Extraneous(true, n, words)
  {
  }

  /** Digit `i` of the bytes is digit `i % 32` of word `i / 32`. */
  lemma FlagOfWord(n: nat, words: seq<int>, all: seq<byte>, i: nat)
    requires i < n && Words(n, words) && WordsIn(n, all, words)
    ensures i / 8 < |all| && (Lifted(words[i / 32], i % 32) <==> Bit(all[i / 8], i % 8))
  {
    hide Lifted, Bit;
    var j, w := i / 32, WordWidth(n);
    var at, x := WordOffset(n, j), words[j];
    assert WordIn(n, all, j, x) && Word(n, x);
    LiftedBit(x, i % 32);
    WordBytes(n, x);
    BitOfByte(Unsigned32(x), w, i % 32);
    assert all[at..at + w][(i % 32) / 8] == all[i / 8] && (i % 32) % 8 == i % 8;
  }

  /** The bytes of a word, by its unsigned reading. */
  lemma WordBytes(n: nat, x: int)
    requires n > 0 && Word(n, x)
    ensures ToLE(x, WordWidth(n)) == ToLE(Unsigned32(x), WordWidth(n))
  {
    ModUnique(Unsigned32(x), TWO32, 0, Unsigned32(x));
    LowCongruent(x, Unsigned32(x), WordWidth(n));
  }

  /** The representation of case `d`, with the lifted payload if it has one. */
  function CaseForm(ty: Ty, d: nat, payload: Option<Js>): Js
    requires Discriminated(ty) && d < |Arms(ty)|
  {
    match ty
    case EnumTy(names) => Str(names[d])
    case OptionTy(t) =>
      if MaybeNull(t) then Tagged(["none", "some"][d], payload)
      else if payload.Some? then payload.value else Undefined
    case ResultTy(_, _) => Tagged(["ok", "err"][d], Some(if payload.Some? then payload.value else Undefined))
    case VariantTy(cases) => Tagged(cases[d].name, payload)
  }

  /**
   A discriminant in range selects its case, and the payload is lifted from its place. Without validation, an option or a
   result takes every other discriminant for 1, and a name or a tag that is not there is left undefined.
   */
  lemma ArmForm(L: Layout, fast: bool, ty: Ty, mem: Memory, addr: nat)
    requires Discriminated(ty) && WellFormed(ty) && addr + DiscSize(|Arms(ty)|) <= |mem|
    ensures var d := Raw(mem, addr, DiscSize(|Arms(ty)|));
      d < |Arms(ty)| && Arms(ty)[d].None? ==> Lift(L, fast, ty, mem, addr) == Ok(CaseForm(ty, d, None))
    ensures var d := Raw(mem, addr, DiscSize(|Arms(ty)|));
      d < |Arms(ty)| && Arms(ty)[d].Some? ==>
        var p := Lift(L, fast, Arms(ty)[d].value, mem, addr + L.payload(ty));
        Lift(L, fast, ty, mem, addr) == if p.Ok? then Ok(CaseForm(ty, d, Some(p.value))) else Err(p.error)
    ensures var d := Raw(mem, addr, DiscSize(|Arms(ty)|));
      fast && d >= |Arms(ty)| && (ty.EnumTy? || ty.VariantTy?) ==> Lift(L, fast, ty, mem, addr) == Ok(Undefined)
    ensures var d := Raw(mem, addr, DiscSize(|Arms(ty)|));
      fast && d >= |Arms(ty)| && (ty.OptionTy? || ty.ResultTy?) ==>
        Lift(L, fast, ty, mem, addr) == LiftArm(L, fast, ty, 1, mem, addr)
  {
    hide Lift, GetInt, Raw;
    ArmsFew(ty);
    DiscLoaded(|Arms(ty)|, mem, addr);
    DiscOpen(L, fast, ty, mem, addr);
  }

  lemma DiscOpen(L: Layout, fast: bool, ty: Ty, mem: Memory, addr: nat)
    requires Discriminated(ty) && GetInt(DiscView(|Arms(ty)|), mem, addr).Ok?
    ensures Lift(L, fast, ty, mem, addr) ==
      LiftArm(L, fast, ty, GetInt(DiscView(|Arms(ty)|), mem, addr).value, mem, addr)
  {
    hide LiftArm, GetInt;
  }

  /** A tuple is an array of its fields, in order and each from its own place. */
  lemma {:induction false} TupleForm(L: Layout, fast: bool, ty: Ty, mem: Memory, addr: nat, n: nat)
    requires ty.TupleTy? && n <= |ty.fields| && LiftFields(L, fast, ty, mem, addr, n).Ok?
    ensures n == |ty.fields| ==> Lift(L, fast, ty, mem, addr) == Ok(Arr(LiftFields(L, fast, ty, mem, addr, n).value))
    ensures var elems := LiftFields(L, fast, ty, mem, addr, n).value;
      && |elems| == n
      && forall i :: 0 <= i < n ==> Lift(L, fast, ty.fields[i], mem, addr + L.field(ty, i)) == Ok(elems[i])
    decreases n
  {
    if n > 0 {
      TupleForm(L, fast, ty, mem, addr, n - 1);
    }
  }

  /** A list is a typed array of its bytes for numbers, and an array otherwise; pointer and length are unsigned. */
  lemma ListForm(L: Layout, fast: bool, t: Ty, mem: Memory, addr: nat)
    requires addr + 8 <= |mem|
    ensures var ptr, len := Raw(mem, addr, 4), Raw(mem, addr + 4, 4);
      var r := Lift(L, fast, ListTy(t), mem, addr);
      && (ArrayNum(t).Some? && ptr + len * Width(ArrayNum(t).value) <= |mem| ==>
            r == Ok(Typed(ViewOf(ArrayNum(t).value), mem[ptr..ptr + len * Width(ArrayNum(t).value)], 0, len)))
      && (ArrayNum(t).None? ==> r == AsArray(LiftElements(L, fast, t, mem, ptr, len)))
  {
    hide LiftElements, Raw;
    GetRaw(J.Uint32, mem, addr);
    GetRaw(J.Uint32, mem, addr + 4);
    if ArrayNum(t).Some? &&
      Raw(mem, addr, 4) + Raw(mem, addr + 4, 4) * Width(ArrayNum(t).value) <= |mem| {
      WholeSlice(ViewOf(ArrayNum(t).value), mem, Raw(mem, addr, 4), Raw(mem, addr + 4, 4));
    }
  }

  lemma WholeSlice(e: J.Element, mem: Memory, ptr: nat, len: nat)
    requires ptr + len * J.ElementSize(e) <= |mem|
    ensures CanonLift(e, mem, ptr, len) == Ok(Typed(e, mem[ptr..ptr + len * J.ElementSize(e)], 0, len))
  {
    var size := J.ElementSize(e);
    assert Slice(mem, ptr, ptr + len * size) == mem[ptr..ptr + len * size];
    ModUnique(len * size, size, len, 0);
  }

  /** The lists with typed arrays are those of the ten numeric types, by any name, each with its own kind of array. */
  lemma {:induction false} NumericLists(t: Ty, k: Num)
    ensures ArrayNum(NumTy(k)) == Some(k) && ArrayNum(AliasTy(t)) == ArrayNum(t)
    ensures !t.NumTy? && !t.AliasTy? ==> ArrayNum(t).None?
    ensures ViewOf(k) == [J.Uint8, J.Int8, J.Uint16, J.Int16, J.Uint32, J.Int32, J.BigUint64, J.BigInt64, J.Float32,
                          J.Float64][Rank(k)]
  {
  }

  function Rank(k: Num): (r: nat)
    ensures r < 10 && [U8, S8, U16, S16, U32, S32, U64, S64, F32, F64][r] == k
  {
    match k
    case U8 => 0
    case S8 => 1
    case U16 => 2
    case S16 => 3
    case U32 => 4
    case S32 => 5
    case U64 => 6
    case S64 => 7
    case F32 => 8
    case F64 => 9
  }
}
