/** What validation finds in the bytes of a memory, without lifting anything. */
module Verdicts {
  import opened Wrappers
  import opened Bytes
  import opened Bits
  import opened Flags
  import opened Abi
  import opened JsRepr
  import opened Lifting
  import J = JsHost

  /** The first thing that is wrong: bytes that no value has, or bytes that are not there. */
  datatype Verdict = Fine | Bad | Outside

  function Raw(mem: Memory, at: nat, width: nat): nat
    requires at + width <= |mem|
  {
    FromLE(mem[at..at + width])
  }

  function Check(L: Layout, ty: Ty, mem: Memory, addr: nat): Verdict
    decreases ty, 1, 0
  {
    if Discriminated(ty) then CheckArm(L, ty, mem, addr)
    else
      match ty
      case BoolTy => if addr >= |mem| then Outside else if mem[addr] > 1 then Bad else Fine
      case NumTy(k) => if addr + Width(k) > |mem| then Outside else Fine
      case FlagsTy(n) => CheckFlags(n, mem, addr)
      case TupleTy(fields) => CheckFields(L, ty, mem, addr, |fields|)
      case ListTy(t) => CheckList(L, t, mem, addr)
      case AliasTy(t) => Check(L, t, mem, addr)
  }

  /** A discriminant has to be one of the type's, and then the payload counts. */
  function CheckArm(L: Layout, ty: Ty, mem: Memory, addr: nat): Verdict
    requires Discriminated(ty)
    decreases ty, 0, 0
  {
    var size := DiscSize(|Arms(ty)|);
    if addr + size > |mem| then Outside
    else
      var d := Raw(mem, addr, size);
      if d >= |Arms(ty)| then Bad
      else if Arms(ty)[d].None? then Fine
      else Check(L, Arms(ty)[d].value, mem, addr + L.payload(ty))
  }

  /** The last word of flags has to be below the digits that are not flags. */
  function CheckFlags(n: nat, mem: Memory, addr: nat): Verdict
  {
    if n == 0 then Fine
    else if addr + FlagsSize(n) > |mem| then Outside
    else if ExtraBits(n, mem, addr) then Bad
    else Fine
  }

  predicate ExtraBits(n: nat, mem: Memory, addr: nat)
    requires n > 0 && addr + FlagsSize(n) <= |mem|
  {
    var last := WordCount(n) - 1;
    Raw(mem, addr + WordOffset(n, last), WordWidth(n)) >= Pow2(n - 32 * last)
  }

  function CheckFields(L: Layout, ty: Ty, mem: Memory, addr: nat, n: nat): Verdict
    requires ty.TupleTy? && n <= |ty.fields|
    decreases ty, 0, n
  {
    if n == 0 then Fine
    else
      var before := CheckFields(L, ty, mem, addr, n - 1);
      if before != Fine then before else Check(L, ty.fields[n - 1], mem, addr + L.field(ty, n - 1))
  }

  /** The bytes of a list that are in memory. */
  function CutSize(mem: Memory, ptr: nat, size: nat): nat
  {
    if ptr + size <= |mem| then size else if ptr <= |mem| then |mem| - ptr else 0
  }

  /** A list of numbers may be cut, but only between elements. */
  function CheckList(L: Layout, t: Ty, mem: Memory, addr: nat): Verdict
    decreases t, 3, 0
  {
    if addr + 8 > |mem| then Outside
    else
      var ptr, len := Raw(mem, addr, 4), Raw(mem, addr + 4, 4);
      if ArrayNum(t).None? then CheckElements(L, t, mem, ptr, len)
      else
        var width := Width(ArrayNum(t).value);
        if CutSize(mem, ptr, len * width) % width != 0 then Outside else Fine
  }

  function CheckElements(L: Layout, t: Ty, mem: Memory, ptr: nat, n: nat): Verdict
    decreases t, 2, n
  {
    if n == 0 then Fine
    else
      var before := CheckElements(L, t, mem, ptr, n - 1);
      if before != Fine then before else Check(L, t, mem, ElementAddr(ptr, L.size(t), n - 1))
  }

  // ----- the verdict is what validated lifting comes to -----

  predicate Judged<T>(v: Verdict, r: Result<T, Fault>)
  {
    match v
    case Fine => r.Ok?
    case Bad => r.Err? && r.error == TypeError
    case Outside => r.Err? && r.error == RangeError
  }

  lemma GetRaw(e: J.Element, mem: Memory, at: nat)
    ensures at + J.ElementSize(e) > |mem| ==> GetInt(e, mem, at) == Err(RangeError)
    ensures at + J.ElementSize(e) <= |mem| ==>
      && Raw(mem, at, J.ElementSize(e)) < Span(J.ElementSize(e))
      && (e.Uint8? || e.Uint16? || e.Uint32? ==> GetInt(e, mem, at) == Ok(Raw(mem, at, J.ElementSize(e))))
      && (e.Int32? ==> GetInt(e, mem, at) == Ok(Signed(Raw(mem, at, 4), 4)))
  {
    if at + J.ElementSize(e) <= |mem| {
      FromLEBound(mem[at..at + J.ElementSize(e)]);
    }
  }

  lemma BoolJudged(mem: Memory, addr: nat)
    ensures Judged(if addr >= |mem| then Outside else if mem[addr] > 1 then Bad else Fine, LiftBool(false, mem, addr))
  {
    GetRaw(J.Uint8, mem, addr);
    if addr < |mem| {
      LoadByte(mem, addr);
    }
  }

  lemma NumJudged(k: Num, mem: Memory, addr: nat)
    ensures Judged(if addr + Width(k) > |mem| then Outside else Fine, LiftNum(k, mem, addr))
  {
    GetRange(NumView(k), mem, addr);
  }

  // ----- flags -----

  lemma WordSizes(n: nat, j: nat)
    ensures WordOffset(n, j + 1) == WordOffset(n, j) + WordWidth(n) && J.ElementSize(WordView(n)) == WordWidth(n)
  {
  }

  lemma {:induction false} WordsJudged(n: nat, mem: Memory, addr: nat, k: nat)
    requires n > 0 && k > 0
    ensures Judged(if addr + WordOffset(n, k) > |mem| then Outside else Fine, LoadWords(n, mem, addr, k))
    ensures addr + WordOffset(n, k) <= |mem| ==>
      GetInt(WordView(n), mem, addr + WordOffset(n, k - 1)) == Ok(LoadWords(n, mem, addr, k).value[k - 1])
    decreases k
  {
    WordSizes(n, k - 1);
    GetRaw(WordView(n), mem, addr + WordOffset(n, k - 1));
    if k > 1 {
      WordSizes(n, k - 2);
      WordsJudged(n, mem, addr, k - 1);
    } else {
      assert LoadWords(n, mem, addr, 0) == Ok([]);
    }
  }

  lemma DigitsLeft(n: nat)
    requires n > 0
    ensures n - 32 * (WordCount(n) - 1) == if n % 32 != 0 then n % 32 else 32
  {
  }

  lemma ExtraDigits(n: nat, words: seq<int>, raw: nat)
    requires n > 0 && |words| == WordCount(n) && raw < Span(WordWidth(n)) && Unsigned32(words[|words| - 1]) == raw
    ensures Extraneous(false, n, words) <==> raw >= Pow2(n - 32 * (WordCount(n) - 1))
  {
    hide JsAnd, Mask, Pow2, Span;
    Spans();
    Pow32();
    DigitsLeft(n);
    if n % 32 != 0 {
      CheckedWord(words[|words| - 1], n % 32);
    }
  }

  lemma FlagsJudged(n: nat, mem: Memory, addr: nat)
    ensures Judged(CheckFlags(n, mem, addr), LiftFlagsAt(false, n, mem, addr))
  {
    hide JsAnd, Mask, Extraneous, Pow2, ExtraBits;
    if n == 0 {
      assert WordCount(0) == 0;
    } else {
      var count := WordCount(n);
      WordsJudged(n, mem, addr, count);
      if addr + FlagsSize(n) <= |mem| {
        LastWord(n, mem, addr);
      }
    }
  }

  lemma LastWord(n: nat, mem: Memory, addr: nat)
    requires n > 0 && addr + FlagsSize(n) <= |mem| && LoadWords(n, mem, addr, WordCount(n)).Ok?
    ensures Extraneous(false, n, LoadWords(n, mem, addr, WordCount(n)).value) <==> ExtraBits(n, mem, addr)
  {
    hide JsAnd, Mask, Extraneous, Pow2, LoadWords;
    var count := WordCount(n);
    var words, at := LoadWords(n, mem, addr, count).value, addr + WordOffset(n, count - 1);
    WordsJudged(n, mem, addr, count);
    WordSizes(n, count - 1);
    GetRaw(WordView(n), mem, at);
    Spans();
    var raw := Raw(mem, at, WordWidth(n));
    if n > 16 {
      SignedBack(raw);
    } else {
      ModUnique(raw, TWO32, 0, raw);
    }
    ExtraDigits(n, words, raw);
  }

  // ----- all types -----

  /** For every type and memory: validated lifting succeeds, or throws one of its errors, exactly as the bytes say. */
  lemma {:induction false} LiftVerdict(L: Layout, ty: Ty, mem: Memory, addr: nat)
    requires WellFormed(ty)
    ensures Judged(Check(L, ty, mem, addr), Lift(L, false, ty, mem, addr))
    decreases ty, 1, 0
  {
    hide CheckFlags, LiftFlagsAt, LiftNum, LiftBool, CheckArm, LiftArm, CheckList, LiftList;
    if Discriminated(ty) {
      ArmVerdict(L, ty, mem, addr);
    } else if ty.BoolTy? {
      BoolJudged(mem, addr);
    } else if ty.NumTy? {
      NumJudged(ty.num, mem, addr);
    } else if ty.FlagsTy? {
      FlagsJudged(ty.count, mem, addr);
    } else if ty.TupleTy? {
      FieldsVerdict(L, ty, mem, addr, |ty.fields|);
    } else if ty.ListTy? {
      ListVerdict(L, ty.elem, mem, addr);
    } else {
      LiftVerdict(L, ty.target, mem, addr);
    }
  }

  /** The loaded discriminant, as an unsigned number; from 2^31 on it is read as negative. */
  lemma DiscLoaded(n: nat, mem: Memory, addr: nat)
    requires n < TWO31
    ensures addr + DiscSize(n) > |mem| ==> GetInt(DiscView(n), mem, addr) == Err(RangeError)
    ensures addr + DiscSize(n) <= |mem| ==>
      var d := GetInt(DiscView(n), mem, addr);
      && d.Ok? && (0 <= d.value < n <==> Raw(mem, addr, DiscSize(n)) < n)
      && (0 <= d.value < n ==> d.value == Raw(mem, addr, DiscSize(n)))
  {
    GetRaw(DiscView(n), mem, addr);
    Spans();
  }

  lemma ArmsFew(ty: Ty)
    requires WellFormed(ty) && Discriminated(ty)
    ensures |Arms(ty)| < TWO31
  {
  }

  lemma {:induction false} ArmVerdict(L: Layout, ty: Ty, mem: Memory, addr: nat)
    requires WellFormed(ty) && Discriminated(ty)
    ensures Judged(CheckArm(L, ty, mem, addr), Lift(L, false, ty, mem, addr))
    decreases ty, 0, 1
  {
    hide DiscSize, Raw, GetInt, DiscView, LiftArm, Check;
    ArmsFew(ty);
    DiscLoaded(|Arms(ty)|, mem, addr);
    var d := GetInt(DiscView(|Arms(ty)|), mem, addr);
    if d.Ok? {
      CaseVerdict(L, ty, d.value, mem, addr);
    }
  }

  /** The verdict on a case, by its discriminant. */
  function CheckCase(L: Layout, ty: Ty, d: int, mem: Memory, addr: nat): Verdict
    requires Discriminated(ty)
  {
    if d < 0 || d >= |Arms(ty)| then Bad
    else if Arms(ty)[d].None? then Fine
    else Check(L, Arms(ty)[d].value, mem, addr + L.payload(ty))
  }

  lemma {:induction false} CaseVerdict(L: Layout, ty: Ty, d: int, mem: Memory, addr: nat)
    requires WellFormed(ty) && Discriminated(ty)
    ensures Judged(CheckCase(L, ty, d, mem, addr), LiftArm(L, false, ty, d, mem, addr))
    decreases ty, 0, 0
  {
    hide Check, Lift;
    if 0 <= d < |Arms(ty)| && Arms(ty)[d].Some? {
      PayloadFormed(ty, d);
      LiftVerdict(L, Arms(ty)[d].value, mem, addr + L.payload(ty));
    }
  }

  lemma {:induction false} FieldsVerdict(L: Layout, ty: Ty, mem: Memory, addr: nat, n: nat)
    requires WellFormed(ty) && ty.TupleTy? && n <= |ty.fields|
    ensures Judged(CheckFields(L, ty, mem, addr, n), LiftFields(L, false, ty, mem, addr, n))
    decreases ty, 0, n
  {
    hide Check, Lift;
    if n > 0 {
      FieldsVerdict(L, ty, mem, addr, n - 1);
      LiftVerdict(L, ty.fields[n - 1], mem, addr + L.field(ty, n - 1));
    }
  }

  lemma CutIs(e: J.Element, mem: Memory, ptr: nat, len: nat)
    ensures Judged(if CutSize(mem, ptr, len * J.ElementSize(e)) % J.ElementSize(e) != 0 then Outside else Fine,
                   CanonLift(e, mem, ptr, len))
  {
    assert len * J.ElementSize(e) >= 0;
    assert |Slice(mem, ptr, ptr + len * J.ElementSize(e))| == CutSize(mem, ptr, len * J.ElementSize(e));
  }

  lemma {:induction false} ListVerdict(L: Layout, t: Ty, mem: Memory, addr: nat)
    requires WellFormed(t)
    ensures Judged(CheckList(L, t, mem, addr), LiftList(L, false, t, mem, addr))
    decreases t, 3, 0
  {
    hide Check, Lift, GetInt, Raw, CutSize, CanonLift, CheckElements, LiftElements;
    GetRaw(J.Uint32, mem, addr);
    GetRaw(J.Uint32, mem, addr + 4);
    if addr + 8 <= |mem| {
      var ptr, len := Raw(mem, addr, 4), Raw(mem, addr + 4, 4);
      if ArrayNum(t).Some? {
        CutIs(ViewOf(ArrayNum(t).value), mem, ptr, len);
      } else {
        ElementsVerdict(L, t, mem, ptr, len);
      }
    }
  }

  lemma {:induction false} ElementsVerdict(L: Layout, t: Ty, mem: Memory, ptr: nat, n: nat)
    requires WellFormed(t)
    ensures Judged(CheckElements(L, t, mem, ptr, n), LiftElements(L, false, t, mem, ptr, n))
    decreases t, 2, n
  {
    hide Check, Lift;
    if n > 0 {
      ElementsVerdict(L, t, mem, ptr, n - 1);
      LiftVerdict(L, t, mem, ElementAddr(ptr, L.size(t), n - 1));
    }
  }

  /**
   For every type and memory: code without validation agrees with validating code exactly if the first thing that is
   wrong in the bytes, if any, is that they leave the memory. It never throws a TypeError.
   */
  lemma FastExactly(L: Layout, ty: Ty, mem: Memory, addr: nat)
    requires WellFormed(ty)
    ensures Lift(L, true, ty, mem, addr) == Lift(L, false, ty, mem, addr) <==> Check(L, ty, mem, addr) != Bad
    ensures Lift(L, true, ty, mem, addr) != Err(TypeError)
  {
    FastRefines(L, ty, mem, addr);
    FastExact(L, ty, mem, addr);
    LiftVerdict(L, ty, mem, addr);
  }
}
