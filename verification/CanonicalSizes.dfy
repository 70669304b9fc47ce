/** Sizes and alignments of the canonical ABI of the component model: a layout as assumed by the proofs. */
module CanonicalSizes {
  import opened Bytes
  import opened Flags
  import opened Abi

  function Max(a: nat, b: nat): nat { if a < b then b else a }

  /** The next multiple of `align`. */
  function AlignTo(offset: nat, align: nat): (r: nat)
    requires align > 0
    ensures offset <= r < offset + align && r % align == 0
  {
    if offset == 0 then 0
    else if offset <= align then
      ModShift(0, 1, align);
      align
    else
      ModShift(AlignTo(offset - align, align), 1, align);
      align + AlignTo(offset - align, align)
  }

  function Align(ty: Ty): (a: nat)
    ensures a > 0
    decreases ty, 1, 0
  {
    if Discriminated(ty) then Max(DiscSize(|Arms(ty)|), ArmsAlign(ty, |Arms(ty)|))
    else
      match ty
      case BoolTy => 1
      case NumTy(k) => Width(k)
      case FlagsTy(n) => WordWidth(n)
      case TupleTy(fields) => FieldsAlign(ty, |fields|)
      case ListTy(_) => 4
      case AliasTy(t) => Align(t)
  }

  function ArmsAlign(ty: Ty, n: nat): (a: nat)
    requires Discriminated(ty) && n <= |Arms(ty)|
    ensures a > 0
    decreases ty, 0, n
  {
    if n == 0 then 1
    else if Arms(ty)[n - 1].None? then ArmsAlign(ty, n - 1)
    else Max(ArmsAlign(ty, n - 1), Align(Arms(ty)[n - 1].value))
  }

  function FieldsAlign(ty: Ty, n: nat): (a: nat)
    requires ty.TupleTy? && n <= |ty.fields|
    ensures a > 0
    decreases ty, 0, n
  {
    if n == 0 then 1 else Max(FieldsAlign(ty, n - 1), Align(ty.fields[n - 1]))
  }

  function Size(ty: Ty): nat
    decreases ty, 1, 0
  {
    if Discriminated(ty) then AlignTo(PayloadOffset(ty) + ArmsSize(ty, |Arms(ty)|), Align(ty))
    else
      match ty
      case BoolTy => 1
      case NumTy(k) => Width(k)
      case FlagsTy(n) => FlagsSize(n)
      case TupleTy(fields) => AlignTo(FieldsEnd(ty, |fields|), Align(ty))
      case ListTy(_) => 8
      case AliasTy(t) => Size(t)
  }

  function ArmsSize(ty: Ty, n: nat): nat
    requires Discriminated(ty) && n <= |Arms(ty)|
    decreases ty, 0, n
  {
    if n == 0 then 0
    else if Arms(ty)[n - 1].None? then ArmsSize(ty, n - 1)
    else Max(ArmsSize(ty, n - 1), Size(Arms(ty)[n - 1].value))
  }

  /** Where the payloads of a discriminated type start. */
  function PayloadOffset(ty: Ty): (r: nat)
    requires Discriminated(ty)
    ensures r >= DiscSize(|Arms(ty)|)
  {
    AlignTo(DiscSize(|Arms(ty)|), ArmsAlign(ty, |Arms(ty)|))
  }

  /** Where the first `n` fields of a tuple end. */
  function FieldsEnd(ty: Ty, n: nat): nat
    requires ty.TupleTy? && n <= |ty.fields|
    decreases ty, 0, n
  {
    if n == 0 then 0 else AlignTo(FieldsEnd(ty, n - 1), Align(ty.fields[n - 1])) + Size(ty.fields[n - 1])
  }

  function FieldOffset(ty: Ty, i: nat): (r: nat)
    requires ty.TupleTy? && i < |ty.fields|
    ensures FieldsEnd(ty, i) <= r && r + Size(ty.fields[i]) == FieldsEnd(ty, i + 1)
  {
    AlignTo(FieldsEnd(ty, i), Align(ty.fields[i]))
  }

  lemma {:induction false} ArmsSizeMonotone(ty: Ty, i: nat, n: nat)
    requires Discriminated(ty) && i < n <= |Arms(ty)| && Arms(ty)[i].Some?
    ensures Size(Arms(ty)[i].value) <= ArmsSize(ty, n)
    decreases n
  {
    if i < n - 1 {
      ArmsSizeMonotone(ty, i, n - 1);
    }
  }

  /** Every payload fits behind the discriminant. */
  lemma PayloadFits(ty: Ty, i: nat)
    requires Discriminated(ty) && i < |Arms(ty)|
    ensures DiscSize(|Arms(ty)|) <= PayloadOffset(ty) <= Size(ty)
    ensures Arms(ty)[i].Some? ==> PayloadOffset(ty) + Size(Arms(ty)[i].value) <= Size(ty)
  {
    if Arms(ty)[i].Some? {
      ArmsSizeMonotone(ty, i, |Arms(ty)|);
    }
  }

  lemma {:induction false} FieldsEndMonotone(ty: Ty, i: nat, n: nat)
    requires ty.TupleTy? && i <= n <= |ty.fields|
    ensures FieldsEnd(ty, i) <= FieldsEnd(ty, n)
    decreases n
  {
    if i < n {
      FieldsEndMonotone(ty, i, n - 1);
    }
  }

  /** Fields follow each other inside the tuple. */
  lemma FieldFits(ty: Ty, i: nat)
    requires ty.TupleTy? && i < |ty.fields|
    ensures FieldsEnd(ty, i) <= FieldOffset(ty, i)
    ensures FieldOffset(ty, i) + Size(ty.fields[i]) == FieldsEnd(ty, i + 1) <= Size(ty)
  {
    FieldsEndMonotone(ty, i + 1, |ty.fields|);
  }

  /** A type without bytes has size 0. */
  lemma {:induction false} NoBytesNoSize(ty: Ty)
    requires !HasBytes(ty)
    ensures Size(ty) == 0
    decreases ty, 1, 0
  {
    if ty.TupleTy? {
      NothingBefore(ty, |ty.fields|);
    } else if ty.AliasTy? {
      NoBytesNoSize(ty.target);
    }
  }

  lemma {:induction false} NothingBefore(ty: Ty, n: nat)
    requires ty.TupleTy? && n <= |ty.fields| && !BytesBefore(ty.fields, n)
    ensures FieldsEnd(ty, n) == 0
    decreases ty, 0, n
  {
    if n > 0 {
      NothingBefore(ty, n - 1);
      NoBytesNoSize(ty.fields[n - 1]);
    }
  }

  lemma LeadingField(ty: Ty, i: nat)
    requires ty.TupleTy? && i < |ty.fields|
    ensures FieldLeads(CanonicalLayout(), ty, i)
  {
    if !BytesBefore(ty.fields, i) {
      NothingBefore(ty, i);
    }
  }

  function CanonicalLayout(): Layout
  {
    Layout(
      (t: Ty) => Size(t),
      (t: Ty) => Align(t),
      (t: Ty) => if Discriminated(t) then PayloadOffset(t) else 0,
      (t: Ty, i: nat) => if t.TupleTy? && i < |t.fields| then FieldOffset(t, i) else 0)
  }

  /** For every type, the parts of its values have room and do not overlap. */
  lemma CanonicalGood()
    ensures GoodLayout(CanonicalLayout())
  {
    forall ty: Ty
      ensures Roomy(CanonicalLayout(), ty)
    {
      CanonicalRoomy(ty);
    }
  }

  lemma CanonicalRoomy(ty: Ty)
    ensures Roomy(CanonicalLayout(), ty)
  {
    hide AlignTo, Align;
    if Discriminated(ty) {
      forall i | 0 <= i < |Arms(ty)| && Arms(ty)[i].Some?
        ensures PayloadOffset(ty) + Size(Arms(ty)[i].value) <= Size(ty)
      {
        PayloadFits(ty, i);
      }
    } else if ty.TupleTy? {
      forall i | 0 <= i < |ty.fields|
        ensures FieldRoom(CanonicalLayout(), ty, i) && FieldLeads(CanonicalLayout(), ty, i)
      {
        FieldFits(ty, i);
        LeadingField(ty, i);
        if i + 1 < |ty.fields| {
          FieldFits(ty, i + 1);
        }
      }
    }
  }

  // ----- alignment -----

  predicate PowerUpTo8(a: nat) { a == 1 || a == 2 || a == 4 || a == 8 }

  lemma {:induction false} AlignIs(ty: Ty)
    ensures PowerUpTo8(Align(ty))
    decreases ty, 1, 0
  {
    if Discriminated(ty) {
      ArmsAlignIs(ty, |Arms(ty)|);
    } else if ty.TupleTy? {
      FieldsAlignIs(ty, |ty.fields|);
    } else if ty.AliasTy? {
      AlignIs(ty.target);
    }
  }

  lemma {:induction false} ArmsAlignIs(ty: Ty, n: nat)
    requires Discriminated(ty) && n <= |Arms(ty)|
    ensures PowerUpTo8(ArmsAlign(ty, n))
    ensures forall i :: 0 <= i < n && Arms(ty)[i].Some? ==> Align(Arms(ty)[i].value) <= ArmsAlign(ty, n)
    ensures ArmsAlign(ty, n) == 1 || exists i :: 0 <= i < n && Arms(ty)[i].Some? && Align(Arms(ty)[i].value) == ArmsAlign(ty, n)
    decreases ty, 0, n
  {
    if n > 0 {
      ArmsAlignIs(ty, n - 1);
      if Arms(ty)[n - 1].Some? {
        AlignIs(Arms(ty)[n - 1].value);
      }
    }
  }

  lemma {:induction false} FieldsAlignIs(ty: Ty, n: nat)
    requires ty.TupleTy? && n <= |ty.fields|
    ensures PowerUpTo8(FieldsAlign(ty, n))
    ensures forall i :: 0 <= i < n ==> Align(ty.fields[i]) <= FieldsAlign(ty, n)
    ensures FieldsAlign(ty, n) == 1 || exists i :: 0 <= i < n && Align(ty.fields[i]) == FieldsAlign(ty, n)
    decreases ty, 0, n
  {
    if n > 0 {
      FieldsAlignIs(ty, n - 1);
      AlignIs(ty.fields[n - 1]);
    }
  }

  /** A smaller power divides a larger one, and its multiples. */
  lemma PowersDivide(x: nat, a: nat, b: nat)
    requires PowerUpTo8(a) && PowerUpTo8(b) && a <= b && x % b == 0
    ensures x % a == 0
  {
    var m := if a == b then 1 else if b == 2 * a then 2 else if b == 4 * a then 4 else 8;
    Multiple(x, a, m, b);
  }

  lemma Multiple(x: nat, a: nat, m: nat, b: nat)
    requires a > 0 && b == m * a && b > 0 && x % b == 0
    ensures x % a == 0
  {
    var q := x / b;
    assert x == q * b && q * (m * a) == (q * m) * a;
    ModUnique(x, a, q * m, 0);
  }

  lemma SumAligned(x: nat, y: nat, a: nat)
    requires PowerUpTo8(a) && x % a == 0 && y % a == 0
    ensures (x + y) % a == 0
  {
    assert x == (x / a) * a && y == (y / a) * a;
    ModUnique(x + y, a, x / a + y / a, 0);
  }

  /** Values of every type follow each other without losing their alignment. */
  lemma {:induction false} SizeAligned(ty: Ty)
    ensures Size(ty) % Align(ty) == 0
    decreases ty
  {
    if ty.AliasTy? {
      SizeAligned(ty.target);
    }
  }

  /** In every type, at an aligned address, every payload and every field stands at an address aligned for it. */
  lemma PartsAligned(ty: Ty, addr: nat, i: nat)
    requires addr % Align(ty) == 0
    ensures Discriminated(ty) && i < |Arms(ty)| && Arms(ty)[i].Some? ==>
      (addr + PayloadOffset(ty)) % Align(Arms(ty)[i].value) == 0
    ensures ty.TupleTy? && i < |ty.fields| ==> (addr + FieldOffset(ty, i)) % Align(ty.fields[i]) == 0
  {
    AlignIs(ty);
    if Discriminated(ty) && i < |Arms(ty)| && Arms(ty)[i].Some? {
      var a := Align(Arms(ty)[i].value);
      ArmsAlignIs(ty, |Arms(ty)|);
      AlignIs(Arms(ty)[i].value);
      PowersDivide(addr, a, Align(ty));
      PowersDivide(PayloadOffset(ty), a, ArmsAlign(ty, |Arms(ty)|));
      SumAligned(addr, PayloadOffset(ty), a);
    } else if ty.TupleTy? && i < |ty.fields| {
      FieldsAlignIs(ty, |ty.fields|);
      AlignIs(ty.fields[i]);
      PowersDivide(addr, Align(ty.fields[i]), Align(ty));
      SumAligned(addr, FieldOffset(ty, i), Align(ty.fields[i]));
    }
  }

  /** No alignment is larger than a part needs: that of the discriminant, a scalar, or some part. */
  lemma AlignLeast(ty: Ty)
    ensures ty.TupleTy? ==> Align(ty) == 1 || exists i :: 0 <= i < |ty.fields| && Align(ty.fields[i]) == Align(ty)
    ensures Discriminated(ty) ==>
      Align(ty) == DiscSize(|Arms(ty)|) ||
      exists i :: 0 <= i < |Arms(ty)| && Arms(ty)[i].Some? && Align(Arms(ty)[i].value) == Align(ty)
  {
    if Discriminated(ty) {
      ArmsAlignIs(ty, |Arms(ty)|);
    } else if ty.TupleTy? {
      FieldsAlignIs(ty, |ty.fields|);
    }
  }

  lemma {:induction false} ArmsSizeReached(ty: Ty, n: nat)
    requires Discriminated(ty) && n <= |Arms(ty)|
    ensures ArmsSize(ty, n) == 0 || exists i :: 0 <= i < n && Arms(ty)[i].Some? && Size(Arms(ty)[i].value) == ArmsSize(ty, n)
    decreases n
  {
    if n > 0 {
      ArmsSizeReached(ty, n - 1);
    }
  }

  /** The type ends with this payload, but for padding. */
  predicate EndsWithArm(ty: Ty, i: nat)
    requires Discriminated(ty)
  {
    i < |Arms(ty)| && Arms(ty)[i].Some? && Size(ty) < PayloadOffset(ty) + Size(Arms(ty)[i].value) + Align(ty)
  }

  /** The padding before the payloads is for this one. */
  predicate StartsForArm(ty: Ty, i: nat)
    requires Discriminated(ty)
  {
    && i < |Arms(ty)| && Arms(ty)[i].Some?
    && PayloadOffset(ty) < DiscSize(|Arms(ty)|) + Align(Arms(ty)[i].value)
  }

  /** Before every part, and at the end, there is no more padding than its alignment needs. */
  lemma NoWaste(ty: Ty, i: nat)
    ensures ty.TupleTy? && i < |ty.fields| ==>
      FieldOffset(ty, i) < (if i == 0 then 0 else FieldOffset(ty, i - 1) + Size(ty.fields[i - 1])) + Align(ty.fields[i])
    ensures ty.TupleTy? ==>
      var n := |ty.fields|;
      Size(ty) < (if n == 0 then 0 else FieldOffset(ty, n - 1) + Size(ty.fields[n - 1])) + Align(ty)
    ensures Discriminated(ty) ==> Size(ty) < PayloadOffset(ty) + Align(ty) || exists j: nat :: EndsWithArm(ty, j)
    ensures Discriminated(ty) ==>
      PayloadOffset(ty) == DiscSize(|Arms(ty)|) || exists j: nat :: StartsForArm(ty, j)
  {
    if Discriminated(ty) {
      var n := |Arms(ty)|;
      ArmsSizeReached(ty, n);
      ArmsAlignIs(ty, n);
      if ArmsSize(ty, n) != 0 {
        var j :| 0 <= j < n && Arms(ty)[j].Some? && Size(Arms(ty)[j].value) == ArmsSize(ty, n);
        assert EndsWithArm(ty, j);
      }
      if ArmsAlign(ty, n) != 1 {
        var j :| 0 <= j < n && Arms(ty)[j].Some? && Align(Arms(ty)[j].value) == ArmsAlign(ty, n);
        assert StartsForArm(ty, j);
      }
    }
  }

  /** Scalars and lists have their natural sizes and alignments; a list is two words. */
  lemma ScalarSizes(t: Ty, k: Num, n: nat)
    ensures Size(BoolTy) == Align(BoolTy) == 1 && Size(NumTy(k)) == Align(NumTy(k)) == Width(k)
    ensures Size(ListTy(t)) == 8 && Align(ListTy(t)) == 4 && Size(AliasTy(t)) == Size(t) && Align(AliasTy(t)) == Align(t)
    ensures n <= 8 ==> Align(FlagsTy(n)) == 1
    ensures 8 < n <= 16 ==> Align(FlagsTy(n)) == 2
    ensures n > 16 ==> Align(FlagsTy(n)) == 4
  {
  }
}
