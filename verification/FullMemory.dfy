/** A list whose size in bytes wraps, in a memory of 4 GiB: lowering succeeds and overwrites what is in use. */
module FullMemory {
  import opened Wrappers
  import opened Bytes
  import opened Bits
  import opened Flags
  import opened Abi
  import opened JsRepr
  import opened Lifting
  import opened Heaps
  import opened Lowering
  import opened Stores
  import opened Lengths
  import J = JsHost

  /** An allocator that serves requests of no bytes only. */
  function NoRoom(): Realloc
  {
    (h: Heap, align: nat, size: nat) => if size == 0 then Some((0, h)) else None
  }

  lemma NoRoomGood()
    ensures GoodRealloc(NoRoom()) && LowRealloc(NoRoom())
  {
    forall h, align, size | Sound(h)
      ensures Allocates(NoRoom(), h, align, size)
    {
    }
  }

  /** Nine flags take two bytes. */
  function Nine(): Ty { FlagsTy(9) }

  function Nulls(n: nat): (items: seq<Js>)
    ensures |items| == n
  {
    seq(n, i => Null)
  }

  function Zeros(n: nat): (s: seq<byte>)
    ensures |s| == n
  {
    seq(n, i => 0)
  }

  lemma {:induction false} PackFalse(n: nat)
    ensures Pack(seq(n, i => false)) == 0
  {
    if n > 0 {
      PackFalse(n - 1);
      assert seq(n, i => false)[1..] == seq(n - 1, i => false);
    }
  }

  /** No flags are one word of zero. */
  lemma NoFlags()
    ensures LowerFlags(seq(9, i => false)) == [0] && ToLE(0, 2) == [0, 0]
  {
    var bits: seq<bool> := seq(9, i => false);
    assert Chunk(bits, 0) == bits;
    LoweredWord(bits, 0);
    PackFalse(9);
    SignedBack(0);
    assert ToLE(0, 2) == [0 % 0x100] + ToLE(0 / 0x100, 1) && ToLE(0, 1) == [0 % 0x100] + ToLE(0, 0);
  }

  lemma NullLowered(L: Layout, realloc: Realloc, h: Heap, at: nat)
    requires at + 2 <= |h.mem|
    ensures Lower(L, realloc, Nine(), Null, h, at) == Ok(Write(h, at, [0, 0]))
  {
    NoFlags();
    var words := LowerFlags(seq(9, i => false));
    assert FlagsOf(9, Null) == Some(seq(9, i => false));
    assert StoreWords(9, words, h, at, 0) == Ok(h);
    assert StoreWords(9, words, h, at, 1) == Store(J.Int16, h, at + WordOffset(9, 0), 0);
  }

  lemma {:induction false} NullsLowered(L: Layout, realloc: Realloc, items: seq<Js>, h: Heap, n: nat)
    requires GoodLayout(L) && n <= |items| && (forall i :: 0 <= i < n ==> items[i] == Null) && 2 * n <= |h.mem|
    ensures LowerElements(L, realloc, Nine(), items, h, 0, n) == Ok(Write(h, 0, Zeros(2 * n)))
    decreases n
  {
    hide Lower, Write, GoodLayout;
    if n == 0 {
      WriteNothing(h, 0);
      assert Zeros(0) == [];
    } else {
      NullsLowered(L, realloc, items, h, n - 1);
      NineSize(L);
      ElementAddrIs(0, 2, n - 1);
      WriteSize(h, Zeros(2 * n - 2));
      NullLowered(L, realloc, Write(h, 0, Zeros(2 * n - 2)), 2 * n - 2);
      WriteAppend(h, 0, Zeros(2 * n - 2), [0, 0]);
      assert Zeros(2 * n - 2) + [0, 0] == Zeros(2 * n);
    }
  }

  lemma WriteSize(h: Heap, s: seq<byte>)
    requires |s| <= |h.mem|
    ensures |Write(h, 0, s).mem| == |h.mem|
  {
  }

  lemma NineSize(L: Layout)
    requires GoodLayout(L)
    ensures L.size(Nine()) == 2 && L.size(ListTy(Nine())) == 8
  {
    assert Roomy(L, Nine()) && Roomy(L, ListTy(Nine()));
  }

  function LongList(): Js { Arr(Nulls(TWO31)) }

  /** The request for 2^31 elements of two bytes is one for no bytes; the loop then writes the whole memory. */
  lemma AllOverwritten(L: Layout, h: Heap)
    requires GoodLayout(L) && |h.mem| == TWO32
    ensures Lower(L, NoRoom(), ListTy(Nine()), LongList(), h, 0) ==
      StoreSlot(Write(h, 0, Zeros(TWO32)), 0, 0, TWO31)
  {
    hide Write, StoreSlot, GoodLayout, LowerElements;
    NineSize(L);
    Spans();
    var items := Nulls(TWO31);
    assert LengthOf(Nine(), LongList()) == TWO31 && (TWO31 * 2) % TWO32 == 0;
    NullsLowered(L, NoRoom(), items, h, TWO31);
    assert Fill(L, NoRoom(), Nine(), LongList(), h, 0) == LowerElements(L, NoRoom(), Nine(), items, h, 0, TWO31);
  }

  /** The memory after length and pointer are stored. */
  lemma SlotOverZeros(h: Heap)
    requires |h.mem| == TWO32 && forall a :: 0 <= a < TWO32 ==> h.mem[a] == 0
    ensures var r := StoreSlot(h, 0, 0, TWO31);
      && r.Ok? && |r.value.mem| == TWO32
      && r.value.mem[0..4] == [0, 0, 0, 0] && r.value.mem[4..8] == [0, 0, 0, 0x80]
      && forall a :: 8 <= a < TWO32 ==> r.value.mem[a] == 0
  {
    LongBytes();
    var h1 := Store(J.Uint32, h, 4, TWO31).value;
    var h2 := Store(J.Uint32, h1, 0, 0).value;
    assert h1.mem[4..8] == [0, 0, 0, 0x80];
    assert h2.mem[4..8] == h1.mem[4..8];
  }

  lemma LongBytes()
    ensures ToLE(TWO31, 4) == [0, 0, 0, 0x80] && ToLE(0, 4) == [0, 0, 0, 0]
  {
    assert ToLE(0x80, 1) == [0x80 % 0x100] + ToLE(0x80 / 0x100, 0);
    assert ToLE(0x8000, 2) == [0x8000 % 0x100] + ToLE(0x8000 / 0x100, 1);
    assert ToLE(0x80_0000, 3) == [0x80_0000 % 0x100] + ToLE(0x80_0000 / 0x100, 2);
    assert ToLE(TWO31, 4) == [TWO31 % 0x100] + ToLE(TWO31 / 0x100, 3);
    assert ToLE(0, 1) == [0 % 0x100] + ToLE(0, 0) && ToLE(0, 2) == [0 % 0x100] + ToLE(0, 1);
    assert ToLE(0, 3) == [0 % 0x100] + ToLE(0, 2) && ToLE(0, 4) == [0 % 0x100] + ToLE(0, 3);
  }

  /**
   A memory of 4 GiB, where the slot of the list at 0 and another byte are in use: for every layout, lowering succeeds,
   and has cleared that byte.
   */
  lemma OverwrittenExample(L: Layout, h: Heap, a: nat)
    requires GoodLayout(L) && |h.mem| == TWO32 && Sound(h) && Used(h, 0, 8)
    requires 8 <= a < TWO32 && a in h.used && h.mem[a] == 7
    ensures GoodRealloc(NoRoom()) && LowRealloc(NoRoom()) && WellFormed(ListTy(Nine()))
    ensures JsArrays(LongList()) && !Short(L, ListTy(Nine()), LongList()) && !Spare(L, ListTy(Nine()), TWO32)
    ensures var r := Lower(L, NoRoom(), ListTy(Nine()), LongList(), h, 0);
      r.Ok? && |r.value.mem| == TWO32 && r.value.mem[a] == 0 && !Extends(h, r.value, 0, 8)
  {
    hide StoreSlot, Lower, GoodLayout, GoodRealloc, LowRealloc;
    NoRoomGood();
    NineSize(L);
    AllOverwritten(L, h);
    SlotOverZeros(Write(h, 0, Zeros(TWO32)));
    assert LengthOf(Nine(), LongList()) == TWO31;
  }

  /** What was lowered cannot be lifted: the stored length is read as flags that do not exist. */
  lemma NotLiftedExample(L: Layout, h: Heap)
    requires GoodLayout(L) && |h.mem| == TWO32
    ensures var r := Lower(L, NoRoom(), ListTy(Nine()), LongList(), h, 0);
      r.Ok? && Lift(L, false, ListTy(Nine()), r.value.mem, 0).Err?
  {
    hide StoreSlot, Lower, GoodLayout, LiftElements;
    NineSize(L);
    AllOverwritten(L, h);
    SlotOverZeros(Write(h, 0, Zeros(TWO32)));
    var mem := Lower(L, NoRoom(), ListTy(Nine()), LongList(), h, 0).value.mem;
    SlotRead(mem);
    FourthRefused(L, mem);
    LiftStops(L, false, Nine(), mem, 0, 4, TWO31);
  }

  lemma SlotRead(mem: Memory)
    requires |mem| >= 8 && mem[0..4] == [0, 0, 0, 0] && mem[4..8] == [0, 0, 0, 0x80]
    ensures GetInt(J.Uint32, mem, 0) == Ok(0) && GetInt(J.Uint32, mem, 4) == Ok(TWO31)
  {
    LongBytes();
    FromLEToLE(0, 4);
    FromLEToLE(TWO31, 4);
    Spans();
  }

  /** The fourth element is read from the bytes of the stored length. */
  lemma FourthRefused(L: Layout, mem: Memory)
    requires GoodLayout(L) && |mem| >= 8 && mem[4..8] == [0, 0, 0, 0x80]
    ensures LiftElements(L, false, Nine(), mem, 0, 4).Err?
  {
    hide GoodLayout;
    NineSize(L);
    ElementAddrIs(0, 2, 3);
    WordRead(mem);
    assert LoadWords(9, mem, 6, 0) == Ok([]);
    var none: seq<int> := [];
    assert WordOffset(9, 0) == 0 && none + [0x8000] == [0x8000];
    assert LoadWords(9, mem, 6, 1) == Ok([0x8000]);
    ExtraBit();
    assert Lift(L, false, Nine(), mem, 6) == Err(TypeError);
  }

  lemma WordRead(mem: Memory)
    requires |mem| >= 8 && mem[4..8] == [0, 0, 0, 0x80]
    ensures GetInt(J.Uint16, mem, 6) == Ok(0x8000)
  {
    var s := mem[4..8];
    assert mem[6..8] == s[2..4] == [0, 0x80];
    assert [0, 0x80][1..] == [0x80] && [0x80][1..] == [];
    assert FromLE([0x80]) == 0x80 + 0x100 * FromLE([0x80][1..]);
    assert FromLE([0, 0x80]) == 0 + 0x100 * FromLE([0, 0x80][1..]);
  }

  lemma ExtraBit()
    ensures Extraneous(false, 9, [0x8000])
  {
    CheckedWord(0x8000, 9);
    PowAdd(1, 8);
    Pow32();
    assert Pow2(1) == 2 * Pow2(0);
  }
}
