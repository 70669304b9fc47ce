/** Bitwise operators of JavaScript on 32-bit integers, by their binary digits. */
module Bits {
  import opened Bytes

  function Pow2(n: nat): (p: nat)
    ensures p > 0
  {
    if n == 0 then 1 else 2 * Pow2(n - 1)
  }

  function Digit(b: bool): nat { if b then 1 else 0 }

  predicate Odd(x: nat) { x % 2 == 1 }

  predicate Bit(x: nat, i: nat)
    decreases i
  {
    if i == 0 then Odd(x) else Bit(x / 2, i - 1)
  }

  function Or(x: nat, y: nat): nat
  {
    if x == 0 && y == 0 then 0 else Digit(Odd(x) || Odd(y)) + 2 * Or(x / 2, y / 2)
  }

  function And(x: nat, y: nat): nat
  {
    if x == 0 || y == 0 then 0 else Digit(Odd(x) && Odd(y)) + 2 * And(x / 2, y / 2)
  }

  /** ToUint32 and ToInt32 of an integer. */
  function Unsigned32(x: int): nat { x % TWO32 }

  function Signed32(x: int): int { Signed(Unsigned32(x), 4) }

  function JsOr(x: int, y: int): int { Signed32(Or(Unsigned32(x), Unsigned32(y))) }

  function JsAnd(x: int, y: int): int { Signed32(And(Unsigned32(x), Unsigned32(y))) }

  function JsShl(x: int, n: nat): int
    requires n < 32
  {
    Signed32(Unsigned32(x) * Pow2(n))
  }

  lemma Pow32()
    ensures Pow2(8) == 0x100 && Pow2(16) == 0x1_0000 && Pow2(32) == TWO32 == Span(4)
  {
    Spans();
    PowAdd(2, 2);
    PowAdd(4, 4);
    PowAdd(8, 8);
    PowAdd(16, 16);
    assert Pow2(2) == 2 * Pow2(1) && Pow2(1) == 2 * Pow2(0);
  }

  lemma {:induction false} PowAdd(m: nat, n: nat)
    ensures Pow2(m + n) == Pow2(m) * Pow2(n)
  {
    if m > 0 {
      PowAdd(m - 1, n);
    }
  }

  lemma {:induction false} PowMonotone(m: nat, n: nat)
    requires m <= n
    ensures Pow2(m) <= Pow2(n)
    decreases n
  {
    if m < n {
      PowMonotone(m, n - 1);
    }
  }

  lemma SignedBack(x: nat)
    requires x < TWO32
    ensures Unsigned32(Signed32(x)) == x && Unsigned32(Signed(x, 4)) == x && Signed32(x) == Signed(x, 4)
    ensures Signed32(x) == 0 <==> x == 0
  {
    Spans();
    SignedCongruent(x, 4);
  }

  /** A new highest digit is added by `|`. */
  lemma {:induction false} OrHigh(x: nat, i: nat)
    requires x < Pow2(i)
    ensures Or(x, Pow2(i)) == x + Pow2(i)
  {
    if i == 0 {
      assert Or(0, 0) == 0;
    } else {
      OrHigh(x / 2, i - 1);
      assert Pow2(i) / 2 == Pow2(i - 1) && !Odd(Pow2(i));
    }
  }

  lemma {:induction false} OrZeroRight(x: nat)
    ensures Or(x, 0) == x
  {
    if x != 0 {
      OrZeroRight(x / 2);
    }
  }

  /** A mask with one digit selects that digit. */
  lemma {:induction false} AndOne(x: nat, i: nat)
    ensures And(x, Pow2(i)) == if Bit(x, i) then Pow2(i) else 0
    decreases i
  {
    if i == 0 {
      assert And(x / 2, 0) == 0;
    } else {
      assert Pow2(i) / 2 == Pow2(i - 1) && !Odd(Pow2(i));
      AndOne(x / 2, i - 1);
      if x == 0 {
        BitZero(i);
      }
    }
  }

  lemma {:induction false} BitZero(i: nat)
    ensures !Bit(0, i)
  {
    if i > 0 {
      BitZero(i - 1);
    }
  }

  /** All digits from `k` up to `w`. */
  function Mask(w: nat, k: nat): nat
    requires k <= w
  {
    PowMonotone(k, w);
    Pow2(w) - Pow2(k)
  }

  /** Such a mask tells whether a number with `w` digits has any of them set. */
  lemma {:induction false} AndMask(x: nat, w: nat, k: nat)
    requires k <= w && x < Pow2(w)
    ensures And(x, Mask(w, k)) == 0 <==> x < Pow2(k)
    decreases w
  {
    if w > 0 {
      var m := Mask(w, k);
      if k > 0 {
        AndMask(x / 2, w - 1, k - 1);
        assert m / 2 == Mask(w - 1, k - 1) && !Odd(m);
      } else {
        AndMask(x / 2, w - 1, 0);
        assert m / 2 == Mask(w - 1, 0) && Odd(m);
      }
    }
  }

  lemma {:induction false} AndBound(x: nat, y: nat)
    ensures And(x, y) <= x
  {
    if x != 0 && y != 0 {
      AndBound(x / 2, y / 2);
    }
  }

  /** The number with these binary digits, least significant first. */
  function Pack(bits: seq<bool>): nat
  {
    if bits == [] then 0 else Digit(bits[0]) + 2 * Pack(bits[1..])
  }

  lemma {:induction false} PackBound(bits: seq<bool>)
    ensures Pack(bits) < Pow2(|bits|)
  {
    if bits != [] {
      PackBound(bits[1..]);
    }
  }

  lemma {:induction false} PackAppend(a: seq<bool>, b: seq<bool>)
    ensures Pack(a + b) == Pack(a) + Pow2(|a|) * Pack(b)
  {
    if a == [] {
      assert a + b == b;
    } else {
      PackAppend(a[1..], b);
      assert (a + b)[1..] == a[1..] + b;
      assert 2 * (Pow2(|a| - 1) * Pack(b)) == Pow2(|a|) * Pack(b);
    }
  }

  lemma {:induction false} BitPack(bits: seq<bool>, i: nat)
    requires i < |bits|
    ensures Bit(Pack(bits), i) == bits[i]
  {
    if i > 0 {
      BitPack(bits[1..], i - 1);
    }
  }

  function Digits(x: nat, n: nat): (bits: seq<bool>)
    ensures |bits| == n
  {
    seq(n, i requires 0 <= i < n => Bit(x, i))
  }

  lemma {:induction false} PackDigits(x: nat, n: nat)
    requires x < Pow2(n)
    ensures Pack(Digits(x, n)) == x
    decreases n
  {
    if n > 0 {
      PackDigits(x / 2, n - 1);
      assert Digits(x, n)[1..] == Digits(x / 2, n - 1);
    }
  }
}
