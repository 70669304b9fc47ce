/** The unsigned LEB128 length prefixes that opt.ts measures and writes. */
module Leb128 {
  import opened Bytes

  /** The shortest LEB128 encoding of `v`. */
  function Leb(v: nat): (s: seq<byte>)
    ensures |s| > 0
  {
    if v < 0x80 then [v] else [v % 0x80 + 0x80] + Leb(v / 0x80)
  }

  /** The number that a LEB128 byte string stands for; bytes after the terminating one are not looked at. */
  function Value(s: seq<byte>): nat
  {
    if s == [] then 0
    else if s[0] < 0x80 then s[0]
    else s[0] - 0x80 + 0x80 * Value(s[1..])
  }

  /** Every byte but the last has its continuation bit. */
  predicate Encoding(s: seq<byte>)
  {
    s != [] && s[|s| - 1] < 0x80 && forall i :: 0 <= i < |s| - 1 ==> s[i] >= 0x80
  }

  lemma {:induction false} LebRoundTrip(v: nat)
    ensures Encoding(Leb(v)) && Value(Leb(v)) == v
  {
    if v >= 0x80 {
      LebRoundTrip(v / 0x80);
      assert Leb(v)[1..] == Leb(v / 0x80);
    }
  }

  lemma {:induction false} LebMonotone(v: nat, w: nat)
    requires v <= w
    ensures |Leb(v)| <= |Leb(w)|
  {
    if v >= 0x80 {
      LebMonotone(v / 0x80, w / 0x80);
    }
  }

  /** No encoding of a number is shorter than `Leb`, and one of the same length is `Leb`. */
  lemma {:induction false} LebShortest(s: seq<byte>)
    requires Encoding(s)
    ensures |Leb(Value(s))| <= |s|
    ensures |Leb(Value(s))| == |s| ==> Leb(Value(s)) == s
  {
    if |s| > 1 {
      LebShortest(s[1..]);
      var v := Value(s);
      assert v / 0x80 == Value(s[1..]) && v % 0x80 == s[0] - 0x80;
      assert s == [s[0]] + s[1..];
    }
  }

  /**
   Leaving the first bytes of an old encoding in front of a new one denotes the new number only if nothing is left
   in front, or the number is zero and only padding is left.
   */
  lemma {:induction false} StalePrefix(stale: seq<byte>, v: nat)
    requires forall i :: 0 <= i < |stale| ==> stale[i] >= 0x80
    ensures Value(stale + Leb(v)) == v <==> stale == [] || (v == 0 && forall i :: 0 <= i < |stale| ==> stale[i] == 0x80)
  {
    if stale == [] {
      assert stale + Leb(v) == Leb(v);
      LebRoundTrip(v);
    } else {
      var rest := stale[1..];
      assert (stale + Leb(v))[1..] == rest + Leb(v);
      StalePrefix(rest, v);
      StaleGrows(rest, v);
      if forall i :: 0 <= i < |rest| ==> rest[i] == 0x80 {
        assert stale[0] == 0x80 ==> forall i :: 0 <= i < |stale| ==> stale[i] == 0x80 by {
          assert forall i :: 1 <= i < |stale| ==> stale[i] == rest[i - 1];
        }
      }
    }
  }

  lemma {:induction false} StaleGrows(stale: seq<byte>, v: nat)
    requires forall i :: 0 <= i < |stale| ==> stale[i] >= 0x80
    ensures Value(stale + Leb(v)) >= v
  {
    if stale == [] {
      assert stale + Leb(v) == Leb(v);
      LebRoundTrip(v);
    } else {
      StaleGrows(stale[1..], v);
      assert (stale + Leb(v))[1..] == stale[1..] + Leb(v);
    }
  }

  // ----- the two loops, on JavaScript numbers -----

  /** `val >>> 7`: the shift is on ToUint32 of the number. */
  function Shift7(val: nat): nat { (val % TWO32) / 0x80 }

  /** The bytes of the loop in `write`. */
  lemma Step(val: nat)
    ensures val % 0x80 == (val % TWO32) % 0x80
    ensures Shift7(val) < TWO32 && Shift7(val) % TWO32 == Shift7(val)
    ensures Leb(val % TWO32) == if Shift7(val) == 0 then [val % 0x80] else [val % 0x80 + 0x80] + Leb(Shift7(val))
  {
    assert val % TWO32 == val - TWO32 * (val / TWO32);
    assert val == 0x80 * (0x200_0000 * (val / TWO32) + Shift7(val)) + (val % TWO32) % 0x80;
    ModUnique(val, 0x80, 0x200_0000 * (val / TWO32) + Shift7(val), (val % TWO32) % 0x80);
  }

  /** byteLengthLEB128: the length of the encoding of the number modulo 2^32. */
  method ByteLengthLEB128(val: nat) returns (len: nat)
    ensures len == |Leb(val % TWO32)|
  {
    var v: nat := val;
    len := 0;
    Step(v);
    v := Shift7(v);
    len := len + 1;
    while v != 0
      invariant v < TWO32
      invariant |Leb(val % TWO32)| == len + if v == 0 then 0 else |Leb(v)|
      decreases v
    {
      Step(v);
      v := Shift7(v);
      len := len + 1;
    }
  }

  /** The encoding written for a number denotes it exactly when the number is below 2^32. */
  lemma LebExact(val: nat)
    ensures Value(Leb(val % TWO32)) == val <==> val < TWO32
  {
    LebRoundTrip(val % TWO32);
  }

  /** The prefix written for a body of 2^32 bytes says that it is empty. */
  lemma WrappedLengthExample()
    ensures Leb(TWO32 % TWO32) == [0] && Value([0]) == 0
  {
  }
}
