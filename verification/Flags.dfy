/** The code emitted for `FlagsLower` and `FlagsLift`. */
module Flags {
  import opened Wrappers
  import opened Bytes
  import opened Bits

  /** The bytes of one word, and the number of words, that hold `n` flags. */
  function WordWidth(n: nat): nat { if n <= 8 then 1 else if n <= 16 then 2 else 4 }

  function WordCount(n: nat): nat { (n + 31) / 32 }

  /** Where word `j` stands, from the first. */
  function WordOffset(n: nat, j: nat): nat { if n <= 8 then j else if n <= 16 then 2 * j else 4 * j }

  /** The flags of word `j`. */
  function Chunk(bits: seq<bool>, j: nat): (r: seq<bool>)
    requires j < WordCount(|bits|)
    ensures 0 < |r| <= 32
  {
    if 32 * j + 32 <= |bits| then bits[32 * j..32 * j + 32] else bits[32 * j..]
  }

  /** `Boolean(f0) << 0 | Boolean(f1) << 1 | ...`, for the first `k` flags of a chunk. */
  function OrAll(chunk: seq<bool>, k: nat): int
    requires k <= |chunk| <= 32
  {
    if k == 0 then 0 else JsOr(OrAll(chunk, k - 1), JsShl(Digit(chunk[k - 1]), k - 1))
  }

  function LowerFlags(bits: seq<bool>): (words: seq<int>)
    ensures |words| == WordCount(|bits|)
  {
    seq(WordCount(|bits|), j requires 0 <= j < WordCount(|bits|) => OrAll(Chunk(bits, j), |Chunk(bits, j)|))
  }

  /** The check of the last word; there is none when all its digits are flags, or if lifting is trusted. */
  predicate Extraneous(fast: bool, n: nat, words: seq<int>)
    requires n > 0 && |words| == WordCount(n)
  {
    n % 32 != 0 && !fast && JsAnd(words[|words| - 1], Mask(32, n % 32)) != 0
  }

  /** The lifted flags; None is the TypeError about extraneous bits. */
  function LiftFlags(fast: bool, n: nat, words: seq<int>): Option<seq<bool>>
    requires n > 0 && |words| == WordCount(n)
  {
    if Extraneous(fast, n, words) then None
    else Some(seq(n, i requires 0 <= i < n => Lifted(words[i / 32], i % 32)))
  }

  /** `Boolean(op & mask)` */
  predicate Lifted(w: int, i: nat) { JsAnd(w, Pow2(i)) != 0 }

  /** What the loads of `n` flags can give: unsigned words of one or two bytes, or signed words of four. */
  predicate Word(n: nat, w: int)
  {
    if n <= 16 then 0 <= w < Span(WordWidth(n)) else -TWO31 <= w < TWO31
  }

  predicate Words(n: nat, words: seq<int>)
  {
    |words| == WordCount(n) && forall j :: 0 <= j < |words| ==> Word(n, words[j])
  }

  lemma Below32(i: nat)
    requires i <= 32
    ensures Pow2(i) <= TWO32 && (i < 32 ==> 2 * Pow2(i) <= TWO32)
  {
    Pow32();
    PowMonotone(i, 32);
    if i < 32 {
      PowMonotone(i + 1, 32);
    }
  }

  /** One more flag is or-ed in. */
  lemma OrStep(low: nat, b: bool, i: nat)
    requires i < 32 && low < Pow2(i)
    ensures JsOr(Signed(low, 4), JsShl(Digit(b), i)) == Signed(low + Digit(b) * Pow2(i), 4)
  {
    Below32(i);
    SignedBack(low);
    if b {
      OrHigh(low, i);
      SignedBack(Pow2(i));
      SignedBack(low + Pow2(i));
    } else {
      OrZeroRight(low);
      SignedBack(0);
    }
  }

  lemma PackSnoc(bits: seq<bool>, b: bool)
    ensures Pack(bits + [b]) == Pack(bits) + Digit(b) * Pow2(|bits|)
  {
    PackAppend(bits, [b]);
    PackOne(b);
    Commutes(Pow2(|bits|), b);
  }

  lemma PackOne(b: bool)
    ensures Pack([b]) == Digit(b)
  {
    assert [b][1..] == [] && Pack([b]) == Digit(b) + 2 * Pack([b][1..]);
  }

  lemma Commutes(p: nat, b: bool)
    ensures p * Digit(b) == Digit(b) * p
  {
  }

  lemma {:induction false} OrAllIs(chunk: seq<bool>, k: nat)
    requires k <= |chunk| <= 32
    ensures OrAll(chunk, k) == Signed(Pack(chunk[..k]), 4)
    decreases k
  {
    hide JsOr, JsShl, Pow2;
    if k == 0 {
      SignedBack(0);
    } else {
      OrAllIs(chunk, k - 1);
      assert chunk[..k] == chunk[..k - 1] + [chunk[k - 1]];
      PackSnoc(chunk[..k - 1], chunk[k - 1]);
      PackBound(chunk[..k - 1]);
      OrStep(Pack(chunk[..k - 1]), chunk[k - 1], k - 1);
    }
  }

  /** A lowered word is its chunk, packed, as a signed 32-bit number. */
  lemma LoweredWord(bits: seq<bool>, j: nat)
    requires j < WordCount(|bits|)
    ensures LowerFlags(bits)[j] == Signed(Pack(Chunk(bits, j)), 4)
    ensures Unsigned32(LowerFlags(bits)[j]) == Pack(Chunk(bits, j)) < Pow2(|Chunk(bits, j)|) <= TWO32
  {
    var chunk := Chunk(bits, j);
    assert chunk[..|chunk|] == chunk;
    OrAllIs(chunk, |chunk|);
    PackBound(chunk);
    Below32(|chunk|);
    SignedBack(Pack(chunk));
  }

  lemma AndZero(w: int, m: nat)
    ensures JsAnd(w, m) == 0 <==> And(Unsigned32(w), Unsigned32(m)) == 0
  {
    AndBound(Unsigned32(w), Unsigned32(m));
    SignedBack(And(Unsigned32(w), Unsigned32(m)));
  }

  lemma LiftedBit(w: int, i: nat)
    requires i < 32
    ensures Lifted(w, i) <==> Bit(Unsigned32(w), i)
  {
    Below32(i);
    AndOne(Unsigned32(w), i);
    AndZero(w, Pow2(i));
  }

  lemma MaskBelow(k: nat)
    requires k <= 32
    ensures Unsigned32(Mask(32, k)) == Mask(32, k) && Pow2(32) == TWO32
  {
    Pow32();
  }

  lemma CheckedWord(w: int, k: nat)
    requires k < 32
    ensures JsAnd(w, Mask(32, k)) == 0 <==> Unsigned32(w) < Pow2(k)
  {
    MaskBelow(k);
    AndMask(Unsigned32(w), 32, k);
    AndZero(w, Mask(32, k));
  }

  lemma ChunkAt(bits: seq<bool>, i: nat)
    requires i < |bits|
    ensures i / 32 < WordCount(|bits|) && i % 32 < |Chunk(bits, i / 32)|
    ensures Chunk(bits, i / 32)[i % 32] == bits[i]
  {
    assert i == 32 * (i / 32) + i % 32;
  }

  lemma LoweredInRange(bits: seq<bool>, j: nat)
    requires j < WordCount(|bits|)
    ensures Word(|bits|, LowerFlags(bits)[j])
  {
    Spans();
    LoweredWord(bits, j);
    if |bits| <= 16 {
      PowMonotone(|bits|, if |bits| <= 8 then 8 else 16);
      Pow32();
    }
  }

  lemma LiftedFlag(bits: seq<bool>, i: nat)
    requires i < |bits|
    ensures Lifted(LowerFlags(bits)[i / 32], i % 32) == bits[i]
  {
    ChunkAt(bits, i);
    LoweredWord(bits, i / 32);
    LiftedBit(LowerFlags(bits)[i / 32], i % 32);
    BitPack(Chunk(bits, i / 32), i % 32);
  }

  lemma NotExtraneous(fast: bool, bits: seq<bool>)
    requires |bits| > 0
    ensures !Extraneous(fast, |bits|, LowerFlags(bits))
  {
    var last := WordCount(|bits|) - 1;
    if |bits| % 32 != 0 {
      LoweredWord(bits, last);
      assert |Chunk(bits, last)| == |bits| % 32;
      CheckedWord(LowerFlags(bits)[last], |bits| % 32);
    }
  }

  /** For any number of flags, lifting what was lowered gives the same flags, with and without the check. */
  lemma FlagsRoundTrip(fast: bool, bits: seq<bool>)
    requires |bits| > 0
    ensures LiftFlags(fast, |bits|, LowerFlags(bits)) == Some(bits)
  {
    NotExtraneous(fast, bits);
    var lifted := LiftFlags(fast, |bits|, LowerFlags(bits)).value;
    forall i | 0 <= i < |bits|
      ensures lifted[i] == bits[i]
    {
      LiftedFlag(bits, i);
    }
    assert lifted == bits;
  }

  /** A word whose digits are the flags of a chunk, and that has no others. */
  lemma WordFromChunk(n: nat, w: int, bits: seq<bool>, j: nat)
    requires |bits| == n > 0 && Word(n, w) && j < WordCount(n)
    requires Unsigned32(w) < Pow2(|Chunk(bits, j)|)
    requires forall i :: 0 <= i < |Chunk(bits, j)| ==> Chunk(bits, j)[i] == Lifted(w, i)
    ensures LowerFlags(bits)[j] == w
  {
    var chunk, x := Chunk(bits, j), Unsigned32(w);
    forall i | 0 <= i < |chunk|
      ensures chunk[i] == Bit(x, i)
    {
      LiftedBit(w, i);
    }
    assert chunk == Digits(x, |chunk|);
    PackDigits(x, |chunk|);
    LoweredWord(bits, j);
    WordBack(n, w);
  }

  lemma WordBack(n: nat, w: int)
    requires Word(n, w)
    ensures Signed(Unsigned32(w), 4) == w
  {
    Spans();
  }

  lemma LiftedChunk(n: nat, words: seq<int>, j: nat)
    requires n > 0 && Words(n, words) && LiftFlags(false, n, words).Some? && j < WordCount(n)
    ensures var chunk := Chunk(LiftFlags(false, n, words).value, j);
      && (forall i :: 0 <= i < |chunk| ==> chunk[i] == Lifted(words[j], i))
      && Unsigned32(words[j]) < Pow2(|chunk|)
  {
    hide JsAnd, Mask, Pow2, Lifted;
    var bits := LiftFlags(false, n, words).value;
    var chunk := Chunk(bits, j);
    if |chunk| < 32 {
      assert j == |words| - 1 && |chunk| == n % 32;
      assert !Extraneous(false, n, words);
      CheckedWord(words[j], |chunk|);
    } else {
      MaskBelow(0);
      assert |chunk| == 32;
    }
    forall i | 0 <= i < |chunk|
      ensures chunk[i] == Lifted(words[j], i)
    {
      assert chunk[i] == bits[32 * j + i] && (32 * j + i) / 32 == j && (32 * j + i) % 32 == i;
    }
  }

  /** Words that pass the check are what their flags are lowered to. */
  lemma Accepted(n: nat, words: seq<int>)
    requires n > 0 && Words(n, words) && LiftFlags(false, n, words).Some?
    ensures LowerFlags(LiftFlags(false, n, words).value) == words
  {
    var bits := LiftFlags(false, n, words).value;
    forall j | 0 <= j < |words|
      ensures LowerFlags(bits)[j] == words[j]
    {
      LiftedChunk(n, words, j);
      WordFromChunk(n, words[j], bits, j);
    }
  }

  /** The check accepts a word vector exactly if it is what some flags are lowered to. */
  lemma ExtraneousExact(n: nat, words: seq<int>)
    requires n > 0 && Words(n, words)
    ensures !Extraneous(false, n, words) <==> exists bits: seq<bool> :: |bits| == n && LowerFlags(bits) == words
  {
    if !Extraneous(false, n, words) {
      Accepted(n, words);
      assert |LiftFlags(false, n, words).value| == n;
    } else {
      forall bits: seq<bool> | |bits| == n && LowerFlags(bits) == words
        ensures false
      {
        FlagsRoundTrip(false, bits);
      }
    }
  }
}
