/** What lifting reads: exactly the values that the memory holds. */
module Held {
  import opened Wrappers
  import opened Bytes
  import opened Bits
  import opened Flags
  import opened Abi
  import opened JsRepr
  import opened Lifting
  import J = JsHost

  // ----- getters -----

  predicate SignedView(e: J.Element) { e.Int8? || e.Int16? || e.Int32? || e.BigInt64? }

  /** What a getter can return. */
  predicate ViewRange(e: J.Element, x: int)
  {
    var span := Span(J.ElementSize(e));
    if SignedView(e) then -(span / 2) <= x < span / 2 else 0 <= x < span
  }

  lemma SpanEven(width: nat)
    requires width > 0
    ensures Span(width) == 2 * (Span(width) / 2)
  {
  }

  lemma SignedResidue(x: int, width: nat)
    requires width > 0 && -(Span(width) / 2) <= x < Span(width) / 2
    ensures Signed(x % Span(width), width) == x
  {
    SpanEven(width);
    ModUnique(x, Span(width), if x < 0 then -1 else 0, if x < 0 then x + Span(width) else x);
  }

  function BytesOf(mem: Memory, at: nat, width: nat): Option<seq<byte>>
  {
    if at + width <= |mem| then Some(mem[at..at + width]) else None
  }

  /** The number that bytes stand for, in one of the two readings. */
  function Reading(s: seq<byte>, signed: bool): int { if signed then Signed(FromLE(s), |s|) else FromLE(s) }

  lemma ReadingExact(s: seq<byte>, x: int, signed: bool)
    requires |s| > 0
    requires if signed then -(Span(|s|) / 2) <= x < Span(|s|) / 2 else 0 <= x < Span(|s|)
    ensures Reading(s, signed) == x <==> s == ToLE(x, |s|)
  {
    var width := |s|;
    FromLEToLE(x, width);
    FromLEBound(s);
    ToLEFromLE(s);
    if signed {
      SignedResidue(x, width);
      SignedCongruent(FromLE(s), width);
    } else {
      ModUnique(x, Span(width), 0, x);
    }
    ModUnique(FromLE(s), Span(width), 0, FromLE(s));
    if Reading(s, signed) == x {
      ToLECongruent(x, FromLE(s), width);
    }
  }

  /** A getter returns a number exactly if its bytes are there. */
  lemma GetExact(e: J.Element, mem: Memory, at: nat, x: int)
    requires ViewRange(e, x)
    ensures GetInt(e, mem, at) == Ok(x) <==> BytesOf(mem, at, J.ElementSize(e)) == Some(ToLE(x, J.ElementSize(e)))
  {
    hide Span, ToLE, FromLE;
    if at + J.ElementSize(e) <= |mem| {
      ReadingExact(mem[at..at + J.ElementSize(e)], x, SignedView(e));
    }
  }

  lemma GetInRange(e: J.Element, mem: Memory, at: nat)
    ensures var r := GetInt(e, mem, at); r.Ok? ==> ViewRange(e, r.value)
  {
    var width := J.ElementSize(e);
    if at + width <= |mem| {
      FromLEBound(mem[at..at + width]);
      SpanEven(width);
    }
  }

  lemma GetHere(e: J.Element, mem: Memory, at: nat, x: int, own: set<nat>)
    requires ViewRange(e, x) && BytesAt(mem, at, ToLE(x, J.ElementSize(e)), own)
    ensures GetInt(e, mem, at) == Ok(x)
  {
    GetExact(e, mem, at, x);
  }

  // ----- numbers and truth values -----

  /** What the getter for a number returns, by the number its bytes stand for. */
  lemma NumGet(k: Num, mem: Memory, addr: nat)
    requires addr + Width(k) <= |mem|
    ensures var raw := FromLE(mem[addr..addr + Width(k)]);
      J.Get(NumView(k), mem, addr) == Some(J.Numeric(NumView(k), raw)) && raw < Span(Width(k))
  {
    FromLEBound(mem[addr..addr + Width(k)]);
  }

  /** The number that `raw`, an unsigned integer of the right width, stands for. */
  function NumOf(k: Num, raw: nat): int { if SignedNum(k) then Signed(raw, Width(k)) else raw }

  lemma NumOfIs(k: Num, raw: nat)
    requires raw < Span(Width(k))
    ensures InRange(k, NumOf(k, raw)) && NumOf(k, raw) % Span(Width(k)) == raw
  {
    SpanEven(Width(k));
    SignedCongruent(raw, Width(k));
    ModUnique(raw, Span(Width(k)), 0, raw);
  }

  lemma FromNumeric(k: Num, raw: nat)
    requires raw < Span(Width(k)) && InRange(k, NumOf(k, raw))
    ensures FromCore(k, J.Numeric(NumView(k), raw)) == Ok(NumToJs(k, NumOf(k, raw)))
  {
    Spans();
    SignedCongruent(raw, Width(k));
    ModUnique(raw, Span(Width(k)), 0, raw);
  }

  /** Lifting a number gives the number whose bytes are there. */
  lemma NumLifted(k: Num, mem: Memory, addr: nat) returns (n: int)
    requires LiftNum(k, mem, addr).Ok?
    ensures InRange(k, n) && LiftNum(k, mem, addr) == Ok(Primitive(NumToJs(k, n)))
    ensures BytesOf(mem, addr, Width(k)) == Some(ToLE(n, Width(k)))
  {
    var s := mem[addr..addr + Width(k)];
    NumGet(k, mem, addr);
    n := NumOf(k, FromLE(s));
    NumOfIs(k, FromLE(s));
    FromNumeric(k, FromLE(s));
    ToLEFromLE(s);
    ModUnique(FromLE(s), Span(Width(k)), 0, FromLE(s));
    ToLECongruent(n, FromLE(s), Width(k));
  }

  lemma NumRight(k: Num, n: int, mem: Memory, addr: nat)
    requires InRange(k, n) && BytesOf(mem, addr, Width(k)) == Some(ToLE(n, Width(k)))
    ensures LiftNum(k, mem, addr) == Ok(Primitive(NumToJs(k, n)))
  {
    var s := mem[addr..addr + Width(k)];
    NumGet(k, mem, addr);
    NumOfIs(k, FromLE(s));
    FromNumeric(k, FromLE(s));
    var m := NumLifted(k, mem, addr);
    ToLEInjective(k, m, n);
  }

  lemma BoolRight(fast: bool, b: bool, mem: Memory, addr: nat)
    requires BytesOf(mem, addr, 1) == Some([Digit(b)])
    ensures LiftBool(fast, mem, addr) == Ok(Boolean(b))
  {
    ToLEByte(Digit(b));
    GetExact(J.Uint8, mem, addr, Digit(b));
  }

  lemma ToLEByte(x: byte)
    ensures ToLE(x, 1) == [x]
  {
    assert ToLE(x / 0x100, 0) == [];
  }

  lemma BoolLifted(mem: Memory, addr: nat) returns (b: bool)
    requires LiftBool(false, mem, addr).Ok?
    ensures LiftBool(false, mem, addr) == Ok(Boolean(b)) && BytesOf(mem, addr, 1) == Some([Digit(b)])
  {
    b := GetInt(J.Uint8, mem, addr).value == 1;
    ToLEByte(Digit(b));
    GetExact(J.Uint8, mem, addr, Digit(b));
  }

  // ----- flags -----

  lemma {:induction false} ToLETail(v: nat, at: nat, width: nat)
    ensures ToLE(v, at + width)[at..] == ToLE(v / Span(at), width)
    decreases at
  {
    if at == 0 {
      assert v / 1 == v;
    } else {
      ToLETail(v / 0x100, at - 1, width);
      assert ToLE(v, at + width)[at..] == ToLE(v / 0x100, at - 1 + width)[at - 1..];
      DivDiv(v, Span(at - 1));
    }
  }

  lemma DivDiv(v: nat, m: nat)
    requires m > 0
    ensures v / (0x100 * m) == (v / 0x100) / m
  {
    var q, r := (v / 0x100) / m, (v / 0x100) % m;
    assert v == 0x100 * (q * m + r) + v % 0x100;
    assert 0x100 * (q * m) == q * (0x100 * m);
    ModUnique(v, 0x100 * m, q, 0x100 * r + v % 0x100);
  }

  lemma {:induction false} ToLEHead(v: int, width: nat, more: nat)
    ensures ToLE(v, width + more)[..width] == ToLE(v, width)
    decreases width
  {
    if width > 0 {
      ToLEHead(v / 0x100, width - 1, more);
    }
  }

  lemma {:induction false} SpanPow(width: nat)
    ensures Span(width) == Pow2(8 * width)
  {
    if width > 0 {
      SpanPow(width - 1);
      PowAdd(8, 8 * (width - 1));
      Pow32();
    }
  }

  /** Dropping the digits before a chunk. */
  lemma DropDigits(before: seq<bool>, chunk: seq<bool>, rest: seq<bool>)
    ensures Pack(before + (chunk + rest)) / Pow2(|before|) == Pack(chunk) + Pow2(|chunk|) * Pack(rest)
  {
    var p, high := Pow2(|before|), Pack(chunk) + Pow2(|chunk|) * Pack(rest);
    PackAppend(before, chunk + rest);
    PackAppend(chunk, rest);
    PackBound(before);
    assert p * high == high * p;
    ModUnique(high * p + Pack(before), p, high, Pack(before));
  }

  lemma LowDigits(chunk: seq<bool>, rest: seq<bool>)
    requires |chunk| == 32 || (|chunk| < 32 && rest == [])
    ensures (Pack(chunk) + Pow2(|chunk|) * Pack(rest)) % TWO32 == Pack(chunk)
  {
    PackBound(chunk);
    Below32(|chunk|);
    Pow32();
    if |chunk| == 32 {
      assert Pow2(|chunk|) * Pack(rest) == Pack(rest) * TWO32;
      ModUnique(Pack(chunk) + Pack(rest) * TWO32, TWO32, Pack(rest), Pack(chunk));
    } else {
      assert Pow2(|chunk|) * 0 == 0;
      ModUnique(Pack(chunk), TWO32, 0, Pack(chunk));
    }
  }

  /** The flags of chunk `j` are the digits of word `j` of the packed flags. */
  lemma ChunkDigits(bits: seq<bool>, j: nat)
    requires j < WordCount(|bits|)
    ensures (Pack(bits) / Span(4 * j)) % TWO32 == Pack(Chunk(bits, j))
  {
    var chunk, at := Chunk(bits, j), 32 * j;
    var rest := bits[at + |chunk|..];
    assert bits == bits[..at] + (chunk + rest);
    SpanPow(4 * j);
    DropDigits(bits[..at], chunk, rest);
    LowDigits(chunk, rest);
  }

  /** Numbers that agree modulo 2^32 have the same low bytes. */
  lemma LowCongruent(x: int, y: int, w: nat)
    requires x % TWO32 == y % TWO32 && w <= 4
    ensures ToLE(x, w) == ToLE(y, w)
  {
    Spans();
    ToLECongruent(x, y, 4);
    ToLEHead(x, w, 4 - w);
    ToLEHead(y, w, 4 - w);
  }

  /** Word `j` of the bytes of `n` flags is `x`. */
  predicate WordIn(n: nat, all: seq<byte>, j: nat, x: int)
  {
    var at, w := WordOffset(n, j), WordWidth(n);
    at + w <= |all| && all[at..at + w] == ToLE(x, w)
  }

  predicate WordsIn(n: nat, all: seq<byte>, words: seq<int>)
  {
    && |all| == FlagsSize(n) && |words| == WordCount(n)
    && forall j :: 0 <= j < |words| ==> WordIn(n, all, j, words[j])
  }

  /** Only one byte string has given words. */
  lemma WordsUnique(n: nat, a: seq<byte>, b: seq<byte>, words: seq<int>)
    requires n > 0 && WordsIn(n, a, words) && WordsIn(n, b, words)
    ensures a == b
  {
    forall i | 0 <= i < |a|
      ensures a[i] == b[i]
    {
      var j, r := if n <= 16 then 0 else i / 4, if n <= 16 then i else i % 4;
      assert WordIn(n, a, j, words[j]) && WordIn(n, b, j, words[j]);
      var at, w := WordOffset(n, j), WordWidth(n);
      assert a[at..at + w][r] == a[i] && b[at..at + w][r] == b[i];
    }
  }

  /** Some of the bytes of a long number. */
  lemma BytesInside(v: nat, size: nat, at: nat, w: nat)
    requires at + w <= size
    ensures ToLE(v, size)[at..at + w] == ToLE(v / Span(at), w)
  {
    var all := ToLE(v, size);
    ToLETail(v, at, size - at);
    ToLEHead(v / Span(at), w, size - at - w);
    assert all[at..at + w] == all[at..][..w];
  }

  lemma LongWordIn(bits: seq<bool>, j: nat)
    requires j < WordCount(|bits|) && |bits| > 16
    ensures WordIn(|bits|, ToLE(Pack(bits), FlagsSize(|bits|)), j, Pack(Chunk(bits, j)))
  {
    var v, x := Pack(bits) / Span(4 * j), Pack(Chunk(bits, j));
    ChunkDigits(bits, j);
    assert v % TWO32 == x % TWO32 by {
      ModUnique(x, TWO32, 0, x);
    }
    LowCongruent(v, x, 4);
    BytesInside(Pack(bits), FlagsSize(|bits|), 4 * j, 4);
  }

  /** The words of the packed flags are the lowered words. */
  lemma PackedWords(bits: seq<bool>)
    requires |bits| > 0
    ensures WordsIn(|bits|, ToLE(Pack(bits), FlagsSize(|bits|)), LowerFlags(bits))
  {
    var n, all := |bits|, ToLE(Pack(bits), FlagsSize(|bits|));
    forall j | 0 <= j < WordCount(n)
      ensures WordIn(n, all, j, LowerFlags(bits)[j])
    {
      LoweredResidue(bits, j);
      if n <= 16 {
        assert Chunk(bits, 0) == bits && all[0..WordWidth(n)] == all;
      } else {
        LongWordIn(bits, j);
      }
      LowCongruent(LowerFlags(bits)[j], Pack(Chunk(bits, j)), WordWidth(n));
    }
  }

  lemma LoweredResidue(bits: seq<bool>, j: nat)
    requires j < WordCount(|bits|)
    ensures LowerFlags(bits)[j] % TWO32 == Pack(Chunk(bits, j)) % TWO32
  {
    LoweredWord(bits, j);
    Spans();
    SignedCongruent(Pack(Chunk(bits, j)), 4);
  }

  lemma WordViewIs(n: nat, x: int)
    requires n > 0
    ensures J.ElementSize(WordView(n)) == WordWidth(n)
    ensures ViewRange(WordView(n), x) <==> Word(n, x)
  {
    Spans();
  }

  lemma Within<T>(s: seq<T>, lo: nat, hi: nat, off: nat, w: nat)
    requires lo <= hi <= |s| && lo + off + w <= hi
    ensures s[lo..hi][off..off + w] == s[lo + off..lo + off + w]
  {
    var a, b := s[lo..hi][off..off + w], s[lo + off..lo + off + w];
    assert |a| == |b| && forall i :: 0 <= i < w ==> a[i] == b[i];
  }

  lemma WordRight(n: nat, x: int, all: seq<byte>, mem: Memory, addr: nat, j: nat)
    requires n > 0 && Word(n, x) && WordIn(n, all, j, x) && BytesOf(mem, addr, |all|) == Some(all)
    ensures GetInt(WordView(n), mem, addr + WordOffset(n, j)) == Ok(x)
  {
    Within(mem, addr, addr + |all|, WordOffset(n, j), WordWidth(n));
    WordViewIs(n, x);
    GetExact(WordView(n), mem, addr + WordOffset(n, j), x);
  }

  /** Loading words that are there. */
  lemma {:induction false} WordsRight(n: nat, words: seq<int>, all: seq<byte>, mem: Memory, addr: nat, k: nat)
    requires n > 0 && k <= |words| && Words(n, words) && WordsIn(n, all, words)
    requires BytesOf(mem, addr, |all|) == Some(all)
    ensures LoadWords(n, mem, addr, k) == Ok(words[..k])
    decreases k
  {
    if k > 0 {
      WordsRight(n, words, all, mem, addr, k - 1);
      WordRight(n, words[k - 1], all, mem, addr, k - 1);
      assert words[..k] == words[..k - 1] + [words[k - 1]];
    }
  }

  lemma LoweredWords(bits: seq<bool>)
    requires |bits| > 0
    ensures Words(|bits|, LowerFlags(bits))
  {
    forall j | 0 <= j < WordCount(|bits|)
      ensures Word(|bits|, LowerFlags(bits)[j])
    {
      LoweredInRange(bits, j);
    }
  }

  lemma FlagsRight(fast: bool, bits: seq<bool>, mem: Memory, addr: nat)
    requires |bits| > 0
    requires BytesOf(mem, addr, FlagsSize(|bits|)) == Some(ToLE(Pack(bits), FlagsSize(|bits|)))
    ensures LiftFlagsAt(fast, |bits|, mem, addr) == Ok(FlagsObject(bits))
  {
    PackedWords(bits);
    LoweredWords(bits);
    WordsRight(|bits|, LowerFlags(bits), ToLE(Pack(bits), FlagsSize(|bits|)), mem, addr, WordCount(|bits|));
    assert LowerFlags(bits)[..WordCount(|bits|)] == LowerFlags(bits);
    FlagsRoundTrip(fast, bits);
  }

  lemma WordLoaded(n: nat, mem: Memory, addr: nat, j: nat)
    requires n > 0 && GetInt(WordView(n), mem, addr + WordOffset(n, j)).Ok?
    ensures var x := GetInt(WordView(n), mem, addr + WordOffset(n, j)).value;
      Word(n, x) && WordIn(n, mem[addr..], j, x)
    ensures addr + WordOffset(n, j) + WordWidth(n) <= |mem|
  {
    var at, x := addr + WordOffset(n, j), GetInt(WordView(n), mem, addr + WordOffset(n, j)).value;
    GetInRange(WordView(n), mem, at);
    WordViewIs(n, x);
    GetExact(WordView(n), mem, at, x);
    Within(mem, addr, |mem|, WordOffset(n, j), WordWidth(n));
  }

  /** The loaded words are in range, and their bytes are in memory. */
  lemma {:induction false} WordsLoaded(n: nat, mem: Memory, addr: nat, k: nat)
    requires n > 0 && 0 < k <= WordCount(n) && LoadWords(n, mem, addr, k).Ok?
    ensures addr + WordOffset(n, k - 1) + WordWidth(n) <= |mem|
    ensures var words := LoadWords(n, mem, addr, k).value;
      forall j :: 0 <= j < k ==> Word(n, words[j]) && WordIn(n, mem[addr..], j, words[j])
    decreases k
  {
    WordLoaded(n, mem, addr, k - 1);
    if k > 1 {
      WordsLoaded(n, mem, addr, k - 1);
    }
  }

  lemma WordsThere(n: nat, mem: Memory, addr: nat)
    requires n > 0 && LoadWords(n, mem, addr, WordCount(n)).Ok?
    ensures addr + FlagsSize(n) <= |mem| && Words(n, LoadWords(n, mem, addr, WordCount(n)).value)
    ensures WordsIn(n, mem[addr..addr + FlagsSize(n)], LoadWords(n, mem, addr, WordCount(n)).value)
  {
    var words := LoadWords(n, mem, addr, WordCount(n)).value;
    WordsLoaded(n, mem, addr, WordCount(n));
    var there := mem[addr..addr + FlagsSize(n)];
    forall j | 0 <= j < |words|
      ensures WordIn(n, there, j, words[j])
    {
      assert WordIn(n, mem[addr..], j, words[j]);
      assert mem[addr..][..FlagsSize(n)] == there;
      Shorter(mem[addr..], FlagsSize(n), WordOffset(n, j), WordWidth(n));
    }
  }

  lemma FlagsLifted(n: nat, mem: Memory, addr: nat) returns (bits: seq<bool>)
    requires n > 0 && LiftFlagsAt(false, n, mem, addr).Ok?
    ensures |bits| == n && LiftFlagsAt(false, n, mem, addr) == Ok(FlagsObject(bits))
    ensures BytesOf(mem, addr, FlagsSize(n)) == Some(ToLE(Pack(bits), FlagsSize(n)))
  {
    var words := LoadWords(n, mem, addr, WordCount(n)).value;
    WordsThere(n, mem, addr);
    bits := LiftFlags(false, n, words).value;
    Accepted(n, words);
    PackedWords(bits);
    WordsUnique(n, mem[addr..addr + FlagsSize(n)], ToLE(Pack(bits), FlagsSize(n)), words);
  }

  lemma Shorter<T>(s: seq<T>, n: nat, off: nat, w: nat)
    requires off + w <= n <= |s|
    ensures s[..n][off..off + w] == s[off..off + w]
  {
    var a, b := s[..n][off..off + w], s[off..off + w];
    assert |a| == |b| && forall i :: 0 <= i < w ==> a[i] == b[i];
  }
}
