/** Bytes, little-endian integers and the modular conversions of JavaScript and WebAssembly. */
module Bytes {
  type byte = x: int | 0 <= x < 0x100
  type u32 = x: int | 0 <= x < 0x1_0000_0000
  type u64 = x: int | 0 <= x < 0x1_0000_0000_0000_0000

  const TWO31: int := 0x8000_0000
  const TWO32: int := 0x1_0000_0000
  const TWO64: int := 0x1_0000_0000_0000_0000

  /** The number of distinct values of `width` bytes. */
  function Span(width: nat): (p: int)
    ensures p > 0
  {
    if width == 0 then 1 else 0x100 * Span(width - 1)
  }

  /** The unsigned integer whose little-endian bytes are `s`. */
  function FromLE(s: seq<byte>): nat
  {
    if s == [] then 0 else s[0] + 0x100 * FromLE(s[1..])
  }

  /** The low `width` bytes of `v`, least significant first; negative `v` wraps as two's complement. */
  function ToLE(v: int, width: nat): (s: seq<byte>)
    ensures |s| == width
    decreases width
  {
    if width == 0 then [] else [v % 0x100] + ToLE(v / 0x100, width - 1)
  }

  /** Reads `v`, an unsigned integer of `width` bytes, as two's complement. */
  function Signed(v: int, width: nat): int
  {
    if v < Span(width) / 2 then v else v - Span(width)
  }

  lemma Spans()
    ensures Span(1) == 0x100 && Span(2) == 0x1_0000 && Span(4) == TWO32 && Span(8) == TWO64
  {
    assert Span(1) == 0x100 * Span(0);
    assert Span(2) == 0x100 * Span(1);
    assert Span(3) == 0x100 * Span(2);
    assert Span(4) == 0x100 * Span(3);
    assert Span(5) == 0x100 * Span(4);
    assert Span(6) == 0x100 * Span(5);
    assert Span(7) == 0x100 * Span(6);
    assert Span(8) == 0x100 * Span(7);
  }

  lemma {:induction false} FromLEBound(s: seq<byte>)
    ensures FromLE(s) < Span(|s|)
  {
    if s != [] {
      FromLEBound(s[1..]);
    }
  }

  lemma {:induction false} ToLEFromLE(s: seq<byte>)
    ensures ToLE(FromLE(s), |s|) == s
  {
    if s != [] {
      ToLEFromLE(s[1..]);
      assert FromLE(s) % 0x100 == s[0] && FromLE(s) / 0x100 == FromLE(s[1..]);
    }
  }

  lemma DivModStep(v: int, m: int)
    requires m > 0
    ensures v % (0x100 * m) == v % 0x100 + 0x100 * ((v / 0x100) % m)
  {
    var q, r := (v / 0x100) / m, (v / 0x100) % m;
    assert v == 0x100 * (q * m + r) + v % 0x100;
    var low := v % 0x100 + 0x100 * r;
    assert v == q * (0x100 * m) + low by {
      assert 0x100 * (q * m) == q * (0x100 * m);
    }
    assert 0 <= low < 0x100 * m;
    ModUnique(v, 0x100 * m, q, low);
  }

  lemma SmallMultiple(k: int, m: int)
    requires -m < k * m < m
    ensures k == 0
  {
    assert k >= 1 ==> k * m >= m;
    assert k <= -1 ==> k * m <= -m;
  }

  lemma ModUnique(v: int, m: int, q: int, r: int)
    requires m > 0 && 0 <= r < m && v == q * m + r
    ensures v % m == r && v / m == q
  {
    assert (v / m - q) * m == r - v % m by {
      assert v == (v / m) * m + v % m;
      assert (v / m - q) * m == (v / m) * m - q * m;
    }
    SmallMultiple(v / m - q, m);
  }

  lemma {:induction false} FromLEToLE(v: int, width: nat)
    ensures FromLE(ToLE(v, width)) == v % Span(width)
    decreases width
  {
    if width != 0 {
      FromLEToLE(v / 0x100, width - 1);
      DivModStep(v, Span(width - 1));
      assert ToLE(v, width)[1..] == ToLE(v / 0x100, width - 1);
    }
  }

  /** Only the value modulo the span matters to the bytes written. */
  lemma {:induction false} ToLECongruent(v: int, w: int, width: nat)
    requires v % Span(width) == w % Span(width)
    ensures ToLE(v, width) == ToLE(w, width)
  {
    FromLEToLE(v, width);
    FromLEToLE(w, width);
    ToLEFromLE(ToLE(v, width));
    ToLEFromLE(ToLE(w, width));
  }

  lemma ModShift(v: int, k: int, m: int)
    requires m > 0
    ensures (v + k * m) % m == v % m
  {
    ModUnique(v + k * m, m, v / m + k, v % m);
  }

  /** Reading as two's complement does not change the residue. */
  lemma SignedCongruent(v: int, width: nat)
    ensures Signed(v, width) % Span(width) == v % Span(width)
  {
    ModShift(v, -1, Span(width));
  }

  /** A buffer with the bytes `s` written at `at`. */
  function Splice(buf: seq<byte>, at: nat, s: seq<byte>): (r: seq<byte>)
    requires at + |s| <= |buf|
    ensures |r| == |buf|
    ensures r[at..at + |s|] == s
    ensures forall i :: 0 <= i < |buf| && !(at <= i < at + |s|) ==> r[i] == buf[i]
  {
    buf[..at] + s + buf[at + |s|..]
  }
}
