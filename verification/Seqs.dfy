/** Sequences without repetition, and replacing every element of a sequence by a sequence. */
module Seqs {
  /** No two elements are equal. */
  predicate Distinct<T(==)>(s: seq<T>)
  {
    forall i, j :: 0 <= i < j < |s| ==> s[i] != s[j]
  }

  function FlatMap<T, U>(f: T -> seq<U>, s: seq<T>): seq<U>
  {
    if s == [] then [] else f(s[0]) + FlatMap(f, s[1..])
  }

  lemma Assoc<T>(a: seq<T>, b: seq<T>, c: seq<T>)
    ensures (a + b) + c == a + (b + c)
  {
  }

  lemma {:induction false} FlatMapAppend<T, U>(f: T -> seq<U>, a: seq<T>, b: seq<T>)
    ensures FlatMap(f, a + b) == FlatMap(f, a) + FlatMap(f, b)
  {
    if a == [] {
      assert a + b == b;
    } else {
      FlatMapAppend(f, a[1..], b);
      assert (a + b)[0] == a[0] && (a + b)[1..] == a[1..] + b;
      Assoc(f(a[0]), FlatMap(f, a[1..]), FlatMap(f, b));
    }
  }

  lemma FlatMapSnoc<T, U>(f: T -> seq<U>, s: seq<T>, k: nat)
    requires k < |s|
    ensures FlatMap(f, s[..k + 1]) == FlatMap(f, s[..k]) + f(s[k])
  {
    FlatMapAppend(f, s[..k], [s[k]]);
    assert s[..k] + [s[k]] == s[..k + 1];
    assert FlatMap(f, [s[k]]) == f(s[k]) + FlatMap(f, [s[k]][1..]);
  }

  /** After the image of the first `k` elements comes the image of element `k`, then that of the rest. */
  lemma FlatMapAt<T, U>(f: T -> seq<U>, s: seq<T>, k: nat)
    requires k < |s|
    ensures var out, at := FlatMap(f, s), |FlatMap(f, s[..k])|;
      && at + |f(s[k])| == |FlatMap(f, s[..k + 1])| <= |out|
      && out[at..] == f(s[k]) + FlatMap(f, s[k + 1..])
  {
    FlatMapAppend(f, s[..k], s[k..]);
    assert s[..k] + s[k..] == s;
    assert s[k..][1..] == s[k + 1..];
    FlatMapSnoc(f, s, k);
  }

  /** The image of `n` more elements. */
  lemma FlatMapSkip<T, U>(f: T -> seq<U>, s: seq<T>, k: nat, n: nat)
    requires k + n <= |s|
    ensures |FlatMap(f, s[..k + n])| == |FlatMap(f, s[..k])| + |FlatMap(f, s[k..][..n])|
  {
    FlatMapAppend(f, s[..k], s[k..][..n]);
    assert s[k..][..n] == s[k..k + n];
    assert s[..k] + s[k..k + n] == s[..k + n];
  }

  /** What an element is replaced by is in the result, and nothing else. */
  lemma FlatMapHas<T, U>(f: T -> seq<U>, s: seq<T>, k: nat, i: nat) returns (j: nat)
    requires k < |s| && i < |f(s[k])|
    ensures j < |FlatMap(f, s)| && FlatMap(f, s)[j] == f(s[k])[i]
  {
    FlatMapAt(f, s, k);
    j := |FlatMap(f, s[..k])| + i;
    assert FlatMap(f, s)[|FlatMap(f, s[..k])|..][i] == FlatMap(f, s)[j];
  }

  lemma {:induction false} FlatMapFrom<T, U>(f: T -> seq<U>, s: seq<T>, j: nat) returns (k: nat, i: nat)
    requires j < |FlatMap(f, s)|
    ensures k < |s| && i < |f(s[k])| && FlatMap(f, s)[j] == f(s[k])[i]
  {
    if j < |f(s[0])| {
      k, i := 0, j;
    } else {
      k, i := FlatMapFrom(f, s[1..], j - |f(s[0])|);
      k := k + 1;
    }
  }
}
