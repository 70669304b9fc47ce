/** Keeping some elements of a sequence, in order. */
module Filters {
  function Filter<T>(keep: T -> bool, s: seq<T>): seq<T>
  {
    if s == [] then []
    else if keep(s[0]) then [s[0]] + Filter(keep, s[1..])
    else Filter(keep, s[1..])
  }

  lemma {:induction false} FilterIn<T>(keep: T -> bool, s: seq<T>, x: T)
    ensures x in Filter(keep, s) <==> x in s && keep(x)
  {
    if s != [] {
      FilterIn(keep, s[1..], x);
    }
  }

  lemma {:induction false} FilterSame<T>(f: T -> bool, g: T -> bool, s: seq<T>)
    requires forall x :: x in s ==> f(x) == g(x)
    ensures Filter(f, s) == Filter(g, s)
  {
    if s != [] {
      assert forall x :: x in s[1..] ==> x in s;
      FilterSame(f, g, s[1..]);
    }
  }

  lemma {:induction false} FilterAll<T>(keep: T -> bool, s: seq<T>)
    requires forall x :: x in s ==> keep(x)
    ensures Filter(keep, s) == s
  {
    if s != [] {
      assert forall x :: x in s[1..] ==> x in s;
      FilterAll(keep, s[1..]);
    }
  }

  lemma {:induction false} FilterNone<T>(keep: T -> bool, s: seq<T>)
    requires forall x :: x in s ==> !keep(x)
    ensures Filter(keep, s) == []
  {
    if s != [] {
      assert forall x :: x in s[1..] ==> x in s;
      FilterNone(keep, s[1..]);
    }
  }

  lemma {:induction false} FilterAppend<T>(keep: T -> bool, a: seq<T>, b: seq<T>)
    ensures Filter(keep, a + b) == Filter(keep, a) + Filter(keep, b)
  {
    if a == [] {
      assert a + b == b;
    } else {
      FilterAppend(keep, a[1..], b);
      assert (a + b)[0] == a[0] && (a + b)[1..] == a[1..] + b;
    }
  }

  /** Filtering twice keeps what both keep. */
  lemma {:induction false} FilterTwice<T>(f: T -> bool, g: T -> bool, h: T -> bool, s: seq<T>)
    requires forall x :: x in s ==> h(x) == (f(x) && g(x))
    ensures Filter(g, Filter(f, s)) == Filter(h, s)
  {
    if s != [] {
      assert forall x :: x in s[1..] ==> x in s;
      FilterTwice(f, g, h, s[1..]);
      assert s[0] in s;
      if f(s[0]) {
        assert ([s[0]] + Filter(f, s[1..]))[1..] == Filter(f, s[1..]);
      }
    }
  }

  predicate Increasing(s: seq<nat>)
  {
    forall i, j :: 0 <= i < j < |s| ==> s[i] < s[j]
  }

  lemma {:induction false} FilterIncreasing(keep: nat -> bool, s: seq<nat>)
    requires Increasing(s)
    ensures Increasing(Filter(keep, s))
  {
    if s != [] {
      var rest := Filter(keep, s[1..]);
      FilterIncreasing(keep, s[1..]);
      forall x | x in rest
        ensures s[0] < x
      {
        FilterIn(keep, s[1..], x);
        var k :| 0 <= k < |s[1..]| && s[1..][k] == x;
        assert s[k + 1] == x;
      }
      assert forall j :: 0 <= j < |rest| ==> rest[j] in rest && s[0] < rest[j];
    }
  }

  /** Taking one element out of an increasing sequence. */
  lemma {:induction false} FilterOut(keep: nat -> bool, s: seq<nat>, i: nat)
    requires Increasing(s) && i < |s| && forall x :: keep(x) == (x != s[i])
    ensures Filter(keep, s) == s[..i] + s[i + 1..]
  {
    if i == 0 {
      FilterAll(keep, s[1..]);
    } else {
      assert s[1..][i - 1] == s[i];
      FilterOut(keep, s[1..], i - 1);
    }
  }

  /** Elements before the first that is dropped stay where they are. */
  lemma FilterKeepsFront(keep: nat -> bool, s: seq<nat>, i: nat)
    requires i <= |s| && forall j :: 0 <= j < i ==> keep(s[j])
    ensures i <= |Filter(keep, s)| && Filter(keep, s)[..i] == s[..i]
  {
    FilterAppend(keep, s[..i], s[i..]);
    assert s[..i] + s[i..] == s;
    FilterAll(keep, s[..i]);
  }
}
