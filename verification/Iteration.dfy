/** Runs of a deterministic step function, and runs in lockstep. */
module Iteration {
  function Iterate<S>(step: S -> S, s: S, n: nat): S
    decreases n
  {
    if n == 0 then s else Iterate(step, step(s), n - 1)
  }

  lemma {:induction false} IterateAdd<S>(step: S -> S, s: S, m: nat, n: nat)
    ensures Iterate(step, s, m + n) == Iterate(step, Iterate(step, s, m), n)
    decreases m
  {
    if m > 0 {
      IterateAdd(step, step(s), m - 1, n);
    }
  }

  lemma {:induction false} IterateFixed<S>(step: S -> S, s: S, n: nat)
    requires step(s) == s
    ensures Iterate(step, s, n) == s
    decreases n
  {
    if n > 0 {
      IterateFixed(step, s, n - 1);
    }
  }

  lemma IterateOne<S>(step: S -> S, s: S)
    ensures Iterate(step, s, 1) == step(s)
    ensures Iterate(step, s, 2) == step(step(s))
  {
    assert Iterate(step, step(s), 1) == Iterate(step, step(step(s)), 0);
  }

  /** Every state among the first `n` of the run is good. */
  predicate GoodRun<S>(step: S -> S, good: S -> bool, s: S, n: nat)
  {
    forall i: nat {:trigger Iterate(step, s, i)} :: i < n ==> good(Iterate(step, s, i))
  }

  /** From a good state, `cost` steps on the other side match one step on this side. */
  ghost predicate Lockstep<S(!new), T>(
    step: S -> S, there: T -> T, match_: S -> T, cost: S -> nat, good: S -> bool)
  {
    && (forall s :: cost(s) > 0)
    && (forall s {:trigger Iterate(there, match_(s), cost(s))} ::
          good(s) ==> Iterate(there, match_(s), cost(s)) == match_(step(s)))
  }

  /** The number `c` of steps on the other side that match the first `n` steps on this side. */
  lemma {:induction false} RunsMatch<S(!new), T>(
    step: S -> S, there: T -> T, match_: S -> T, cost: S -> nat, good: S -> bool, s: S, n: nat) returns (c: nat)
    requires Lockstep(step, there, match_, cost, good) && GoodRun(step, good, s, n)
    ensures Iterate(there, match_(s), c) == match_(Iterate(step, s, n)) && c >= n
    decreases n
  {
    if n == 0 {
      c := 0;
    } else {
      var last := Iterate(step, s, n - 1);
      var before := RunsMatch(step, there, match_, cost, good, s, n - 1);
      IterateAdd(there, match_(s), before, cost(last));
      IterateAdd(step, s, n - 1, 1);
      IterateOne(step, last);
      assert good(last) && cost(last) > 0;
      c := before + cost(last);
    }
  }

  /** A state whose step is not matched, reached after `n` good ones, is found on both sides. */
  lemma PartingStep<S(!new), T>(
    step: S -> S, there: T -> T, match_: S -> T, cost: S -> nat, good: S -> bool, same: (T, S) -> bool, s: S, n: nat)
    returns (c: nat)
    requires Lockstep(step, there, match_, cost, good) && GoodRun(step, good, s, n)
    requires var at := Iterate(step, s, n); !same(Iterate(there, match_(at), cost(at)), step(at))
    ensures !same(Iterate(there, match_(s), c), Iterate(step, s, n + 1)) && c > n
  {
    var at := Iterate(step, s, n);
    var before := RunsMatch(step, there, match_, cost, good, s, n);
    IterateAdd(there, match_(s), before, cost(at));
    IterateAdd(step, s, n, 1);
    IterateOne(step, at);
    assert cost(at) > 0;
    c := before + cost(at);
  }
}
