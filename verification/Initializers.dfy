/** The order in which the initializers of a component are processed: import lowerings are deferred. */
module Initializers {
  import opened Filters

  datatype Init = InstantiateModule(id: nat) | LowerImport(id: nat) | Other(id: nat)

  predicate Lowering(init: Init) { init.LowerImport? }

  function IsLowering(): Init -> bool { (x: Init) => Lowering(x) }

  function NotLowering(): Init -> bool { (x: Init) => !Lowering(x) }

  /** What is processed from here on, with some lowerings still waiting. */
  function Deferred(inits: seq<Init>, waiting: seq<Init>): seq<Init>
  {
    if inits == [] then waiting
    else
      match inits[0]
      case InstantiateModule(_) => waiting + [inits[0]] + Deferred(inits[1..], [])
      case LowerImport(_) => Deferred(inits[1..], waiting + [inits[0]])
      case Other(_) => [inits[0]] + Deferred(inits[1..], waiting)
  }

  /** The loops over the initializers; the result lists the calls that process one each. */
  method Process(inits: seq<Init>) returns (processed: seq<Init>)
    ensures processed == Deferred(inits, [])
  {
    processed := [];
    var lowerings: seq<Init> := [];
    for i := 0 to |inits|
      invariant processed + Deferred(inits[i..], lowerings) == Deferred(inits, [])
    {
      var init := inits[i];
      ghost var so, waiting := processed, lowerings;
      assert inits[i..][0] == init && inits[i..][1..] == inits[i + 1..];
      match init {
        case InstantiateModule(_) =>
          for j := 0 to |lowerings|
            invariant processed == so + lowerings[..j]
          {
            processed := processed + [lowerings[j]];
          }
          assert processed == so + waiting;
          lowerings := [];
          Regroup(so, waiting, init, Deferred(inits[i + 1..], []));
          processed := processed + [init];
        case LowerImport(_) =>
          lowerings := lowerings + [init];
        case Other(_) =>
          assert processed + ([init] + Deferred(inits[i + 1..], lowerings)) ==
            (processed + [init]) + Deferred(inits[i + 1..], lowerings);
          processed := processed + [init];
      }
    }
    ghost var so := processed;
    assert inits[|inits|..] == [];
    for j := 0 to |lowerings|
      invariant processed == so + lowerings[..j]
    {
      processed := processed + [lowerings[j]];
    }
  }

  lemma Regroup(so: seq<Init>, waiting: seq<Init>, init: Init, rest: seq<Init>)
    ensures so + (waiting + [init] + rest) == so + waiting + [init] + rest
  {
  }

  lemma {:induction false} KeepsAll(inits: seq<Init>, waiting: seq<Init>)
    ensures multiset(Deferred(inits, waiting)) == multiset(waiting) + multiset(inits)
    decreases |inits|
  {
    if inits != [] {
      var init, rest := inits[0], inits[1..];
      assert inits == [init] + rest;
      match init
      case InstantiateModule(_) => KeepsAll(rest, []);
      case LowerImport(_) => KeepsAll(rest, waiting + [init]);
      case Other(_) => KeepsAll(rest, waiting);
    }
  }

  lemma {:induction false} KeepsLowerings(inits: seq<Init>, waiting: seq<Init>)
    requires forall x :: x in waiting ==> Lowering(x)
    ensures Filter(IsLowering(), Deferred(inits, waiting)) == waiting + Filter(IsLowering(), inits)
    decreases |inits|
  {
    if inits == [] {
      FilterAll(IsLowering(), waiting);
    } else {
      var init, rest := inits[0], inits[1..];
      match init
      case InstantiateModule(_) =>
        FilterAll(IsLowering(), waiting);
        KeepsLowerings(rest, []);
        SkipFirst(IsLowering(), waiting, init, Deferred(rest, []));
      case LowerImport(_) =>
        KeepsLowerings(rest, waiting + [init]);
        assert waiting + [init] + Filter(IsLowering(), rest) == waiting + ([init] + Filter(IsLowering(), rest));
      case Other(_) => KeepsLowerings(rest, waiting);
    }
  }

  lemma SkipFirst(keep: Init -> bool, waiting: seq<Init>, init: Init, rest: seq<Init>)
    ensures Filter(keep, waiting + [init] + rest) == Filter(keep, waiting) + Filter(keep, [init] + rest)
  {
    assert waiting + [init] + rest == waiting + ([init] + rest);
    FilterAppend(keep, waiting, [init] + rest);
  }

  lemma {:induction false} KeepsOthers(inits: seq<Init>, waiting: seq<Init>)
    requires forall x :: x in waiting ==> Lowering(x)
    ensures Filter(NotLowering(), Deferred(inits, waiting)) == Filter(NotLowering(), inits)
    decreases |inits|
  {
    FilterNone(NotLowering(), waiting);
    if inits != [] {
      var init, rest := inits[0], inits[1..];
      match init
      case InstantiateModule(_) =>
        KeepsOthers(rest, []);
        SkipFirst(NotLowering(), waiting, init, Deferred(rest, []));
      case LowerImport(_) => KeepsOthers(rest, waiting + [init]);
      case Other(_) => KeepsOthers(rest, waiting);
    }
  }

  /** Every initializer is processed exactly once, and lowerings and others keep their order among themselves. */
  lemma KeepsOrder(inits: seq<Init>)
    ensures var out := Deferred(inits, []);
      && multiset(out) == multiset(inits)
      && Filter(IsLowering(), out) == Filter(IsLowering(), inits)
      && Filter(NotLowering(), out) == Filter(NotLowering(), inits)
  {
    KeepsAll(inits, []);
    KeepsLowerings(inits, []);
    KeepsOthers(inits, []);
  }

  /** Everything from the start to a module instantiation is processed before it, and nothing else. */
  lemma {:induction false} UpToInstantiation(inits: seq<Init>, waiting: seq<Init>, q: nat)
    requires q < |inits| && inits[q].InstantiateModule?
    ensures Deferred(inits, waiting) == Deferred(inits[..q], waiting) + [inits[q]] + Deferred(inits[q + 1..], [])
    decreases |inits|
  {
    if q == 0 {
      assert inits[..0] == [];
    } else {
      var init, rest := inits[0], inits[1..];
      assert inits[..q][0] == init && inits[..q][1..] == rest[..q - 1] && rest[q - 1] == inits[q];
      assert rest[q..] == inits[q + 1..];
      var last, after := [inits[q]], Deferred(inits[q + 1..], []);
      match init
      case InstantiateModule(_) =>
        UpToInstantiation(rest, [], q - 1);
        assert waiting + [init] + (Deferred(rest[..q - 1], []) + last + after) ==
          (waiting + [init] + Deferred(rest[..q - 1], [])) + last + after;
      case LowerImport(_) => UpToInstantiation(rest, waiting + [init], q - 1);
      case Other(_) =>
        UpToInstantiation(rest, waiting, q - 1);
        assert [init] + (Deferred(rest[..q - 1], waiting) + last + after) ==
          ([init] + Deferred(rest[..q - 1], waiting)) + last + after;
    }
  }

  /**
   For any initializer list and any module instantiation in it: it is processed at its own position, after exactly
   the initializers before it; the lowerings among them are those before it, in order.
   */
  lemma InstantiationSees(inits: seq<Init>, q: nat)
    requires q < |inits| && inits[q].InstantiateModule?
    ensures var out := Deferred(inits, []);
      && |out| == |inits| && out[q] == inits[q]
      && multiset(out[..q]) == multiset(inits[..q])
      && Filter(IsLowering(), out[..q]) == Filter(IsLowering(), inits[..q])
  {
    UpToInstantiation(inits, [], q);
    KeepsOrder(inits);
    KeepsOrder(inits[..q]);
    var out, before := Deferred(inits, []), Deferred(inits[..q], []);
    assert |multiset(out)| == |inits| && |multiset(before)| == q;
    assert out[..q] == before;
  }

  /** A lowering is processed no earlier than needed: after it comes another, or an instantiation, or nothing. */
  predicate Late(out: seq<Init>)
  {
    forall r :: 0 <= r < |out| - 1 && Lowering(out[r]) ==> !out[r + 1].Other?
  }

  lemma {:induction false} LoweringsLate(inits: seq<Init>, waiting: seq<Init>)
    requires forall x :: x in waiting ==> Lowering(x)
    ensures Late(Deferred(inits, waiting))
    decreases |inits|
  {
    if inits == [] {
      assert forall r :: 0 <= r < |waiting| ==> waiting[r] in waiting && Lowering(waiting[r]);
      assert Deferred(inits, waiting) == waiting;
    } else {
      var init, rest := inits[0], inits[1..];
      match init
      case InstantiateModule(_) =>
        LoweringsLate(rest, []);
        JoinLate(waiting, init, Deferred(rest, []));
      case LowerImport(_) => LoweringsLate(rest, waiting + [init]);
      case Other(_) =>
        LoweringsLate(rest, waiting);
        JoinLate([], init, Deferred(rest, waiting));
    }
  }

  lemma JoinLate(waiting: seq<Init>, init: Init, rest: seq<Init>)
    requires (forall x :: x in waiting ==> Lowering(x)) && !Lowering(init) && Late(rest)
    requires waiting == [] || init.InstantiateModule?
    ensures Late(waiting + [init] + rest)
  {
    var out := waiting + [init] + rest;
    forall r | 0 <= r < |out| - 1 && Lowering(out[r])
      ensures !out[r + 1].Other?
    {
      if r + 1 < |waiting| {
        assert waiting[r + 1] in waiting;
      } else if r > |waiting| {
        assert Lowering(rest[r - |waiting| - 1]);
      }
    }
  }
}
