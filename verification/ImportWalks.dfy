/** How the lookup in an import map depends on the order in which its hash table is walked. */
module ImportWalks {
  import opened Wrappers
  import opened Seqs
  import opened Filters
  import opened ImportMap

  // ----- which outcomes are possible -----

  /** The key is tried with a result. */
  predicate Tried(m: map<string, string>, versioned: bool, impt: string, k: string)
  {
    k in m && Attempt(m, versioned, impt, k) != NoMatch
  }

  ghost predicate AnyWild(m: map<string, string>, versioned: bool, impt: string)
  {
    exists k :: Tried(m, versioned, impt, k)
  }

  ghost predicate WildOutcome(m: map<string, string>, versioned: bool, impt: string, r: Outcome)
  {
    exists k :: Tried(m, versioned, impt, k) && r == Resolved(Attempt(m, versioned, impt, k))
  }

  ghost predicate AnyFit(sv: Semver, m: map<string, string>, base: string, compat: string, bad: bool)
  {
    exists k :: k in m && if bad then Fit(sv, m, base, compat, k).Bad? else Fit(sv, m, base, compat, k).Fits?
  }

  /** No compatible key has a later version. */
  ghost predicate Greatest(sv: Semver, m: map<string, string>, base: string, compat: string, k: string)
  {
    && k in m && Fit(sv, m, base, compat, k).Fits?
    && forall j :: j in m && Fit(sv, m, base, compat, j).Fits? ==>
         sv.le(Fit(sv, m, base, compat, j).version, Fit(sv, m, base, compat, k).version)
  }

  ghost predicate SemverOutcome(sv: Semver, m: map<string, string>, base: string, compat: string, r: Outcome)
  {
    if AnyFit(sv, m, base, compat, true) then r == Panics
    else if AnyFit(sv, m, base, compat, false) then
      exists k :: Greatest(sv, m, base, compat, k) && r == ParseMapping(Fit(sv, m, base, compat, k).mapping)
    else r == Mapped((base, None))
  }

  /** The outcomes that do not depend on a walk: the first of the tiers that is not empty gives them. */
  ghost predicate Possible(sv: Semver, m: map<string, string>, impt: string, r: Outcome)
  {
    var base, compat := SansVersion(impt), ImportCompat(sv, impt);
    if impt in m then r == ParseMapping(m[impt])
    else if base in m then r == ParseMapping(m[base])
    else if AnyWild(m, true, impt) then WildOutcome(m, true, impt, r)
    else if AnyWild(m, false, base) then WildOutcome(m, false, base, r)
    else if compat.None? then r == Mapped((base, None))
    else SemverOutcome(sv, m, base, compat.value, r)
  }

  lemma {:induction false} FirstWildIn(m: map<string, string>, walk: seq<string>, versioned: bool, impt: string)
    returns (k: string)
    ensures FirstWild(m, walk, versioned, impt) == NoMatch ==>
      forall x :: x in walk ==> Attempt(m, versioned, impt, x) == NoMatch
    ensures FirstWild(m, walk, versioned, impt) != NoMatch ==>
      k in walk && Attempt(m, versioned, impt, k) == FirstWild(m, walk, versioned, impt)
  {
    k := "";
    if walk != [] {
      if Attempt(m, versioned, impt, walk[0]) != NoMatch {
        k := walk[0];
      } else {
        k := FirstWildIn(m, walk[1..], versioned, impt);
        assert forall x :: x in walk ==> x == walk[0] || x in walk[1..];
      }
    }
  }

  lemma WildSound(m: map<string, string>, walk: seq<string>, versioned: bool, impt: string)
    requires WalkOf(m, walk)
    ensures AnyWild(m, versioned, impt) <==> FirstWild(m, walk, versioned, impt) != NoMatch
    ensures AnyWild(m, versioned, impt) ==>
      WildOutcome(m, versioned, impt, Resolved(FirstWild(m, walk, versioned, impt)))
  {
    var k := FirstWildIn(m, walk, versioned, impt);
    if FirstWild(m, walk, versioned, impt) != NoMatch {
      assert Tried(m, versioned, impt, k);
    }
  }

  /** The semver loop keeps the greatest version, or fails if any key does. */
  lemma {:induction false} BestIs(sv: Semver, m: map<string, string>, base: string, compat: string, walk: seq<string>)
    returns (k: string)
    requires Ordered(sv)
    ensures var best := Best(sv, m, base, compat, walk);
      && (best.Bad? <==> exists x :: x in walk && Fit(sv, m, base, compat, x).Bad?)
      && (best.Skip? ==> forall x :: x in walk ==> Fit(sv, m, base, compat, x).Skip?)
      && (best.Fits? ==> k in walk && Fit(sv, m, base, compat, k) == best)
      && (best.Fits? ==> forall x :: x in walk && Fit(sv, m, base, compat, x).Fits? ==>
            sv.le(Fit(sv, m, base, compat, x).version, best.version))
  {
    k := "";
    if walk != [] {
      var front, last := walk[..|walk| - 1], walk[|walk| - 1];
      k := BestIs(sv, m, base, compat, front);
      assert forall x :: x in walk <==> x == last || x in front;
      if Best(sv, m, base, compat, walk) == Fit(sv, m, base, compat, last) {
        k := last;
      }
    }
  }

  lemma SemverSound(sv: Semver, m: map<string, string>, base: string, compat: string, walk: seq<string>)
    requires Ordered(sv) && WalkOf(m, walk)
    ensures SemverOutcome(sv, m, base, compat,
      match Best(sv, m, base, compat, walk)
      case Bad => Panics
      case Fits(mapping, _) => ParseMapping(mapping)
      case Skip => Mapped((base, None)))
  {
    var k := BestIs(sv, m, base, compat, walk);
    if Best(sv, m, base, compat, walk).Fits? {
      assert Greatest(sv, m, base, compat, k);
    }
  }

  /** Whatever the walk, the result is one of the possible outcomes. */
  lemma LookupPossible(sv: Semver, m: map<string, string>, walk: seq<string>, impt: string)
    requires Ordered(sv) && WalkOf(m, walk)
    ensures Possible(sv, m, impt, Lookup(sv, m, walk, impt))
  {
    var base := SansVersion(impt);
    WildSound(m, walk, true, impt);
    WildSound(m, walk, false, base);
    if ImportCompat(sv, impt).Some? {
      SemverSound(sv, m, base, ImportCompat(sv, impt).value, walk);
    }
  }

  /** The walk that visits `k` first. */
  function Fronted(walk: seq<string>, k: string): seq<string>
  {
    [k] + Filter(NotKey(k), walk)
  }

  function NotKey(k: string): string -> bool { (x: string) => x != k }

  lemma {:induction false} FilterDistinct(keep: string -> bool, s: seq<string>)
    requires Distinct(s)
    ensures Distinct(Filter(keep, s))
  {
    if s != [] {
      var rest := Filter(keep, s[1..]);
      FilterDistinct(keep, s[1..]);
      forall x | x in rest
        ensures x != s[0]
      {
        FilterIn(keep, s[1..], x);
        var j :| 0 <= j < |s[1..]| && s[1..][j] == x;
        assert s[j + 1] == x;
      }
      assert forall j :: 0 <= j < |rest| ==> rest[j] in rest;
    }
  }

  lemma FrontedWalk(m: map<string, string>, walk: seq<string>, k: string)
    requires WalkOf(m, walk) && k in m
    ensures WalkOf(m, Fronted(walk, k))
  {
    var rest := Filter(NotKey(k), walk);
    FilterDistinct(NotKey(k), walk);
    forall x: string
      ensures x in rest <==> x in walk && x != k
    {
      FilterIn(NotKey(k), walk, x);
    }
    var all := Fronted(walk, k);
    forall i, j | 0 <= i < j < |all|
      ensures all[i] != all[j]
    {
      assert all[j] == rest[j - 1] && rest[j - 1] in rest;
      if i == 0 {
        assert all[0] == k;
      } else {
        assert all[i] == rest[i - 1] && rest[i - 1] != rest[j - 1];
      }
    }
    assert forall x :: x in all <==> x == k || x in rest;
  }

  /** A key of greatest version that comes first is kept. */
  lemma {:induction false} BestFirst(
    sv: Semver, m: map<string, string>, base: string, compat: string, k: string, walk: seq<string>)
    requires Greatest(sv, m, base, compat, k) && walk != [] && walk[0] == k
    requires forall x :: x in walk ==> x in m
    requires forall x :: x in walk ==> !Fit(sv, m, base, compat, x).Bad?
    ensures Best(sv, m, base, compat, walk) == Fit(sv, m, base, compat, k)
    decreases |walk|
  {
    var front, last := walk[..|walk| - 1], walk[|walk| - 1];
    assert last in walk;
    if |walk| == 1 {
      assert front == [] && Best(sv, m, base, compat, front) == Skip;
    } else {
      BestFirst(sv, m, base, compat, k, front);
    }
  }

  /** Every possible outcome is the result for some walk. */
  lemma PossibleReached(sv: Semver, m: map<string, string>, walk: seq<string>, impt: string, r: Outcome)
    returns (walk': seq<string>)
    requires Ordered(sv) && WalkOf(m, walk) && Possible(sv, m, impt, r)
    ensures WalkOf(m, walk') && Lookup(sv, m, walk', impt) == r
  {
    var base, compat := SansVersion(impt), ImportCompat(sv, impt);
    walk' := walk;
    WildSound(m, walk, true, impt);
    WildSound(m, walk, false, base);
    if impt in m || base in m {
    } else if AnyWild(m, true, impt) {
      walk' := WildReached(m, walk, true, impt, r);
    } else if AnyWild(m, false, base) {
      walk' := WildReached(m, walk, false, base, r);
      WildSound(m, walk', true, impt);
    } else if compat.Some? {
      walk' := SemverReached(sv, m, walk, base, compat.value, r);
      WildSound(m, walk', true, impt);
      WildSound(m, walk', false, base);
    }
  }

  lemma WildReached(m: map<string, string>, walk: seq<string>, versioned: bool, impt: string, r: Outcome)
    returns (walk': seq<string>)
    requires WalkOf(m, walk) && AnyWild(m, versioned, impt) && WildOutcome(m, versioned, impt, r)
    ensures WalkOf(m, walk') && FirstWild(m, walk', versioned, impt) != NoMatch
    ensures Resolved(FirstWild(m, walk', versioned, impt)) == r
  {
    var k :| Tried(m, versioned, impt, k) && r == Resolved(Attempt(m, versioned, impt, k));
    FrontedWalk(m, walk, k);
    walk' := Fronted(walk, k);
  }

  lemma SemverReached(sv: Semver, m: map<string, string>, walk: seq<string>, base: string, compat: string, r: Outcome)
    returns (walk': seq<string>)
    requires Ordered(sv) && WalkOf(m, walk) && SemverOutcome(sv, m, base, compat, r)
    ensures WalkOf(m, walk')
    ensures r == (
      match Best(sv, m, base, compat, walk')
      case Bad => Panics
      case Fits(mapping, _) => ParseMapping(mapping)
      case Skip => Mapped((base, None)))
  {
    walk' := walk;
    if !AnyFit(sv, m, base, compat, true) && AnyFit(sv, m, base, compat, false) {
      var k :| Greatest(sv, m, base, compat, k) && r == ParseMapping(Fit(sv, m, base, compat, k).mapping);
      FrontedWalk(m, walk, k);
      walk' := Fronted(walk, k);
      BestFirst(sv, m, base, compat, k, walk');
    } else {
      var k := BestIs(sv, m, base, compat, walk);
    }
  }

  /** The result does not depend on the walk. */
  ghost predicate Determined(sv: Semver, m: map<string, string>, impt: string)
  {
    forall a, b :: WalkOf(m, a) && WalkOf(m, b) ==> Lookup(sv, m, a, impt) == Lookup(sv, m, b, impt)
  }

  /** All keys that a wildcard tier tries with a result resolve alike. */
  ghost predicate WildAgree(m: map<string, string>, versioned: bool, impt: string)
  {
    forall a, b :: Tried(m, versioned, impt, a) && Tried(m, versioned, impt, b) ==>
      Resolved(Attempt(m, versioned, impt, a)) == Resolved(Attempt(m, versioned, impt, b))
  }

  /** All keys of greatest compatible version give the same target, or panic alike. */
  ghost predicate GreatestAgree(sv: Semver, m: map<string, string>, base: string, compat: string)
  {
    forall a, b :: Greatest(sv, m, base, compat, a) && Greatest(sv, m, base, compat, b) ==>
      ParseMapping(Fit(sv, m, base, compat, a).mapping) == ParseMapping(Fit(sv, m, base, compat, b).mapping)
  }

  /** The keys that decide agree: those of the first tier that is not empty, as no key is exact. */
  ghost predicate KeysAgree(sv: Semver, m: map<string, string>, impt: string)
  {
    var base, compat := SansVersion(impt), ImportCompat(sv, impt);
    || impt in m || base in m
    || (if AnyWild(m, true, impt) then WildAgree(m, true, impt)
        else if AnyWild(m, false, base) then WildAgree(m, false, base)
        else compat.None? || AnyFit(sv, m, base, compat.value, true) || GreatestAgree(sv, m, base, compat.value))
  }

  /** For every map and import: the result is the same for all walks exactly if the keys that decide agree. */
  lemma DeterminedExactly(sv: Semver, m: map<string, string>, walk: seq<string>, impt: string)
    requires Ordered(sv) && WalkOf(m, walk)
    ensures Determined(sv, m, impt) <==> KeysAgree(sv, m, impt)
  {
    hide WalkOf, Lookup;
    if KeysAgree(sv, m, impt) {
      forall a, b | WalkOf(m, a) && WalkOf(m, b)
        ensures Lookup(sv, m, a, impt) == Lookup(sv, m, b, impt)
      {
        LookupPossible(sv, m, a, impt);
        LookupPossible(sv, m, b, impt);
        OnePossible(sv, m, impt, Lookup(sv, m, a, impt), Lookup(sv, m, b, impt));
      }
    } else {
      var r, s := TwoPossible(sv, m, impt);
      var a := PossibleReached(sv, m, walk, impt, r);
      var b := PossibleReached(sv, m, walk, impt, s);
    }
  }

  lemma OnePossible(sv: Semver, m: map<string, string>, impt: string, r: Outcome, s: Outcome)
    requires KeysAgree(sv, m, impt) && Possible(sv, m, impt, r) && Possible(sv, m, impt, s)
    ensures r == s
  {
    var base, compat := SansVersion(impt), ImportCompat(sv, impt);
    if impt in m || base in m {
    } else if AnyWild(m, true, impt) {
      OneWildOutcome(m, true, impt, r, s);
    } else if AnyWild(m, false, base) {
      OneWildOutcome(m, false, base, r, s);
    } else if compat.Some? {
      OneSemver(sv, m, base, compat.value, r, s);
    }
  }

  lemma OneWildOutcome(m: map<string, string>, versioned: bool, impt: string, r: Outcome, s: Outcome)
    requires WildAgree(m, versioned, impt) && WildOutcome(m, versioned, impt, r) && WildOutcome(m, versioned, impt, s)
    ensures r == s
  {
  }

  lemma OneSemver(sv: Semver, m: map<string, string>, base: string, compat: string, r: Outcome, s: Outcome)
    requires AnyFit(sv, m, base, compat, true) || GreatestAgree(sv, m, base, compat)
    requires SemverOutcome(sv, m, base, compat, r) && SemverOutcome(sv, m, base, compat, s)
    ensures r == s
  {
  }

  /** Keys that disagree give two outcomes. */
  lemma TwoPossible(sv: Semver, m: map<string, string>, impt: string) returns (r: Outcome, s: Outcome)
    requires !KeysAgree(sv, m, impt)
    ensures Possible(sv, m, impt, r) && Possible(sv, m, impt, s) && r != s
  {
    var base, compat := SansVersion(impt), ImportCompat(sv, impt);
    if AnyWild(m, true, impt) {
      r, s := TwoWild(m, true, impt);
    } else if AnyWild(m, false, base) {
      r, s := TwoWild(m, false, base);
    } else {
      var a, b :| Greatest(sv, m, base, compat.value, a) && Greatest(sv, m, base, compat.value, b) &&
        ParseMapping(Fit(sv, m, base, compat.value, a).mapping) != ParseMapping(Fit(sv, m, base, compat.value, b).mapping);
      r := ParseMapping(Fit(sv, m, base, compat.value, a).mapping);
      s := ParseMapping(Fit(sv, m, base, compat.value, b).mapping);
      assert AnyFit(sv, m, base, compat.value, false);
    }
  }

  lemma TwoWild(m: map<string, string>, versioned: bool, impt: string) returns (r: Outcome, s: Outcome)
    requires !WildAgree(m, versioned, impt)
    ensures WildOutcome(m, versioned, impt, r) && WildOutcome(m, versioned, impt, s) && r != s
  {
    var a, b :| Tried(m, versioned, impt, a) && Tried(m, versioned, impt, b) &&
      Resolved(Attempt(m, versioned, impt, a)) != Resolved(Attempt(m, versioned, impt, b));
    r, s := Resolved(Attempt(m, versioned, impt, a)), Resolved(Attempt(m, versioned, impt, b));
  }

  /** Two wildcard keys, each of which matches: the walk decides, whatever the versions are. */
  lemma WalkExample(sv: Semver)
    ensures var m := map["a:*" := "x", "*:b" := "y"];
      && WalkOf(m, ["a:*", "*:b"]) && Lookup(sv, m, ["a:*", "*:b"], "a:b") == Mapped(("x", None))
      && WalkOf(m, ["*:b", "a:*"]) && Lookup(sv, m, ["*:b", "a:*"], "a:b") == Mapped(("y", None))
  {
    hide ResolveWildcard, ParseMapping, FirstWild;
    var m := map["a:*" := "x", "*:b" := "y"];
    var first, last, impt := "a:*", "*:b", "a:b";
    assert first[0] != last[0] && first[0] == impt[0] && last[0] != impt[0] && first[2] != impt[2];
    assert m[first] == "x" && m[last] == "y" && Find(impt, '@') == None;
    BothMatch();
    FirstTried(m, [first, last], impt);
    FirstTried(m, [last, first], impt);
  }

  lemma BothMatch()
    ensures ResolveWildcard("a:*", "x", "a:b") == Match("x") && ResolveWildcard("*:b", "y", "a:b") == Match("y")
    ensures ParseMapping("x") == Mapped(("x", None)) && ParseMapping("y") == Mapped(("y", None))
  {
    var first, last, impt := "a:*", "*:b", "a:b";
    FindIs(first, '*', 2);
    FindIs(last, '*', 0);
    assert impt[..2] == first[..2] && impt[3..] == first[3..] && impt[2..3] == "b";
    assert impt[..0] == last[..0] && impt[1..] == last[1..] && impt[0..1] == "a";
    assert Replace("x", "b") == "x" && Replace("y", "a") == "y";
  }

  /** No key has a version, and the first one matches. */
  lemma FirstTried(m: map<string, string>, walk: seq<string>, impt: string)
    requires |walk| == 2 && '@' !in walk[0] && '@' !in walk[1]
    requires Attempt(m, false, impt, walk[0]) != NoMatch
    ensures FirstWild(m, walk, true, impt) == NoMatch
    ensures FirstWild(m, walk, false, impt) == Attempt(m, false, impt, walk[0])
  {
    assert FirstWild(m, walk[1..][1..], true, impt) == NoMatch && walk[1..][0] == walk[1];
  }

  // ----- which maps can make the lookup panic -----

  /** Both ends of the key are found in the import, and overlap. */
  predicate Overlaps(key: string, impt: string)
  {
    match Find(key, '*')
    case None => false
    case Some(idx) => StartsWith(impt, key[..idx]) && EndsWith(impt, key[idx + 1..]) && |impt| < |key| - 1
  }

  /** The key matches, and its mapping, filled in, starts with a character of several bytes. */
  ghost predicate FillsWide(key: string, mapping: string, impt: string)
  {
    exists x :: Instance(key, impt, x) && Wide(Replace(mapping, x))
  }

  /** A key of the wildcard tier overlaps, or has such a mapping. */
  ghost predicate PanicIn(m: map<string, string>, versioned: bool, impt: string)
  {
    exists k :: k in m && ('@' in k) == versioned && (Overlaps(k, impt) || FillsWide(k, m[k], impt))
  }

  /** A key with a compatible version overlaps with the import without its version. */
  ghost predicate OverlapBefore(sv: Semver, m: map<string, string>, base: string, compat: string)
  {
    exists k :: k in m && CompatibleKey(sv, compat, k) && Overlaps(SansVersion(k), base)
  }

  /** A key of greatest compatible version has a mapping that starts with a character of several bytes. */
  ghost predicate GreatestWide(sv: Semver, m: map<string, string>, base: string, compat: string)
  {
    exists k :: Greatest(sv, m, base, compat, k) && Wide(Fit(sv, m, base, compat, k).mapping)
  }

  predicate CompatibleKey(sv: Semver, compat: string, k: string)
  {
    match Find(k, '@')
    case None => false
    case Some(at) => SemverCompatKey(sv, k[at + 1..]).Some? && SemverCompatKey(sv, k[at + 1..]).value.0 == compat
  }

  ghost predicate SomePanics(sv: Semver, m: map<string, string>, impt: string)
  {
    exists walk :: WalkOf(m, walk) && Lookup(sv, m, walk, impt) == Panics
  }

  /**
   For every map and import: some walk panics exactly if, in the first tier that is not empty, a key overlaps, or a
   mapping that may be chosen starts with a character of several bytes.
   */
  lemma PanicsExactly(sv: Semver, m: map<string, string>, walk: seq<string>, impt: string)
    requires Ordered(sv) && WalkOf(m, walk)
    ensures SomePanics(sv, m, impt) <==>
      var base, compat := SansVersion(impt), ImportCompat(sv, impt);
      if impt in m then Wide(m[impt])
      else if base in m then Wide(m[base])
      else if AnyWild(m, true, impt) then PanicIn(m, true, impt)
      else if AnyWild(m, false, base) then PanicIn(m, false, base)
      else compat.Some? && (OverlapBefore(sv, m, base, compat.value) || GreatestWide(sv, m, base, compat.value))
  {
    hide WalkOf, Lookup, Greatest;
    var base, compat := SansVersion(impt), ImportCompat(sv, impt);
    TierPanics(m, true, impt);
    TierPanics(m, false, base);
    if compat.Some? {
      SemverPanics(sv, m, base, compat.value);
    }
    if Possible(sv, m, impt, Panics) {
      var walk' := PossibleReached(sv, m, walk, impt, Panics);
    }
    forall walk' | WalkOf(m, walk') && Lookup(sv, m, walk', impt) == Panics
      ensures Possible(sv, m, impt, Panics)
    {
      LookupPossible(sv, m, walk', impt);
    }
  }

  lemma KeyPanics(key: string, mapping: string, impt: string)
    ensures var w := ResolveWildcard(key, mapping, impt);
      w != NoMatch && Resolved(w) == Panics <==> Overlaps(key, impt) || FillsWide(key, mapping, impt)
  {
    hide Instance, Replace, Wide, Find;
    WildcardPanics(key, mapping, impt);
    var w := ResolveWildcard(key, mapping, impt);
    if w.Match? {
      WildcardExact(key, mapping, impt, "");
      var x :| Instance(key, impt, x);
      WildcardExact(key, mapping, impt, x);
      assert w == Match(Replace(mapping, x));
    }
    forall x | Instance(key, impt, x)
      ensures w == Match(Replace(mapping, x))
    {
      WildcardExact(key, mapping, impt, x);
    }
  }

  lemma TierPanics(m: map<string, string>, versioned: bool, impt: string)
    ensures WildOutcome(m, versioned, impt, Panics) <==> PanicIn(m, versioned, impt)
  {
    hide ResolveWildcard, Resolved, Overlaps, FillsWide;
    forall k | k in m && ('@' in k) == versioned
      ensures Tried(m, versioned, impt, k) && Resolved(Attempt(m, versioned, impt, k)) == Panics <==>
        Overlaps(k, impt) || FillsWide(k, m[k], impt)
    {
      KeyPanics(k, m[k], impt);
    }
    if PanicIn(m, versioned, impt) {
      var k :| k in m && ('@' in k) == versioned && (Overlaps(k, impt) || FillsWide(k, m[k], impt));
      assert Tried(m, versioned, impt, k);
    }
  }

  lemma SemverPanics(sv: Semver, m: map<string, string>, base: string, compat: string)
    ensures SemverOutcome(sv, m, base, compat, Panics) <==>
      OverlapBefore(sv, m, base, compat) || GreatestWide(sv, m, base, compat)
  {
    SomeBad(sv, m, base, compat);
    if !AnyFit(sv, m, base, compat, true) {
      if GreatestWide(sv, m, base, compat) {
        var k :| Greatest(sv, m, base, compat, k) && Wide(Fit(sv, m, base, compat, k).mapping);
        assert AnyFit(sv, m, base, compat, false);
      }
    }
  }

  lemma SomeBad(sv: Semver, m: map<string, string>, base: string, compat: string)
    ensures AnyFit(sv, m, base, compat, true) <==> OverlapBefore(sv, m, base, compat)
  {
    forall k | k in m
      ensures Fit(sv, m, base, compat, k).Bad? <==> CompatibleKey(sv, compat, k) && Overlaps(SansVersion(k), base)
    {
      WildcardPanics(SansVersion(k), m[k], base);
    }
    if OverlapBefore(sv, m, base, compat) {
      var k :| k in m && CompatibleKey(sv, compat, k) && Overlaps(SansVersion(k), base);
      assert Fit(sv, m, base, compat, k).Bad?;
    }
  }

  /** An exact entry whose mapping starts with a character of two bytes. */
  lemma WideExample(sv: Semver)
    ensures var m := map["a:b" := "\U{E9}.js"];
      WalkOf(m, ["a:b"]) && Lookup(sv, m, ["a:b"], "a:b") == Panics
  {
  }

  /** At most one key of each wildcard tier is tried with a result, and compatible versions are distinct. */
  ghost predicate Unambiguous(sv: Semver, m: map<string, string>, impt: string)
  {
    var base := SansVersion(impt);
    && OneWild(m, true, impt) && OneWild(m, false, base)
    && (ImportCompat(sv, impt).Some? ==> DistinctVersions(sv, m, base, ImportCompat(sv, impt).value))
  }

  ghost predicate OneWild(m: map<string, string>, versioned: bool, impt: string)
  {
    forall a, b :: a in m && b in m && a != b ==>
      Attempt(m, versioned, impt, a) == NoMatch || Attempt(m, versioned, impt, b) == NoMatch
  }

  ghost predicate DistinctVersions(sv: Semver, m: map<string, string>, base: string, compat: string)
  {
    forall a, b :: a in m && b in m && a != b ==> !SameVersion(Fit(sv, m, base, compat, a), Fit(sv, m, base, compat, b))
  }

  predicate SameVersion(a: Candidate, b: Candidate)
  {
    a.Fits? && b.Fits? && a.version == b.version
  }

  /** Then the result is the same for all walks. */
  lemma UnambiguousDetermined(sv: Semver, m: map<string, string>, walk: seq<string>, impt: string)
    requires Ordered(sv) && WalkOf(m, walk) && Unambiguous(sv, m, impt)
    ensures Determined(sv, m, impt)
  {
    var base, compat := SansVersion(impt), ImportCompat(sv, impt);
    if compat.Some? {
      OneGreatest(sv, m, base, compat.value);
    }
    OneAgrees(m, true, impt);
    OneAgrees(m, false, base);
    DeterminedExactly(sv, m, walk, impt);
  }

  lemma OneAgrees(m: map<string, string>, versioned: bool, impt: string)
    requires OneWild(m, versioned, impt)
    ensures WildAgree(m, versioned, impt)
  {
  }

  lemma OneGreatest(sv: Semver, m: map<string, string>, base: string, compat: string)
    requires Ordered(sv) && DistinctVersions(sv, m, base, compat)
    ensures GreatestAgree(sv, m, base, compat)
  {
    forall a, b | Greatest(sv, m, base, compat, a) && Greatest(sv, m, base, compat, b)
      ensures a == b
    {
      assert SameVersion(Fit(sv, m, base, compat, a), Fit(sv, m, base, compat, b));
    }
  }
}
