/** Where an import is taken from: exact entries, wildcards and semver-compatible entries of the import map. */
module ImportMap {
  import opened Wrappers
  import opened Seqs
  import opened Text

  // ----- strings -----

  /** The first position of `c`. */
  function Find(s: string, c: char): (r: Option<nat>)
    ensures r.Some? ==> r.value < |s| && s[r.value] == c && c !in s[..r.value]
    ensures r.None? ==> c !in s
  {
    if s == "" then None
    else if s[0] == c then Some(0)
    else
      match Find(s[1..], c)
      case None => None
      case Some(i) => assert s[..i + 1] == [s[0]] + s[1..][..i]; Some(i + 1)
  }

  predicate StartsWith(s: string, x: string) { |x| <= |s| && s[..|x|] == x }

  predicate EndsWith(s: string, x: string) { |x| <= |s| && s[|s| - |x|..] == x }

  /** `mapping.replace('*', with)` */
  function Replace(mapping: string, with: string): string
  {
    FlatMap((c: char) => if c == '*' then with else [c], mapping)
  }

  /** The text before the version. */
  function SansVersion(impt: string): string
  {
    match Find(impt, '@')
    case None => impt
    case Some(at) => impt[..at]
  }

  // ----- mappings -----

  type Target = (string, Option<string>)

  datatype Outcome = Mapped(target: Target) | Panics

  /** The first character takes more than one byte in UTF-8, so that byte 1 is inside it. */
  predicate Wide(s: string) { s != "" && s[0] as int >= 0x80 }

  /** `parse_mapping`: a hash that is not at the start separates the specifier from the member; byte 1 is sliced at. */
  function ParseMapping(mapping: string): Outcome
  {
    if Wide(mapping) then Panics
    else if |mapping| > 1 then
      match Find(mapping[1..], '#')
      case None => Mapped((mapping, None))
      case Some(h) => Mapped((mapping[..h + 1], Some(mapping[h + 2..])))
    else Mapped((mapping, None))
  }

  /** The parts determine the mapping: they are what is around the first hash after the first character. */
  lemma ParseExact(mapping: string, spec: string, member: string)
    ensures ParseMapping(mapping) == Mapped((spec, Some(member))) <==>
      mapping == spec + "#" + member && spec != "" && !Wide(spec) && '#' !in spec[1..]
    ensures ParseMapping(mapping) == Mapped((mapping, None)) <==>
      !Wide(mapping) && (mapping == "" || '#' !in mapping[1..])
    ensures ParseMapping(mapping) == Panics <==> mapping != "" && mapping[0] as int >= 0x80
  {
    if |mapping| > 1 && !Wide(mapping) && Find(mapping[1..], '#').Some? {
      var h := Find(mapping[1..], '#').value;
      assert mapping == mapping[..h + 1] + "#" + mapping[h + 2..];
      assert mapping[..h + 1][1..] == mapping[1..][..h];
      if mapping == spec + "#" + member && spec != "" && '#' !in spec[1..] {
        OneSplit(mapping[..h + 1], mapping[h + 2..], spec, member);
      }
    }
    if mapping == spec + "#" + member && spec != "" {
      HashInside(spec, member);
      assert mapping[0] == spec[0];
    }
  }

  /** There is one way to split at the first hash after the first character. */
  lemma OneSplit(a: string, b: string, spec: string, member: string)
    requires a + "#" + b == spec + "#" + member && a != "" && spec != "" && '#' !in a[1..] && '#' !in spec[1..]
    ensures a == spec && b == member
  {
    var s := a + "#" + b;
    assert s[1..] == a[1..] + ['#'] + b;
    assert s[1..] == spec[1..] + ['#'] + member by {
      assert s == spec + "#" + member;
    }
    SplitInjective(a[1..], spec[1..], '#', b, member);
    assert a == [s[0]] + a[1..] && spec == [s[0]] + spec[1..];
  }

  lemma HashInside(spec: string, member: string)
    requires spec != ""
    ensures var mapping := spec + "#" + member; |mapping| > 1 && '#' in mapping[1..]
  {
    assert (spec + "#" + member)[1..][|spec| - 1] == '#';
  }

  // ----- wildcards -----

  /** The result of `resolve_wildcard_mapping`; the lengths underflow if the two ends of the key overlap in the import. */
  datatype Wild = NoMatch | Match(mapping: string) | Panic

  function ResolveWildcard(key: string, mapping: string, impt: string): Wild
  {
    match Find(key, '*')
    case None => NoMatch
    case Some(idx) =>
      var lhs, rhs := key[..idx], key[idx + 1..];
      if !StartsWith(impt, lhs) || !EndsWith(impt, rhs) then NoMatch
      else if |impt| < |lhs| + |rhs| then Panic
      else Match(Replace(mapping, impt[|lhs|..|impt| - |rhs|]))
  }

  /** The import is the key with its first star replaced by `x`. */
  predicate Instance(key: string, impt: string, x: string)
  {
    match Find(key, '*')
    case None => false
    case Some(idx) => impt == key[..idx] + x + key[idx + 1..]
  }

  /** For every key and import: a match is an instance of the key, and its mapping is filled in the same way. */
  lemma WildcardExact(key: string, mapping: string, impt: string, x: string)
    ensures Instance(key, impt, x) ==> ResolveWildcard(key, mapping, impt) == Match(Replace(mapping, x))
    ensures ResolveWildcard(key, mapping, impt).Match? ==> exists y :: Instance(key, impt, y)
  {
    if Find(key, '*').Some? {
      var idx := Find(key, '*').value;
      var lhs, rhs := key[..idx], key[idx + 1..];
      if Instance(key, impt, x) {
        assert impt[..|lhs|] == lhs && impt[|impt| - |rhs|..] == rhs && impt[|lhs|..|impt| - |rhs|] == x;
      }
      if ResolveWildcard(key, mapping, impt).Match? {
        var y := impt[|lhs|..|impt| - |rhs|];
        assert impt == lhs + y + rhs by {
          assert impt == impt[..|lhs|] + y + impt[|impt| - |rhs|..];
        }
        assert Instance(key, impt, y);
      }
    }
  }

  /** It panics exactly if both ends of the key are found, but overlap. */
  lemma WildcardPanics(key: string, mapping: string, impt: string)
    ensures ResolveWildcard(key, mapping, impt) == Panic <==>
      Find(key, '*').Some? && (
        var idx := Find(key, '*').value;
        StartsWith(impt, key[..idx]) && EndsWith(impt, key[idx + 1..]) && |impt| < |key| - 1)
  {
  }

  /** The key `a:b*b` and the import `a:b` overlap in the last character. */
  lemma WildcardPanicExample(mapping: string)
    ensures ResolveWildcard("a:b*b", mapping, "a:b") == Panic
  {
    var key, impt := "a:b*b", "a:b";
    FindIs(key, '*', 3);
    assert key[..3] == impt && impt[2..] == key[4..];
  }

  lemma {:induction false} FindIs(s: string, c: char, i: nat)
    requires i < |s| && s[i] == c && c !in s[..i]
    ensures Find(s, c) == Some(i)
  {
    if i > 0 {
      assert s[0] == s[..i][0] && s[1..][..i - 1] == s[..i][1..];
      FindIs(s[1..], c, i - 1);
    }
  }

  // ----- versions -----

  datatype Version = Version(major: nat, minor: nat, patch: nat, pre: string, build: string)

  /** `Version::parse` and the order of versions, as the semver library has them. */
  datatype Semver = Semver(parse: string -> Option<Version>, le: (Version, Version) -> bool)

  ghost predicate Ordered(sv: Semver)
  {
    && (forall a, b :: sv.le(a, b) || sv.le(b, a))
    && (forall a, b :: sv.le(a, b) && sv.le(b, a) ==> a == b)
    && (forall a, b, c :: sv.le(a, b) && sv.le(b, c) ==> sv.le(a, c))
  }

  function CompatKey(v: Version): Option<string>
  {
    if v.pre != "" then None
    else if v.major != 0 then Some(Decimal(v.major))
    else if v.minor != 0 then Some("0." + Decimal(v.minor))
    else None
  }

  function SemverCompatKey(sv: Semver, s: string): Option<(string, Version)>
  {
    match sv.parse(s)
    case None => None
    case Some(v) =>
      match CompatKey(v)
      case None => None
      case Some(key) => Some((key, v))
  }

  /** Released versions are compatible if they agree up to the first number that is not zero, and that is not the patch. */
  predicate Compatible(v: Version, w: Version)
  {
    && v.pre == "" && w.pre == "" && v.major == w.major
    && (v.major != 0 || (v.minor == w.minor && v.minor != 0))
  }

  /** The rendered keys are equal exactly for compatible versions. */
  lemma CompatKeyExact(v: Version, w: Version)
    ensures CompatKey(v).Some? && CompatKey(v) == CompatKey(w) <==> Compatible(v, w)
  {
    if CompatKey(v).Some? && CompatKey(v) == CompatKey(w) {
      var x, y := CompatKey(v).value, CompatKey(w).value;
      DotInKey(v);
      DotInKey(w);
      if v.major != 0 {
        DecimalInjective(v.major, w.major);
      } else {
        assert x[2..] == Decimal(v.minor) && y[2..] == Decimal(w.minor);
        DecimalInjective(v.minor, w.minor);
      }
    }
  }

  lemma DotInKey(v: Version)
    requires CompatKey(v).Some?
    ensures '.' in CompatKey(v).value <==> v.major == 0
  {
    DecimalDigits(v.major);
    if v.major == 0 {
      assert CompatKey(v).value[1] == '.';
    }
  }

  // ----- the lookup -----

  /** An import map and the order in which its hash table is walked. */
  predicate WalkOf(m: map<string, string>, walk: seq<string>)
  {
    && (forall k :: k in walk ==> k in m) && (forall k :: k in m ==> k in walk)
    && Distinct(walk)
  }

  function Resolved(w: Wild): Outcome
    requires w != NoMatch
  {
    if w.Panic? then Panics else ParseMapping(w.mapping)
  }

  /** What the first wildcard loop, for versioned keys, or the second one makes of a key. */
  function Attempt(m: map<string, string>, versioned: bool, impt: string, key: string): Wild
  {
    if key !in m || ('@' in key) != versioned then NoMatch else ResolveWildcard(key, m[key], impt)
  }

  /** The first key that is not passed over. */
  function FirstWild(m: map<string, string>, walk: seq<string>, versioned: bool, impt: string): Wild
  {
    if walk == [] then NoMatch
    else if Attempt(m, versioned, impt, walk[0]) != NoMatch then Attempt(m, versioned, impt, walk[0])
    else FirstWild(m, walk[1..], versioned, impt)
  }

  /** What the semver loop makes of a key: the mapping and the version, if the key is compatible and fits. */
  datatype Candidate = Skip | Fits(mapping: string, version: Version) | Bad

  function Fit(sv: Semver, m: map<string, string>, base: string, compat: string, key: string): Candidate
  {
    match Find(key, '@')
    case None => Skip
    case Some(at) =>
      match SemverCompatKey(sv, key[at + 1..])
      case None => Skip
      case Some((keyCompat, version)) =>
        if keyCompat != compat || key !in m then Skip
        else
          match ResolveWildcard(key[..at], m[key], base)
          case Panic => Bad
          case Match(mapping) => Fits(mapping, version)
          case NoMatch => if key[..at] == base then Fits(m[key], version) else Skip
  }

  /** The state of the semver loop after the keys in `walk`. */
  function Best(sv: Semver, m: map<string, string>, base: string, compat: string, walk: seq<string>): Candidate
  {
    if walk == [] then Skip
    else
      var before := Best(sv, m, base, compat, walk[..|walk| - 1]);
      var next := Fit(sv, m, base, compat, walk[|walk| - 1]);
      if before.Bad? || next.Skip? then before
      else if next.Bad? then Bad
      else if before.Fits? && sv.le(next.version, before.version) then before
      else next
  }

  /** The compatibility key of the import, if it has a version that has one. */
  function ImportCompat(sv: Semver, impt: string): Option<string>
  {
    match Find(impt, '@')
    case None => None
    case Some(at) =>
      match SemverCompatKey(sv, impt[at + 1..])
      case None => None
      case Some((compat, _)) => Some(compat)
  }

  /** `map_import`, for the map walked in the given order. */
  function Lookup(sv: Semver, m: map<string, string>, walk: seq<string>, impt: string): Outcome
  {
    var base := SansVersion(impt);
    if impt in m then ParseMapping(m[impt])
    else if base in m then ParseMapping(m[base])
    else if FirstWild(m, walk, true, impt) != NoMatch then Resolved(FirstWild(m, walk, true, impt))
    else if FirstWild(m, walk, false, base) != NoMatch then Resolved(FirstWild(m, walk, false, base))
    else
      match ImportCompat(sv, impt)
      case None => Mapped((base, None))
      case Some(compat) =>
        match Best(sv, m, base, compat, walk)
        case Bad => Panics
        case Fits(mapping, _) => ParseMapping(mapping)
        case Skip => Mapped((base, None))
  }

  /** `map_import` with its loops. */
  method MapImport(sv: Semver, m: map<string, string>, walk: seq<string>, impt: string) returns (r: Outcome)
    requires WalkOf(m, walk)
    ensures r == Lookup(sv, m, walk, impt)
  {
    var base := SansVersion(impt);
    if impt in m {
      return ParseMapping(m[impt]);
    }
    if base in m {
      return ParseMapping(m[base]);
    }
    for i := 0 to |walk|
      invariant FirstWild(m, walk[i..], true, impt) == FirstWild(m, walk, true, impt)
    {
      var key := walk[i];
      assert walk[i..][1..] == walk[i + 1..] && key in walk;
      if '@' in key {
        var w := ResolveWildcard(key, m[key], impt);
        if w != NoMatch {
          return Resolved(w);
        }
      }
    }
    for i := 0 to |walk|
      invariant FirstWild(m, walk[i..], false, base) == FirstWild(m, walk, false, base)
    {
      var key := walk[i];
      assert walk[i..][1..] == walk[i + 1..] && key in walk;
      if '@' !in key {
        var w := ResolveWildcard(key, m[key], base);
        if w != NoMatch {
          return Resolved(w);
        }
      }
    }
    var compat := ImportCompat(sv, impt);
    if compat.Some? {
      var best := BestMatch(sv, m, base, compat.value, walk);
      match best {
        case Bad => return Panics;
        case Fits(mapping, _) => return ParseMapping(mapping);
        case Skip =>
      }
    }
    return Mapped((base, None));
  }

  /** The loop over the compatible versions. */
  method BestMatch(sv: Semver, m: map<string, string>, base: string, compat: string, walk: seq<string>)
    returns (best: Candidate)
    ensures best == Best(sv, m, base, compat, walk)
  {
    best := Skip;
    for i := 0 to |walk|
      invariant best == Best(sv, m, base, compat, walk[..i]) && !best.Bad?
    {
      assert walk[..i + 1][..i] == walk[..i];
      var next := Fit(sv, m, base, compat, walk[i]);
      match next {
        case Skip =>
        case Bad =>
          StaysBad(sv, m, base, compat, walk, i + 1);
          return Bad;
        case Fits(_, version) =>
          if !(best.Fits? && sv.le(version, best.version)) {
            best := next;
          }
      }
    }
    assert walk[..|walk|] == walk;
  }

  lemma {:induction false} StaysBad(
    sv: Semver, m: map<string, string>, base: string, compat: string, walk: seq<string>, i: nat)
    requires i <= |walk| && Best(sv, m, base, compat, walk[..i]) == Bad
    ensures Best(sv, m, base, compat, walk) == Bad
    decreases |walk| - i
  {
    if i == |walk| {
      assert walk[..i] == walk;
    } else {
      assert walk[..i + 1][..i] == walk[..i];
      StaysBad(sv, m, base, compat, walk, i + 1);
    }
  }
}
