/** What the lookup in an import map answers, in terms of how keys, mappings and imports are put together. */
module ImportFills {
  import opened Wrappers
  import opened Seqs
  import opened ImportMap

  // ----- filling in -----

  /** Every star of the mapping is replaced, and nothing else. */
  lemma ReplaceParts(a: string, b: string, x: string)
    ensures Replace(a + "*" + b, x) == Replace(a, x) + x + Replace(b, x)
  {
    var f := (c: char) => if c == '*' then x else [c];
    assert Replace(a + "*" + b, x) == FlatMap(f, a + "*" + b);
    SameFill(a + "*" + b, x, f);
    SameFill(a, x, f);
    SameFill(b, x, f);
    FlatMapAppend(f, a + "*", b);
    FlatMapAppend(f, a, "*");
    assert FlatMap(f, "*") == f('*') + FlatMap(f, "*"[1..]);
  }

  lemma {:induction false} SameFill(s: string, x: string, f: char -> string)
    requires forall c :: f(c) == if c == '*' then x else [c]
    ensures FlatMap(f, s) == Replace(s, x)
  {
    if s != "" {
      SameFill(s[1..], x, f);
    }
  }

  lemma {:induction false} ReplaceNone(s: string, x: string)
    requires '*' !in s
    ensures Replace(s, x) == s
  {
    if s != "" {
      ReplaceNone(s[1..], x);
      assert s == [s[0]] + s[1..];
    }
  }

  /** A star before which there is no other is the first one. */
  lemma StarAt(lhs: string, rhs: string)
    requires '*' !in lhs
    ensures Find(lhs + "*" + rhs, '*') == Some(|lhs|)
    ensures (lhs + "*" + rhs)[..|lhs|] == lhs && (lhs + "*" + rhs)[|lhs| + 1..] == rhs
  {
    var key := lhs + "*" + rhs;
    assert key[..|lhs|] == lhs && key[|lhs|] == '*' && key[|lhs| + 1..] == rhs;
    FindIs(key, '*', |lhs|);
  }

  /** For every key with a star, import and mapping: what the star stands for is put in the place of every star. */
  lemma WildcardFills(lhs: string, rhs: string, x: string, pre: string, post: string)
    requires '*' !in lhs && '*' !in pre && '*' !in post
    ensures ResolveWildcard(lhs + "*" + rhs, pre + "*" + post, lhs + x + rhs) == Match(pre + x + post)
    ensures ResolveWildcard(lhs + "*" + rhs, pre, lhs + x + rhs) == Match(pre)
  {
    StarAt(lhs, rhs);
    WildcardExact(lhs + "*" + rhs, pre + "*" + post, lhs + x + rhs, x);
    WildcardExact(lhs + "*" + rhs, pre, lhs + x + rhs, x);
    ReplaceParts(pre, post, x);
    ReplaceNone(pre, x);
    ReplaceNone(post, x);
  }

  /** A key without a star never matches as a wildcard. */
  lemma NoStar(key: string, mapping: string, impt: string)
    requires '*' !in key
    ensures ResolveWildcard(key, mapping, impt) == NoMatch
  {
  }

  // ----- the parts of an import -----

  lemma BaseOf(base: string, version: string)
    requires '@' !in base
    ensures SansVersion(base + "@" + version) == base && SansVersion(base) == base
    ensures Find(base + "@" + version, '@') == Some(|base|) && (base + "@" + version)[|base| + 1..] == version
    ensures Find(base, '@') == None
  {
    var s := base + "@" + version;
    assert s[..|base|] == base && s[|base|] == '@' && s[|base| + 1..] == version;
    FindIs(s, '@', |base|);
  }

  // ----- the lookup, tier by tier -----

  /** The import itself comes first, then the import without its version. */
  lemma ExactFirst(sv: Semver, m: map<string, string>, walk: seq<string>, base: string, version: string)
    requires '@' !in base
    ensures var impt := base + "@" + version;
      && (impt in m ==> Lookup(sv, m, walk, impt) == ParseMapping(m[impt]))
      && (impt !in m && base in m ==> Lookup(sv, m, walk, impt) == ParseMapping(m[base]))
    ensures base in m ==> Lookup(sv, m, walk, base) == ParseMapping(m[base])
  {
    BaseOf(base, version);
  }

  /** Only this key of its tier can match. */
  ghost predicate OnlyMatch(m: map<string, string>, versioned: bool, impt: string, key: string)
  {
    && key in m && ('@' in key) == versioned
    && forall k :: k in m && k != key && ('@' in k) == versioned ==> ResolveWildcard(k, m[k], impt) == NoMatch
  }

  lemma {:induction false} FirstIsOnly(
    m: map<string, string>, walk: seq<string>, versioned: bool, impt: string, key: string)
    requires key in walk && OnlyMatch(m, versioned, impt, key) && ResolveWildcard(key, m[key], impt) != NoMatch
    ensures FirstWild(m, walk, versioned, impt) == ResolveWildcard(key, m[key], impt)
  {
    hide ResolveWildcard;
    if walk[0] != key {
      assert key in walk[1..];
      FirstIsOnly(m, walk[1..], versioned, impt, key);
    }
  }

  lemma {:induction false} NothingWild(m: map<string, string>, walk: seq<string>, versioned: bool, impt: string)
    requires forall k :: k in m && ('@' in k) == versioned ==> ResolveWildcard(k, m[k], impt) == NoMatch
    ensures FirstWild(m, walk, versioned, impt) == NoMatch
  {
    hide ResolveWildcard;
    if walk != [] {
      NothingWild(m, walk[1..], versioned, impt);
    }
  }

  /** Wildcards without a version match the import without its version, if no wildcard with a version matches. */
  lemma WildcardFilled(sv: Semver, m: map<string, string>, walk: seq<string>, lhs: string, rhs: string, x: string,
                       pre: string, post: string, version: string)
    requires '*' !in lhs && '*' !in pre && '*' !in post && '@' !in lhs + "*" + rhs && '@' !in lhs + x + rhs
    requires WalkOf(m, walk) && lhs + "*" + rhs in m && m[lhs + "*" + rhs] == pre + "*" + post
    requires var base := lhs + x + rhs;
      && base !in m && base + "@" + version !in m && OnlyMatch(m, false, base, lhs + "*" + rhs)
      && forall k :: k in m && '@' in k ==> ResolveWildcard(k, m[k], base + "@" + version) == NoMatch
    ensures Lookup(sv, m, walk, lhs + x + rhs + "@" + version) == ParseMapping(pre + x + post)
  {
    var base, key := lhs + x + rhs, lhs + "*" + rhs;
    BaseOf(base, version);
    WildcardFills(lhs, rhs, x, pre, post);
    NothingWild(m, walk, true, base + "@" + version);
    FirstIsOnly(m, walk, false, base, key);
  }

  /** Wildcards with a version match the import with its version, and come first. */
  lemma VersionedFilled(sv: Semver, m: map<string, string>, walk: seq<string>, lhs: string, rhs: string, x: string,
                        pre: string, post: string, base: string, version: string)
    requires '*' !in lhs && '*' !in pre && '*' !in post && '@' in lhs + "*" + rhs && '@' !in base
    requires WalkOf(m, walk) && lhs + "*" + rhs in m && m[lhs + "*" + rhs] == pre + "*" + post
    requires var impt := base + "@" + version;
      && impt == lhs + x + rhs && impt !in m && base !in m && OnlyMatch(m, true, impt, lhs + "*" + rhs)
    ensures Lookup(sv, m, walk, base + "@" + version) == ParseMapping(pre + x + post)
  {
    BaseOf(base, version);
    WildcardFills(lhs, rhs, x, pre, post);
    FirstIsOnly(m, walk, true, base + "@" + version, lhs + "*" + rhs);
  }

  /** An entry for another version of the import counts exactly if the two versions are compatible releases. */
  lemma SemverEntry(sv: Semver, base: string, mine: string, its: string, mapping: string)
    requires '@' !in base && '*' !in base && '*' !in mine && mine != its
    ensures var key := base + "@" + mine;
      Lookup(sv, map[key := mapping], [key], base + "@" + its) ==
        if sv.parse(mine).Some? && sv.parse(its).Some? && Compatible(sv.parse(mine).value, sv.parse(its).value)
        then ParseMapping(mapping) else Mapped((base, None))
  {
    hide ParseMapping, ResolveWildcard;
    var key, impt := base + "@" + mine, base + "@" + its;
    var m := map[key := mapping];
    BaseOf(base, mine);
    BaseOf(base, its);
    assert key[|base| + 1..] != impt[|base| + 1..] && key != impt && |key| > |base|;
    NoStar(key, mapping, impt);
    NoStar(base, mapping, base);
    assert key[..|base|] == base;
    NothingWild(m, [key], true, impt);
    NothingWild(m, [key], false, base);
    if sv.parse(mine).Some? && sv.parse(its).Some? {
      CompatKeyExact(sv.parse(its).value, sv.parse(mine).value);
    }
    OneKey(sv, m, base, key);
  }

  /** An entry for another import never counts, whatever its version. */
  lemma OtherEntry(sv: Semver, other: string, mine: string, base: string, its: string, mapping: string)
    requires '@' !in base && '@' !in other && '*' !in other && '*' !in mine && other != base
    ensures var key := other + "@" + mine;
      Lookup(sv, map[key := mapping], [key], base + "@" + its) == Mapped((base, None))
  {
    hide ParseMapping, ResolveWildcard;
    var key, impt := other + "@" + mine, base + "@" + its;
    var m := map[key := mapping];
    BaseOf(other, mine);
    BaseOf(base, its);
    assert key != impt && '@' in key by {
      assert key[|other|] == '@';
    }
    NoStar(key, mapping, impt);
    NoStar(other, mapping, base);
    assert key[..|other|] == other;
    NothingWild(m, [key], true, impt);
    NothingWild(m, [key], false, base);
    OneKey(sv, m, base, key);
  }

  /** A wildcard with another version, under which the import falls without its version, is filled in if compatible. */
  lemma SemverWildcard(sv: Semver, lhs: string, rhs: string, x: string, mine: string, its: string, pre: string, post: string)
    requires '*' !in lhs && '@' !in lhs + "*" + rhs && '@' !in lhs + x + rhs && '*' !in pre && '*' !in post
    requires var key, impt := lhs + "*" + rhs + "@" + mine, lhs + x + rhs + "@" + its;
      ResolveWildcard(key, pre + "*" + post, impt) == NoMatch && key != impt
    requires sv.parse(mine).Some? && sv.parse(its).Some?
    ensures var key := lhs + "*" + rhs + "@" + mine;
      Lookup(sv, map[key := pre + "*" + post], [key], lhs + x + rhs + "@" + its) ==
        if Compatible(sv.parse(mine).value, sv.parse(its).value) then ParseMapping(pre + x + post)
        else Mapped((lhs + x + rhs, None))
  {
    hide ParseMapping, ResolveWildcard;
    var star, base := lhs + "*" + rhs, lhs + x + rhs;
    var key, impt := star + "@" + mine, base + "@" + its;
    var m := map[key := pre + "*" + post];
    BaseOf(star, mine);
    BaseOf(base, its);
    assert key[|star|] == '@' && key[..|star|] == star;
    WildcardFills(lhs, rhs, x, pre, post);
    NothingWild(m, [key], true, impt);
    NothingWild(m, [key], false, base);
    CompatKeyExact(sv.parse(its).value, sv.parse(mine).value);
    OneKey(sv, m, base, key);
  }

  /** The semver loop over one key. */
  lemma OneKey(sv: Semver, m: map<string, string>, base: string, key: string)
    ensures forall compat :: Best(sv, m, base, compat, [key]) == Fit(sv, m, base, compat, key)
  {
    forall compat
      ensures Best(sv, m, base, compat, [key]) == Fit(sv, m, base, compat, key)
    {
      assert [key][..0] == [] && Best(sv, m, base, compat, []) == Skip;
    }
  }

  /** One entry for all interfaces of a package, as the default shims have it: each is a member of the module. */
  lemma PackageEntry(sv: Semver, package: string, spec: string, x: string, version: string)
    requires '*' !in package && '@' !in package && '@' !in x && x != "*"
    requires spec != "" && '*' !in spec && '#' !in spec[1..] && !Wide(spec)
    ensures var key := package + "*";
      Lookup(sv, map[key := spec + "#*"], [key], package + x + "@" + version) == Mapped((spec, Some(x)))
  {
    hide ResolveWildcard, Lookup, ParseMapping, FirstWild;
    var key, mapping, base := package + "*", spec + "#*", package + x;
    var m := map[key := mapping];
    assert key == package + "*" + "" && base == package + x + "" && mapping == spec + "#" + "*" + "";
    assert (base + "@" + version)[|base|] == '@' && base + "@" + version != key;
    assert base != key by {
      assert base[|package|..] == x && key[|package|..] == "*";
    }
    assert '*' !in "" && '*' !in spec + "#" && '@' !in key && '@' !in base;
    WildcardFilled(sv, m, [key], package, "", x, spec + "#", "", version);
    assert spec + "#" + x + "" == spec + "#" + x;
    ParseExact(spec + "#" + x, spec, x);
  }

  lemma PackageParts()
    ensures '*' !in "wasi:cli/" && '@' !in "wasi:cli/" && '@' !in "environment" && "environment" != "*"
  {
    assert "environment"[0] != "*"[0];
  }

  lemma SpecParts()
    ensures var spec := "@bytecodealliance/preview2-shim/cli"; '*' !in spec && '#' !in spec && !Wide(spec)
  {
  }

  /** An interface of a package with a default shim. */
  lemma ShimExample(sv: Semver)
    ensures Lookup(sv, map["wasi:cli/" + "*" := "@bytecodealliance/preview2-shim/cli" + "#*"], ["wasi:cli/" + "*"],
                   "wasi:cli/" + "environment" + "@" + "0.2.3") ==
              Mapped(("@bytecodealliance/preview2-shim/cli", Some("environment")))
  {
    hide Lookup, Wide;
    PackageParts();
    SpecParts();
    PackageEntry(sv, "wasi:cli/", "@bytecodealliance/preview2-shim/cli", "environment", "0.2.3");
  }
}
