/** An order of versions as the lookup assumes it. */
module VersionOrder {
  import opened Wrappers
  import opened ImportMap

  predicate LeText(s: string, t: string)
  {
    s == "" || (t != "" && (s[0] < t[0] || (s[0] == t[0] && LeText(s[1..], t[1..]))))
  }

  lemma {:induction false} TextTotal(s: string, t: string)
    ensures LeText(s, t) || LeText(t, s)
    ensures LeText(s, t) && LeText(t, s) ==> s == t
  {
    if s != "" && t != "" {
      TextTotal(s[1..], t[1..]);
      assert s == [s[0]] + s[1..] && t == [t[0]] + t[1..];
    }
  }

  lemma {:induction false} TextTransitive(s: string, t: string, u: string)
    requires LeText(s, t) && LeText(t, u)
    ensures LeText(s, u)
  {
    if s != "" && s[0] == t[0] == u[0] {
      TextTransitive(s[1..], t[1..], u[1..]);
    }
  }

  /** A release comes after its pre-releases. */
  predicate LePre(s: string, t: string) { t == "" || (s != "" && LeText(s, t)) }

  /** By the numbers, then by the text of the pre-release and of the build. */
  predicate LeVersion(a: Version, b: Version)
  {
    if a.major != b.major then a.major < b.major
    else if a.minor != b.minor then a.minor < b.minor
    else if a.patch != b.patch then a.patch < b.patch
    else if a.pre != b.pre then LePre(a.pre, b.pre)
    else LeText(a.build, b.build)
  }

  /** With any parser, it is such an order. */
  lemma VersionsOrdered(parse: string -> Option<Version>)
    ensures Ordered(Semver(parse, LeVersion))
  {
    forall a, b
      ensures (LeVersion(a, b) || LeVersion(b, a)) && (LeVersion(a, b) && LeVersion(b, a) ==> a == b)
    {
      TextTotal(a.pre, b.pre);
      TextTotal(a.build, b.build);
    }
    forall a, b, c | LeVersion(a, b) && LeVersion(b, c)
      ensures LeVersion(a, c)
    {
      VersionTransitive(a, b, c);
    }
  }

  lemma VersionTransitive(a: Version, b: Version, c: Version)
    requires LeVersion(a, b) && LeVersion(b, c)
    ensures LeVersion(a, c)
  {
    if LePre(a.pre, b.pre) && LePre(b.pre, c.pre) {
      PreTransitive(a.pre, b.pre, c.pre);
    }
    if LeText(a.build, b.build) && LeText(b.build, c.build) {
      TextTransitive(a.build, b.build, c.build);
    }
    TextTotal(a.pre, b.pre);
  }

  lemma PreTransitive(s: string, t: string, u: string)
    requires LePre(s, t) && LePre(t, u)
    ensures LePre(s, u)
  {
    if u != "" {
      TextTransitive(s, t, u);
    }
  }
}
