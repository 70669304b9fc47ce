/** Decimal renderings, as produced by `format!("{n}")`. */
module Text {
  function DigitChar(d: nat): char
    requires d < 10
  {
    ('0' as int + d) as char
  }

  function Decimal(n: nat): string
  {
    if n < 10 then [DigitChar(n)] else Decimal(n / 10) + [DigitChar(n % 10)]
  }

  lemma {:induction false} DecimalDigits(n: nat)
    ensures |Decimal(n)| > 0
    ensures forall i :: 0 <= i < |Decimal(n)| ==> '0' <= Decimal(n)[i] <= '9'
  {
    if n >= 10 {
      DecimalDigits(n / 10);
    }
  }

  lemma {:induction false} DecimalInjective(m: nat, n: nat)
    requires Decimal(m) == Decimal(n)
    ensures m == n
  {
    DecimalDigits(m / 10);
    DecimalDigits(n / 10);
    if m >= 10 && n >= 10 {
      SnocInjective(Decimal(m / 10), DigitChar(m % 10), Decimal(n / 10), DigitChar(n % 10));
      DecimalInjective(m / 10, n / 10);
    }
  }

  /** The number with these digits. */
  function Reading(s: string): int
  {
    if s == "" then 0 else 10 * Reading(s[..|s| - 1]) + (s[|s| - 1] as int - '0' as int)
  }

  /** The digits are those of the number, most significant first and without leading zeros. */
  lemma {:induction false} DecimalReads(n: nat)
    ensures Reading(Decimal(n)) == n && |Decimal(n)| > 0 && (n > 0 ==> Decimal(n)[0] != '0')
  {
    if n >= 10 {
      DecimalReads(n / 10);
      var s := Decimal(n);
      assert s[..|s| - 1] == Decimal(n / 10) && s[|s| - 1] == DigitChar(n % 10);
    } else {
      assert Reading([DigitChar(n)][..0]) == 0;
    }
  }

  lemma SnocInjective<T>(a: seq<T>, x: T, b: seq<T>, y: T)
    requires a + [x] == b + [y]
    ensures a == b && x == y
  {
    var s := a + [x];
    assert s[|s| - 1] == x && s[..|s| - 1] == a;
    assert (b + [y])[|s| - 1] == y && (b + [y])[..|s| - 1] == b;
  }

  /** A prefix free of a separator is determined by the whole. */
  lemma SplitInjective(a: string, a': string, c: char, b: string, b': string)
    requires a + [c] + b == a' + [c] + b'
    requires c !in a && c !in a'
    ensures a == a' && b == b'
  {
    var s := a + [c] + b;
    assert s[|a|] == c && s[|a'|] == c;
    assert forall i :: 0 <= i < |a| ==> s[i] == a[i];
    assert forall i :: 0 <= i < |a'| ==> s[i] == a'[i];
    assert a == s[..|a|] && b == s[|a| + 1..];
    assert a' == s[..|a'|] && b' == s[|a'| + 1..];
  }
}
