/** Unique identifiers for generated code. */
module Names {
  import opened Wrappers
  import opened Text

  /** `is_js_reserved_word`: all that is used of the table is that no word in it has `$` or starts with `_`. */
  type Reserved = string -> bool

  ghost predicate Table(reserved: Reserved)
  {
    forall s :: reserved(s) ==> '$' !in s && s != "" && s[0] != '_'
  }

  predicate Letter(c: char) { 'A' <= c <= 'Z' || 'a' <= c <= 'z' || c == '$' || c == '_' }

  predicate LetterOrDigit(c: char) { Letter(c) || '0' <= c <= '9' }

  /** `is_valid_js_identifier` */
  predicate Identifier(reserved: Reserved, s: string) { Shaped(s) && !reserved(s) }

  predicate Shaped(s: string)
  {
    s != "" && Letter(s[0]) && forall i :: 1 <= i < |s| ==> LetterOrDigit(s[i])
  }

  /** Letters are those of ASCII, the dollar and the underscore; digits cannot come first. */
  lemma ShapedExamples(c: char)
    ensures Shaped([c]) <==> 'A' <= c <= 'Z' || 'a' <= c <= 'z' || c == '$' || c == '_'
    ensures Shaped("a" + [c]) <==> Shaped([c]) || '0' <= c <= '9'
    ensures !Shaped("")
  {
    assert ("a" + [c])[0] == 'a' && ("a" + [c])[1] == c;
  }

  /** What a character of the camel-cased name becomes, at the start or later. */
  function Fix(c: char, start: bool): char
  {
    if (if start then Letter(c) else LetterOrDigit(c)) then c else if c == '.' then '_' else '$'
  }

  function Fixed(goal: string): (r: string)
    ensures |r| == |goal|
  {
    seq(|goal|, i requires 0 <= i < |goal| => Fix(goal[i], i == 0))
  }

  /** The identifier made from a name, whatever `camel` does with it. */
  function Named(reserved: Reserved, camel: string -> string, goal: string): string
  {
    if Identifier(reserved, goal) then goal
    else if Identifier(reserved, Fixed(camel(goal))) then Fixed(camel(goal))
    else "_" + Fixed(camel(goal))
  }

  /** `to_js_identifier`; the result None is the panic. */
  method ToJsIdentifier(reserved: Reserved, camel: string -> string, goalName: string) returns (r: Option<string>)
    requires Table(reserved)
    ensures r == Some(Named(reserved, camel, goalName)) && Identifier(reserved, r.value)
  {
    if Identifier(reserved, goalName) {
      return Some(goalName);
    }
    var goal := camel(goalName);
    var identifier := "";
    for i := 0 to |goal|
      invariant identifier == Fixed(goal)[..i]
    {
      var c := goal[i];
      var valid := if identifier == "" then Letter(c) else LetterOrDigit(c);
      identifier := identifier + [if valid then c else if c == '.' then '_' else '$'];
    }
    assert identifier == Fixed(goal);
    if !Identifier(reserved, identifier) {
      identifier := "_" + identifier;
      if !Identifier(reserved, identifier) {
        return None;
      }
    }
    return Some(identifier);
  }

  /** The part after the last slash. */
  function AfterSlash(s: string): string
  {
    if s == "" || s[|s| - 1] == '/' then "" else AfterSlash(s[..|s| - 1]) + [s[|s| - 1]]
  }

  /** What follows the last slash; without a slash, everything. */
  predicate LastPart(s: string, last: string)
  {
    && '/' !in last && |last| <= |s| && s[|s| - |last|..] == last
    && (|last| < |s| ==> s[|s| - |last| - 1] == '/')
  }

  lemma {:induction false} AfterSlashIs(s: string, last: string)
    requires LastPart(s, last)
    ensures AfterSlash(s) == last
    decreases |s|
  {
    if last != "" {
      var n := |last| - 1;
      assert s[|s| - 1] == s[|s| - |last|..][n] == last[n];
      assert s[..|s| - 1][|s| - 1 - n..] == last[..n];
      AfterSlashIs(s[..|s| - 1], last[..n]);
      assert last == last[..n] + [last[n]];
    }
  }

  lemma LastParts(pre: string, last: string)
    requires '/' !in last
    ensures LastPart(pre + "/" + last, last) && LastPart(last, last)
  {
    var s := pre + "/" + last;
    assert s[|s| - |last|..] == last && s[|s| - |last| - 1] == '/' && last[0..] == last;
  }

  function Suffixed(goal: string, idx: nat): string { goal + "$" + Decimal(idx) }

  lemma SuffixedInjective(goal: string, i: nat, j: nat)
    requires Suffixed(goal, i) == Suffixed(goal, j)
    ensures i == j
  {
    assert Suffixed(goal, i)[|goal| + 1..] == Decimal(i) && Suffixed(goal, j)[|goal| + 1..] == Decimal(j);
    DecimalInjective(i, j);
  }

  lemma SuffixedValid(reserved: Reserved, goal: string, idx: nat)
    requires Table(reserved) && Identifier(reserved, goal)
    ensures Identifier(reserved, Suffixed(goal, idx))
  {
    DecimalDigits(idx);
    var s := Suffixed(goal, idx);
    assert s[|goal|] == '$';
    forall i | 1 <= i < |s|
      ensures LetterOrDigit(s[i])
    {
      if i > |goal| {
        assert s[i] == Decimal(idx)[i - |goal| - 1];
      }
    }
  }

  function Suffixes(goal: string, n: nat): set<string>
  {
    if n == 0 then {} else Suffixes(goal, n - 1) + {Suffixed(goal, n)}
  }

  lemma {:induction false} SuffixesCount(goal: string, n: nat)
    ensures |Suffixes(goal, n)| == n
    ensures forall s :: s in Suffixes(goal, n) ==> exists j :: 1 <= j <= n && s == Suffixed(goal, j)
  {
    if n > 0 {
      SuffixesCount(goal, n - 1);
      if Suffixed(goal, n) in Suffixes(goal, n - 1) {
        var j :| 1 <= j <= n - 1 && Suffixed(goal, n) == Suffixed(goal, j);
        SuffixedInjective(goal, n, j);
      }
    }
  }

  lemma SubsetCount<T>(a: set<T>, b: set<T>)
    requires a <= b
    ensures |a| <= |b|
  {
    assert b == a + (b - a) && a !! (b - a);
  }

  /** The first `n` suffixed forms are taken. */
  predicate AllTaken(goal: string, taken: set<string>, n: nat)
  {
    forall j :: 1 <= j <= n ==> Suffixed(goal, j) in taken
  }

  /** The goal, or else its first suffixed form, that is not taken. */
  ghost predicate FirstFree(goal: string, taken: set<string>, name: string)
  {
    name !in taken &&
    (name == goal || (goal in taken && exists n: nat :: name == Suffixed(goal, n + 1) && AllTaken(goal, taken, n)))
  }

  /** Suffixed forms are the goal, a dollar and a number from 1 on; the number is the least that is free. */
  lemma FirstFreeForm(goal: string, taken: set<string>, name: string)
    requires FirstFree(goal, taken, name) && name != goal
    ensures goal in taken
    ensures exists n: nat :: LeastFree(goal, taken, name, n)
  {
    var n: nat :| name == Suffixed(goal, n + 1) && AllTaken(goal, taken, n);
    forall j | 1 <= j < n + 1
      ensures goal + "$" + Decimal(j) in taken
    {
      assert Suffixed(goal, j) in taken;
    }
    assert LeastFree(goal, taken, name, n + 1);
  }

  predicate LeastFree(goal: string, taken: set<string>, name: string, n: nat)
  {
    && n > 0 && name == goal + "$" + Decimal(n) && name !in taken
    && forall j :: 1 <= j < n ==> goal + "$" + Decimal(j) in taken
  }

  /** A name that is an identifier stays as it is; of others, only characters that cannot stand there are replaced. */
  lemma NamedForm(reserved: Reserved, camel: string -> string, goal: string)
    ensures Identifier(reserved, goal) ==> Named(reserved, camel, goal) == goal
    ensures !Identifier(reserved, goal) ==>
      var s, c := Named(reserved, camel, goal), camel(goal);
      var skip := |s| - |c|;
      && 0 <= skip <= 1 && (skip == 1 ==> s[0] == '_')
      && forall i :: 0 <= i < |c| ==>
           s[skip + i] == (if Letter(c[i]) || (i > 0 && '0' <= c[i] <= '9') then c[i] else if c[i] == '.' then '_' else '$')
    ensures !Identifier(reserved, goal) && |Named(reserved, camel, goal)| > |camel(goal)| ==>
      !Identifier(reserved, Named(reserved, camel, goal)[1..])
  {
    var c := camel(goal);
    assert ("_" + Fixed(c))[1..] == Fixed(c);
  }

  lemma NameItself(name: string, taken: set<string>)
    requires name !in taken
    ensures FirstFree(name, taken, name)
  {
  }

  class LocalNames {
    const reserved: Reserved
    const camel: string -> string
    var localNames: set<string>
    var localNameIds: map<string, string>
    /** Every name handed out by `CreateOnce`, oldest first. */
    ghost var created: seq<string>

    /** Names that were created are pairwise different valid identifiers; names by id are among them. */
    ghost predicate Valid()
      reads this
    {
      && Table(reserved)
      && (forall i :: 0 <= i < |created| ==> created[i] in localNames && Identifier(reserved, created[i]))
      && (forall i, j :: 0 <= i < j < |created| ==> created[i] != created[j])
      && (forall id :: id in localNameIds ==> localNameIds[id] in created)
      && (forall a, b :: a in localNameIds && b in localNameIds && a != b ==> localNameIds[a] != localNameIds[b])
    }

    constructor (reserved: Reserved, camel: string -> string)
      requires Table(reserved)
      ensures Valid() && created == [] && localNames == {} && localNameIds == map[]
      ensures this.reserved == reserved && this.camel == camel
    {
      this.reserved, this.camel := reserved, camel;
      localNames, localNameIds, created := {}, map[], [];
    }

    method ExcludeGlobals(globals: seq<string>)
      requires Valid()
      modifies this`localNames
      ensures Valid() && localNames == old(localNames) + set g | g in globals
    {
      for i := 0 to |globals|
        invariant Valid() && localNames == old(localNames) + set g | g in globals[..i]
      {
        localNames := localNames + {globals[i]};
        assert globals[..i + 1] == globals[..i] + [globals[i]];
      }
      assert globals[..|globals|] == globals;
    }

    /**
     A valid identifier that was neither excluded nor created before; the plain form of the goal if that is free, and
     otherwise the form with the least free suffix.
     */
    method CreateOnce(goalName: string) returns (name: string)
      requires Valid()
      modifies this`localNames, this`created
      ensures Valid() && created == old(created) + [name] && localNames == old(localNames) + {name}
      ensures name !in old(localNames) && Identifier(reserved, name)
      ensures forall last :: LastPart(goalName, last) ==> MadeFrom(last, old(localNames), name)
    {
      hide Identifier, Named, AfterSlash, Table, FirstFree, LastPart;
      ghost var taken := localNames;
      var result := ToJsIdentifier(reserved, camel, AfterSlash(goalName));
      name := result.value;
      if name in localNames {
        name := FreeSuffix(name);
      } else {
        NameItself(name, localNames);
      }
      localNames := localNames + {name};
      created := created + [name];
      forall last | LastPart(goalName, last)
        ensures MadeFrom(last, taken, name)
      {
        AfterSlashIs(goalName, last);
        FreeItself(last, taken, name);
      }
    }

    /** The first free form of the identifier made from `last`; in particular `last` itself, if it is a free identifier. */
    ghost predicate MadeFrom(last: string, taken: set<string>, name: string)
    {
      && FirstFree(Named(reserved, camel, last), taken, name)
      && (Identifier(reserved, last) && last !in taken ==> name == last)
    }

    lemma FreeItself(last: string, taken: set<string>, name: string)
      requires FirstFree(Named(reserved, camel, last), taken, name)
      ensures MadeFrom(last, taken, name)
    {
      hide Identifier;
    }

    /** The loop over the suffixes: it ends, since there are only so many names. */
    method FreeSuffix(goal: string) returns (name: string)
      requires Table(reserved) && Identifier(reserved, goal) && goal in localNames
      ensures FirstFree(goal, localNames, name) && name !in localNames && Identifier(reserved, name)
    {
      hide Identifier, Table, Suffixed;
      var idx := 1;
      name := Suffixed(goal, idx);
      while name in localNames
        invariant idx > 0 && name == Suffixed(goal, idx)
        invariant AllTaken(goal, localNames, idx - 1)
        decreases |localNames| + 1 - idx
      {
        TakenFew(goal, idx);
        idx := idx + 1;
        name := Suffixed(goal, idx);
      }
      SuffixedValid(reserved, goal, idx);
      assert name == Suffixed(goal, (idx - 1) + 1);
    }

    lemma ValidIds()
      requires Valid()
      ensures IdsApart(localNames, localNameIds)
    {
      assert forall x :: x in created ==> x in localNames;
    }

    /** As many suffixes cannot be taken as there are names, and more. */
    lemma TakenFew(goal: string, n: nat)
      requires AllTaken(goal, localNames, n)
      ensures n <= |localNames|
    {
      SuffixesCount(goal, n);
      SubsetCount(Suffixes(goal, n), localNames);
    }

    /** The name of an id: the first one that was created for it. */
    method GetOrCreate(id: string, goalName: string) returns (name: string, seen: bool)
      requires Valid()
      modifies this
      ensures Valid() && seen == (id in old(localNameIds)) && Identifier(reserved, name)
      ensures localNameIds == old(localNameIds)[id := name]
      ensures seen ==> name == old(localNameIds)[id] && localNames == old(localNames) && created == old(created)
      ensures !seen ==>
        && name !in old(localNames) && localNames == old(localNames) + {name} && created == old(created) + [name]
        && forall last :: LastPart(goalName, last) ==> MadeFrom(last, old(localNames), name)
    {
      seen := true;
      if id !in localNameIds {
        name := CreateOnce(goalName);
        localNameIds := localNameIds[id := name];
        seen := false;
      }
      name := localNameIds[id];
    }
  }

  // ----- runs -----

  datatype Call = Exclude(globals: seq<string>) | Create(goal: string) | Obtain(id: string, goal: string)

  /** One of the first `n` calls obtains the name of the id. */
  predicate ObtainedBefore(calls: seq<Call>, n: nat, id: string)
    requires n <= |calls|
  {
    exists k :: 0 <= k < n && calls[k].Obtain? && calls[k].id == id
  }

  /**
   Two answers are the same exactly if they are for the same id; a name that is first made after an exclusion is none of
   the excluded ones.
   */
  predicate Apart(calls: seq<Call>, answers: seq<string>, i: nat, j: nat)
    requires i < j < |answers| <= |calls|
  {
    var a, b := calls[i], calls[j];
    && (!a.Exclude? && !b.Exclude? ==> (answers[i] == answers[j] <==> a.Obtain? && b.Obtain? && a.id == b.id))
    && (a.Exclude? && (b.Create? || (b.Obtain? && !ObtainedBefore(calls, i, b.id))) ==> answers[j] !in a.globals)
  }

  /** What holds between an answer and the allocator's state. */
  predicate Known(call: Call, answer: string, taken: set<string>, ids: map<string, string>)
  {
    match call
    case Exclude(globals) => forall g :: g in globals ==> g in taken
    case Create(_) => answer in taken && answer !in ids.Values
    case Obtain(id, _) => answer in taken && id in ids && ids[id] == answer
  }

  predicate Separate(calls: seq<Call>, answers: seq<string>)
    requires |answers| <= |calls|
  {
    forall i, j :: 0 <= i < j < |answers| ==> Apart(calls, answers, i, j)
  }

  predicate AllKnown(calls: seq<Call>, answers: seq<string>, taken: set<string>, ids: map<string, string>)
    requires |answers| <= |calls|
  {
    forall i :: 0 <= i < |answers| ==> Known(calls[i], answers[i], taken, ids)
  }

  /** Each id has its own name, and the names are taken. */
  predicate IdsApart(taken: set<string>, ids: map<string, string>)
  {
    && (forall id :: id in ids ==> ids[id] in taken)
    && forall a, b :: a in ids && b in ids && a != b ==> ids[a] != ids[b]
  }

  /** The name of each id is the answer to a call. */
  predicate IdsAnswered(calls: seq<Call>, answers: seq<string>, ids: map<string, string>)
    requires |answers| <= |calls|
  {
    forall id :: id in ids ==> IdAnswered(calls, answers, ids[id], id)
  }

  predicate IdAnswered(calls: seq<Call>, answers: seq<string>, name: string, id: string)
    requires |answers| <= |calls|
  {
    exists k :: 0 <= k < |answers| && calls[k].Obtain? && calls[k].id == id && answers[k] == name
  }

  /** The name of an id that was not obtained before an exclusion is none of the excluded ones. */
  lemma SeenLater(calls: seq<Call>, answers: seq<string>, i: nat, name: string, id: string)
    requires i < |answers| <= |calls| && Separate(calls, answers) && IdAnswered(calls, answers, name, id)
    requires calls[i].Exclude? && !ObtainedBefore(calls, i, id)
    ensures name !in calls[i].globals
  {
    var k :| 0 <= k < |answers| && calls[k].Obtain? && calls[k].id == id && answers[k] == name;
    assert Apart(calls, answers, i, k);
  }

  /** One more call keeps all answers apart. */
  lemma NextAnswer(calls: seq<Call>, answers: seq<string>, name: string, taken: set<string>, ids: map<string, string>,
                   taken': set<string>, ids': map<string, string>)
    requires |answers| < |calls| && Separate(calls, answers) && AllKnown(calls, answers, taken, ids)
    requires IdsApart(taken, ids) && IdsAnswered(calls, answers, ids)
    requires match calls[|answers|]
      case Exclude(globals) => taken' == taken + (set g | g in globals) && ids' == ids
      case Create(_) => name !in taken && taken' == taken + {name} && ids' == ids
      case Obtain(id, _) =>
        if id in ids then name == ids[id] && taken' == taken && ids' == ids
        else name !in taken && taken' == taken + {name} && ids' == ids[id := name]
    ensures Separate(calls, answers + [name]) && AllKnown(calls, answers + [name], taken', ids')
    ensures IdsAnswered(calls, answers + [name], ids')
  {
    var n, next := |answers|, answers + [name];
    forall i | 0 <= i < n
      ensures Known(calls[i], next[i], taken', ids') && Apart(calls, next, i, n)
    {
      assert Known(calls[i], answers[i], taken, ids);
      if calls[i].Exclude? && calls[n].Obtain? && calls[n].id in ids && !ObtainedBefore(calls, i, calls[n].id) {
        SeenLater(calls, answers, i, name, calls[n].id);
      }
    }
    forall id | id in ids'
      ensures IdAnswered(calls, next, ids'[id], id)
    {
      StillAnswered(calls, answers, name, ids, ids', id);
    }
    forall i, j | 0 <= i < j < n
      ensures Apart(calls, next, i, j)
    {
      assert Apart(calls, answers, i, j);
    }
  }

  lemma StillAnswered(calls: seq<Call>, answers: seq<string>, name: string, ids: map<string, string>,
                      ids': map<string, string>, id: string)
    requires |answers| < |calls| && IdsAnswered(calls, answers, ids) && id in ids'
    requires ids' == ids || (calls[|answers|].Obtain? && ids' == ids[calls[|answers|].id := name])
    ensures IdAnswered(calls, answers + [name], ids'[id], id)
  {
    var next := answers + [name];
    if id in ids && ids'[id] == ids[id] {
      assert IdAnswered(calls, answers, ids[id], id);
      var k :| 0 <= k < |answers| && calls[k].Obtain? && calls[k].id == id && answers[k] == ids[id];
      assert next[k] == ids'[id];
    } else {
      assert next[|answers|] == ids'[id];
    }
  }

  /**
   Any sequence of calls on a new allocator: all answers are valid identifiers; two of them are the same exactly if
   they are for the same id; and a name, created or obtained, differs from the globals excluded before it was first made.
   */
  method Run(reserved: Reserved, camel: string -> string, calls: seq<Call>) returns (answers: seq<string>)
    requires Table(reserved)
    ensures |answers| == |calls| && Separate(calls, answers)
    ensures forall i :: 0 <= i < |calls| && !calls[i].Exclude? ==> Identifier(reserved, answers[i])
  {
    hide Identifier, Table, Apart, Known, Separate, AllKnown, IdsAnswered, FirstFree;
    var names := new LocalNames(reserved, camel);
    answers := [];
    NoAnswers(calls);
    for i := 0 to |calls|
      invariant fresh(names) && names.reserved == reserved && names.Valid() && |answers| == i
      invariant Separate(calls, answers) && AllKnown(calls, answers, names.localNames, names.localNameIds)
      invariant IdsAnswered(calls, answers, names.localNameIds)
      invariant forall m :: 0 <= m < i && !calls[m].Exclude? ==> Identifier(reserved, answers[m])
    {
      names.ValidIds();
      ghost var taken, ids := names.localNames, names.localNameIds;
      var name := "";
      match calls[i] {
        case Exclude(globals) => names.ExcludeGlobals(globals);
        case Create(goal) => name := names.CreateOnce(goal);
        case Obtain(id, goal) =>
          var seen;
          name, seen := names.GetOrCreate(id, goal);
          assert seen ==> ids[id := name] == ids;
      }
      NextAnswer(calls, answers, name, taken, ids, names.localNames, names.localNameIds);
      answers := answers + [name];
    }
  }

  lemma NoAnswers(calls: seq<Call>)
    ensures Separate(calls, []) && AllKnown(calls, [], {}, map[]) && IdsAnswered(calls, [], map[])
  {
  }
}
