/**
 * Sorting a commit subject into a changelog category: first by the conventional-commit
 * pattern `^(\w+)(?:\([^)]+\))?:\s*(.+)$`, recognised here by hand with the backtracking
 * Python's `re.match` performs, then by an ordered, case-insensitive keyword scan.
 */
module Classifier {
  import opened Wrappers
  import opened Strings

  datatype Category =
    | BreakingChanges | Added | Changed | Fixed | Security | Deprecated
    | Removed | Documentation | Performance | Testing | Maintenance

  /** The category names the changelog prints. */
  function Name(c: Category): string
  {
    match c
    case BreakingChanges => "Breaking Changes"
    case Added => "Added"
    case Changed => "Changed"
    case Fixed => "Fixed"
    case Security => "Security"
    case Deprecated => "Deprecated"
    case Removed => "Removed"
    case Documentation => "Documentation"
    case Performance => "Performance"
    case Testing => "Testing"
    case Maintenance => "Maintenance"
  }

  /** Distinct categories print distinct names, so grouping by name is grouping by category. */
  lemma NameInjective(a: Category, b: Category)
    requires Name(a) == Name(b)
    ensures a == b
  {
    assert Name(a)[..2] == Name(b)[..2];
  }

  /** The order in which the changelog lists its sections. */
  const CategoryOrder: seq<Category> := [
    BreakingChanges, Added, Changed, Fixed,
    Security, Deprecated, Removed, Documentation,
    Performance, Testing, Maintenance
  ]

  /** The position of a category in `CategoryOrder`: every category has exactly one. */
  function Rank(c: Category): (r: nat)
    ensures r < |CategoryOrder| && CategoryOrder[r] == c
    ensures forall i :: 0 <= i < |CategoryOrder| && CategoryOrder[i] == c ==> i == r
  {
    match c
    case BreakingChanges => 0
    case Added => 1
    case Changed => 2
    case Fixed => 3
    case Security => 4
    case Deprecated => 5
    case Removed => 6
    case Documentation => 7
    case Performance => 8
    case Testing => 9
    case Maintenance => 10
  }

  /** The conventional-commit types that have a category of their own, lower-case. */
  const TypeKeys: seq<string> := [
    "feat", "fix", "docs", "refactor", "perf", "test",
    "chore", "breaking", "security", "deprecate", "remove"
  ]

  /** `type_mapping.get(t, 'Changed')` */
  function TypeCategory(t: string): Category
  {
    if t == "feat" then Added
    else if t == "fix" then Fixed
    else if t == "docs" then Documentation
    else if t == "refactor" then Changed
    else if t == "perf" then Performance
    else if t == "test" then Testing
    else if t == "chore" then Maintenance
    else if t == "breaking" then BreakingChanges
    else if t == "security" then Security
    else if t == "deprecate" then Deprecated
    else if t == "remove" then Removed
    else Changed
  }

  /** The one conventional type that maps to each category. */
  function ConventionalType(c: Category): (t: string)
    ensures t in TypeKeys
  {
    match c
    case BreakingChanges => "breaking"
    case Added => "feat"
    case Changed => "refactor"
    case Fixed => "fix"
    case Security => "security"
    case Deprecated => "deprecate"
    case Removed => "remove"
    case Documentation => "docs"
    case Performance => "perf"
    case Testing => "test"
    case Maintenance => "chore"
  }

  /** Every category is reached by exactly one conventional type: the table is a bijection onto the categories. */
  lemma TypeTableOnto(c: Category)
    ensures TypeCategory(ConventionalType(c)) == c
  {
  }

  lemma TypeTableInjective(t: string)
    requires t in TypeKeys
    ensures ConventionalType(TypeCategory(t)) == t
  {
    var i :| 0 <= i < |TypeKeys| && TypeKeys[i] == t;
  }

  /** Any type outside the table is filed under `Changed`. */
  lemma UnknownTypeIsChanged(t: string)
    requires t !in TypeKeys
    ensures TypeCategory(t) == Changed
  {
  }

  /** `\w` on ASCII text: a letter, a digit or the underscore. */
  predicate IsWordChar(c: char)
  {
    ('a' <= c <= 'z') || ('A' <= c <= 'Z') || ('0' <= c <= '9') || c == '_'
  }

  /** The character classes of the pattern: `\w`, `\s` and `.` (anything but a line break). */
  datatype CharClass = WordChars | SpaceChars | LineChars

  predicate InClass(p: CharClass, c: char)
  {
    match p
    case WordChars => IsWordChar(c)
    case SpaceChars => IsSpace(c)
    case LineChars => c != '\n'
  }

  /** The length of the longest prefix of `t` made of characters of class `p`. */
  function Run(t: string, p: CharClass): (n: nat)
    ensures n <= |t|
    ensures forall k :: 0 <= k < n ==> InClass(p, t[k])
    ensures n == |t| || !InClass(p, t[n])
    decreases |t|
  {
    if |t| > 0 && InClass(p, t[0]) then 1 + Run(t[1..], p) else 0
  }

  /** A run over a prefix made entirely of the class carries on into what follows. */
  lemma {:induction false} RunAppend(a: string, b: string, p: CharClass)
    requires forall k :: 0 <= k < |a| ==> InClass(p, a[k])
    ensures Run(a + b, p) == |a| + Run(b, p)
    decreases |a|
  {
    if |a| == 0 {
      assert a + b == b;
    } else {
      assert (a + b)[1..] == a[1..] + b;
      RunAppend(a[1..], b, p);
    }
  }

  /**
   * What follows the colon, given the text after the type: the colon comes directly, or after
   * a parenthesised scope of at least one character that holds no `)`.
   */
  function AfterColon(t: string): (r: Option<string>)
    ensures r.Some? ==> |r.value| < |t| && EndsWith(t, r.value)
    ensures r.Some? && t[0] == ':' ==> t == ":" + r.value
    ensures r.Some? && t[0] != ':' ==>
              var e := |t| - |r.value| - 2;
              2 <= e && ')' !in t[1..e] && t == ScopeText(true, t[1..e]) + (":" + r.value)
    ensures |t| > 0 && t[0] == ':' ==> r == Some(t[1..])
  {
    if |t| > 0 && t[0] == ':' then Some(t[1..])
    else if |t| > 0 && t[0] == '(' then
      match Find(t[1..], ')')
      case None => None
      case Some(j) =>
        if j >= 1 && j + 2 < |t| && t[j + 2] == ':' then
          ScopeCase(t, j);
          Some(t[j + 3..])
        else None
    else None
  }

  /** A scope closed by its first `)` and followed by the colon. */
  lemma ScopeCase(t: string, j: nat)
    requires |t| > 0 && t[0] == '(' && Find(t[1..], ')') == Some(j)
    requires j >= 1 && j + 2 < |t| && t[j + 2] == ':'
    ensures var e := |t| - |t[j + 3..]| - 2;
      e == j + 1 && ')' !in t[1..e] && t == ScopeText(true, t[1..e]) + (":" + t[j + 3..])
    ensures EndsWith(t, t[j + 3..])
  {
    assert t[1..][..j] == t[1..j + 1];
    assert t == ScopeText(true, t[1..j + 1]) + (":" + t[j + 3..]);
  }

  /**
   * `(.+)$` tried on `t`: a non-empty run without line breaks that reaches the end of `t`,
   * or stops at a final line break (Python's `$` matches there too).
   */
  function Tail(t: string): (r: Option<string>)
    ensures r.Some? ==> |r.value| >= 1 && '\n' !in r.value
    ensures r.Some? ==> t == r.value || t == r.value + "\n"
    ensures r.Some? <==> OneLine(t) || (|t| >= 2 && t[|t| - 1] == '\n' && OneLine(t[..|t| - 1]))
  {
    var n := Run(t, LineChars);
    TailCases(t, n);
    if n >= 1 && (n == |t| || (n == |t| - 1 && t[n] == '\n')) then
      var d := t[..n];
      assert n < |t| ==> t == d + "\n";
      Some(d)
    else None
  }

  /** A non-empty text without line breaks. */
  predicate OneLine(t: string)
  {
    |t| >= 1 && '\n' !in t
  }

  /** How the run of non-line-break characters decides whether `(.+)$` matches. */
  lemma TailCases(t: string, n: nat)
    requires n == Run(t, LineChars)
    ensures OneLine(t) <==> n >= 1 && n == |t|
    ensures (|t| >= 2 && t[|t| - 1] == '\n' && OneLine(t[..|t| - 1])) <==>
            n >= 1 && n == |t| - 1 && t[n] == '\n'
  {
    if n < |t| {
      assert t[n] in t;
    }
    if |t| >= 1 && n < |t| - 1 {
      assert t[n] == t[..|t| - 1][n];
    }
    if n >= 1 && n == |t| - 1 {
      assert forall k :: 0 <= k < n ==> t[..n][k] == t[k];
    }
  }

  /** `\s*` backtracking: `(.+)$` is tried after `k`, `k - 1`, ..., 0 characters of whitespace. */
  function Backtrack(t: string, k: nat): (r: Option<string>)
    requires k <= |t|
    ensures r.Some? ==> |r.value| >= 1 && '\n' !in r.value
    ensures r.Some? ==> EndsWith(t, r.value) || EndsWith(t, r.value + "\n")
    decreases k
  {
    match Tail(t[k..])
    case Some(d) =>
      assert t[k..] == d + "\n" ==> t[|t| - |d + "\n"|..] == d + "\n";
      Some(d)
    case None => if k == 0 then None else Backtrack(t, k - 1)
  }

  /**
   * The backtracking gives the match of `(.+)$` after the longest whitespace prefix, of at
   * most `k` characters, for which it succeeds, and fails only when every length fails.
   */
  lemma {:induction false} BacktrackLongest(t: string, k: nat) returns (j: nat)
    requires k <= |t|
    ensures Backtrack(t, k).Some? ==> j <= k && Tail(t[j..]) == Backtrack(t, k) && Misses(t, j, k)
    ensures Backtrack(t, k).None? <==> Misses(t, -1, k)
    decreases k
  {
    if Tail(t[k..]).Some? {
      j := k;
      assert Misses(t, k, k);
    } else if k == 0 {
      j := 0;
      assert Misses(t, -1, 0);
    } else {
      j := BacktrackLongest(t, k - 1);
      MissesStep(t, k);
    }
  }

  /** `(.+)$` fails after every whitespace length from `j + 1` to `k`. */
  predicate Misses(t: string, j: int, k: nat)
    requires k <= |t|
  {
    forall i :: j < i <= k && 0 <= i ==> Tail(t[i..]).None?
  }

  lemma MissesStep(t: string, k: nat)
    requires 0 < k <= |t| && Tail(t[k..]).None?
    ensures forall j :: j < k ==> (Misses(t, j, k - 1) <==> Misses(t, j, k))
  {
  }

  datatype Conventional = Conventional(kind: string, description: string)

  /** `re.match(r'^(\w+)(?:\([^)]+\))?:\s*(.+)$', s)`, giving groups 1 and 2. */
  function ParseConventional(s: string): (r: Option<Conventional>)
    ensures r.Some? ==> IsWord(r.value.kind) && StartsWith(s, r.value.kind)
    ensures r.Some? ==> OneLine(r.value.description)
  {
    var w := Run(s, WordChars);
    if w == 0 then None
    else
      WordPrefix(s, w);
      match AfterColon(s[w..])
      case None => None
      case Some(a) =>
        match Backtrack(a, Run(a, SpaceChars))
        case None => None
        case Some(d) => Some(Conventional(s[..w], d))
  }

  /**
   * What a match is made of: the type, an optional non-empty scope without `)`, the colon,
   * whitespace, and the description, which is a non-empty line-break-free text ending the
   * subject, possibly before a final line break.
   */
  lemma ParseConventionalSound(s: string) returns (hasScope: bool, scope: string, ws: string, eol: bool)
    requires ParseConventional(s).Some?
    ensures var m := ParseConventional(s).value;
      && IsWord(m.kind) && StartsWith(s, m.kind)
      && |m.description| >= 1 && '\n' !in m.description
      && (EndsWith(s, m.description) || EndsWith(s, m.description + "\n"))
      && |m.kind| + 1 + |m.description| <= |s|
    ensures hasScope ==> |scope| >= 1 && ')' !in scope
    ensures AllBlank(ws)
    ensures var m := ParseConventional(s).value;
      s == m.kind + (ScopeText(hasScope, scope) + (":" + (ws + (m.description + LineEnd(eol)))))
  {
    var w, a, d := ParseParts(s);
    PiecesSound(s, w, a, d);
    hasScope, scope, ws, eol := PiecesShape(s, w, a, d);
  }

  /** The pieces of a match laid out: the word, the scope text, the colon, the spaces, the description. */
  lemma PiecesShape(s: string, w: nat, a: string, d: string) returns (hasScope: bool, scope: string, ws: string, eol: bool)
    requires 1 <= w <= |s|
    requires AfterColon(s[w..]) == Some(a) && Backtrack(a, Run(a, SpaceChars)) == Some(d)
    ensures hasScope ==> |scope| >= 1 && ')' !in scope
    ensures AllBlank(ws)
    ensures s == s[..w] + (ScopeText(hasScope, scope) + (":" + (ws + (d + LineEnd(eol)))))
  {
    hasScope, scope := ColonShape(s[w..], a);
    ws, eol := SpacesShape(a, d);
    Rejoin(s, w, ScopeText(hasScope, scope), a, ws + (d + LineEnd(eol)));
  }

  lemma SpacesShape(a: string, d: string) returns (ws: string, eol: bool)
    requires Backtrack(a, Run(a, SpaceChars)) == Some(d)
    ensures AllBlank(ws) && a == ws + (d + LineEnd(eol))
  {
    ws, eol := BacktrackShape(a, Run(a, SpaceChars), d);
  }

  lemma Rejoin(s: string, w: nat, p: string, a: string, b: string)
    requires w <= |s| && s[w..] == p + (":" + a) && a == b
    ensures s == s[..w] + (p + (":" + b))
  {
    assert s == s[..w] + s[w..];
  }

  /** What precedes the text after the colon: the colon alone, or a scope and the colon. */
  lemma ColonShape(t: string, a: string) returns (hasScope: bool, scope: string)
    requires AfterColon(t) == Some(a)
    ensures hasScope ==> |scope| >= 1 && ')' !in scope
    ensures t == ScopeText(hasScope, scope) + (":" + a)
  {
    hasScope := t[0] != ':';
    if hasScope {
      scope := t[1..|t| - |a| - 2];
    } else {
      scope := "";
      assert ScopeText(hasScope, scope) + (":" + a) == ":" + a;
    }
  }

  /** A backtracked description is preceded by whitespace and followed by at most a line break. */
  lemma BacktrackShape(a: string, k: nat, d: string) returns (ws: string, eol: bool)
    requires k <= |a| && Backtrack(a, k) == Some(d)
    requires forall i :: 0 <= i < k ==> InClass(SpaceChars, a[i])
    ensures AllBlank(ws) && a == ws + (d + LineEnd(eol))
  {
    var j := BacktrackLongest(a, k);
    ws, eol := SplitAtTail(a, j, d);
  }

  lemma SplitAtTail(a: string, j: nat, d: string) returns (ws: string, eol: bool)
    requires j <= |a| && (a[j..] == d || a[j..] == d + "\n")
    requires forall i :: 0 <= i < j ==> InClass(SpaceChars, a[i])
    ensures AllBlank(ws) && a == ws + (d + LineEnd(eol))
  {
    ws := a[..j];
    eol := a[j..] != d;
    assert forall i :: 0 <= i < j ==> ws[i] == a[i];
    assert a == ws + a[j..];
  }

  /** The soundness facts, stated over the pieces of a match. */
  lemma PiecesSound(s: string, w: nat, a: string, d: string)
    requires 1 <= w <= |s| && w == Run(s, WordChars)
    requires AfterColon(s[w..]) == Some(a) && Backtrack(a, Run(a, SpaceChars)) == Some(d)
    ensures IsWord(s[..w]) && StartsWith(s, s[..w])
    ensures |d| >= 1 && '\n' !in d && (EndsWith(s, d) || EndsWith(s, d + "\n"))
    ensures w + 1 + |d| <= |s|
  {
    WordPrefix(s, w);
    SuffixEnds(s, w);
    DescriptionEndsSubject(s, s[w..], a, d);
  }

  lemma SuffixEnds(s: string, w: nat)
    requires w <= |s|
    ensures EndsWith(s, s[w..])
  {
  }

  /** The leading run of word characters is a word that starts the subject. */
  lemma WordPrefix(s: string, w: nat)
    requires 1 <= w <= |s| && w == Run(s, WordChars)
    ensures IsWord(s[..w]) && StartsWith(s, s[..w])
  {
    assert forall k :: 0 <= k < w ==> s[..w][k] == s[k];
  }

  /** The pieces a match is made of: the word's length, the text after the colon, the description. */
  lemma ParseParts(s: string) returns (w: nat, a: string, d: string)
    requires ParseConventional(s).Some?
    ensures 1 <= w <= |s| && w == Run(s, WordChars)
    ensures AfterColon(s[w..]) == Some(a) && Backtrack(a, Run(a, SpaceChars)) == Some(d)
    ensures ParseConventional(s).value == Conventional(s[..w], d)
  {
    w := Run(s, WordChars);
    a := AfterColon(s[w..]).value;
    d := Backtrack(a, Run(a, SpaceChars)).value;
  }

  /** A description backtracked out of the text after the colon ends the subject. */
  lemma DescriptionEndsSubject(s: string, t: string, a: string, d: string)
    requires EndsWith(s, t) && |a| < |t| && EndsWith(t, a)
    requires EndsWith(a, d) || EndsWith(a, d + "\n")
    ensures EndsWith(s, d) || EndsWith(s, d + "\n")
    ensures |d| < |t|
  {
    EndsWithTrans(s, t, a);
    if EndsWith(a, d) {
      EndsWithTrans(s, a, d);
    } else {
      EndsWithTrans(s, a, d + "\n");
    }
  }

  /** A word of at least one `\w` character. */
  predicate IsWord(t: string)
  {
    |t| >= 1 && forall k :: 0 <= k < |t| ==> IsWordChar(t[k])
  }

  /** The text between a type and its colon: nothing, or a scope in parentheses. */
  function ScopeText(hasScope: bool, scope: string): string
  {
    if hasScope then "(" + (scope + ")") else ""
  }

  /** An optional final line break. */
  function LineEnd(eol: bool): string
  {
    if eol then "\n" else ""
  }

  /** The text after the type, when it is a non-empty scope without `)` and then a colon. */
  lemma ScopeThenColon(scope: string, rest: string)
    requires |scope| >= 1 && ')' !in scope
    ensures AfterColon(ScopeText(true, scope) + (":" + rest)) == Some(rest)
  {
    var t := ScopeText(true, scope) + (":" + rest);
    assert t[1..] == scope + ([')'] + (":" + rest));
    FindAfter(scope, ')', ":" + rest);
    assert t[|scope| + 2] == ':';
    assert t[|scope| + 3..] == rest;
  }

  /** A leading word stops at the first character that cannot continue it. */
  lemma WordThen(kind: string, t: string)
    requires IsWord(kind) && |t| > 0 && !IsWordChar(t[0])
    ensures Run(kind + t, WordChars) == |kind|
    ensures (kind + t)[..|kind|] == kind && (kind + t)[|kind|..] == t
  {
    assert forall k :: 0 <= k < |kind| ==> InClass(WordChars, kind[k]);
    RunAppend(kind, t, WordChars);
  }

  /**
   * After the colon, whitespace then a description that starts with a non-space character
   * and holds no line break: the greedy `\s*` run already lets `(.+)$` match.
   */
  lemma SpacesThenDescription(ws: string, desc: string, eol: bool)
    requires AllBlank(ws)
    requires |desc| >= 1 && '\n' !in desc && !IsSpace(desc[0])
    ensures Backtrack(ws + (desc + LineEnd(eol)), Run(ws + (desc + LineEnd(eol)), SpaceChars)) == Some(desc)
  {
    var t4 := desc + LineEnd(eol);
    var t3 := ws + t4;
    assert forall k :: 0 <= k < |ws| ==> InClass(SpaceChars, ws[k]);
    RunAppend(ws, t4, SpaceChars);
    assert t3[|ws|..] == t4;
    assert forall k :: 0 <= k < |desc| ==> InClass(LineChars, desc[k]);
    RunAppend(desc, LineEnd(eol), LineChars);
    assert t4[..|desc|] == desc;
  }

  /**
   * Every well-formed conventional subject is recognised, with the scope and the
   * spacing after the colon discarded and a single final line break tolerated.
   */
  lemma ConventionalRoundTrip(kind: string, hasScope: bool, scope: string, ws: string, desc: string, eol: bool)
    requires IsWord(kind)
    requires hasScope ==> |scope| >= 1 && ')' !in scope
    requires AllBlank(ws)
    requires |desc| >= 1 && '\n' !in desc && !IsSpace(desc[0])
    ensures ParseConventional(kind + (ScopeText(hasScope, scope) + (":" + (ws + (desc + LineEnd(eol))))))
         == Some(Conventional(kind, desc))
  {
    var t3 := ws + (desc + LineEnd(eol));
    var t1 := ScopeText(hasScope, scope) + (":" + t3);
    WordThen(kind, t1);
    ColonText(hasScope, scope, t3);
    SpacesThenDescription(ws, desc, eol);
    ParseOfPieces(kind + t1, |kind|, t3, desc);
  }

  /** Scope or not, what follows the colon is found. */
  lemma ColonText(hasScope: bool, scope: string, rest: string)
    requires hasScope ==> |scope| >= 1 && ')' !in scope
    ensures AfterColon(ScopeText(hasScope, scope) + (":" + rest)) == Some(rest)
  {
    if hasScope {
      ScopeThenColon(scope, rest);
    } else {
      assert ScopeText(hasScope, scope) + (":" + rest) == ":" + rest;
    }
  }

  /** The match assembled from its pieces: the word, the text after the colon and the description. */
  lemma ParseOfPieces(s: string, w: nat, a: string, d: string)
    requires 1 <= w <= |s| && Run(s, WordChars) == w
    requires AfterColon(s[w..]) == Some(a) && Backtrack(a, Run(a, SpaceChars)) == Some(d)
    ensures ParseConventional(s) == Some(Conventional(s[..w], d))
  {
  }

  /** An empty scope, as in `feat(): x`, defeats the pattern. */
  lemma EmptyScopeNoMatch(kind: string, rest: string)
    requires IsWord(kind)
    ensures ParseConventional(kind + ("()" + rest)) == None
  {
    var t := "()" + rest;
    var s := kind + t;
    RunAppend(kind, t, WordChars);
    assert s[|kind|..] == t;
    assert t[1..] == [')'] + rest;
    FindAfter([], ')', rest);
    assert [] + ([')'] + rest) == [')'] + rest;
  }

  /** A type followed by anything but `(` or `:`, as in `fix-bug: x`, defeats the pattern. */
  lemma NoColonAfterWordNoMatch(kind: string, c: char, rest: string)
    requires IsWord(kind) && !IsWordChar(c) && c != '(' && c != ':'
    ensures ParseConventional(kind + ([c] + rest)) == None
  {
    var s := kind + ([c] + rest);
    RunAppend(kind, [c] + rest, WordChars);
    assert s[|kind|..] == [c] + rest;
  }

  /** `feat:  ` matches with a one-space description: `\s*` gives back its last character. */
  lemma TrailingSpacesGiveOneSpace(kind: string, ws: string)
    requires IsWord(kind) && AllBlank(ws) && |ws| >= 1 && ws[|ws| - 1] != '\n'
    ensures ParseConventional(kind + (":" + ws)) == Some(Conventional(kind, [ws[|ws| - 1]]))
  {
    var t := ":" + ws;
    WordThen(kind, t);
    assert AfterColon(t) == Some(ws) by {
      assert t[1..] == ws;
    }
    SpacesBacktrack(ws);
    ParseOfPieces(kind + t, |kind|, ws, [ws[|ws| - 1]]);
  }

  /** After nothing but spaces, `(.+)$` only matches once `\s*` gives back the last one. */
  lemma SpacesBacktrack(ws: string)
    requires AllBlank(ws) && |ws| >= 1 && ws[|ws| - 1] != '\n'
    ensures Backtrack(ws, Run(ws, SpaceChars)) == Some([ws[|ws| - 1]])
  {
    SpaceRun(ws);
    LastSpace(ws);
  }

  lemma LastSpace(ws: string)
    requires |ws| >= 1 && ws[|ws| - 1] != '\n'
    ensures Backtrack(ws, |ws|) == Some([ws[|ws| - 1]])
  {
    var m := |ws|;
    EndTail(ws);
    BacktrackMiss(ws, m);
    LastCharTail(ws);
    BacktrackHit(ws, m - 1, [ws[m - 1]]);
  }

  lemma EndTail(t: string)
    ensures Tail(t[|t|..]) == None
  {
    assert t[|t|..] == "";
  }

  lemma LastCharTail(t: string)
    requires |t| >= 1 && t[|t| - 1] != '\n'
    ensures Tail(t[|t| - 1..]) == Some([t[|t| - 1]])
  {
    assert t[|t| - 1..] == [t[|t| - 1]];
    OneCharTail(t[|t| - 1]);
  }


  lemma SpaceRun(ws: string)
    requires AllBlank(ws)
    ensures Run(ws, SpaceChars) == |ws|
  {
    assert forall k :: 0 <= k < |ws| ==> InClass(SpaceChars, ws[k]);
    RunAppend(ws, "", SpaceChars);
    assert ws + "" == ws;
  }

  /** Where `(.+)$` fails, the backtracking gives back one more character. */
  lemma BacktrackMiss(t: string, k: nat)
    requires 0 < k <= |t| && Tail(t[k..]) == None
    ensures Backtrack(t, k) == Backtrack(t, k - 1)
  {
  }

  lemma BacktrackHit(t: string, k: nat, d: string)
    requires k <= |t| && Tail(t[k..]) == Some(d)
    ensures Backtrack(t, k) == Some(d)
  {
  }

  /** A single character other than a line break is matched by `(.+)$` as it stands. */
  lemma OneCharTail(c: char)
    requires c != '\n'
    ensures Tail([c]) == Some([c])
  {
    assert [c][1..] == [];
    assert Run([c], LineChars) == 1;
  }

  /** One bucket of the keyword scan. */
  datatype Rule = Rule(category: Category, keywords: seq<string>)

  /** The keyword buckets, in the order they are tried. */
  const KeywordRules: seq<Rule> := [
    Rule(Added, ["add", "new", "create", "implement", "feature"]),
    Rule(Fixed, ["fix", "bug", "patch", "resolve", "correct"]),
    Rule(Removed, ["remove", "delete", "drop"]),
    Rule(Changed, ["update", "change", "modify", "refactor", "improve"]),
    Rule(Documentation, ["doc", "readme", "comment"]),
    Rule(Security, ["security", "vulnerability", "cve"])
  ]

  /** `any(w in text for w in words)` */
  predicate Mentions(text: string, words: seq<string>)
  {
    exists k :: 0 <= k < |words| && Contains(text, words[k])
  }

  /** The index of the first rule whose keywords occur in `text`, looking from rule `from` on. */
  function FirstMention(text: string, rules: seq<Rule>, from: nat): (r: Option<nat>)
    requires from <= |rules|
    ensures r.Some? ==> from <= r.value < |rules| && Mentions(text, rules[r.value].keywords)
    ensures r.Some? ==> forall i :: from <= i < r.value ==> !Mentions(text, rules[i].keywords)
    ensures r.None? ==> forall i :: from <= i < |rules| ==> !Mentions(text, rules[i].keywords)
    decreases |rules| - from
  {
    if from == |rules| then None
    else if Mentions(text, rules[from].keywords) then Some(from)
    else FirstMention(text, rules, from + 1)
  }

  datatype Classified = Classified(category: Category, description: string)

  /** `_categorize_commit(message)` */
  function Classify(message: string): (r: Classified)
    ensures ParseConventional(message).None? ==> r.description == message
    ensures ParseConventional(message).Some? ==> r.description == ParseConventional(message).value.description
    ensures ParseConventional(message).Some? ==>
              r.category == TypeCategory(Lower(ParseConventional(message).value.kind))
    ensures ParseConventional(message).None? ==>
              forall j :: 0 <= j < |KeywordRules| && Mentions(Lower(message), KeywordRules[j].keywords)
                && (forall i :: 0 <= i < j ==> !Mentions(Lower(message), KeywordRules[i].keywords))
                ==> r.category == KeywordRules[j].category
    ensures (&& ParseConventional(message).None?
             && forall i :: 0 <= i < |KeywordRules| ==> !Mentions(Lower(message), KeywordRules[i].keywords))
            ==> r.category == Changed
  {
    match ParseConventional(message)
    case Some(m) => Classified(TypeCategory(Lower(m.kind)), m.description)
    case None =>
      match FirstMention(Lower(message), KeywordRules, 0)
      case Some(i) => Classified(KeywordRules[i].category, message)
      case None => Classified(Changed, message)
  }

  /**
   * Without the pattern, the category is that of the first bucket whose keyword occurs in
   * the lower-cased subject, and `Changed` when none does.
   */
  lemma KeywordScan(message: string, j: nat)
    requires ParseConventional(message).None?
    requires j < |KeywordRules| && Mentions(Lower(message), KeywordRules[j].keywords)
    requires forall i :: 0 <= i < j ==> !Mentions(Lower(message), KeywordRules[i].keywords)
    ensures Classify(message) == Classified(KeywordRules[j].category, message)
  {
  }

  lemma NoKeywordIsChanged(message: string)
    requires ParseConventional(message).None?
    requires forall i :: 0 <= i < |KeywordRules| ==> !Mentions(Lower(message), KeywordRules[i].keywords)
    ensures Classify(message) == Classified(Changed, message)
  {
  }

  /** Breaking changes, deprecations, performance, testing and maintenance only come from the pattern. */
  lemma PatternOnlyCategories(message: string)
    ensures Classify(message).category in {BreakingChanges, Deprecated, Performance, Testing, Maintenance}
            ==> ParseConventional(message).Some?
  {
    match ParseConventional(message)
    case Some(_) =>
    case None =>
      var f := FirstMention(Lower(message), KeywordRules, 0);
      assert f.Some? ==> KeywordRules[f.value].category in {Added, Fixed, Removed, Changed, Documentation, Security};
  }

  /** A conventional subject, scope or not, is classified by its type and described by what follows the colon. */
  lemma ConventionalClassified(kind: string, hasScope: bool, scope: string, ws: string, desc: string)
    requires IsWord(kind)
    requires hasScope ==> |scope| >= 1 && ')' !in scope
    requires AllBlank(ws)
    requires |desc| >= 1 && '\n' !in desc && !IsSpace(desc[0])
    ensures Classify(kind + (ScopeText(hasScope, scope) + (":" + (ws + (desc + LineEnd(false))))))
         == Classified(TypeCategory(Lower(kind)), desc)
  {
    ConventionalRoundTrip(kind, hasScope, scope, ws, desc, false);
  }

  /** The lower-cased type is looked up, so `FEAT: x` and `Feat(ui): x` are additions too. */
  lemma TypeIsCaseInsensitive(kind: string, hasScope: bool, scope: string, ws: string, desc: string)
    requires IsWord(kind) && Lower(kind) == "feat"
    requires hasScope ==> |scope| >= 1 && ')' !in scope
    requires AllBlank(ws)
    requires |desc| >= 1 && '\n' !in desc && !IsSpace(desc[0])
    ensures Classify(kind + (ScopeText(hasScope, scope) + (":" + (ws + (desc + LineEnd(false))))))
         == Classified(Added, desc)
  {
    ConventionalClassified(kind, hasScope, scope, ws, desc);
  }

  /** A subject made of one word has no colon and never matches. */
  lemma SingleWordNoMatch(kind: string)
    requires IsWord(kind)
    ensures ParseConventional(kind) == None
  {
    assert forall k :: 0 <= k < |kind| ==> InClass(WordChars, kind[k]);
    RunAppend(kind, "", WordChars);
    assert kind + "" == kind;
  }

  /**
   * The first bucket is tried first: a subject mentioning an addition keyword is an addition
   * whatever else it mentions.
   */
  lemma AdditionWinsOverFix(message: string)
    requires ParseConventional(message).None?
    requires Mentions(Lower(message), KeywordRules[0].keywords)
    ensures Classify(message) == Classified(Added, message)
  {
  }

  /** Keywords match inside words: `address` counts as an addition. */
  lemma SubstringKeyword(s: string)
    requires s == "address"
    ensures Classify(s) == Classified(Added, s)
  {
    SingleWordNoMatch(s);
    var low := Lower(s);
    assert low[0] == 'a' && low[1] == 'd' && low[2] == 'd';
    assert low[0..3] == "add";
    ContainsAt(low, "add", 0);
    assert KeywordRules[0].keywords[0] == "add";
    AdditionWinsOverFix(s);
  }
}
