/**
 * The Python `str` operations the journal relies on, as pure functions over `seq<char>`:
 * prefix and substring tests, `split` with and without a split limit, `join`, `strip`,
 * `lower`, `replace` and the `<` ordering used when dates are sorted.
 */
module Strings {
  import opened Wrappers

  function Min(a: int, b: int): int
  {
    if a <= b then a else b
  }

  /** `s.startswith(prefix)` */
  predicate StartsWith(s: string, prefix: string)
  {
    |prefix| <= |s| && s[..|prefix|] == prefix
  }

  /** `s.endswith(suffix)` */
  predicate EndsWith(s: string, suffix: string)
  {
    |suffix| <= |s| && s[|s| - |suffix|..] == suffix
  }

  /** A suffix of a suffix is a suffix. */
  lemma EndsWithTrans(s: string, t: string, u: string)
    requires EndsWith(s, t) && EndsWith(t, u)
    ensures EndsWith(s, u)
  {
    assert s[|s| - |u|..] == t[|t| - |u|..];
  }

  /** `sub in s`: `sub` occurs somewhere in `s` as a contiguous run. */
  predicate Contains(s: string, sub: string)
    decreases |s|
  {
    StartsWith(s, sub) || (|s| > 0 && Contains(s[1..], sub))
  }

  /** An occurrence of `sub` at any offset makes `sub in s` true. */
  lemma {:induction false} ContainsAt(s: string, sub: string, i: nat)
    requires i + |sub| <= |s| && s[i..i + |sub|] == sub
    ensures Contains(s, sub)
    decreases i
  {
    if i > 0 {
      assert s[1..][i - 1..i - 1 + |sub|] == s[i..i + |sub|];
      ContainsAt(s[1..], sub, i - 1);
    }
  }

  /** `s[:n]` */
  function Take(s: string, n: nat): (r: string)
    ensures |r| == Min(|s|, n)
    ensures StartsWith(s, r)
  {
    if |s| <= n then s else s[..n]
  }

  /** `s.find(c)` for a single character, as an optional index of its first occurrence. */
  function Find(s: string, c: char): (r: Option<nat>)
    ensures r.Some? ==> r.value < |s| && s[r.value] == c && c !in s[..r.value]
    ensures r.None? ==> c !in s
    decreases |s|
  {
    if |s| == 0 then None
    else if s[0] == c then Some(0)
    else
      match Find(s[1..], c)
      case None =>
        assert s == [s[0]] + s[1..];
        None
      case Some(i) =>
        assert s[..i + 1] == [s[0]] + s[1..][..i];
        Some(i + 1)
  }

  /** The first occurrence of `c` in `a + [c] + b` is right after `a` when `a` lacks `c`. */
  lemma {:induction false} FindAfter(a: string, c: char, b: string)
    requires c !in a
    ensures Find(a + ([c] + b), c) == Some(|a|)
    decreases |a|
  {
    var s := a + ([c] + b);
    if |a| > 0 {
      assert s[1..] == a[1..] + ([c] + b);
      FindAfter(a[1..], c, b);
      assert s[0] == a[0];
    }
  }

  /** `s.count(c)` for a single character. */
  function Count(s: string, c: char): nat
    decreases |s|
  {
    if |s| == 0 then 0 else (if s[0] == c then 1 else 0) + Count(s[1..], c)
  }

  lemma {:induction false} CountSplitAt(s: string, i: nat, c: char)
    requires i <= |s|
    ensures Count(s, c) == Count(s[..i], c) + Count(s[i..], c)
    decreases i
  {
    if i > 0 {
      CountSplitAt(s[1..], i - 1, c);
      assert s[1..][..i - 1] == s[..i][1..];
      assert s[1..][i - 1..] == s[i..];
    }
  }

  /** Counting distributes over concatenation. */
  lemma CountAppend(a: string, b: string, c: char)
    ensures Count(a + b, c) == Count(a, c) + Count(b, c)
  {
    CountSplitAt(a + b, |a|, c);
    assert (a + b)[..|a|] == a;
    assert (a + b)[|a|..] == b;
  }

  lemma {:induction false} CountAbsent(s: string, c: char)
    requires c !in s
    ensures Count(s, c) == 0
    decreases |s|
  {
    if |s| > 0 {
      CountAbsent(s[1..], c);
    }
  }

  lemma {:induction false} CountPresent(s: string, c: char)
    requires c in s
    ensures Count(s, c) > 0
    decreases |s|
  {
    if s[0] != c {
      CountPresent(s[1..], c);
    }
  }

  /** The count around the first occurrence found by `Find`. */
  lemma CountAtFind(s: string, c: char, i: nat)
    requires Find(s, c) == Some(i)
    ensures Count(s, c) == 1 + Count(s[i + 1..], c)
  {
    CountSplitAt(s, i, c);
    CountAbsent(s[..i], c);
    assert s[i..][1..] == s[i + 1..];
  }

  /** `s` is its part before position `i`, the character there, and the rest. */
  lemma Around<T>(s: seq<T>, i: nat)
    requires i < |s|
    ensures s == s[..i] + ([s[i]] + s[i + 1..])
  {
    assert s[i..] == [s[i]] + s[i + 1..];
    assert s == s[..i] + s[i..];
  }

  /** `s.split(sep)` for a one-character separator. */
  function Split(s: string, sep: char): (parts: seq<string>)
    ensures |parts| >= 1
    ensures forall k :: 0 <= k < |parts| ==> sep !in parts[k]
    decreases |s|
  {
    match Find(s, sep)
    case None => [s]
    case Some(i) => [s[..i]] + Split(s[i + 1..], sep)
  }

  /** A split makes one part more than there are separators. */
  lemma {:induction false} SplitCount(s: string, sep: char)
    ensures |Split(s, sep)| == Count(s, sep) + 1
    decreases |s|
  {
    match Find(s, sep)
    case None =>
      CountAbsent(s, sep);
    case Some(i) =>
      CountAtFind(s, sep, i);
      SplitCount(s[i + 1..], sep);
  }

  /** `s.split(sep, n)`: at most `n` splits, the last part keeps every later separator. */
  function SplitN(s: string, sep: char, n: nat): (parts: seq<string>)
    ensures 1 <= |parts| <= n + 1
    decreases n
  {
    if n == 0 then [s]
    else
      match Find(s, sep)
      case None => [s]
      case Some(i) => [s[..i]] + SplitN(s[i + 1..], sep, n - 1)
  }

  /** A limited split makes one part more than the separators it used. */
  lemma {:induction false} SplitNCount(s: string, sep: char, n: nat)
    ensures |SplitN(s, sep, n)| == Min(Count(s, sep), n) + 1
    decreases n
  {
    if n > 0 {
      match Find(s, sep)
      case None =>
        CountAbsent(s, sep);
      case Some(i) =>
        SplitNCount(s[i + 1..], sep, n - 1);
        RecountAt(s, sep, n, i);
    }
  }

  /** A limited split that finds the separator at `i` makes one part, then splits the rest. */
  lemma SplitNStep(s: string, sep: char, n: nat, i: nat)
    requires n > 0 && Find(s, sep) == Some(i)
    ensures SplitN(s, sep, n) == [s[..i]] + SplitN(s[i + 1..], sep, n - 1)
  {
  }

  /** The count carries over from the rest of the text to the whole. */
  lemma RecountAt(s: string, sep: char, n: nat, i: nat)
    requires n > 0 && Find(s, sep) == Some(i)
    requires |SplitN(s[i + 1..], sep, n - 1)| == Min(Count(s[i + 1..], sep), n - 1) + 1
    ensures |SplitN(s, sep, n)| == Min(Count(s, sep), n) + 1
  {
    CountAtFind(s, sep, i);
    SplitNSize(s, sep, n, i);
    MinStep(Count(s[i + 1..], sep), n - 1);
  }

  lemma SplitNSize(s: string, sep: char, n: nat, i: nat)
    requires n > 0 && Find(s, sep) == Some(i)
    ensures |SplitN(s, sep, n)| == 1 + |SplitN(s[i + 1..], sep, n - 1)|
  {
  }

  lemma MinStep(a: nat, b: nat)
    ensures Min(a + 1, b + 1) == Min(a, b) + 1
  {
  }

  /** The parts after the first are those of the rest. */
  lemma SplitNLater(s: string, sep: char, n: nat, i: nat, k: nat)
    requires n > 0 && Find(s, sep) == Some(i) && 0 < k < |SplitN(s, sep, n)|
    ensures SplitN(s, sep, n)[k] == SplitN(s[i + 1..], sep, n - 1)[k - 1]
  {
    SplitNStep(s, sep, n, i);
  }

  /** Every part but the last of a limited split is free of the separator. */
  lemma {:induction false} SplitNPartFree(s: string, sep: char, n: nat, k: nat)
    requires k < |SplitN(s, sep, n)| - 1
    ensures sep !in SplitN(s, sep, n)[k]
    decreases n
  {
    var i := Find(s, sep).value;
    if k > 0 {
      SplitNLater(s, sep, n, i, k);
      SplitNPartFree(s[i + 1..], sep, n - 1, k - 1);
    }
  }

  /** When the split limit was not reached, the last part is free of the separator too. */
  lemma {:induction false} SplitNLastFree(s: string, sep: char, n: nat)
    requires |SplitN(s, sep, n)| <= n
    ensures sep !in SplitN(s, sep, n)[|SplitN(s, sep, n)| - 1]
    decreases n
  {
    match Find(s, sep)
    case None =>
    case Some(i) =>
      SplitNStep(s, sep, n, i);
      SplitNLater(s, sep, n, i, |SplitN(s, sep, n)| - 1);
      SplitNLastFree(s[i + 1..], sep, n - 1);
  }

  /** `sep.join(parts)` */
  function Join(parts: seq<string>, sep: string): string
    decreases |parts|
  {
    if |parts| == 0 then ""
    else if |parts| == 1 then parts[0]
    else parts[0] + (sep + Join(parts[1..], sep))
  }

  /** Joining a part in front of at least one more. */
  lemma JoinCons(p: string, rest: seq<string>, sep: string)
    requires |rest| >= 1
    ensures Join([p] + rest, sep) == p + (sep + Join(rest, sep))
  {
    assert ([p] + rest)[1..] == rest;
  }

  /** Joining the parts of a limited split with the separator gives the string back. */
  lemma {:induction false} SplitNJoin(s: string, sep: char, n: nat)
    ensures Join(SplitN(s, sep, n), [sep]) == s
    decreases n
  {
    if n > 0 {
      match Find(s, sep)
      case None =>
      case Some(i) =>
        SplitNJoin(s[i + 1..], sep, n - 1);
        RejoinAt(s, sep, n, i);
    }
  }

  lemma RejoinAt(s: string, sep: char, n: nat, i: nat)
    requires n > 0 && Find(s, sep) == Some(i)
    requires Join(SplitN(s[i + 1..], sep, n - 1), [sep]) == s[i + 1..]
    ensures Join(SplitN(s, sep, n), [sep]) == s
  {
    var a, b := s[..i], s[i + 1..];
    var rest := SplitN(b, sep, n - 1);
    assert SplitN(s, sep, n) == [a] + rest;
    JoinCons(a, rest, [sep]);
    Around(s, i);
  }

  /** A separator-free head before the first separator is split off as the first part. */
  lemma SplitNAfter(a: string, sep: char, b: string, n: nat)
    requires sep !in a && n > 0
    ensures SplitN(a + ([sep] + b), sep, n) == [a] + SplitN(b, sep, n - 1)
  {
    var s := a + ([sep] + b);
    FindAfter(a, sep, b);
    assert s[..|a|] == a && s[|a| + 1..] == b;
  }

  /** A string without the separator is a single part. */
  lemma SplitNNone(s: string, sep: char, n: nat)
    requires sep !in s
    ensures SplitN(s, sep, n) == [s]
  {
  }

  /** A character absent from a join is absent from every part. */
  lemma {:induction false} JoinedPartsLack(parts: seq<string>, sep: string, c: char)
    requires c !in Join(parts, sep)
    ensures forall k :: 0 <= k < |parts| ==> c !in parts[k]
    decreases |parts|
  {
    if |parts| > 1 {
      JoinedPartsLack(parts[1..], sep, c);
      assert forall k :: 1 <= k < |parts| ==> parts[k] == parts[1..][k - 1];
    }
  }

  /** Every character of a joined part occurs in the joined text. */
  lemma {:induction false} JoinedPartsAreInside(parts: seq<string>, sep: string, k: nat, c: char)
    requires k < |parts| && c in parts[k]
    ensures c in Join(parts, sep)
    decreases k
  {
    if |parts| > 1 && k > 0 {
      JoinedPartsAreInside(parts[1..], sep, k - 1, c);
    }
  }

  /** Joining the pieces of a split with the separator restores the string. */
  lemma {:induction false} SplitThenJoin(s: string, sep: char)
    ensures Join(Split(s, sep), [sep]) == s
    decreases |s|
  {
    match Find(s, sep)
    case None =>
    case Some(i) =>
      var rest := Split(s[i + 1..], sep);
      SplitThenJoin(s[i + 1..], sep);
      assert ([s[..i]] + rest)[1..] == rest;
      Around(s, i);
  }

  /** A separator-free head before the first separator is split off as the first piece. */
  lemma SplitAfter(a: string, sep: char, b: string)
    requires sep !in a
    ensures Split(a + ([sep] + b), sep) == [a] + Split(b, sep)
  {
    var s := a + ([sep] + b);
    FindAfter(a, sep, b);
    assert s[..|a|] == a && s[|a| + 1..] == b;
  }

  /** A string without the separator is a single piece. */
  lemma SplitNoBreak(s: string, sep: char)
    requires sep !in s
    ensures Split(s, sep) == [s]
  {
  }

  /** Splitting a join of separator-free pieces gives the pieces back. */
  lemma {:induction false} JoinThenSplit(parts: seq<string>, sep: char)
    requires |parts| >= 1
    requires forall k :: 0 <= k < |parts| ==> sep !in parts[k]
    ensures Split(Join(parts, [sep]), sep) == parts
    decreases |parts|
  {
    if |parts| == 1 {
      assert Find(parts[0], sep).None?;
    } else {
      var tail := Join(parts[1..], [sep]);
      assert Join(parts, [sep]) == parts[0] + ([sep] + tail);
      SplitAfter(parts[0], sep, tail);
      JoinThenSplit(parts[1..], sep);
      assert parts == [parts[0]] + parts[1..];
    }
  }

  /** ASCII case folding of one character. */
  function LowerChar(c: char): char
  {
    if 'A' <= c <= 'Z' then (c as int - 'A' as int + 'a' as int) as char else c
  }

  /** `s.lower()`, restricted to ASCII letters. */
  function Lower(s: string): (r: string)
    ensures |r| == |s|
    ensures forall i :: 0 <= i < |s| ==> r[i] == LowerChar(s[i])
  {
    seq(|s|, i requires 0 <= i < |s| => LowerChar(s[i]))
  }

  /** `c.isspace()`: the code points Python counts as whitespace. */
  predicate IsSpace(c: char)
  {
    || ('\t' <= c <= '\r')
    || ('\U{1C}' <= c <= ' ')
    || c == '\U{85}' || c == '\U{A0}' || c == '\U{1680}'
    || ('\U{2000}' <= c <= '\U{200A}')
    || c == '\U{2028}' || c == '\U{2029}' || c == '\U{202F}' || c == '\U{205F}' || c == '\U{3000}'
  }

  /** Every character of `s` is whitespace (vacuously so for the empty string). */
  predicate AllBlank(s: string)
  {
    forall k :: 0 <= k < |s| ==> IsSpace(s[k])
  }

  /** `s.lstrip()` */
  function TrimStart(s: string): string
    decreases |s|
  {
    if |s| > 0 && IsSpace(s[0]) then TrimStart(s[1..]) else s
  }

  /** `lstrip` removes a blank prefix and stops at the first non-blank character. */
  lemma {:induction false} TrimStartFacts(s: string)
    ensures var r := TrimStart(s);
      && |r| <= |s| && r == s[|s| - |r|..]
      && AllBlank(s[..|s| - |r|])
      && (|r| > 0 ==> !IsSpace(r[0]))
    decreases |s|
  {
    if |s| > 0 && IsSpace(s[0]) {
      TrimStartFacts(s[1..]);
      var r := TrimStart(s[1..]);
      assert s[1..][|s| - 1 - |r|..] == s[|s| - |r|..];
      assert forall k :: 1 <= k < |s| - |r| ==> s[k] == s[1..][..|s| - 1 - |r|][k - 1];
    }
  }

  /** `s.rstrip()` */
  function TrimEnd(s: string): string
    decreases |s|
  {
    if |s| > 0 && IsSpace(s[|s| - 1]) then TrimEnd(s[..|s| - 1]) else s
  }

  /** `rstrip` removes a blank suffix and stops at the last non-blank character. */
  lemma {:induction false} TrimEndFacts(s: string)
    ensures var r := TrimEnd(s);
      && |r| <= |s| && r == s[..|r|]
      && AllBlank(s[|r|..])
      && (|r| > 0 ==> !IsSpace(r[|r| - 1]))
    decreases |s|
  {
    if |s| > 0 && IsSpace(s[|s| - 1]) {
      var t := s[..|s| - 1];
      TrimEndFacts(t);
      var r := TrimEnd(t);
      assert t[..|r|] == s[..|r|];
      assert forall k :: 0 <= k < |s| - 1 - |r| ==> s[|r|..][k] == t[|r|..][k];
    }
  }

  /** `s.strip()` */
  function Strip(s: string): string
  {
    TrimEnd(TrimStart(s))
  }

  /** `strip()` is empty exactly for blank text; otherwise it is a slice of the text with non-blank ends. */
  lemma StripFacts(s: string)
    ensures Strip(s) == "" <==> AllBlank(s)
    ensures |Strip(s)| <= |s|
    ensures |Strip(s)| > 0 ==> !IsSpace(Strip(s)[0]) && !IsSpace(Strip(s)[|Strip(s)| - 1])
  {
    var t := TrimStart(s);
    TrimStartFacts(s);
    TrimEndFacts(t);
    var r := TrimEnd(t);
    if |r| > 0 {
      assert r[0] == t[0];
    }
    if r == "" {
      assert forall k :: 0 <= k < |s| - |t| ==> s[k] == s[..|s| - |t|][k];
    }
  }

  /** `s.replace(pat, rep)`: every non-overlapping occurrence, scanning left to right. */
  function ReplaceAll(s: string, pat: string, rep: string): (r: string)
    requires |pat| > 0
    ensures forall c :: c in r ==> c in s || c in rep
    decreases |s|
  {
    if |s| < |pat| then s
    else if s[..|pat|] == pat then rep + ReplaceAll(s[|pat|..], pat, rep)
    else [s[0]] + ReplaceAll(s[1..], pat, rep)
  }

  /** Replacing a pattern that never occurs changes nothing. */
  lemma {:induction false} ReplaceAbsent(s: string, pat: string, rep: string)
    requires |pat| > 0 && !Contains(s, pat)
    ensures ReplaceAll(s, pat, rep) == s
    decreases |s|
  {
    if |s| >= |pat| {
      assert s[..|pat|] != pat;
      ReplaceAbsent(s[1..], pat, rep);
      assert s == [s[0]] + s[1..];
    }
  }

  /** After replacing a one-character pattern by text without it, the character is gone. */
  lemma {:induction false} ReplaceRemovesChar(s: string, c: char, rep: string)
    requires c !in rep
    ensures c !in ReplaceAll(s, [c], rep)
    decreases |s|
  {
    if |s| >= 1 {
      ReplaceRemovesChar(s[1..], c, rep);
      assert s[..1] == [s[0]];
    }
  }

  /** Python's `a < b` on strings: lexicographic order by code point. */
  predicate Less(a: string, b: string)
    decreases |a|
  {
    if |a| == 0 then |b| > 0
    else if |b| == 0 then false
    else a[0] < b[0] || (a[0] == b[0] && Less(a[1..], b[1..]))
  }

  lemma {:induction false} LessIrreflexive(a: string)
    ensures !Less(a, a)
    decreases |a|
  {
    if |a| > 0 {
      LessIrreflexive(a[1..]);
    }
  }

  lemma {:induction false} LessTransitive(a: string, b: string, c: string)
    requires Less(a, b) && Less(b, c)
    ensures Less(a, c)
    decreases |a|
  {
    if |a| > 0 && a[0] == b[0] && b[0] == c[0] {
      LessTransitive(a[1..], b[1..], c[1..]);
    }
  }

  lemma {:induction false} LessTotal(a: string, b: string)
    ensures a == b || Less(a, b) || Less(b, a)
    decreases |a|
  {
    if |a| > 0 && |b| > 0 && a[0] == b[0] {
      LessTotal(a[1..], b[1..]);
      assert a == [a[0]] + a[1..];
      assert b == [b[0]] + b[1..];
    }
  }

  /** `Less` read as `<=` negated: `!(a < b)` is `b <= a`, an order that chains. */
  lemma NotLessTransitive(a: string, b: string, c: string)
    requires !Less(a, b) && !Less(b, c)
    ensures !Less(a, c)
  {
    if Less(a, c) {
      LessTotal(a, b);
      LessTotal(b, c);
      if a == b {
      } else if b == c {
      } else {
        LessTransitive(a, c, b);
      }
    }
  }
}
