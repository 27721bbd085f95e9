/**
 * The post-commit hook's update of the development log, read as text transformations: the
 * entry it builds from the commit's fields, and how it splices that entry into the log with
 * `head -5`, `echo` and `tail -n +6`, or starts a fresh log when there is none.
 */
module HookMerge {
  import opened Wrappers
  import opened Strings
  import Devlog

  /** `$(...)` drops every trailing line break of a command's output. */
  function Captured(out: string): string
    decreases |out|
  {
    if |out| > 0 && out[|out| - 1] == '\n' then Captured(out[..|out| - 1]) else out
  }

  /** What was dropped is line breaks only, and none is left at the end. */
  lemma {:induction false} CapturedFacts(out: string)
    ensures StartsWith(out, Captured(out))
    ensures forall i :: |Captured(out)| <= i < |out| ==> out[i] == '\n'
    ensures Captured(out) == "" || Captured(out)[|Captured(out)| - 1] != '\n'
    decreases |out|
  {
    if |out| > 0 && out[|out| - 1] == '\n' {
      var front := out[..|out| - 1];
      CapturedFacts(front);
      assert out[..|Captured(out)|] == front[..|Captured(front)|];
    }
  }

  /** `tr '\n' ', '`: every line break becomes a comma (the second set's extra character is unused). */
  function Commas(s: string): (r: string)
    ensures |r| == |s|
    ensures forall i :: 0 <= i < |s| ==> r[i] == (if s[i] == '\n' then ',' else s[i])
  {
    seq(|s|, i requires 0 <= i < |s| => if s[i] == '\n' then ',' else s[i])
  }

  /** `sed 's/,$//'` on the one line left: one trailing comma removed. */
  function DropComma(s: string): string
  {
    if |s| > 0 && s[|s| - 1] == ',' then s[..|s| - 1] else s
  }

  /** `FILES_CHANGED` from the output of `git diff-tree --name-only`: a single line. */
  function FilesField(out: string): (r: string)
    ensures '\n' !in r && |r| <= |out|
  {
    var c := DropComma(Commas(out));
    assert forall i :: 0 <= i < |c| ==> c[i] == Commas(out)[i] && c[i] != '\n';
    assert |c| > 0 ==> c[|c| - 1] != '\n';
    Captured(c)
  }

  lemma {:induction false} CommasOfLines(names: seq<string>)
    requires forall k :: 0 <= k < |names| ==> '\n' !in names[k]
    ensures Commas(Join(names, "\n")) == Join(names, ",")
    decreases |names|
  {
    if |names| > 1 {
      CommasOfLines(names[1..]);
      JoinCons(names[0], names[1..], "\n");
      JoinCons(names[0], names[1..], ",");
      assert names == [names[0]] + names[1..];
      CommasAppend(names[0], "\n" + Join(names[1..], "\n"));
      CommasAppend("\n", Join(names[1..], "\n"));
      CommasNone(names[0]);
    } else if |names| == 1 {
      CommasNone(names[0]);
    }
  }

  lemma CommasAppend(a: string, b: string)
    ensures Commas(a + b) == Commas(a) + Commas(b)
  {
    assert forall i :: 0 <= i < |a| ==> (a + b)[i] == a[i];
    assert forall i :: 0 <= i < |b| ==> (a + b)[|a| + i] == b[i];
  }

  lemma CommasNone(s: string)
    requires '\n' !in s
    ensures Commas(s) == s
  {
  }

  /** The changed files, one per line as git lists them, come out separated by bare commas. */
  lemma FilesAreCommaSeparated(names: seq<string>)
    requires |names| > 0
    requires forall k :: 0 <= k < |names| ==> '\n' !in names[k] && names[k] != []
    ensures FilesField(Join(names, "\n") + "\n") == Join(names, ",")
  {
    CommasOfOutput(names);
    DropOneComma(Join(names, ","));
    LastOfJoin(names, ",");
  }

  /** The listing with its final line break becomes the comma join with a trailing comma. */
  lemma CommasOfOutput(names: seq<string>)
    requires forall k :: 0 <= k < |names| ==> '\n' !in names[k]
    ensures Commas(Join(names, "\n") + "\n") == Join(names, ",") + ","
  {
    CommasOfLines(names);
    CommasAppend(Join(names, "\n"), "\n");
  }

  lemma DropOneComma(s: string)
    ensures DropComma(s + ",") == s
  {
    assert (s + ",")[..|s|] == s;
  }

  /** A join of non-empty names ends with a character of the last name. */
  lemma {:induction false} LastOfJoin(names: seq<string>, sep: string)
    requires |names| > 0
    requires forall k :: 0 <= k < |names| ==> '\n' !in names[k] && names[k] != []
    requires '\n' !in sep
    ensures Join(names, sep) != [] && Join(names, sep)[|Join(names, sep)| - 1] != '\n'
    ensures Captured(Join(names, sep)) == Join(names, sep)
    decreases |names|
  {
    var j := Join(names, sep);
    if |names| > 1 {
      LastOfJoin(names[1..], sep);
      JoinCons(names[0], names[1..], sep);
      var t := Join(names[1..], sep);
      assert j[|j| - 1] == t[|t| - 1];
    } else {
      assert names[0][|names[0]| - 1] in names[0];
    }
  }

  /**
   * The hook's fields as the shell holds them. Inside the double-quoted entry the back-quoted
   * `$COMMIT_HASH` is a command substitution: the shell drops the back quotes and shows the
   * output of running the hash as a command (`run`), not the hash.
   */
  datatype Fields = Fields(date: string, run: string, subject: string, body: string, files: string)

  /** `$ENTRY` as the hook assembles it: the `## date` line, then the rest. */
  function Entry(f: Fields): (r: string)
    ensures StartsWith(r, DateLine(f)) && EndsWith(r, "\n\n---\n\n")
    ensures |r| > |DateLine(f)|
  {
    DateLine(f) + EntryRest(f)
  }

  function DateLine(f: Fields): string
  {
    "## " + (Captured(f.date) + "\n")
  }

  /** A blank line, the commit line, the subject, the body if the captured body is not empty, the files, a rule. */
  function EntryRest(f: Fields): string
  {
    var body := Captured(f.body);
    "\n**Commit:** " + Captured(f.run) + "\n\n" + Captured(f.subject) + "\n\n"
      + (if body != "" then body + "\n\n" else "")
      + "**Files:** " + FilesField(f.files) + "\n\n---\n\n"
  }

  /** The length of the prefix holding the first `n` lines: through the `n`-th line break, or all of it. */
  function HeadLength(d: string, n: nat): (k: nat)
    ensures k <= |d|
    decreases |d|
  {
    if n == 0 || |d| == 0 then 0
    else if d[0] == '\n' then 1 + HeadLength(d[1..], n - 1)
    else 1 + HeadLength(d[1..], n)
  }

  /** `head -n` keeps the first `n` line breaks' worth of text and ends at a break when it has all `n`. */
  lemma {:induction false} HeadFacts(d: string, n: nat)
    ensures Count(d[..HeadLength(d, n)], '\n') == Min(n, Count(d, '\n'))
    ensures n > 0 && Count(d, '\n') >= n ==> d[HeadLength(d, n) - 1] == '\n'
    ensures Count(d, '\n') < n ==> HeadLength(d, n) == |d|
    decreases |d|
  {
    var k := HeadLength(d, n);
    if n > 0 && |d| > 0 {
      var m := if d[0] == '\n' then n - 1 else n;
      HeadFacts(d[1..], m);
      assert d[..k][1..] == d[1..][..k - 1];
      assert d[..k][0] == d[0];
      if m > 0 && Count(d[1..], '\n') >= m {
        assert d[k - 1] == d[1..][k - 2];
      }
    } else if n == 0 {
      assert d[..k] == [];
    } else {
      assert d[..k] == [];
    }
  }

  function Head(d: string): string
  {
    d[..HeadLength(d, 5)]
  }

  function Tail(d: string): string
  {
    d[HeadLength(d, 5)..]
  }

  /** The opening of a log the hook starts itself: title, blank line, intro, blank line. */
  function FreshHeader(repo: string): string
  {
    Devlog.Title + (repo + ("\n\n" + (Devlog.Intro + "\n\n")))
  }

  /**
   * The update: on an existing log, its first five lines, the entry and the echo's line break,
   * then the rest of the log; otherwise a fresh header and the entry. `repo` is the basename of
   * the working tree.
   */
  function Merge(log: Option<string>, entry: string, repo: string): (r: string)
    ensures log.Some? ==> |r| == |log.value| + |entry| + 1
    ensures log.None? ==> StartsWith(r, FreshHeader(repo)) && EndsWith(r, entry + "\n")
  {
    match log
    case Some(d) => Head(d) + (entry + "\n") + Tail(d)
    case None => FreshHeader(repo) + (entry + "\n")
  }

  /**
   * On an existing log the entry goes in after the first five lines (all of the log if it is
   * shorter), and the kept head and tail put together give the log back.
   */
  lemma MergeInserts(d: string, entry: string, repo: string)
    ensures Merge(Some(d), entry, repo) == Head(d) + (entry + "\n") + Tail(d)
    ensures Head(d) + Tail(d) == d
    ensures Count(Head(d), '\n') == Min(5, Count(d, '\n'))
    ensures Count(d, '\n') >= 5 ==> EndsWith(Head(d), "\n")
    ensures Count(d, '\n') < 5 ==> Tail(d) == ""
  {
    HeadFacts(d, 5);
    var k := HeadLength(d, 5);
    assert d[..k] + d[k..] == d;
    if Count(d, '\n') >= 5 {
      assert Head(d)[|Head(d)| - 1..] == [d[k - 1]];
    }
  }

  /** A prefix of whole lines is skipped whole by `head`. */
  lemma {:induction false} HeadPastLines(a: string, b: string, n: nat, m: nat)
    requires Count(a, '\n') == n
    requires a == "" || a[|a| - 1] == '\n'
    ensures HeadLength(a + b, n + m) == |a| + HeadLength(b, m)
    decreases |a|
  {
    if |a| == 0 {
      assert a + b == b;
    } else {
      var rest := a[1..];
      assert (a + b)[1..] == rest + b;
      assert (a + b)[0] == a[0];
      if rest != "" {
        assert rest[|rest| - 1] == a[|a| - 1];
      }
      if a[0] == '\n' {
        HeadPastLines(rest, b, n - 1, m);
      } else {
        assert n > 0 by {
          if n == 0 {
            assert a[|a| - 1] in a;
            CountPresent(a, '\n');
          }
        }
        HeadPastLines(rest, b, n, m);
      }
    }
  }

  lemma NoLines(b: string)
    ensures HeadLength(b, 0) == 0
  {
  }

  /** A log that opens with exactly five whole lines gets the entry right after them. */
  lemma MergeAfterLines(h: string, t: string, entry: string, repo: string)
    requires Count(h, '\n') == 5 && h[|h| - 1] == '\n'
    ensures Merge(Some(h + t), entry, repo) == h + (entry + "\n") + t
  {
    HeadOfLines(h, t);
    SplitAppend(h, t);
  }

  lemma SplitAppend(h: string, t: string)
    ensures (h + t)[..|h|] == h && (h + t)[|h|..] == t
  {
  }

  lemma HeadOfLines(h: string, t: string)
    requires Count(h, '\n') == 5 && h[|h| - 1] == '\n'
    ensures HeadLength(h + t, 5) == |h|
  {
    HeadPastLines(h, t, 5, 0);
  }

  /** Into a log the journal generated, the entry goes in right after its five-line header. */
  lemma MergeAfterDevlogHeader(repo: string, stamp: string, blocks: string, entry: string, name: string)
    requires '\n' !in repo && '\n' !in stamp
    ensures Merge(Some(Devlog.Header(repo, stamp) + blocks), entry, name)
         == Devlog.Header(repo, stamp) + (entry + "\n") + blocks
  {
    var h := Devlog.Header(repo, stamp);
    Devlog.HeaderLineCount(repo, stamp);
    Devlog.HeaderEndsLine(repo, stamp);
    assert h[|h| - 1] == h[|h| - 2..][1];
    MergeAfterLines(h, blocks, entry, name);
  }

  /** The hook's own header has only four lines. */
  lemma FreshHeaderLines(repo: string)
    requires '\n' !in repo
    ensures Count(FreshHeader(repo), '\n') == 4
  {
    Devlog.TitleCount();
    Devlog.IntroCount();
    FreshLayoutCount(Devlog.Title, repo, Devlog.Intro);
  }

  /** The fresh header's layout adds four line breaks to pieces that hold none. */
  lemma FreshLayoutCount(title: string, repo: string, intro: string)
    requires Count(title, '\n') == 0 && Count(intro, '\n') == 0 && '\n' !in repo
    ensures Count(title + (repo + ("\n\n" + (intro + "\n\n"))), '\n') == 4
  {
    Devlog.BreakCounts();
    CountAbsent(repo, '\n');
    var t := intro + "\n\n";
    var u := "\n\n" + t;
    CountAppend(intro, "\n\n", '\n');
    CountAppend("\n\n", t, '\n');
    CountAppend(repo, u, '\n');
    CountAppend(title, repo + u, '\n');
  }

  lemma FreshHeaderEndsLine(repo: string)
    ensures FreshHeader(repo)[|FreshHeader(repo)| - 1] == '\n'
  {
    var t := Devlog.Intro + "\n\n";
    var u := "\n\n" + t;
    LastOfAppend(Devlog.Intro, "\n\n");
    LastOfAppend("\n\n", t);
    LastOfAppend(repo, u);
    LastOfAppend(Devlog.Title, repo + u);
  }

  lemma LastOfAppend(x: string, y: string)
    requires y != ""
    ensures (x + y)[|x + y| - 1] == y[|y| - 1]
  {
  }

  /**
   * So the hook's second commit, keeping five lines of a log the hook started, puts its entry
   * inside the first one: after that entry's `## date` line and before the rest of it.
   */
  lemma SecondEntrySplitsFirst(repo: string, first: Fields, second: Fields)
    requires '\n' !in repo && '\n' !in Captured(first.date)
    ensures Merge(Some(Merge(None, Entry(first), repo)), Entry(second), repo)
         == FreshHeader(repo) + DateLine(first) + (Entry(second) + "\n") + (EntryRest(first) + "\n")
  {
    var h := FreshHeader(repo);
    var line := DateLine(first);
    var t := EntryRest(first) + "\n";
    assert Merge(None, Entry(first), repo) == (h + line) + t;
    FreshHeaderLines(repo);
    FreshHeaderEndsLine(repo);
    DateLineCount(first);
    CountAppend(h, line, '\n');
    LastOfAppend(h, line);
    MergeAfterLines(h + line, t, Entry(second), repo);
  }

  /**
   * The entry's paragraphs in order: the date line, the commit line and the subject, then the
   * captured body and a blank line exactly when that body is not empty, then the files line and
   * the rule. The body only ever inserts its paragraph; everything else is as for an empty body.
   */
  lemma EntryShowsBody(f: Fields)
    ensures var head := DateLine(f) + CommitAndSubject(f);
      var files := "**Files:** " + FilesField(f.files) + "\n\n---\n\n";
      && Entry(f.(body := "")) == head + files
      && (Captured(f.body) == "" ==> Entry(f) == Entry(f.(body := "")))
      && (Captured(f.body) != "" ==> Entry(f) == head + (Captured(f.body) + "\n\n") + files)
    ensures EndsWith(Entry(f), "**Files:** " + FilesField(f.files) + "\n\n---\n\n")
  {
    EntryLayout(f);
    EntryLayout(f.(body := ""));
    assert Captured("") == "";
    assert BodyPart(f.(body := "")) == "";
    assert DateLine(f) + CommitAndSubject(f) + "" == DateLine(f) + CommitAndSubject(f);
    AppendEnds(DateLine(f) + CommitAndSubject(f) + BodyPart(f), FilesPart(f));
  }

  /** The blank line, the commit line and the subject paragraph that open the rest of an entry. */
  function CommitAndSubject(f: Fields): string
  {
    "\n**Commit:** " + Captured(f.run) + "\n\n" + Captured(f.subject) + "\n\n"
  }

  function BodyPart(f: Fields): string
  {
    if Captured(f.body) != "" then Captured(f.body) + "\n\n" else ""
  }

  function FilesPart(f: Fields): string
  {
    "**Files:** " + FilesField(f.files) + "\n\n---\n\n"
  }

  lemma EntryLayout(f: Fields)
    ensures Entry(f) == DateLine(f) + CommitAndSubject(f) + BodyPart(f) + FilesPart(f)
  {
    Regroup(DateLine(f), CommitAndSubject(f), BodyPart(f), "**Files:** ", FilesField(f.files), "\n\n---\n\n");
  }

  lemma Regroup(d: string, p: string, m: string, a: string, b: string, c: string)
    ensures d + (p + m + a + b + c) == d + p + m + (a + b + c)
  {
  }

  lemma AppendEnds(x: string, y: string)
    ensures EndsWith(x + y, y)
  {
    assert (x + y)[|x + y| - |y|..] == y;
  }

  /**
   * The commit line carries the output of running the hash as a command, without back
   * quotes; when that command fails and prints nothing, the line is bare.
   */
  lemma CommitLineShowsRun(f: Fields)
    ensures StartsWith(EntryRest(f), "\n**Commit:** " + Captured(f.run) + "\n\n")
    ensures Captured(f.run) == "" ==> StartsWith(EntryRest(f), "\n**Commit:** \n\n")
  {
    var p := "\n**Commit:** " + Captured(f.run) + "\n\n";
    assert EntryRest(f)[..|p|] == p;
  }

  lemma DateLineCount(f: Fields)
    requires '\n' !in Captured(f.date)
    ensures Count(DateLine(f), '\n') == 1 && DateLine(f)[|DateLine(f)| - 1] == '\n'
  {
    var date := Captured(f.date);
    CountAbsent(date, '\n');
    CountAbsent("## ", '\n');
    CountAppend(date, "\n", '\n');
    CountAppend("## ", date + "\n", '\n');
  }
}
