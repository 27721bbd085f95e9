/**
 * The per-repository development log: a five-line header, then one block per commit that
 * is not a merge, in the order the commits were given (newest first, as git lists them).
 */
module Devlog {
  import opened Wrappers
  import opened Strings
  import opened Seqs
  import opened Commits

  /** The title, the intro line and the generation time; `stamp` is the `%Y-%m-%d %H:%M` clock reading. */
  function Header(repo: string, stamp: string): string
  {
    Title + (repo + ("\n\n" + (Intro + ("\n" + (Stamped + (stamp + "\n\n"))))))
  }

  const Title: string := "# Development Log - "

  const Intro: string := "Auto-generated journal of project changes."

  const Stamped: string := "Generated: "

  /** The stripped body and a blank line, or nothing for a blank body. */
  function BodyPart(body: string): string
  {
    var b := Strip(body);
    if b != "" then b + "\n\n" else ""
  }

  /** The part of a block that precedes the body. */
  function BlockHead(c: Commit): string
  {
    "## " + c.date + "\n\n**Commit:** `" + c.hash + "`\n\n" + c.message + "\n\n"
  }

  const Rule: string := "---\n\n"

  /** One commit's entry: heading with the date, the hash, the subject, the body if any, a rule. */
  function Block(c: Commit): string
  {
    BlockHead(c) + (BodyPart(c.body) + Rule)
  }

  /** The blocks of the non-merge commits, in input order. */
  function Blocks(cs: seq<Commit>): (r: string)
    ensures r == "" <==> forall i :: 0 <= i < |cs| ==> IsMerge(cs[i])
    decreases |cs|
  {
    if |cs| == 0 then ""
    else (if IsMerge(cs[0]) then "" else Block(cs[0])) + Blocks(cs[1..])
  }

  /**
   * `generate_devlog` once git has answered: nothing when there are no commits at all,
   * otherwise the header and the blocks.
   */
  function Render(repo: string, stamp: string, cs: seq<Commit>): (r: Option<string>)
    ensures r.None? <==> |cs| == 0
    ensures r.Some? ==> StartsWith(r.value, Header(repo, stamp))
    ensures r.Some? ==> r.value == Header(repo, stamp) + Concat(BlockTexts(NonMerge(cs)))
  {
    if |cs| == 0 then None
    else
      BlocksAreNonMergeBlocks(cs);
      var text := Header(repo, stamp) + Blocks(cs);
      assert text[..|Header(repo, stamp)|] == Header(repo, stamp);
      Some(text)
  }

  /** The entry texts of a list of commits. */
  function BlockTexts(cs: seq<Commit>): (r: seq<string>)
    ensures |r| == |cs| && forall i :: 0 <= i < |cs| ==> r[i] == Block(cs[i])
  {
    seq(|cs|, i requires 0 <= i < |cs| => Block(cs[i]))
  }

  /** The rendered blocks are exactly the blocks of `NonMerge(cs)`, one after another. */
  lemma {:induction false} BlocksAreNonMergeBlocks(cs: seq<Commit>)
    ensures Blocks(cs) == Concat(BlockTexts(NonMerge(cs)))
    decreases |cs|
  {
    if |cs| > 0 {
      BlocksAreNonMergeBlocks(cs[1..]);
      var rest := NonMerge(cs[1..]);
      assert NonMerge(cs) == (if IsMerge(cs[0]) then [] else [cs[0]]) + rest;
      if !IsMerge(cs[0]) {
        ConcatBlocksCons(cs[0], rest);
      } else {
        assert [] + rest == rest;
      }
    }
  }

  lemma ConcatBlocksCons(c: Commit, rest: seq<Commit>)
    ensures Concat(BlockTexts([c] + rest)) == Block(c) + Concat(BlockTexts(rest))
  {
    assert BlockTexts([c] + rest) == [Block(c)] + BlockTexts(rest);
    ConcatCons(Block(c), BlockTexts(rest));
  }

  /** Rendering distributes over concatenation of the commit list. */
  lemma {:induction false} BlocksAppend(a: seq<Commit>, b: seq<Commit>)
    ensures Blocks(a + b) == Blocks(a) + Blocks(b)
    decreases |a|
  {
    if |a| == 0 {
      assert a + b == b;
    } else {
      assert (a + b)[1..] == a[1..] + b;
      assert (a + b)[0] == a[0];
      BlocksAppend(a[1..], b);
    }
  }

  /** Dropping the merge commits beforehand changes nothing. */
  lemma MergesLeaveNoTrace(cs: seq<Commit>)
    ensures Blocks(NonMerge(cs)) == Blocks(cs)
  {
    BlocksAreNonMergeBlocks(cs);
    BlocksAreNonMergeBlocks(NonMerge(cs));
    FilterIdempotent(cs, KeepNonMerge());
  }

  /** A list of merge commits only gives the bare header. */
  lemma {:induction false} OnlyMergesGiveHeader(cs: seq<Commit>)
    requires forall i :: 0 <= i < |cs| ==> IsMerge(cs[i])
    ensures Blocks(cs) == ""
    decreases |cs|
  {
    if |cs| > 0 {
      OnlyMergesGiveHeader(cs[1..]);
    }
  }

  /** The clock reading only shows in the header: two renderings differ in nothing else. */
  lemma StampOnlyInHeader(repo: string, s1: string, s2: string, cs: seq<Commit>)
    requires |cs| > 0
    ensures Render(repo, s1, cs).value[|Header(repo, s1)|..] == Render(repo, s2, cs).value[|Header(repo, s2)|..]
  {
    var t1 := Header(repo, s1) + Blocks(cs);
    var t2 := Header(repo, s2) + Blocks(cs);
    assert t1[|Header(repo, s1)|..] == Blocks(cs);
    assert t2[|Header(repo, s2)|..] == Blocks(cs);
  }

  /** A block shows its body, stripped and followed by a blank line, exactly when the body is not blank. */
  lemma BlockShowsBody(c: Commit)
    ensures !AllBlank(c.body) ==> Block(c) == BlockHead(c) + (Strip(c.body) + "\n\n" + Rule)
    ensures AllBlank(c.body) ==> Block(c) == BlockHead(c) + Rule
    ensures EndsWith(Block(c), Rule)
  {
    StripFacts(c.body);
    var b := BodyPart(c.body) + Rule;
    assert b[|b| - |Rule|..] == Rule;
    assert Block(c)[|Block(c)| - |Rule|..] == b[|b| - |Rule|..];
  }

  /** The header of a generated devlog is five lines, which the post-commit hook keeps in place. */
  lemma HeaderLineCount(repo: string, stamp: string)
    requires '\n' !in repo && '\n' !in stamp
    ensures Count(Header(repo, stamp), '\n') == 5
  {
    TitleCount();
    IntroCount();
    StampedCount();
    LayoutCount(Title, repo, Intro, Stamped, stamp);
  }

  /** The header's layout adds five line breaks to pieces that hold none. */
  lemma LayoutCount(title: string, repo: string, intro: string, stamped: string, stamp: string)
    requires Count(title, '\n') == 0 && Count(intro, '\n') == 0 && Count(stamped, '\n') == 0
    requires '\n' !in repo && '\n' !in stamp
    ensures Count(title + (repo + ("\n\n" + (intro + ("\n" + (stamped + (stamp + "\n\n")))))), '\n') == 5
  {
    CountAbsent(repo, '\n');
    CountAbsent(stamp, '\n');
    BreakCounts();
    CountOfParts(title, repo, "\n\n", intro, "\n", stamped, stamp, "\n\n");
  }

  /** Line breaks in the header's fixed text. */
  lemma TitleCount()
    ensures Count(Title, '\n') == 0
  {
    CountAbsent(Title, '\n');
  }

  lemma IntroCount()
    ensures Count(Intro, '\n') == 0
  {
    CountAbsent(Intro, '\n');
  }

  lemma BreakCounts()
    ensures Count("\n\n", '\n') == 2 && Count("\n", '\n') == 1
  {
  }

  lemma StampedCount()
    ensures Count(Stamped, '\n') == 0
  {
    CountAbsent(Stamped, '\n');
  }

  /** The line breaks of the header's eight pieces add up. */
  lemma CountOfParts(p1: string, p2: string, p3: string, p4: string, p5: string, p6: string, p7: string, p8: string)
    ensures Count(p1 + (p2 + (p3 + (p4 + (p5 + (p6 + (p7 + p8)))))), '\n')
         == Count(p1, '\n') + Count(p2, '\n') + Count(p3, '\n') + Count(p4, '\n')
          + Count(p5, '\n') + Count(p6, '\n') + Count(p7, '\n') + Count(p8, '\n')
  {
    CountAppend(p7, p8, '\n');
    CountAppend(p6, p7 + p8, '\n');
    CountAppend(p5, p6 + (p7 + p8), '\n');
    CountAppend(p4, p5 + (p6 + (p7 + p8)), '\n');
    CountAppend(p3, p4 + (p5 + (p6 + (p7 + p8))), '\n');
    CountAppend(p2, p3 + (p4 + (p5 + (p6 + (p7 + p8)))), '\n');
    CountAppend(p1, p2 + (p3 + (p4 + (p5 + (p6 + (p7 + p8))))), '\n');
  }

  /** The header ends with a line break, so the first block starts on a line of its own. */
  lemma HeaderEndsLine(repo: string, stamp: string)
    ensures EndsWith(Header(repo, stamp), "\n\n")
  {
    var h := Header(repo, stamp);
    var t := stamp + "\n\n";
    assert h[|h| - |t|..] == t;
    assert t[|t| - 2..] == "\n\n";
    assert h[|h| - 2..] == t[|t| - 2..];
  }
}
