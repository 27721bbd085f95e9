/**
 * The combined log across all tracked repositories: the recent commits of every repository
 * that still exists, tagged with the repository's name, sorted newest first (stably), cut to
 * the first hundred, merges dropped, with a date heading wherever the date changes.
 */
module Aggregate {
  import opened Wrappers
  import opened Strings
  import opened Commits

  /** A registry entry: its name, whether its path exists, and its log as git lists it, newest first. */
  datatype RepoLog = RepoLog(name: string, present: bool, log: seq<Commit>)

  /** A commit tagged with the repository it came from. */
  datatype Entry = Entry(repo: string, commit: Commit)

  /** How many commits git is asked for per repository. */
  const Fetched: nat := 20

  /** How many of the sorted commits are considered for the output. */
  const Shown: nat := 100

  /**
   * What `-n 20` returns, taken as the first twenty records of the parsed log. git counts
   * commits, so the two agree when no body line parses as a record of its own.
   */
  function Recent(r: RepoLog): (cs: seq<Commit>)
    ensures |cs| <= Fetched && |cs| <= |r.log| && cs == r.log[..|cs|]
  {
    if |r.log| <= Fetched then r.log else r.log[..Fetched]
  }

  function Tagged(r: RepoLog): (es: seq<Entry>)
    ensures |es| == |Recent(r)| && forall i :: 0 <= i < |es| ==> es[i] == Entry(r.name, Recent(r)[i])
  {
    seq(|Recent(r)|, i requires 0 <= i < |Recent(r)| => Entry(r.name, Recent(r)[i]))
  }

  /** The collection loop: repositories in registry order, missing ones skipped. */
  function Gather(repos: seq<RepoLog>): (r: seq<Entry>)
    ensures |r| <= Fetched * |repos|
    decreases |repos|
  {
    if |repos| == 0 then []
    else (if repos[0].present then Tagged(repos[0]) else []) + Gather(repos[1..])
  }

  /** What one repository adds: its recent commits, tagged, when it exists, and nothing otherwise. */
  function Contribution(r: RepoLog): (es: seq<Entry>)
    ensures |es| <= Fetched
    ensures r.present ==> es == Tagged(r)
    ensures !r.present ==> es == []
  {
    if r.present then Tagged(r) else []
  }

  /** Collecting over two registry parts is collecting over each, one after the other. */
  lemma {:induction false} GatherAppend(a: seq<RepoLog>, b: seq<RepoLog>)
    ensures Gather(a + b) == Gather(a) + Gather(b)
    decreases |a|
  {
    if |a| == 0 {
      assert a + b == b;
    } else {
      assert (a + b)[0] == a[0];
      assert (a + b)[1..] == a[1..] + b;
      GatherAppend(a[1..], b);
    }
  }

  /**
   * Each listed repository adds one block of its own, in registry order: at most 20 of its
   * recent commits when it exists, nothing otherwise.
   */
  lemma GatherBlock(repos: seq<RepoLog>, k: nat)
    requires k < |repos|
    ensures Gather(repos) == Gather(repos[..k]) + Contribution(repos[k]) + Gather(repos[k + 1..])
  {
    var front, one, back := repos[..k], [repos[k]], repos[k + 1..];
    Around(repos, k);
    GatherAppend(front, one + back);
    GatherAppend(one, back);
    GatherOne(repos[k]);
  }

  lemma GatherOne(r: RepoLog)
    ensures Gather([r]) == Contribution(r)
  {
    assert [r][1..] == [];
  }

  /** An entry is gathered exactly when it is a recent commit of a repository that exists. */
  lemma {:induction false} GatherMembers(repos: seq<RepoLog>, e: Entry)
    ensures e in Gather(repos) <==>
      exists k :: 0 <= k < |repos| && repos[k].present && e.repo == repos[k].name && e.commit in Recent(repos[k])
    decreases |repos|
  {
    if |repos| > 0 {
      GatherMembers(repos[1..], e);
      var r := repos[0];
      if e in Tagged(r) && r.present {
        var i :| 0 <= i < |Tagged(r)| && Tagged(r)[i] == e;
        assert e.commit == Recent(r)[i];
      }
      if e.repo == r.name && e.commit in Recent(r) && r.present {
        var i :| 0 <= i < |Recent(r)| && Recent(r)[i] == e.commit;
        assert Tagged(r)[i] == e;
      }
      forall k | 1 <= k < |repos|
        ensures repos[k] == repos[1..][k - 1]
      {
      }
    }
  }

  function Date(e: Entry): string
  {
    e.commit.date
  }

  /** Newest first: no entry has an earlier date than one after it. */
  predicate Sorted(es: seq<Entry>)
  {
    forall i, j :: 0 <= i < j < |es| ==> !Less(Date(es[i]), Date(es[j]))
  }

  /** Puts `e` after the entries with a later date and before all others. */
  function Insert(e: Entry, s: seq<Entry>): (r: seq<Entry>)
    ensures |r| == |s| + 1
    decreases |s|
  {
    if |s| == 0 then [e]
    else if Less(Date(e), Date(s[0])) then [s[0]] + Insert(e, s[1..])
    else [e] + s
  }

  /** `sort(key=date, reverse=True)`: a stable sort, newest first. */
  function Sort(es: seq<Entry>): (r: seq<Entry>)
    ensures |r| == |es|
    decreases |es|
  {
    if |es| == 0 then [] else Insert(es[0], Sort(es[1..]))
  }

  lemma {:induction false} InsertPermutes(e: Entry, s: seq<Entry>)
    ensures multiset(Insert(e, s)) == multiset(s) + multiset{e}
    decreases |s|
  {
    if |s| > 0 && Less(Date(e), Date(s[0])) {
      InsertPermutes(e, s[1..]);
      assert s == [s[0]] + s[1..];
    }
  }

  lemma {:induction false} InsertSorted(e: Entry, s: seq<Entry>)
    requires Sorted(s)
    ensures Sorted(Insert(e, s))
    decreases |s|
  {
    if |s| > 0 {
      if Less(Date(e), Date(s[0])) {
        var rest := Insert(e, s[1..]);
        InsertSorted(e, s[1..]);
        InsertPermutes(e, s[1..]);
        forall j | 0 <= j < |rest|
          ensures !Less(Date(s[0]), Date(rest[j]))
        {
          assert rest[j] in multiset(rest);
          if rest[j] == e {
            NotBoth(Date(e), Date(s[0]));
          } else {
            assert rest[j] in s[1..];
          }
        }
        ConsSorted(s[0], rest);
      } else {
        forall j | 0 <= j < |s|
          ensures !Less(Date(e), Date(s[j]))
        {
          if j > 0 {
            NotLessTransitive(Date(e), Date(s[0]), Date(s[j]));
          }
        }
        ConsSorted(e, s);
      }
    }
  }

  /** Two dates are never each earlier than the other. */
  lemma NotBoth(a: string, b: string)
    requires Less(a, b)
    ensures !Less(b, a)
  {
    if Less(b, a) {
      LessTransitive(a, b, a);
      LessIrreflexive(a);
    }
  }

  /** An entry no older than any of a sorted list goes in front of it. */
  lemma ConsSorted(x: Entry, rest: seq<Entry>)
    requires Sorted(rest)
    requires forall j :: 0 <= j < |rest| ==> !Less(Date(x), Date(rest[j]))
    ensures Sorted([x] + rest)
  {
    var r := [x] + rest;
    forall i, j | 0 <= i < j < |r|
      ensures !Less(Date(r[i]), Date(r[j]))
    {
      assert r[j] == rest[j - 1];
      if i > 0 {
        assert r[i] == rest[i - 1];
      }
    }
  }

  /** The sort returns the entries newest first. */
  lemma {:induction false} SortSorts(es: seq<Entry>)
    ensures Sorted(Sort(es))
    decreases |es|
  {
    if |es| > 0 {
      SortSorts(es[1..]);
      InsertSorted(es[0], Sort(es[1..]));
    }
  }

  /** The sort returns the same entries. */
  lemma {:induction false} SortPermutes(es: seq<Entry>)
    ensures multiset(Sort(es)) == multiset(es)
    decreases |es|
  {
    if |es| > 0 {
      SortPermutes(es[1..]);
      InsertPermutes(es[0], Sort(es[1..]));
      assert es == [es[0]] + es[1..];
    }
  }

  /** The entries of one date, in order. */
  function OnDate(es: seq<Entry>, d: string): seq<Entry>
    decreases |es|
  {
    if |es| == 0 then [] else (if Date(es[0]) == d then [es[0]] else []) + OnDate(es[1..], d)
  }

  lemma {:induction false} InsertOnDate(e: Entry, s: seq<Entry>, d: string)
    ensures OnDate(Insert(e, s), d) == (if Date(e) == d then [e] else []) + OnDate(s, d)
    decreases |s|
  {
    if |s| > 0 && Less(Date(e), Date(s[0])) {
      InsertOnDate(e, s[1..], d);
      var rest := Insert(e, s[1..]);
      assert ([s[0]] + rest)[1..] == rest;
      if Date(e) == d {
        LessIrreflexive(d);
      }
    } else if |s| > 0 {
      assert ([e] + s)[1..] == s;
    }
  }

  /** Stability: entries with the same date keep their collection order. */
  lemma {:induction false} SortIsStable(es: seq<Entry>, d: string)
    ensures OnDate(Sort(es), d) == OnDate(es, d)
    decreases |es|
  {
    if |es| > 0 {
      SortIsStable(es[1..], d);
      InsertOnDate(es[0], Sort(es[1..]), d);
    }
  }

  /** The first hundred entries, or all of them. */
  function Capped(es: seq<Entry>): (r: seq<Entry>)
    ensures |r| <= Shown && |r| <= |es| && r == es[..|r|]
    ensures |es| <= Shown ==> r == es
  {
    if |es| <= Shown then es else es[..Shown]
  }

  /** The entries that are not merges, in order. */
  function NonMergeEntries(es: seq<Entry>): (r: seq<Entry>)
    ensures |r| <= |es|
    decreases |es|
  {
    if |es| == 0 then []
    else (if IsMerge(es[0].commit) then [] else [es[0]]) + NonMergeEntries(es[1..])
  }

  /** A rendered entry, with or without a date heading above it. */
  datatype Rendered = Rendered(heading: bool, entry: Entry)

  /**
   * The output loop: merges skipped, and a heading above an entry whenever its date differs
   * from that of the entry rendered last (`last` is that date, if any).
   */
  function Show(es: seq<Entry>, last: Option<string>): (r: seq<Rendered>)
    ensures |r| <= |es|
    ensures forall k :: 0 <= k < |r| ==> !IsMerge(r[k].entry.commit)
    decreases |es|
  {
    if |es| == 0 then []
    else if IsMerge(es[0].commit) then Show(es[1..], last)
    else [Rendered(last != Some(Date(es[0])), es[0])] + Show(es[1..], Some(Date(es[0])))
  }

  function EntriesOf(rs: seq<Rendered>): (r: seq<Entry>)
    ensures |r| == |rs| && forall k :: 0 <= k < |rs| ==> r[k] == rs[k].entry
  {
    seq(|rs|, k requires 0 <= k < |rs| => rs[k].entry)
  }

  /** The rendered entries are exactly the non-merge ones, in order. */
  lemma {:induction false} ShowsNonMerges(es: seq<Entry>, last: Option<string>)
    ensures EntriesOf(Show(es, last)) == NonMergeEntries(es)
    decreases |es|
  {
    if |es| > 0 {
      var d := Date(es[0]);
      if IsMerge(es[0].commit) {
        ShowsNonMerges(es[1..], last);
      } else {
        ShowsNonMerges(es[1..], Some(d));
        EntriesOfCons(Rendered(last != Some(d), es[0]), Show(es[1..], Some(d)));
      }
    }
  }

  lemma EntriesOfCons(x: Rendered, rest: seq<Rendered>)
    ensures EntriesOf([x] + rest) == [x.entry] + EntriesOf(rest)
  {
    assert forall k :: 0 < k <= |rest| ==> ([x] + rest)[k] == rest[k - 1];
  }

  /** A heading stands above an entry exactly when its date differs from the previous rendered entry's. */
  lemma {:induction false} HeadingWhenDateChanges(es: seq<Entry>, last: Option<string>, k: nat)
    requires k < |Show(es, last)|
    ensures Show(es, last)[k].heading <==>
      if k == 0 then last != Some(Date(Show(es, last)[0].entry))
      else Date(Show(es, last)[k - 1].entry) != Date(Show(es, last)[k].entry)
    decreases |es|
  {
    var d := Date(es[0]);
    if IsMerge(es[0].commit) {
      HeadingWhenDateChanges(es[1..], last, k);
    } else if k > 0 {
      var rest := Show(es[1..], Some(d));
      HeadingWhenDateChanges(es[1..], Some(d), k - 1);
      if k == 1 {
        assert Show(es, last)[0].entry == es[0];
      } else {
        assert Show(es, last)[k - 1] == rest[k - 2];
      }
    }
  }

  /** Over date-sorted entries the headings strictly descend: each date gets one heading. */
  lemma HeadingsDescend(es: seq<Entry>, last: Option<string>, k: nat, l: nat)
    requires Sorted(NonMergeEntries(es))
    requires k < l < |Show(es, last)|
    requires Show(es, last)[k].heading && Show(es, last)[l].heading
    ensures Less(Date(Show(es, last)[l].entry), Date(Show(es, last)[k].entry))
  {
    var r := Show(es, last);
    ShowsNonMerges(es, last);
    HeadingWhenDateChanges(es, last, l);
    var s := NonMergeEntries(es);
    assert s[l - 1] == r[l - 1].entry && s[l] == r[l].entry && s[k] == r[k].entry;
    LessTotal(Date(s[l]), Date(s[l - 1]));
    if k < l - 1 {
      if !Less(Date(s[l]), Date(s[k])) {
        NotLessTransitive(Date(s[l - 1]), Date(s[l]), Date(s[k]));
        LessTotal(Date(s[l - 1]), Date(s[k]));
      }
    }
  }

  /** Taking a sub-list keeps it sorted; the merge filter is one. */
  lemma {:induction false} NonMergeSorted(es: seq<Entry>)
    requires Sorted(es)
    ensures Sorted(NonMergeEntries(es))
    decreases |es|
  {
    if |es| > 0 {
      NonMergeSorted(es[1..]);
      var rest := NonMergeEntries(es[1..]);
      NonMergeMembers(es[1..]);
      if !IsMerge(es[0].commit) {
        var r := [es[0]] + rest;
        forall i, j | 0 <= i < j < |r|
          ensures !Less(Date(r[i]), Date(r[j]))
        {
          if i == 0 {
            assert r[j] in es[1..];
          } else {
            assert r[i] == rest[i - 1] && r[j] == rest[j - 1];
          }
        }
      }
    }
  }

  lemma {:induction false} NonMergeMembers(es: seq<Entry>)
    ensures forall e :: e in NonMergeEntries(es) ==> e in es
    decreases |es|
  {
    if |es| > 0 {
      NonMergeMembers(es[1..]);
    }
  }

  /** The entry lines shown: the non-merge entries among the first hundred of the sorted list. */
  function Output(repos: seq<RepoLog>): (r: seq<Rendered>)
    ensures |r| <= Shown
    ensures forall k :: 0 <= k < |r| ==> !IsMerge(r[k].entry.commit)
  {
    Show(Capped(Sort(Gather(repos))), None)
  }

  /**
   * The cut to a hundred happens before merges are dropped: at most a hundred entry lines, and
   * they are the non-merge entries among the hundred newest, newest first.
   */
  lemma OutputEntries(repos: seq<RepoLog>)
    ensures |Output(repos)| <= Shown
    ensures EntriesOf(Output(repos)) == NonMergeEntries(Capped(Sort(Gather(repos))))
    ensures Sorted(EntriesOf(Output(repos)))
  {
    var all := Sort(Gather(repos));
    ShowsNonMerges(Capped(all), None);
    SortSorts(Gather(repos));
    SortPermutes(Gather(repos));
    var c := Capped(all);
    assert Sorted(c) by {
      forall i, j | 0 <= i < j < |c|
        ensures !Less(Date(c[i]), Date(c[j]))
      {
        assert c[i] == all[i] && c[j] == all[j];
      }
    }
    NonMergeSorted(c);
  }

  /** A heading's text: a blank line, `## date`, a blank line. */
  function HeadingText(d: string): string
  {
    "\n## " + d + "\n\n"
  }

  /** `**[repo]** subject (`hash`)` and a blank line. */
  function EntryText(e: Entry): string
  {
    "**[" + e.repo + "]** " + e.commit.message + " (`" + e.commit.hash + "`)\n\n"
  }

  function RenderedText(r: Rendered): string
  {
    (if r.heading then HeadingText(Date(r.entry)) else "") + EntryText(r.entry)
  }

  function Texts(rs: seq<Rendered>): string
    decreases |rs|
  {
    if |rs| == 0 then "" else RenderedText(rs[0]) + Texts(rs[1..])
  }

  function Names(repos: seq<RepoLog>): (r: seq<string>)
    ensures |r| == |repos| && forall k :: 0 <= k < |repos| ==> r[k] == repos[k].name
  {
    seq(|repos|, k requires 0 <= k < |repos| => repos[k].name)
  }

  /** The preamble; every registered name is listed, missing repositories included. */
  function Header(repos: seq<RepoLog>, stamp: string): string
  {
    Title + (stamp + (Listed + (Join(Names(repos), ", ") + "\n\n")))
  }

  const Title: string := "# Combined Development Log\n\nActivity across all tracked repositories.\nGenerated: "

  const Listed: string := "\nRepositories: "

  /** `aggregate_all_repos` once git has answered: nothing for an empty registry. */
  function Render(repos: seq<RepoLog>, stamp: string): (r: Option<string>)
    ensures r.None? <==> |repos| == 0
    ensures r.Some? ==> StartsWith(r.value, Header(repos, stamp))
    ensures r.Some? ==> r.value == Header(repos, stamp) + Texts(Output(repos))
    ensures EntriesOf(Output(repos)) == NonMergeEntries(Capped(Sort(Gather(repos))))
  {
    OutputEntries(repos);
    if |repos| == 0 then None
    else
      var text := Header(repos, stamp) + Texts(Output(repos));
      assert text[..|Header(repos, stamp)|] == Header(repos, stamp);
      Some(text)
  }
}
