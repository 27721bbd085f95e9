/**
 * The changelog: the non-merge commits grouped by category, the sections listed in the
 * fixed category order, empty categories left out, items in commit order within a section.
 */
module Changelog {
  import opened Wrappers
  import opened Strings
  import opened Seqs
  import opened Commits
  import opened Classifier

  /** One changelog line's worth: the classified description, the short hash and the date. */
  datatype Item = Item(description: string, hash: string, date: string)

  datatype Section = Section(category: Category, items: seq<Item>)

  /** A commit as the grouping sees it: whether it is a merge, its category and its item. */
  datatype Tagged = Tagged(merge: bool, category: Category, item: Item)

  function Tag(c: Commit): (r: Tagged)
    ensures r.merge == IsMerge(c)
  {
    var k := Classify(c.message);
    Tagged(IsMerge(c), k.category, Item(k.description, c.hash, c.date))
  }

  function Tags(cs: seq<Commit>): (r: seq<Tagged>)
    ensures |r| == |cs| && forall i :: 0 <= i < |cs| ==> r[i] == Tag(cs[i])
  {
    seq(|cs|, i requires 0 <= i < |cs| => Tag(cs[i]))
  }

  /** What one commit contributes to the items of `cat`. */
  function Contribution(t: Tagged, cat: Category): seq<Item>
  {
    if !t.merge && t.category == cat then [t.item] else []
  }

  /** The grouping loop: commits taken in order, each non-merge commit appended to its category's list. */
  function Group(ts: seq<Tagged>): (r: map<Category, seq<Item>>)
    ensures forall cat :: cat in r ==> r[cat] != []
    ensures forall cat :: cat in r ==> exists i :: 0 <= i < |ts| && !ts[i].merge && ts[i].category == cat
    decreases |ts|
  {
    if |ts| == 0 then map[]
    else
      var g := Group(ts[..|ts| - 1]);
      var t := ts[|ts| - 1];
      assert forall i :: 0 <= i < |ts| - 1 ==> ts[..|ts| - 1][i] == ts[i];
      if t.merge then g
      else g[t.category := (if t.category in g then g[t.category] else []) + [t.item]]
  }

  /** Reference definition: the items of a category are those of its non-merge commits, in order. */
  function ItemsIn(ts: seq<Tagged>, cat: Category): seq<Item>
    decreases |ts|
  {
    if |ts| == 0 then [] else Contribution(ts[0], cat) + ItemsIn(ts[1..], cat)
  }

  lemma {:induction false} ItemsInSnoc(ts: seq<Tagged>, t: Tagged, cat: Category)
    ensures ItemsIn(ts + [t], cat) == ItemsIn(ts, cat) + Contribution(t, cat)
    decreases |ts|
  {
    if |ts| == 0 {
      assert ([] + [t])[1..] == [];
      assert ItemsIn([], cat) == [];
    } else {
      assert (ts + [t])[1..] == ts[1..] + [t];
      assert (ts + [t])[0] == ts[0];
      ItemsInSnoc(ts[1..], t, cat);
    }
  }

  /**
   * The grouping loop builds exactly the reference lists: a category is a key when, and only
   * when, some non-merge commit falls in it, and its list is that category's items in order.
   */
  lemma {:induction false} GroupIsItemsIn(ts: seq<Tagged>, cat: Category)
    ensures cat in Group(ts) <==> ItemsIn(ts, cat) != []
    ensures cat in Group(ts) ==> Group(ts)[cat] == ItemsIn(ts, cat)
    decreases |ts|
  {
    if |ts| > 0 {
      var front := ts[..|ts| - 1];
      var t := ts[|ts| - 1];
      GroupIsItemsIn(front, cat);
      assert front + [t] == ts;
      ItemsInSnoc(front, t, cat);
      GroupStep(ts, cat);
    }
  }

  /** One more commit adds its contribution to the list of its category and leaves the others alone. */
  lemma GroupStep(ts: seq<Tagged>, cat: Category)
    requires |ts| > 0
    ensures var g := Group(ts[..|ts| - 1]);
      var c := Contribution(ts[|ts| - 1], cat);
      && (cat in Group(ts) <==> cat in g || c != [])
      && (cat in Group(ts) ==> Group(ts)[cat] == (if cat in g then g[cat] else []) + c)
  {
  }

  /** No category appears twice in `order`. */
  predicate Distinct(order: seq<Category>)
  {
    forall a, b :: 0 <= a < b < |order| ==> order[a] != order[b]
  }

  /** The first position of `c` in `order` (`|order|` when it is absent). */
  function Position(order: seq<Category>, c: Category): nat
    decreases |order|
  {
    if |order| == 0 then 0 else if order[0] == c then 0 else 1 + Position(order[1..], c)
  }

  /** In an order without repeats, the category at `p` has position `p`. */
  lemma {:induction false} PositionAt(order: seq<Category>, p: nat)
    requires Distinct(order) && p < |order|
    ensures Position(order, order[p]) == p
    decreases |order|
  {
    if p > 0 {
      assert order[0] != order[p];
      DistinctTail(order);
      PositionAt(order[1..], p - 1);
      assert order[1..][p - 1] == order[p];
    }
  }

  /** Past the head, an order without repeats keeps none, and no longer holds its head. */
  lemma DistinctTail(order: seq<Category>)
    requires Distinct(order) && |order| > 0
    ensures Distinct(order[1..]) && order[0] !in order[1..]
  {
    var tail := order[1..];
    forall a, b | 0 <= a < b < |tail|
      ensures tail[a] != tail[b]
    {
      assert tail[a] == order[a + 1] && tail[b] == order[b + 1];
    }
    forall a | 0 <= a < |tail|
      ensures tail[a] != order[0]
    {
      assert tail[a] == order[a + 1];
    }
  }

  /** The category order has no repeats. */
  lemma OrderDistinct()
    ensures Distinct(CategoryOrder)
  {
    forall a, b | 0 <= a < b < |CategoryOrder|
      ensures CategoryOrder[a] != CategoryOrder[b]
    {
      var ra := Rank(CategoryOrder[a]);
      var rb := Rank(CategoryOrder[b]);
    }
  }

  /** Every category is in the order, at the position its rank gives. */
  lemma PositionIsRank(c: Category)
    ensures c in CategoryOrder && Position(CategoryOrder, c) == Rank(c)
  {
    OrderDistinct();
    PositionAt(CategoryOrder, Rank(c));
  }

  /** The sections for the categories of `order` that are keys of `g`, in that order. */
  function SectionsFor(g: map<Category, seq<Item>>, order: seq<Category>): (r: seq<Section>)
    ensures forall j :: 0 <= j < |r| ==> r[j].category in g && r[j].items == g[r[j].category]
    ensures forall j :: 0 <= j < |r| ==> r[j].category in order
    ensures |r| <= |order|
    decreases |order|
  {
    if |order| == 0 then []
    else
      var cat := order[0];
      var rest := SectionsFor(g, order[1..]);
      if cat in g then [Section(cat, g[cat])] + rest else rest
  }

  lemma SectionsForStep(g: map<Category, seq<Item>>, order: seq<Category>)
    requires |order| > 0
    ensures SectionsFor(g, order)
      == (if order[0] in g then [Section(order[0], g[order[0]])] else []) + SectionsFor(g, order[1..])
  {
  }

  /** Each section's category sits later in `order` than the one before. */
  predicate Ascending(order: seq<Category>, r: seq<Section>)
  {
    forall j, k :: 0 <= j < k < |r| ==> Position(order, r[j].category) < Position(order, r[k].category)
  }

  /** With an order without repeats, later sections have categories at later positions. */
  lemma {:induction false} SectionsInOrder(g: map<Category, seq<Item>>, order: seq<Category>)
    requires Distinct(order)
    ensures Ascending(order, SectionsFor(g, order))
    decreases |order|
  {
    if |order| > 0 {
      var here := order[0];
      DistinctTail(order);
      SectionsInOrder(g, order[1..]);
      SectionsForStep(g, order);
      var front := if here in g then [Section(here, g[here])] else [];
      AscendingCons(order, front, SectionsFor(g, order[1..]));
    }
  }

  /** Sections ascending in the tail, after at most one section for the head, ascend in the whole order. */
  lemma AscendingCons(order: seq<Category>, front: seq<Section>, rest: seq<Section>)
    requires |order| > 0 && order[0] !in order[1..]
    requires |front| <= 1 && forall j :: 0 <= j < |front| ==> front[j].category == order[0]
    requires forall j :: 0 <= j < |rest| ==> rest[j].category in order[1..]
    requires Ascending(order[1..], rest)
    ensures Ascending(order, front + rest)
  {
    var r := front + rest;
    var d := |front|;
    forall j, k | 0 <= j < k < |r|
      ensures Position(order, r[j].category) < Position(order, r[k].category)
    {
      assert r[k] == rest[k - d];
      TailPosition(order, rest[k - d].category);
      if j >= d {
        assert r[j] == rest[j - d];
        TailPosition(order, rest[j - d].category);
      }
    }
  }

  /** Past a head that does not recur, a category's position is one more than in the tail. */
  lemma TailPosition(order: seq<Category>, x: Category)
    requires |order| > 0 && x in order[1..] && order[0] !in order[1..]
    ensures Position(order, x) == 1 + Position(order[1..], x)
  {
    assert x != order[0];
  }

  /** A key of `g` that occurs in `order` gets a section; `j` is its position. */
  lemma {:induction false} SectionsCoverKeys(g: map<Category, seq<Item>>, order: seq<Category>, c: Category) returns (j: nat)
    requires c in order && c in g
    ensures j < |SectionsFor(g, order)| && SectionsFor(g, order)[j].category == c
    decreases |order|
  {
    var here := order[0];
    var rest := SectionsFor(g, order[1..]);
    SectionsForStep(g, order);
    if here == c {
      j := 0;
    } else {
      assert c in order[1..] by {
        var a :| 0 <= a < |order| && order[a] == c;
        assert order[1..][a - 1] == c;
      }
      var k := SectionsCoverKeys(g, order[1..], c);
      if here in g {
        j := k + 1;
        assert ([Section(here, g[here])] + rest)[j] == rest[k];
      } else {
        j := k;
      }
    }
  }

  /** The sections of a commit list. */
  function Sections(cs: seq<Commit>): seq<Section>
  {
    SectionsOf(Tags(cs))
  }

  function SectionsOf(ts: seq<Tagged>): (r: seq<Section>)
    ensures |r| <= |CategoryOrder|
    ensures forall j :: 0 <= j < |r| ==> r[j].items != []
  {
    SectionsFor(Group(ts), CategoryOrder)
  }

  /**
   * Sections come in category order without repeats, one for each category that has a commit,
   * each listing that category's items in commit order.
   */
  lemma SectionsOfCommits(ts: seq<Tagged>, cat: Category)
    ensures forall j, k :: 0 <= j < k < |SectionsOf(ts)| ==> Rank(SectionsOf(ts)[j].category) < Rank(SectionsOf(ts)[k].category)
    ensures forall j :: 0 <= j < |SectionsOf(ts)| ==> SectionsOf(ts)[j].items == ItemsIn(ts, SectionsOf(ts)[j].category)
    ensures forall j :: 0 <= j < |SectionsOf(ts)| ==> SectionsOf(ts)[j].items != []
    ensures ItemsIn(ts, cat) != [] <==> exists j :: 0 <= j < |SectionsOf(ts)| && SectionsOf(ts)[j].category == cat
  {
    var r := SectionsOf(ts);
    OrderDistinct();
    SectionsInOrder(Group(ts), CategoryOrder);
    forall j | 0 <= j < |r|
      ensures r[j].items == ItemsIn(ts, r[j].category) && r[j].items != []
      ensures Position(CategoryOrder, r[j].category) == Rank(r[j].category)
    {
      GroupIsItemsIn(ts, r[j].category);
      PositionIsRank(r[j].category);
    }
    GroupIsItemsIn(ts, cat);
    if ItemsIn(ts, cat) != [] {
      PositionIsRank(cat);
      var j := SectionsCoverKeys(Group(ts), CategoryOrder, cat);
      assert r[j].category == cat;
    }
  }

  /** Each listed item is that of a non-merge commit of the category, and vice versa. */
  lemma {:induction false} ItemsInMembers(ts: seq<Tagged>, cat: Category, it: Item)
    ensures it in ItemsIn(ts, cat) <==> exists t :: t in ts && !t.merge && t.category == cat && t.item == it
    decreases |ts|
  {
    if |ts| > 0 {
      ItemsInMembers(ts[1..], cat, it);
      assert ts == [ts[0]] + ts[1..];
    }
  }

  /** The number of items listed across some sections. */
  function TotalItems(secs: seq<Section>): nat
    decreases |secs|
  {
    if |secs| == 0 then 0 else |secs[0].items| + TotalItems(secs[1..])
  }

  /** The items of the categories of `order`, counted. */
  function ItemsOver(ts: seq<Tagged>, order: seq<Category>): nat
    decreases |order|
  {
    if |order| == 0 then 0 else |ItemsIn(ts, order[0])| + ItemsOver(ts, order[1..])
  }

  /** The sizes of the lists of `g` for the categories of `order`. */
  function KeyItems(g: map<Category, seq<Item>>, order: seq<Category>): nat
    decreases |order|
  {
    if |order| == 0 then 0
    else (if order[0] in g then |g[order[0]]| else 0) + KeyItems(g, order[1..])
  }

  lemma {:induction false} SectionsCount(g: map<Category, seq<Item>>, order: seq<Category>)
    ensures TotalItems(SectionsFor(g, order)) == KeyItems(g, order)
    decreases |order|
  {
    if |order| > 0 {
      var cat := order[0];
      SectionsCount(g, order[1..]);
      if cat in g {
        TotalItemsCons(Section(cat, g[cat]), SectionsFor(g, order[1..]));
      }
    }
  }

  lemma {:induction false} GroupCount(ts: seq<Tagged>, order: seq<Category>)
    ensures KeyItems(Group(ts), order) == ItemsOver(ts, order)
    decreases |order|
  {
    if |order| > 0 {
      GroupCount(ts, order[1..]);
      GroupIsItemsIn(ts, order[0]);
    }
  }

  lemma TotalItemsCons(s: Section, rest: seq<Section>)
    ensures TotalItems([s] + rest) == |s.items| + TotalItems(rest)
  {
    assert ([s] + rest)[1..] == rest;
  }

  /** How many entries of `order` equal `cat`. */
  function Occurrences(cat: Category, order: seq<Category>): nat
    decreases |order|
  {
    if |order| == 0 then 0 else (if order[0] == cat then 1 else 0) + Occurrences(cat, order[1..])
  }

  /** In an order without repeats, a category occurs once if present and never otherwise. */
  lemma {:induction false} OccursOnce(cat: Category, order: seq<Category>)
    requires Distinct(order)
    ensures Occurrences(cat, order) == (if cat in order then 1 else 0)
    decreases |order|
  {
    if |order| > 0 {
      var tail := order[1..];
      DistinctTail(order);
      OccursOnce(cat, tail);
      assert order == [order[0]] + tail;
    }
  }

  /** One commit's contributions over the categories of `order`. */
  lemma {:induction false} ContributionsOver(t: Tagged, rest: seq<Tagged>, order: seq<Category>)
    ensures ItemsOver([t] + rest, order) == ItemsOver(rest, order) + (if t.merge then 0 else Occurrences(t.category, order))
    decreases |order|
  {
    if |order| > 0 {
      ContributionsOver(t, rest, order[1..]);
      assert ([t] + rest)[1..] == rest;
      assert ItemsIn([t] + rest, order[0]) == Contribution(t, order[0]) + ItemsIn(rest, order[0]);
    }
  }

  lemma {:induction false} ZeroItems(order: seq<Category>)
    ensures ItemsOver([], order) == 0
    decreases |order|
  {
    if |order| > 0 {
      ZeroItems(order[1..]);
    }
  }

  /** How many of the tagged commits are not merges. */
  function Unmerged(ts: seq<Tagged>): nat
    decreases |ts|
  {
    if |ts| == 0 then 0 else (if ts[0].merge then 0 else 1) + Unmerged(ts[1..])
  }

  /** Over an order without repeats that holds every commit's category, the items number the non-merge commits. */
  lemma {:induction false} ItemsPartition(ts: seq<Tagged>, order: seq<Category>)
    requires Distinct(order) && forall i :: 0 <= i < |ts| ==> ts[i].category in order
    ensures ItemsOver(ts, order) == Unmerged(ts)
    decreases |ts|
  {
    if |ts| == 0 {
      ZeroItems(order);
    } else {
      ItemsPartition(ts[1..], order);
      assert ts == [ts[0]] + ts[1..];
      ContributionsOver(ts[0], ts[1..], order);
      OccursOnce(ts[0].category, order);
    }
  }

  /** Tagging keeps the merge flag, so the unmerged count is that of the non-merge commits. */
  lemma {:induction false} UnmergedTags(cs: seq<Commit>)
    ensures Unmerged(Tags(cs)) == |NonMerge(cs)|
    decreases |cs|
  {
    if |cs| > 0 {
      UnmergedTags(cs[1..]);
      var ts := Tags(cs);
      assert ts[1..] == Tags(cs[1..]);
      assert ts[0].merge == IsMerge(cs[0]);
    }
  }

  lemma ItemsPartitionCommits(cs: seq<Commit>)
    ensures ItemsOver(Tags(cs), CategoryOrder) == |NonMerge(cs)|
  {
    forall c: Category
      ensures c in CategoryOrder
    {
      PositionIsRank(c);
    }
    OrderDistinct();
    ItemsPartition(Tags(cs), CategoryOrder);
    UnmergedTags(cs);
  }

  /** Every non-merge commit is listed exactly once: the sections hold as many items as there are such commits. */
  lemma EveryCommitListedOnce(cs: seq<Commit>)
    ensures TotalItems(Sections(cs)) == |NonMerge(cs)|
  {
    SectionsCount(Group(Tags(cs)), CategoryOrder);
    GroupCount(Tags(cs), CategoryOrder);
    ItemsPartitionCommits(cs);
  }

  /** `- description (`hash`)` */
  function ItemLine(it: Item): string
  {
    "- " + it.description + " (`" + it.hash + "`)\n"
  }

  function ItemLines(items: seq<Item>): string
    decreases |items|
  {
    if |items| == 0 then "" else ItemLine(items[0]) + ItemLines(items[1..])
  }

  /** `### Category`, a blank line, the item lines, a blank line. */
  function SectionText(s: Section): string
  {
    "### " + Name(s.category) + "\n\n" + ItemLines(s.items) + "\n"
  }

  function SectionTexts(secs: seq<Section>): string
    decreases |secs|
  {
    if |secs| == 0 then "" else SectionText(secs[0]) + SectionTexts(secs[1..])
  }

  /** The fixed preamble; `day` is the `%Y-%m-%d` clock reading. */
  function Header(repo: string, day: string): string
  {
    Title + (repo + (Preamble + (day + "\n\n")))
  }

  const Title: string := "# Changelog - "

  const Preamble: string :=
    "\n\nAll notable changes to this project will be documented in this file.\nAuto-generated from git commits.\n\n## [Unreleased] - "

  /** `generate_changelog` once git has answered: nothing without commits, else the preamble and sections. */
  function Render(repo: string, day: string, cs: seq<Commit>): (r: Option<string>)
    ensures r.None? <==> |cs| == 0
    ensures r.Some? ==> StartsWith(r.value, Header(repo, day))
    ensures r.Some? ==> r.value == Header(repo, day) + SectionTexts(Sections(cs))
    ensures r.Some? ==> forall j, k :: 0 <= j < k < |Sections(cs)| ==>
              Rank(Sections(cs)[j].category) < Rank(Sections(cs)[k].category)
    ensures r.Some? ==> forall j :: 0 <= j < |Sections(cs)| ==>
              Sections(cs)[j].items == ItemsIn(Tags(cs), Sections(cs)[j].category)
  {
    if |cs| == 0 then None
    else
      SectionsOfCommits(Tags(cs), Changed);
      var text := Header(repo, day) + SectionTexts(Sections(cs));
      assert text[..|Header(repo, day)|] == Header(repo, day);
      Some(text)
  }

  /** There are no sections exactly when every commit is a merge; the changelog is then its bare preamble. */
  lemma NoSectionsOnlyMerges(ts: seq<Tagged>)
    ensures SectionsOf(ts) == [] <==> forall t :: t in ts ==> t.merge
  {
    var r := SectionsOf(ts);
    if r != [] {
      SectionsOfCommits(ts, r[0].category);
      var it := r[0].items[0];
      ItemsInMembers(ts, r[0].category, it);
    }
    if t :| t in ts && !t.merge {
      SectionsOfCommits(ts, t.category);
      ItemsInMembers(ts, t.category, t.item);
    }
  }
}
