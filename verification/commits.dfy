/** The commit record every renderer consumes, and the merge-commit marker they all skip. */
module Commits {
  import opened Strings
  import opened Seqs

  /**
   * One line of `git log --pretty=format:%H|%ad|%s|%b --date=short` after parsing:
   * the shortened hash, the `YYYY-MM-DD` date, the subject line and the body text.
   */
  datatype Commit = Commit(hash: string, date: string, message: string, body: string)

  /** Subjects starting with this text (case-sensitive) are merge commits. */
  const MergeMarker: string := "Merge"

  predicate IsMerge(c: Commit)
  {
    StartsWith(c.message, MergeMarker)
  }

  function KeepNonMerge(): Commit -> bool
  {
    (c: Commit) => !IsMerge(c)
  }

  /** The non-merge commits, in input order: what every renderer actually shows. */
  function NonMerge(cs: seq<Commit>): (r: seq<Commit>)
    ensures |r| <= |cs|
    ensures forall c :: c in r <==> c in cs && !IsMerge(c)
  {
    Filter(cs, KeepNonMerge())
  }
}
