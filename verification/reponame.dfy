/**
 * The repository's display name: the last `/` segment of the `origin` URL with every `.git`
 * removed, or the last segment of the working-tree path when there is no remote.
 */
module RepoName {
  import opened Strings

  const Suffix: string := ".git"

  /** The text after the last `/`, as `s.split('/')[-1]` and `os.path.basename` both give it. */
  function LastSegment(s: string): string
  {
    var parts := Split(s, '/');
    parts[|parts| - 1]
  }

  /**
   * `_get_repo_name` with the `git remote get-url origin` output (stripped, empty without a
   * remote). A name never holds a `/`, and with a remote it is drawn from the remote's characters.
   */
  function Name(remote: string, path: string): (r: string)
    ensures '/' !in r
    ensures remote != "" ==> forall c :: c in r ==> c in remote
  {
    var parts := Split(if remote != "" then remote else path, '/');
    assert '/' !in parts[|parts| - 1];
    SegmentChars(remote);
    if remote != "" then ReplaceAll(LastSegment(remote), Suffix, "") else LastSegment(path)
  }

  /** The last segment is made of characters of the text. */
  lemma {:induction false} SegmentChars(s: string)
    ensures forall c :: c in LastSegment(s) ==> c in s
    decreases |s|
  {
    match Find(s, '/')
    case None =>
    case Some(i) =>
      SegmentChars(s[i + 1..]);
      assert Split(s, '/') == [s[..i]] + Split(s[i + 1..], '/');
      forall c | c in LastSegment(s[i + 1..])
        ensures c in s
      {
        var j :| 0 <= j < |s[i + 1..]| && s[i + 1..][j] == c;
        assert s[i + 1 + j] == c;
      }
  }

  /** What follows the last `/` is the last segment. */
  lemma {:induction false} LastSegmentAfter(a: string, b: string)
    requires '/' !in b
    ensures LastSegment(a + ("/" + b)) == b
    decreases |a|
  {
    var s := a + ("/" + b);
    match Find(a, '/')
    case None =>
      SplitAfter(a, '/', b);
      SplitNoBreak(b, '/');
    case Some(i) =>
      var rest := a[i + 1..];
      assert a == a[..i] + ("/" + rest) by {
        Around(a, i);
      }
      assert s == a[..i] + ("/" + (rest + ("/" + b)));
      SplitAfter(a[..i], '/', rest + ("/" + b));
      LastSegmentAfter(rest, b);
  }

  /** A `.git` after a dot-free head is removed and the scan goes on behind it. */
  lemma {:induction false} DropAfter(head: string, rest: string)
    requires '.' !in head
    ensures ReplaceAll(head + (Suffix + rest), Suffix, "") == head + ReplaceAll(rest, Suffix, "")
    decreases |head|
  {
    var s := head + (Suffix + rest);
    if |head| == 0 {
      assert s == Suffix + rest;
      assert s[..|Suffix|] == Suffix;
      assert s[|Suffix|..] == rest;
    } else {
      assert s[..|Suffix|] != Suffix by {
        assert s[..|Suffix|][0] == head[0];
      }
      assert s[1..] == head[1..] + (Suffix + rest);
      DropAfter(head[1..], rest);
      assert head == [head[0]] + head[1..];
    }
  }

  /** Removing `.git` from a dot-free name followed by `.git` leaves the name. */
  lemma DropSuffix(name: string)
    requires '.' !in name
    ensures ReplaceAll(name + Suffix, Suffix, "") == name
  {
    DropAfter(name, "");
    assert name + (Suffix + "") == name + Suffix;
  }

  /** A remote such as `https://host/user/name.git` gives `name`. */
  lemma RemoteGivesName(base: string, name: string, path: string)
    requires '/' !in name && '.' !in name
    ensures Name(base + ("/" + (name + Suffix)), path) == name
  {
    assert '/' !in Suffix;
    LastSegmentAfter(base, name + Suffix);
    DropSuffix(name);
  }

  /** Without a remote, the name is the directory's own name. */
  lemma PathGivesName(parent: string, dir: string)
    requires '/' !in dir
    ensures Name("", parent + ("/" + dir)) == dir
  {
    LastSegmentAfter(parent, dir);
  }

  /**
   * Every `.git` goes, not only a trailing one: `my.gitlab.git` gives `mylab`, and likewise
   * for any two dot-free pieces around an inner `.git`.
   */
  lemma EveryGitRemoved(base: string, head: string, tail: string, path: string)
    requires '/' !in head && '/' !in tail && '.' !in head && '.' !in tail
    ensures Name(base + ("/" + (head + (Suffix + (tail + Suffix)))), path) == head + tail
  {
    var seg := head + (Suffix + (tail + Suffix));
    assert '/' !in Suffix;
    assert '/' !in seg;
    LastSegmentAfter(base, seg);
    DropAfter(head, tail + Suffix);
    DropSuffix(tail);
  }
}
