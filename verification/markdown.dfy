/**
 * The line-by-line Markdown to HTML conversion used for the HTML export: a fence toggles code
 * mode, code lines are only escaped, and other lines go through an ordered list of prefix and
 * content tests; blank lines outside code are dropped.
 */
module MarkdownHtml {
  import opened Wrappers
  import opened Strings

  const Fence: string := "```"

  predicate IsFence(line: string)
  {
    StartsWith(line, Fence)
  }

  /** `<` then `>` replaced by their entities. */
  function Escape(line: string): string
  {
    ReplaceAll(ReplaceAll(line, "<", "&lt;"), ">", "&gt;")
  }

  /** The two inline forms, `**bold**` and `` `code` ``. */
  datatype Span = Strong | Code

  function Delimiter(k: Span): string
  {
    match k
    case Strong => "**"
    case Code => "`"
  }

  function Tag(k: Span): string
  {
    match k
    case Strong => "strong"
    case Code => "code"
  }

  function Wrap(tag: string, inner: string): string
  {
    "<" + tag + ">" + inner + "</" + tag + ">"
  }

  /** `d` occurs in `s` at position `k`. */
  predicate At(s: string, d: string, k: nat)
  {
    k + |d| <= |s| && s[k..k + |d|] == d
  }

  /** The first position from `from` on where `d` occurs in `s`. */
  function FindFrom(s: string, d: string, from: nat): (r: Option<nat>)
    ensures r.Some? ==> from <= r.value && At(s, d, r.value)
    ensures r.Some? ==> forall k :: from <= k < r.value ==> !At(s, d, k)
    ensures r.None? ==> forall k :: from <= k ==> !At(s, d, k)
    decreases |s| - from
  {
    if from + |d| > |s| then None
    else if At(s, d, from) then Some(from)
    else FindFrom(s, d, from + 1)
  }

  /**
   * `re.sub` of the non-greedy pair pattern: scanning left to right, a delimiter followed by at
   * least one character and the nearest next delimiter becomes the tagged inner text; anywhere
   * else one character is kept and the scan moves on.
   */
  function Sub(s: string, k: Span): (r: string)
    ensures |r| >= |s|
    decreases |s|
  {
    var d := Delimiter(k);
    if |s| == 0 then ""
    else if StartsWith(s, d) && FindFrom(s, d, |d| + 1).Some? then
      var j := FindFrom(s, d, |d| + 1).value;
      Wrap(Tag(k), s[|d|..j]) + Sub(s[j + |d|..], k)
    else [s[0]] + Sub(s[1..], k)
  }

  /** A line in which the delimiter never occurs comes through unchanged. */
  lemma {:induction false} SubAbsent(s: string, k: Span)
    requires !Contains(s, Delimiter(k))
    ensures Sub(s, k) == s
    decreases |s|
  {
    if |s| > 0 {
      SubAbsent(s[1..], k);
      assert s == [s[0]] + s[1..];
    }
  }

  /** Text free of the delimiter's first character is kept, and the scan resumes after it. */
  lemma {:induction false} SubKeepsPrefix(a: string, t: string, k: Span)
    requires Delimiter(k)[0] !in a
    ensures Sub(a + t, k) == a + Sub(t, k)
    decreases |a|
  {
    if |a| > 0 {
      var s := a + t;
      assert s[0] == a[0];
      assert s[1..] == a[1..] + t;
      SubKept(s, k);
      SubKeepsPrefix(a[1..], t, k);
      assert a == [a[0]] + a[1..];
    } else {
      assert a + t == t;
    }
  }

  /** A first character that does not open the delimiter is kept as it is. */
  lemma SubKept(s: string, k: Span)
    requires |s| > 0 && s[0] != Delimiter(k)[0]
    ensures Sub(s, k) == [s[0]] + Sub(s[1..], k)
  {
  }

  /** A line with a single back quote has no pair to rewrite and is kept as it is. */
  lemma LoneBacktick(a: string, b: string)
    requires '`' !in a && '`' !in b
    ensures Sub(a + ("`" + b), Code) == a + ("`" + b)
  {
    SubKeepsPrefix(a, "`" + b, Code);
    LoneOpening(b);
  }

  /** A back quote with none after it opens no pair. */
  lemma LoneOpening(b: string)
    requires '`' !in b
    ensures Sub("`" + b, Code) == "`" + b
  {
    var s := "`" + b;
    forall p | 2 <= p
      ensures !At(s, "`", p)
    {
      if p + 1 <= |s| {
        assert s[p..p + 1] == [b[p - 1]];
      }
    }
    assert FindFrom(s, "`", 2).None?;
    assert s[1..] == b;
    CharNotContained(b, '`');
    SubAbsent(b, Code);
  }

  /** `FindFrom` returns the first occurrence from `from` on. */
  lemma {:induction false} FindFromFirst(s: string, d: string, from: nat, at: nat)
    requires from <= at && At(s, d, at)
    requires forall p :: from <= p < at ==> !At(s, d, p)
    ensures FindFrom(s, d, from) == Some(at)
    decreases at - from
  {
    if from < at {
      FindFromFirst(s, d, from + 1, at);
    }
  }

  /** In `d + x + d + rest`, with `d`'s first character absent from `x`, the next `d` is the closing one. */
  lemma ClosingDelimiter(d: string, x: string, rest: string)
    requires |d| > 0 && d[0] !in x
    ensures var s := d + (x + (d + rest));
      forall p :: |d| <= p < |d| + |x| ==> !At(s, d, p)
    ensures At(d + (x + (d + rest)), d, |d| + |x|)
  {
    var s := d + (x + (d + rest));
    var at := |d| + |x|;
    assert s[at..] == d + rest;
    assert s[at..at + |d|] == (d + rest)[..|d|];
    forall p | |d| <= p < at
      ensures !At(s, d, p)
    {
      assert s[p] == x[p - |d|];
    }
  }

  /** A delimited run free of the delimiter's character becomes one tagged element. */
  lemma SubPair(x: string, rest: string, k: Span)
    requires |x| > 0 && Delimiter(k)[0] !in x
    ensures Sub(Delimiter(k) + (x + (Delimiter(k) + rest)), k) == Wrap(Tag(k), x) + Sub(rest, k)
  {
    var d := Delimiter(k);
    var s := d + (x + (d + rest));
    var at := |d| + |x|;
    ClosingDelimiter(d, x, rest);
    FindFromFirst(s, d, |d| + 1, at);
    PairPieces(d, x, rest);
    SubAtPair(s, k, at);
  }

  lemma SubAtPair(s: string, k: Span, j: nat)
    requires StartsWith(s, Delimiter(k)) && FindFrom(s, Delimiter(k), |Delimiter(k)| + 1) == Some(j)
    ensures Sub(s, k) == Wrap(Tag(k), s[|Delimiter(k)|..j]) + Sub(s[j + |Delimiter(k)|..], k)
  {
  }

  lemma PairPieces(d: string, x: string, rest: string)
    ensures var s := d + (x + (d + rest));
      s[..|d|] == d && s[|d|..|d| + |x|] == x && s[|d| + |x| + |d|..] == rest
  {
    var s := d + (x + (d + rest));
    assert s[|d|..] == x + (d + rest);
    assert s[|d| + |x|..] == d + rest;
  }

  /** The tests for a line outside code, in the order the converter tries them. */
  function Convert(line: string): (r: Option<string>)
    ensures r.None? <==> AllBlank(line)
  {
    StripFacts(line);
    BlankTests(line);
    if StartsWith(line, "## ") then Some(Wrap("h2", line[3..]))
    else if StartsWith(line, "### ") then Some(Wrap("h3", line[4..]))
    else if StartsWith(line, "# ") then Some(Wrap("h1", line[2..]))
    else if Strip(line) == "---" then Some("<hr/>")
    else if StartsWith(line, "- ") then Some(Wrap("li", line[2..]))
    else if Contains(line, "**") then Some(Wrap("p", Sub(line, Strong)))
    else if '`' in line then Some(Wrap("p", Sub(line, Code)))
    else if Strip(line) != "" then Some(Wrap("p", line))
    else None
  }

  /** What one line emits, and whether code mode holds afterwards. */
  datatype Step = Step(out: Option<string>, code: bool)

  function StepOf(line: string, code: bool): (r: Step)
    ensures r.code == (code != IsFence(line))
    ensures IsFence(line) || code ==> r.out.Some?
  {
    if IsFence(line) then Step(Some(if code then "</pre>" else "<pre>"), !code)
    else if code then Step(Some(Escape(line)), true)
    else Step(Convert(line), false)
  }

  /** The conversion loop over the lines, starting in code mode or not. */
  function Emit(lines: seq<string>, code: bool): (r: seq<string>)
    ensures |r| <= |lines|
    decreases |lines|
  {
    if |lines| == 0 then []
    else
      var st := StepOf(lines[0], code);
      (if st.out.Some? then [st.out.value] else []) + Emit(lines[1..], st.code)
  }

  /** `_markdown_to_html`: split into lines, convert, join with line breaks. */
  function ToHtml(text: string): (r: string)
    ensures r == Join(Present(Outputs(Split(text, '\n'))), "\n")
  {
    CodeModeIsFenceParity(Split(text, '\n'));
    Join(Emit(Split(text, '\n'), false), "\n")
  }

  /** Whether an odd number of the lines are fences. */
  function OddFences(lines: seq<string>): bool
    decreases |lines|
  {
    if |lines| == 0 then false else IsFence(lines[0]) != OddFences(lines[1..])
  }

  /** The lines' outputs, one optional output per line. */
  function Outputs(lines: seq<string>): seq<Option<string>>
  {
    seq(|lines|, k requires 0 <= k < |lines| => StepOf(lines[k], OddFences(lines[..k])).out)
  }

  function Present(os: seq<Option<string>>): seq<string>
    decreases |os|
  {
    if |os| == 0 then [] else (if os[0].Some? then [os[0].value] else []) + Present(os[1..])
  }

  /** Shifting the start mode flips the mode each later line sees. */
  function OutputsFrom(lines: seq<string>, code: bool): seq<Option<string>>
  {
    seq(|lines|, k requires 0 <= k < |lines| => StepOf(lines[k], code != OddFences(lines[..k])).out)
  }

  lemma OddFencesCons(lines: seq<string>, k: nat)
    requires 0 < k <= |lines|
    ensures OddFences(lines[..k]) == (IsFence(lines[0]) != OddFences(lines[1..][..k - 1]))
  {
    assert lines[..k][0] == lines[0];
    assert lines[..k][1..] == lines[1..][..k - 1];
  }

  lemma {:induction false} EmitIsPerLine(lines: seq<string>, code: bool)
    ensures Emit(lines, code) == Present(OutputsFrom(lines, code))
    decreases |lines|
  {
    if |lines| > 0 {
      var st := StepOf(lines[0], code);
      EmitIsPerLine(lines[1..], st.code);
      OutputsShift(lines, code);
      var os := OutputsFrom(lines, code);
      assert os[1..] == OutputsFrom(lines[1..], st.code);
    }
  }

  /** The first line sees the start mode, and the rest see it flipped by that line's fence. */
  lemma OutputsShift(lines: seq<string>, code: bool)
    requires |lines| > 0
    ensures OutputsFrom(lines, code)
         == [StepOf(lines[0], code).out] + OutputsFrom(lines[1..], code != IsFence(lines[0]))
  {
    var os := OutputsFrom(lines, code);
    var rest := OutputsFrom(lines[1..], code != IsFence(lines[0]));
    forall k | 1 <= k < |lines|
      ensures os[k] == rest[k - 1]
    {
      OddFencesCons(lines, k);
    }
    assert lines[..0] == [];
  }

  /**
   * The loop's state is the parity of the fences so far: each line is converted in code mode
   * exactly when an odd number of fence lines precede it.
   */
  lemma CodeModeIsFenceParity(lines: seq<string>)
    ensures Emit(lines, false) == Present(Outputs(lines))
  {
    EmitIsPerLine(lines, false);
    assert OutputsFrom(lines, false) == Outputs(lines);
  }

  /** A fence opens code with `<pre>` or closes it with `</pre>`, alternately. */
  lemma FenceToggles(line: string, code: bool)
    requires IsFence(line)
    ensures StepOf(line, code) == Step(Some(if code then "</pre>" else "<pre>"), !code)
  {
  }

  /** A code line is emitted with its angle brackets escaped, and otherwise as it was. */
  lemma CodeLineEscaped(line: string)
    requires !IsFence(line)
    ensures StepOf(line, true) == Step(Some(Escape(line)), true)
    ensures '<' !in Escape(line) && '>' !in Escape(line)
    ensures '<' !in line && '>' !in line ==> Escape(line) == line
  {
    ReplaceRemovesChar(line, '<', "&lt;");
    ReplaceRemovesChar(ReplaceAll(line, "<", "&lt;"), '>', "&gt;");
    if '<' !in line && '>' !in line {
      CharNotContained(line, '<');
      ReplaceAbsent(line, "<", "&lt;");
      CharNotContained(line, '>');
      ReplaceAbsent(line, ">", "&gt;");
    }
  }

  lemma {:induction false} CharNotContained(s: string, c: char)
    requires c !in s
    ensures !Contains(s, [c])
    decreases |s|
  {
    if |s| > 0 {
      CharNotContained(s[1..], c);
      assert s[..1] == [s[0]];
    }
  }

  /** A line that passes any test before the last is not blank. */
  lemma BlankTests(line: string)
    ensures (|| StartsWith(line, "## ") || StartsWith(line, "### ") || StartsWith(line, "# ")
             || StartsWith(line, "- ") || Contains(line, "**") || '`' in line) ==> !AllBlank(line)
  {
    if StartsWith(line, "## ") || StartsWith(line, "### ") || StartsWith(line, "# ") || StartsWith(line, "- ") {
      assert !IsSpace(line[0]);
    }
    if Contains(line, "**") {
      StarsNotBlank(line);
    }
    if '`' in line {
      var i :| 0 <= i < |line| && line[i] == '`';
      assert !IsSpace(line[i]);
    }
  }

  lemma {:induction false} StarsNotBlank(s: string)
    requires Contains(s, "**")
    ensures !AllBlank(s)
    decreases |s|
  {
    if StartsWith(s, "**") {
      assert s[0] == '*';
      assert !IsSpace(s[0]);
    } else {
      StarsNotBlank(s[1..]);
      assert forall k :: 0 <= k < |s| - 1 ==> s[1..][k] == s[k + 1];
    }
  }

  /**
   * The heading tests run `## ` first, then `### `, then `# `: each prefix gets its own level,
   * with the prefix cut off.
   */
  lemma HeadingLevels(line: string)
    requires !IsFence(line)
    ensures StartsWith(line, "## ") ==> StepOf(line, false).out == Some(Wrap("h2", line[3..]))
    ensures StartsWith(line, "### ") ==> StepOf(line, false).out == Some(Wrap("h3", line[4..]))
    ensures StartsWith(line, "# ") ==> StepOf(line, false).out == Some(Wrap("h1", line[2..]))
  {
    if StartsWith(line, "### ") {
      assert line[..3] == "###";
    }
    if StartsWith(line, "# ") {
      assert line[1] == ' ';
    }
  }
}
