/**
 * Turning the captured output of `git log --pretty=format:%H|%ad|%s|%b --date=short`
 * into commit records: one record per line that carries at least three `|`-separated fields.
 */
module LogParser {
  import opened Wrappers
  import opened Strings
  import opened Commits

  /** Hashes are cut to this many characters. */
  const ShortHashLength: nat := 7

  const FieldSeparator: char := '|'

  /**
   * One output line. Only the first three separators split it, so a body may itself hold `|`;
   * a line with no separator, or with only two fields, is noise and yields nothing.
   */
  function ParseLine(line: string): (r: Option<Commit>)
    ensures r.Some? <==> Count(line, FieldSeparator) >= 2
    ensures r.Some? ==> |r.value.hash| <= ShortHashLength && StartsWith(line, r.value.hash)
    ensures r.Some? ==> FieldSeparator !in r.value.hash && FieldSeparator !in r.value.date
    ensures r.Some? ==> FieldSeparator !in r.value.message
    ensures r.Some? && Count(line, FieldSeparator) == 2 ==> r.value.body == ""
  {
    if FieldSeparator !in line then
      CountAbsent(line, FieldSeparator);
      None
    else
      var parts := SplitN(line, FieldSeparator, 3);
      SplitNCount(line, FieldSeparator, 3);
      if |parts| >= 3 then
        FieldsAreSeparatorFree(line);
        SplitNJoin(line, FieldSeparator, 3);
        assert line == parts[0] + ([FieldSeparator] + Join(parts[1..], [FieldSeparator]));
        assert line[..|parts[0]|] == parts[0];
        var hash := Take(parts[0], ShortHashLength);
        assert line[..|hash|] == parts[0][..|hash|];
        Some(Commit(hash, parts[1], parts[2], if |parts| > 3 then parts[3] else ""))
      else None
  }

  /** The hash, date and subject fields of a line never hold the separator. */
  lemma FieldsAreSeparatorFree(line: string)
    requires |SplitN(line, FieldSeparator, 3)| >= 3
    ensures var parts := SplitN(line, FieldSeparator, 3);
      FieldSeparator !in parts[0] && FieldSeparator !in parts[1] && FieldSeparator !in parts[2]
  {
    var parts := SplitN(line, FieldSeparator, 3);
    SplitNPartFree(line, FieldSeparator, 3, 0);
    SplitNPartFree(line, FieldSeparator, 3, 1);
    if |parts| == 4 {
      SplitNPartFree(line, FieldSeparator, 3, 2);
    } else {
      SplitNLastFree(line, FieldSeparator, 3);
    }
  }

  /** The parsing loop over the output's lines, keeping the records in line order. */
  function ParseLines(lines: seq<string>): (r: seq<Commit>)
    ensures |r| <= |lines|
    ensures (forall i :: 0 <= i < |lines| ==> Count(lines[i], FieldSeparator) < 2) ==> r == []
    decreases |lines|
  {
    if |lines| == 0 then []
    else Records(ParseLine(lines[0])) + ParseLines(lines[1..])
  }

  /** Every record is what some line parses to. */
  lemma {:induction false} ParseLinesFrom(lines: seq<string>, c: Commit)
    requires c in ParseLines(lines)
    ensures exists i :: 0 <= i < |lines| && ParseLine(lines[i]) == Some(c)
    decreases |lines|
  {
    if c !in Records(ParseLine(lines[0])) {
      ParseLinesFrom(lines[1..], c);
      var i :| 0 <= i < |lines[1..]| && ParseLine(lines[1..][i]) == Some(c);
      assert ParseLine(lines[i + 1]) == Some(c);
    }
  }

  function Records(line: Option<Commit>): seq<Commit>
  {
    match line
    case Some(c) => [c]
    case None => []
  }

  /**
   * The commits of a `git log` run, given its stripped standard output and exit code:
   * nothing when git failed or printed nothing, otherwise the parsed lines.
   */
  function GetCommits(output: string, exitCode: int): (r: seq<Commit>)
    ensures exitCode != 0 ==> r == []
    ensures FieldSeparator !in output ==> r == []
  {
    if exitCode != 0 || output == "" then []
    else
      var lines := Split(output, '\n');
      assert FieldSeparator !in output ==> ParseLines(lines) == [] by {
        if FieldSeparator !in output {
          NoSeparatorNoCommits(output);
        }
      }
      ParseLines(lines)
  }

  lemma NoSeparatorNoCommits(output: string)
    requires FieldSeparator !in output
    ensures ParseLines(Split(output, '\n')) == []
  {
    var lines := Split(output, '\n');
    SplitThenJoin(output, '\n');
    JoinedPartsLack(lines, "\n", FieldSeparator);
    NoSeparatorLines(lines);
  }

  lemma {:induction false} NoSeparatorLines(lines: seq<string>)
    requires forall k :: 0 <= k < |lines| ==> FieldSeparator !in lines[k]
    ensures ParseLines(lines) == []
    decreases |lines|
  {
    if |lines| > 0 {
      NoSeparatorLines(lines[1..]);
    }
  }

  /** Parsing distributes over concatenation of line sequences, so record order follows line order. */
  lemma {:induction false} ParseLinesAppend(a: seq<string>, b: seq<string>)
    ensures ParseLines(a + b) == ParseLines(a) + ParseLines(b)
    decreases |a|
  {
    if |a| == 0 {
      assert a + b == b;
    } else {
      assert (a + b)[1..] == a[1..] + b;
      assert (a + b)[0] == a[0];
      ParseLinesAppend(a[1..], b);
      assert ParseLines(a + b) == Records(ParseLine(a[0])) + ParseLines(a[1..] + b);
    }
  }

  /** What git prints for one commit with the `%H|%ad|%s|%b` format. */
  datatype LogRecord = LogRecord(fullHash: string, date: string, subject: string, body: string)

  function FormatRecord(rec: LogRecord): string
  {
    Join([rec.fullHash, rec.date, rec.subject, rec.body], [FieldSeparator])
  }

  /** The parsed form of a log record: hash shortened, the other fields unchanged. */
  function Parsed(rec: LogRecord): Commit
  {
    Commit(Take(rec.fullHash, ShortHashLength), rec.date, rec.subject, rec.body)
  }

  /** The first three fields hold no separator; the body is unconstrained. */
  predicate WellFormed(rec: LogRecord)
  {
    FieldSeparator !in rec.fullHash && FieldSeparator !in rec.date && FieldSeparator !in rec.subject
  }

  /** A line that splits into four parts parses to those fields. */
  lemma ParseLineOfFourParts(line: string, a: string, b: string, c: string, d: string)
    requires SplitN(line, FieldSeparator, 3) == [a, b, c, d]
    ensures ParseLine(line) == Some(Commit(Take(a, ShortHashLength), b, c, d))
  {
    assert Find(line, FieldSeparator).Some?;
  }

  /** A line that splits into three parts parses to those fields with an empty body. */
  lemma ParseLineOfThreeParts(line: string, a: string, b: string, c: string)
    requires SplitN(line, FieldSeparator, 3) == [a, b, c]
    ensures ParseLine(line) == Some(Commit(Take(a, ShortHashLength), b, c, ""))
  {
    assert Find(line, FieldSeparator).Some?;
  }

  /** The formatted line spelled out field by field. */
  lemma FormatRecordShape(rec: LogRecord)
    ensures FormatRecord(rec)
         == rec.fullHash + ([FieldSeparator] + (rec.date + ([FieldSeparator] + (rec.subject + ([FieldSeparator] + rec.body)))))
    ensures FieldSeparator in FormatRecord(rec)
  {
    var sep := [FieldSeparator];
    JoinCons(rec.subject, [rec.body], sep);
    JoinCons(rec.date, [rec.subject, rec.body], sep);
    JoinCons(rec.fullHash, [rec.date, rec.subject, rec.body], sep);
    assert [rec.fullHash] + [rec.date, rec.subject, rec.body] == [rec.fullHash, rec.date, rec.subject, rec.body];
    assert [rec.date] + [rec.subject, rec.body] == [rec.date, rec.subject, rec.body];
    assert [rec.subject] + [rec.body] == [rec.subject, rec.body];
    assert FormatRecord(rec)[|rec.fullHash|] == FieldSeparator;
  }

  /** A formatted line parses back to its record, the body intact even when it contains `|`. */
  lemma ParseFormattedLine(rec: LogRecord)
    requires WellFormed(rec)
    ensures ParseLine(FormatRecord(rec)) == Some(Parsed(rec))
  {
    SplitFormatted(rec);
    ParseLineOfFourParts(FormatRecord(rec), rec.fullHash, rec.date, rec.subject, rec.body);
  }

  /** The limited split of a formatted line gives back its four fields. */
  lemma SplitFormatted(rec: LogRecord)
    requires WellFormed(rec)
    ensures SplitN(FormatRecord(rec), FieldSeparator, 3) == [rec.fullHash, rec.date, rec.subject, rec.body]
  {
    var sep := FieldSeparator;
    var t2 := rec.subject + ([sep] + rec.body);
    var t1 := rec.date + ([sep] + t2);
    FormatRecordShape(rec);
    SplitNAfter(rec.subject, sep, rec.body, 1);
    assert SplitN(t2, sep, 1) == [rec.subject, rec.body];
    SplitNAfter(rec.date, sep, t2, 2);
    assert SplitN(t1, sep, 2) == [rec.date, rec.subject, rec.body];
    SplitNAfter(rec.fullHash, sep, t1, 3);
  }

  /** A line with exactly two separators is a record with an empty body. */
  lemma ParseThreeFieldLine(hash: string, date: string, subject: string)
    requires FieldSeparator !in hash && FieldSeparator !in date && FieldSeparator !in subject
    ensures ParseLine(Join([hash, date, subject], [FieldSeparator]))
         == Some(Commit(Take(hash, ShortHashLength), date, subject, ""))
  {
    var sep := FieldSeparator;
    var t1 := date + ([sep] + subject);
    var line := hash + ([sep] + t1);
    JoinCons(date, [subject], [sep]);
    JoinCons(hash, [date, subject], [sep]);
    assert [hash] + [date, subject] == [hash, date, subject];
    assert [date] + [subject] == [date, subject];
    SplitNAfter(hash, sep, t1, 3);
    SplitNAfter(date, sep, subject, 2);
    SplitNNone(subject, sep, 1);
    ParseLineOfThreeParts(line, hash, date, subject);
  }

  /** The lines git prints for a sequence of records, newest first. */
  function FormatLines(recs: seq<LogRecord>): (r: seq<string>)
    ensures |r| == |recs| && forall i :: 0 <= i < |recs| ==> r[i] == FormatRecord(recs[i])
  {
    seq(|recs|, i requires 0 <= i < |recs| => FormatRecord(recs[i]))
  }

  /** The commits those records stand for. */
  function ParsedAll(recs: seq<LogRecord>): (r: seq<Commit>)
    ensures |r| == |recs| && forall i :: 0 <= i < |recs| ==> r[i] == Parsed(recs[i])
  {
    seq(|recs|, i requires 0 <= i < |recs| => Parsed(recs[i]))
  }

  function LogText(recs: seq<LogRecord>): string
  {
    Join(FormatLines(recs), "\n")
  }

  /** Records whose fields hold no line break and whose first three fields hold no `|`. */
  predicate SingleLine(rec: LogRecord)
  {
    WellFormed(rec) && '\n' !in FormatRecord(rec)
  }

  /** Parsing the log of single-line records gives back exactly those records, in order. */
  lemma ParseLogRoundTrip(recs: seq<LogRecord>)
    requires |recs| >= 1
    requires forall i :: 0 <= i < |recs| ==> SingleLine(recs[i])
    ensures GetCommits(LogText(recs), 0) == ParsedAll(recs)
  {
    var lines := FormatLines(recs);
    JoinThenSplit(lines, '\n');
    FormatRecordShape(recs[0]);
    JoinedPartsAreInside(lines, "\n", 0, FieldSeparator);
    ParseRecordLines(recs);
  }

  lemma {:induction false} ParseRecordLines(recs: seq<LogRecord>)
    requires forall i :: 0 <= i < |recs| ==> WellFormed(recs[i])
    ensures ParseLines(FormatLines(recs)) == ParsedAll(recs)
    decreases |recs|
  {
    if |recs| > 0 {
      ParseFormattedLine(recs[0]);
      ParseRecordLines(recs[1..]);
      FormatLinesShift(recs);
    }
  }

  /** A record followed by one more line: the record, then whatever that line parses to. */
  lemma RecordThenLine(rec: LogRecord, rest: string)
    requires SingleLine(rec) && '\n' !in rest
    ensures GetCommits(FormatRecord(rec) + "\n" + rest, 0) == [Parsed(rec)] + Records(ParseLine(rest))
  {
    var line := FormatRecord(rec);
    var text := line + "\n" + rest;
    assert text == line + ("\n" + rest);
    SplitAfter(line, '\n', rest);
    SplitNoBreak(rest, '\n');
    var lines := [line] + [rest];
    assert Split(text, '\n') == lines;
    ParseFormattedLine(rec);
    assert ParseLines([rest]) == Records(ParseLine(rest)) by {
      assert [rest][1..] == [];
    }
    assert lines[0] == line && lines[1..] == [rest];
    FormatRecordShape(rec);
    assert text[|rec.fullHash|] == FieldSeparator;
  }

  lemma FormatLinesShift(recs: seq<LogRecord>)
    requires |recs| > 0
    ensures FormatLines(recs)[0] == FormatRecord(recs[0]) && FormatLines(recs)[1..] == FormatLines(recs[1..])
    ensures ParsedAll(recs) == [Parsed(recs[0])] + ParsedAll(recs[1..])
  {
    assert FormatLines(recs)[1..] == FormatLines(recs[1..]);
    assert ParsedAll(recs) == [Parsed(recs[0])] + ParsedAll(recs[1..]);
  }

  /**
   * A body spanning two lines keeps only its first line when the second line, parsed on its
   * own, has fewer than two separators and is dropped.
   */
  lemma MultiLineBodyKeepsFirstLine(rec: LogRecord, rest: string)
    requires SingleLine(rec) && '\n' !in rest && Count(rest, FieldSeparator) < 2
    ensures GetCommits(FormatRecord(rec) + "\n" + rest, 0) == [Parsed(rec)]
  {
    RecordThenLine(rec, rest);
    assert [Parsed(rec)] + [] == [Parsed(rec)];
  }

  /**
   * A second body line with two or more separators is taken for a commit of its own, so one
   * commit can yield two records.
   */
  lemma ExtraBodyLineIsRecord(rec: LogRecord, rest: string)
    requires SingleLine(rec) && '\n' !in rest && Count(rest, FieldSeparator) >= 2
    ensures |GetCommits(FormatRecord(rec) + "\n" + rest, 0)| == 2
    ensures GetCommits(FormatRecord(rec) + "\n" + rest, 0) == [Parsed(rec), ParseLine(rest).value]
  {
    RecordThenLine(rec, rest);
  }
}
