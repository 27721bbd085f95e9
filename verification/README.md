# git-journal, modelled in Dafny

git-journal turns a repository's git history into Markdown journals. This project models the
text transformations at its core as pure functions, and proves what they promise:

- **Log parsing** (`LogParser`): the captured `git log --pretty=format:%H|%ad|%s|%b` output
  becomes commit records. A line is split at its first three `|` only. The hash is cut to seven
  characters. A line with fewer than three fields is noise and yields no record.
- **Classification** (`Classifier`): a hand-written recogniser for the conventional-commit
  pattern `^(\w+)(?:\([^)]+\))?:\s*(.+)$`. It reproduces the backtracking of `\s*` and Python's
  `$`, which also matches before a final line break. The recogniser is followed by the type
  table, whose default is `Changed`, and by the ordered, case-insensitive keyword buckets. The
  category names are the program's own, such as `Breaking Changes`.
- **Development log** (`Devlog`): a five-line header, then one block per commit whose subject
  does not start with `Merge`, in the order git listed them.
- **Changelog** (`Changelog`): non-merge commits grouped by category. Sections appear in the
  fixed category order, empty categories are skipped, and each section keeps commit order.
- **Combined log** (`Aggregate`): the first 20 parsed records of each tracked repository's log
  (git's `-20` counts commits, and a multi-line body can add records), each tagged with its
  repository. They are stably sorted newest first and cut to 100 *before* merges are
  skipped. A `## date` heading appears whenever the date changes.
- **Post-commit hook** (`HookMerge`): the bash hook read as text operations.
  - The entry is built from captured command outputs.
  - On an existing log, the result is the first five lines (`head -5`), the entry with `echo`'s
    line break, then the rest (`tail -n +6`).
  - Without a log, the hook writes a fresh four-line header and the entry.
- **Markdown to HTML** (`MarkdownHtml`): the line state machine of the HTML export.
  - A fence toggles code mode.
  - Code lines only have `<` and `>` escaped.
  - Other lines go through the ordered prefix tests, with `**bold**` and `` `code` `` rewritten
    by a non-greedy substitution.
- **Repository name** (`RepoName`): the last `/` segment of the `origin` URL with every `.git`
  removed, or the directory name when there is no remote.

`Strings`, `Seqs`, `Commits` and `Wrappers` hold the Python string and sequence operations the
others share (`split`, `split(sep, n)`, `join`, `strip`, `lower`, `replace`, `startswith`,
comparison), the commit record with its merge test, and `Option`.

Some behaviours of the program are reproduced as written and shown by lemmas:

- A log created by the hook starts with a four-line header, while later hook runs keep five
  lines in place. The second hook run therefore puts its entry inside the first one
  (`HookMerge.SecondEntrySplitsFirst`).
- Every `.git` is removed from a remote's last segment, not only a trailing one
  (`RepoName.EveryGitRemoved`).
- The output is split into lines before parsing, so a multi-line body is cut at its first line
  break. A later body line with fewer than two `|` is dropped
  (`LogParser.MultiLineBodyKeepsFirstLine`); one with two or more `|` becomes a record of its
  own, so one commit gives two records (`LogParser.ExtraBodyLineIsRecord`).
- In the hook, `` `$COMMIT_HASH` `` sits inside a double-quoted string. Bash therefore runs the
  hash as a command and puts that command's output in place of the back quotes, which do not
  appear in the entry. The entry's commit line shows the captured output of that run
  (`Fields.run`), usually nothing, not the hash itself (`HookMerge.CommitLineShowsRun`).

## Model

| member | source | states |
|---|---|---|
| Commits.NonMerge | gitjournal.py:200-202 | the kept commits are exactly those whose subject does not start with `Merge`, never more than given |
| LogParser.ParseLine | gitjournal.py:124-133 | a line yields a record exactly when it holds at least two `\|`; the hash is at most 7 characters and starts the line; hash, date and subject hold no `\|`; with exactly two `\|` the body is empty |
| LogParser.FieldsAreSeparatorFree | gitjournal.py:126-131 | the first three parts of a three-limited split hold no `\|` |
| LogParser.GetCommits | gitjournal.py:117-135 | a failing git run, or output with no `\|`, gives no commits |
| LogParser.NoSeparatorNoCommits | gitjournal.py:123-125 | output with no `\|` anywhere gives no commits |
| LogParser.ParseLinesAppend | gitjournal.py:122-135 | parsing distributes over concatenated line lists, so records come in line order |
| LogParser.FormatRecordShape | gitjournal.py:111 | the `%H\|%ad\|%s\|%b` line is the four fields separated by `\|` |
| LogParser.SplitFormatted | gitjournal.py:126 | the three-limited split of a formatted line gives back its four fields, body included |
| LogParser.ParseFormattedLine | gitjournal.py:126-133 | a formatted record parses back to the record with its hash cut to 7, even when the body holds `\|` |
| LogParser.ParseThreeFieldLine | gitjournal.py:127-133 | a line of three fields parses with an empty body |
| LogParser.ParseRecordLines | gitjournal.py:122-135 | the lines of well-formed records parse back to those records, in order |
| LogParser.ParseLogRoundTrip | gitjournal.py:119-135 | the log text of single-line records parses back to exactly those records, in order |
| LogParser.ParseLines | gitjournal.py:122-135 | never more records than lines; lines that all have fewer than two `\|` give no records |
| LogParser.ParseLinesFrom | gitjournal.py:122-135 | each record is what some line parses to |
| LogParser.RecordThenLine | gitjournal.py:122-135 | a record line followed by one more line gives the record, then whatever that line parses to |
| LogParser.MultiLineBodyKeepsFirstLine | gitjournal.py:123-133 | a second body line with fewer than two `\|` is dropped; only the first line's record remains |
| LogParser.ExtraBodyLineIsRecord | gitjournal.py:123-133 | a second body line with two or more `\|` is parsed as a record of its own, so the commit gives two records |
| Classifier.NameInjective | gitjournal.py:149-161 | distinct categories have distinct display names |
| Classifier.Rank | gitjournal.py:258-262 | every category sits at exactly one position of the category order |
| Classifier.TypeTableOnto | gitjournal.py:149-162 | every category is the image of some type key of the table |
| Classifier.TypeTableInjective | gitjournal.py:149-162 | the table maps its eleven keys to eleven different categories |
| Classifier.UnknownTypeIsChanged | gitjournal.py:162 | a type outside the table gives `Changed` |
| Classifier.Run | gitjournal.py:144 | the longest run of one character class: all in the class and stopped by a character outside it or by the end |
| Classifier.RunAppend | gitjournal.py:144 | a run across a prefix wholly in the class continues into what follows |
| Classifier.AfterColon | gitjournal.py:144 | a result is what follows a leading `:`, or what follows `(`, a non-empty scope without `)`, `)` and `:`; a leading `:` always gives the rest |
| Classifier.ColonText | gitjournal.py:144 | with or without a non-empty `)`-free scope, the text after the colon is always found |
| Classifier.Tail | gitjournal.py:144 | `(.+)$` matches exactly when the text is one non-empty line, or one followed by a single final line break, and then gives that line |
| Classifier.Backtrack | gitjournal.py:144 | a description found while `\s*` gives characters back is non-empty, without line breaks, and ends the text, possibly before a final line break |
| Classifier.BacktrackLongest | gitjournal.py:144 | the backtracking returns the `(.+)$` match after the longest whitespace prefix that has one, and fails exactly when no prefix length has one |
| Classifier.ParseConventional | gitjournal.py:144-147 | a match's type is a word starting the subject and its description is one non-empty line |
| Classifier.ParseConventionalSound | gitjournal.py:144-147 | a match splits the subject into the type, an optional non-empty `)`-free scope in parentheses, the colon, whitespace, the description and at most one final line break |
| Classifier.ConventionalRoundTrip | gitjournal.py:144-147 | any word, optional non-empty scope, colon, spaces and description starting with a non-space is matched, giving the word and the description |
| Classifier.EmptyScopeNoMatch | gitjournal.py:144 | `feat(): x` does not match |
| Classifier.NoColonAfterWordNoMatch | gitjournal.py:144 | a word followed by a character other than `(`, `:` or a word character, as in `fix-bug: x`, does not match |
| Classifier.TrailingSpacesGiveOneSpace | gitjournal.py:144-147 | `feat:` followed only by spaces matches, with the last space as the description |
| Classifier.SingleWordNoMatch | gitjournal.py:144 | a subject of one word does not match |
| Classifier.FirstMention | gitjournal.py:165-176 | the bucket found is the first whose keywords occur; no bucket is found only when none occurs |
| Classifier.KeywordScan | gitjournal.py:165-176 | without a match, the first bucket mentioned in the lower-cased subject gives the category and the subject is the description |
| Classifier.NoKeywordIsChanged | gitjournal.py:178 | without a match or keyword, the result is `Changed` with the subject |
| Classifier.Classify | gitjournal.py:144-178 | on a match, the category is the table entry of the lower-cased type and the description is group 2; without one, the description is the whole subject and the category is that of the first keyword bucket the lower-cased subject mentions, or `Changed` when it mentions none |
| Classifier.ConventionalClassified | gitjournal.py:144-162 | a well-formed conventional subject is classified by its type and described by the text after the colon and spaces |
| Classifier.PatternOnlyCategories | gitjournal.py:149-178 | breaking changes, deprecations, performance, testing and maintenance only come from a pattern match |
| Classifier.TypeIsCaseInsensitive | gitjournal.py:144-150 | any conventional subject whose type lower-cases to `feat`, such as `FEAT(ui): x`, is an addition described by its text after the colon |
| Classifier.AdditionWinsOverFix | gitjournal.py:165-168 | a subject mentioning an addition keyword is an addition, whatever else it mentions |
| Classifier.SubstringKeyword | gitjournal.py:165-166 | keywords match inside words: `address` is an addition |
| Devlog.Blocks | gitjournal.py:200-214 | the body is empty exactly when every commit is a merge |
| Devlog.Render | gitjournal.py:189-214 | no log without commits; otherwise the text is the header followed by the blocks of the non-merge commits, in input order |
| Devlog.BlocksAreNonMergeBlocks | gitjournal.py:200-214 | the body is the blocks of the non-merge commits, one after another, in input order |
| Devlog.BlocksAppend | gitjournal.py:200-214 | the blocks of two commit lists are the blocks of each, concatenated |
| Devlog.MergesLeaveNoTrace | gitjournal.py:200-202 | dropping the merges first changes nothing |
| Devlog.OnlyMergesGiveHeader | gitjournal.py:200-202 | when every commit is a merge, the log is the bare header |
| Devlog.StampOnlyInHeader | gitjournal.py:193-198 | the generation time affects only the header |
| Devlog.BlockShowsBody | gitjournal.py:204-214 | a block is the date, hash and subject, then the stripped body and a blank line when the body is not blank, then the rule |
| Devlog.HeaderLineCount | gitjournal.py:193-198 | the header is five lines for a name and time without line breaks |
| Devlog.HeaderEndsLine | gitjournal.py:193-198 | the header ends with a blank line |
| Changelog.Group | gitjournal.py:238-247 | every key of the grouping has a non-empty list and is the category of some non-merge commit |
| Changelog.GroupIsItemsIn | gitjournal.py:238-247 | a category is a key of the grouping exactly when some non-merge commit falls in it, and its list is those commits' items in input order |
| Changelog.ItemsInMembers | gitjournal.py:239-247 | an item is listed under a category exactly when a non-merge commit of that category carries it |
| Changelog.OrderDistinct | gitjournal.py:258-262 | the category order has no repeats |
| Changelog.PositionIsRank | gitjournal.py:258-262 | every category is in the order, at its rank |
| Changelog.SectionsFor | gitjournal.py:264-269 | each section is a key of the grouping with its list, its category is in the order, and there are no more sections than categories in the order |
| Changelog.SectionsOf | gitjournal.py:238-269 | at most one section per category, none of them empty |
| Changelog.SectionsInOrder | gitjournal.py:264-265 | sections follow the order without repeats |
| Changelog.SectionsCoverKeys | gitjournal.py:264-265 | every key in the order gets a section |
| Changelog.SectionsOfCommits | gitjournal.py:238-269 | sections come in category order, one for each category with a commit and only those, each listing that category's items in commit order |
| Changelog.ItemsPartition | gitjournal.py:238-262 | over any repeat-free order that holds every commit's category, the sections' items number exactly the non-merge commits |
| Changelog.EveryCommitListedOnce | gitjournal.py:238-269 | the sections hold as many items as there are non-merge commits |
| Changelog.Render | gitjournal.py:233-269 | no changelog without commits; otherwise the text is the title, the note and the dated `[Unreleased]` heading, then the sections, in category order, each listing its category's items in commit order |
| Changelog.NoSectionsOnlyMerges | gitjournal.py:238-265 | there are no sections exactly when every commit is a merge |
| Aggregate.Recent | gitjournal.py:527 | at most 20 commits per repository, the newest ones, in git's order |
| Aggregate.Tagged | gitjournal.py:528-530 | each entry is a commit of the repository, tagged with its name |
| Aggregate.Gather | gitjournal.py:521-530 | at most 20 entries for each listed repository, in total |
| Aggregate.Contribution | gitjournal.py:523-530 | a repository adds at most 20 entries: its recent commits, tagged, when its path exists, and nothing otherwise |
| Aggregate.GatherAppend | gitjournal.py:521-530 | collecting over two parts of the registry is collecting over each, one after the other |
| Aggregate.GatherBlock | gitjournal.py:521-530 | each listed repository adds one block of its own, in registry order, between the entries of the repositories before and after it |
| Aggregate.GatherMembers | gitjournal.py:521-530 | an entry is collected exactly when its repository is present and the commit is among its recent ones |
| Aggregate.Sort | gitjournal.py:533 | the sort keeps the number of entries |
| Aggregate.Insert | gitjournal.py:533 | inserting one entry adds exactly one |
| Aggregate.SortSorts | gitjournal.py:533 | the sort puts the entries newest first |
| Aggregate.SortPermutes | gitjournal.py:533 | the sort keeps the same entries, with multiplicity |
| Aggregate.SortIsStable | gitjournal.py:533 | entries with the same date keep their collection order |
| Aggregate.Capped | gitjournal.py:544 | at most 100 entries, a prefix of the sorted list, all of it when it is short |
| Aggregate.Show | gitjournal.py:544-552 | never more rendered entries than given, and none of them a merge |
| Aggregate.ShowsNonMerges | gitjournal.py:544-552 | the rendered entries are exactly the non-merge ones, in order |
| Aggregate.HeadingWhenDateChanges | gitjournal.py:548-550 | a heading stands above an entry exactly when its date differs from the previous rendered entry's |
| Aggregate.HeadingsDescend | gitjournal.py:533-550 | on sorted input, each heading's date is earlier than every previous heading's |
| Aggregate.NonMergeSorted | gitjournal.py:533-546 | skipping merges keeps the order newest first |
| Aggregate.NonMergeMembers | gitjournal.py:545-546 | the kept entries are among the given ones |
| Aggregate.Output | gitjournal.py:533-552 | at most 100 rendered entries, none of them a merge |
| Aggregate.OutputEntries | gitjournal.py:533-552 | at most 100 entries are rendered, the non-merge ones of the capped sorted list, newest first |
| Aggregate.Names | gitjournal.py:539 | the listed names are the repositories' names, in order |
| Aggregate.Render | gitjournal.py:514-552 | no log without tracked repositories; otherwise the text is the header, then the rendered entries, which are the non-merge ones among the hundred newest collected |
| HookMerge.CapturedFacts | gitjournal.py:295-298 | a command substitution drops only trailing line breaks, all of them |
| HookMerge.Commas | gitjournal.py:299 | `tr` turns every line break into a comma and leaves other characters |
| HookMerge.CommasOfLines | gitjournal.py:299 | the line-per-name listing becomes the comma join |
| HookMerge.FilesField | gitjournal.py:299 | the files field is one line, no longer than the listing |
| HookMerge.FilesAreCommaSeparated | gitjournal.py:299 | the changed files come out as names separated by bare commas |
| HookMerge.HeadFacts | gitjournal.py:324 | `head -n` keeps as many lines as the text has, up to `n`, ending at a line break when the text has `n`, and all of a shorter text |
| HookMerge.Entry | gitjournal.py:302-320 | an entry starts with its date heading, and is longer than it, and ends with the rule and a blank line |
| HookMerge.EntryShowsBody | gitjournal.py:302-320 | the date line, the commit line and the subject come first; the captured body and a blank line follow exactly when the body is not empty, and otherwise the entry is that of an empty body; the files line and the rule end it |
| HookMerge.CommitLineShowsRun | gitjournal.py:295-304 | the commit line holds the captured output of running the hash as a command, so it is bare when that output is empty |
| HookMerge.Merge | gitjournal.py:323-334 | on an existing log, the result is exactly as long as the log, the entry and one line break together; without one, it is the fresh header and ends with the entry and a line break |
| HookMerge.MergeInserts | gitjournal.py:323-327 | on an existing log, the result is the first five lines, the entry and a line break, then the rest, and head plus rest is the log |
| HookMerge.HeadPastLines | gitjournal.py:324-326 | the head of a text whose prefix has whole lines reaches past that prefix |
| HookMerge.MergeAfterLines | gitjournal.py:323-327 | the entry goes right after the first five lines |
| HookMerge.MergeAfterDevlogHeader | gitjournal.py:323-327 | on a generated development log, the entry goes right after its five-line header |
| HookMerge.FreshHeaderLines | gitjournal.py:329-334 | the hook's own header is four lines |
| HookMerge.FreshHeaderEndsLine | gitjournal.py:330-334 | the hook's own header ends with a line break |
| HookMerge.DateLineCount | gitjournal.py:302 | the entry's date heading is one line |
| HookMerge.SecondEntrySplitsFirst | gitjournal.py:323-334 | after a fresh start, the next entry lands after the first entry's date line, splitting that entry |
| MarkdownHtml.FindFrom | gitjournal.py:502 | the position found is the first occurrence from the start point; none is found only when there is none |
| MarkdownHtml.Sub | gitjournal.py:502-505 | the substitution never shortens a line |
| MarkdownHtml.SubAbsent | gitjournal.py:501-506 | a line in which the delimiter never occurs is unchanged by the substitution |
| MarkdownHtml.SubKeepsPrefix | gitjournal.py:502-505 | text without the delimiter's first character is kept, and the substitution goes on behind it |
| MarkdownHtml.LoneBacktick | gitjournal.py:504-506 | the code substitution leaves a line with a single back quote unchanged, since it has no pair |
| MarkdownHtml.ClosingDelimiter | gitjournal.py:502 | the nearest next delimiter closes the pair |
| MarkdownHtml.SubPair | gitjournal.py:502-505 | a delimited non-empty run free of the delimiter becomes one tagged element, and the scan continues after it |
| MarkdownHtml.Emit | gitjournal.py:477-510 | never more output lines than input lines |
| MarkdownHtml.ToHtml | gitjournal.py:477-510 | the HTML is the present outputs of the lines, each converted in the mode the fences before it set, joined with line breaks |
| MarkdownHtml.StepOf | gitjournal.py:481-489 | a fence flips code mode and other lines keep it; a fence or a code line always emits something |
| MarkdownHtml.EmitIsPerLine | gitjournal.py:479-489 | the loop emits each line's own output in order, in the mode the fences before it set |
| MarkdownHtml.CodeModeIsFenceParity | gitjournal.py:479-489 | a line is converted in code mode exactly when an odd number of fences precede it |
| MarkdownHtml.FenceToggles | gitjournal.py:482-485 | a fence emits `<pre>` or `</pre>` and flips the mode |
| MarkdownHtml.CodeLineEscaped | gitjournal.py:487-489 | a code line is emitted escaped, with no `<` or `>` left, and unchanged when it had none |
| MarkdownHtml.Convert | gitjournal.py:491-508 | outside code a line is dropped exactly when it is blank |
| MarkdownHtml.BlankTests | gitjournal.py:491-506 | a line passing any test before the last is not blank |
| MarkdownHtml.StarsNotBlank | gitjournal.py:501 | a line containing `**` is not blank |
| MarkdownHtml.HeadingLevels | gitjournal.py:491-496 | `## `, `### ` and `# ` give levels 2, 3 and 1, with the prefix cut off |
| RepoName.Name | gitjournal.py:102-107 | a name holds no `/`, and is drawn from the remote's characters when there is one |
| RepoName.LastSegmentAfter | gitjournal.py:105 | the last segment is what follows the last `/` |
| RepoName.DropAfter | gitjournal.py:105 | a `.git` after a dot-free head is removed and the scan continues behind it |
| RepoName.RemoteGivesName | gitjournal.py:102-106 | a remote ending `/name.git` gives `name` |
| RepoName.PathGivesName | gitjournal.py:107 | without a remote, the name is the directory's own name |
| RepoName.EveryGitRemoved | gitjournal.py:105 | an inner `.git` is removed as well as the trailing one |
| Strings.SplitNCount | gitjournal.py:126 | a split limited to `n` makes one part more than the separators it cuts at, which are all of them or the first `n` |
| Strings.SplitNJoin | gitjournal.py:126 | joining the parts of a limited split with the separator gives the line back |
| Strings.JoinThenSplit | gitjournal.py:123 | splitting at a separator a join of separator-free parts gives the parts back |
| Strings.StripFacts | gitjournal.py:211 | a stripped text is empty exactly when the text is all whitespace |

## Left out

- Running git is not modelled: `_run_git`, `_is_git_repo`, and the commands that fill `COMMIT_*` and `FILES_CHANGED`. Their captured outputs are parameters: the log output and exit code, the remote URL, the hook's fields, each repository's log.
- File reads and writes, the registry and configuration files, `chmod`, `git add`, the temporary file and `mv`: these are I/O. The renderers return the text they would write.
- `datetime.now()` is not modelled. The formatted time is a parameter (`stamp`, `day`).
- `os.path.exists` on a tracked repository is the `present` flag.
- The commit limits handed to git are treated as follows. The development log takes the commits git returned, and 50 is git's business. The combined log's `-20` is a prefix of the repository's log.
- `since_tag` is not modelled; no caller passes it.
- Printed messages, the returned file paths, repository discovery, the interactive scan, the command-line entry point and the HTML export's page wrapper and `open` call: these are UI and plumbing.
- Classifier.IsWordChar: `\w` is taken as ASCII letters, digits and `_`, not Unicode word characters.
- Strings.Lower: only ASCII letters are lower-cased.
- Classifier.ConventionalRoundTrip: covers descriptions that start with a non-space character. A description that starts with whitespace is handled by `\s*` backtracking; `TrailingSpacesGiveOneSpace` shows one such case.
- Aggregate.Recent: git's `-20` limits commits, but the program takes the parsed records; the model takes the first 20 records of the parsed log, which equals git's limit only when no body line parses as a record.
- Aggregate.Gather: its bound of 20 entries per repository inherits that reading; the program can collect more when a body line parses as a record.
