# GitHunter in Dafny

GitHunter searches a git repository's history for commits whose messages or files look
interesting. It runs `git log --pretty=fuller --name-only --all` and cuts the output into
commits. It checks every commit message against the comment signatures read from a patterns
file: case-insensitive substrings ("simples") and regular expressions ("patterns"). When
asked, it also runs one `git grep` for every commit and every signature, over all revisions,
so the same greps are repeated once per commit. It checks every touched
file against gitrob's file signatures, and it reports whether anything was found. It can dump
the parsed commits instead, numbered from the last one down.

This project models that core in six modules:

- `Wrappers` holds `Option`.
- `GoStrings` holds the part of Go's `strings` and `bufio` that the program relies on:
  `HasPrefix`, `TrimPrefix`, `TrimSpace` with Go's white-space set, ASCII `ToLower`/`ToUpper`,
  `Contains`, `Replace(…, 1)`, `Split` and `bufio.ScanLines` over a whole text. It also holds
  `Join`, which the program never calls; it is there to state `Split`'s round trips.
- `CommitRecords` (commit.go) has two parts. The `Commit` class is the struct variable the
  scanner fills in place, with the `AuthorDate` and `CommitDate` pointer methods.
  `CommitRecord` is the struct value that is copied into the list of commits.
- `LogParser` (main.go:129-171) also has two parts.
  - The reference definition is a function. `Blocks` cuts the lines before every header except the
    first. `Record` makes one commit of a block. The id, author and committer come from the
    last line of their kind. Each date comes from the last line of its kind that parses. The
    comment is built from all the indented lines, and the files are all the path lines.
    `ParsedCommits` is the list of records.
  - The implementation is imperative. `HistoryScanner` holds the loop's accumulators: the
    `first` flag, the in-progress `Commit`, `comment`, `matchFiles` and `commits`. Its `Feed`
    method is one iteration of the loop. `ParseLog` runs the loop over the scanned lines and is
    proved to return exactly `ParsedCommits`.
- `Signatures` (signatures.go) holds `ContainsI`, the two signature kinds and their getters,
  `Match`, and `CompileRegexp` on a pointer receiver. `SignatureRegistry` holds the
  package-level `CommentSignatures` slice, which `ParsePatternsFile` extends.
- `Hunter` holds the rest of `main`: the `-gitdir` normalisation, the `git grep` command line,
  which grep errors are tolerated, the search that sets `somethingFound` (`Scan`, with
  `ScanComments`, `GrepOnce` and `MatchFiles` for its parts), and the dump numbering.

Things outside the program become parameters:

- `time.Parse` is a `TimeParser`. It maps a layout and a text to `Some(time)` or `None`.
- `Regexp.MatchString` is a `RegexMatcher`.
- `git grep` is a `GitGrep`. It maps the argument list to the error git ends with, or `None`
  for exit status 0.
- gitrob's file signatures are values of a type parameter `F` together with their match
  function.
- The output of `git log` and of `git rev-list` are strings.

A `log.Fatal`, or a panic inside the search, makes `Scan` return `Aborted`.

## Model

| member | source | states |
|---|---|---|
| CommitRecords.Commit.constructor | commit.go:12-20 | `Commit{}` is the zero value: empty strings, zero times and no files. |
| CommitRecords.Commit.AuthorDate | commit.go:36-43 | If the text after `"AuthorDate: "` parses with layout `Mon Jan 2 15:04:05 2006 -0700`, `authorDate` becomes that time. Otherwise it keeps its previous value. No other field changes and no error escapes. |
| CommitRecords.Commit.CommitDate | commit.go:45-52 | The same for `"CommitDate: "` and `commitDate`; no other field changes. |
| GoStrings.TrimSpaceCuts | main.go:160 | `TrimSpace` keeps a slice of its input. Everything cut before and after it is white space, and what is kept neither starts nor ends with white space. |
| GoStrings.ScanLinesRoundTrip | main.go:131-137 | For text made of newline-terminated lines, none containing `'\n'` or ending in `'\r'`, the scanner yields exactly those lines. The empty text yields no line. |
| GoStrings.ScanLinesDropsCR | main.go:131-137 | For newline-terminated lines that may end in `'\r'`, the scanner yields each line without its one trailing carriage return. |
| GoStrings.ScanLinesKeepsUnterminatedLine | main.go:131-137 | A last line that is not ended by a newline is still yielded, with the lines before it. |
| GoStrings.JoinSplit | main.go:250 | Joining the pieces of `strings.Split` with the separator gives back the string. |
| GoStrings.SplitJoin | main.go:250 | Splitting separator-free pieces that were joined gives back the pieces. |
| GoStrings.TrailingSeparatorGivesEmptyPiece | main.go:243-250 | A trailing separator leaves `""` as the last piece of the split. |
| LogParser.ParseLog | main.go:129-171 | For any git log text, the commits are `ParsedCommits(ScanLines(output))`: one per block, in order. |
| LogParser.HistoryScanner.constructor | main.go:131-135 | The accumulators start as they would after no line: `first` set, an empty `Commit{}`, no comment, no files, no commits. |
| LogParser.HistoryScanner.Feed | main.go:136-167 | One iteration changes the accumulators exactly as `Step` prescribes for the line's kind. The tests are made in the source's order: `commit`, `Author:    `, `AuthorDate:`, `Commit:    `, `CommitDate:`, four spaces, a non-empty other line. |
| LogParser.HistoryScanner.Finish | main.go:169-171 | After the loop the open commit gets the trimmed comment and the files, and it is appended unconditionally. The result is `Emit` of the accumulators. The `commits` field becomes that result, and the open commit equals its last entry. |
| LogParser.KindByPrefix | main.go:138-166 | The seven prefix tests of the if-chain exclude each other. So a line is a header, author, author date, committer, commit date or comment line exactly when it has that prefix. A line is ignored exactly when it is empty, and every other line is a path. |
| LogParser.StepFollowsBlocks | main.go:136-167 | After one more line, the accumulators are `Step` of the accumulators before it. This is the loop invariant linking the loop to `Blocks`. |
| LogParser.EmitFollowsBlocks | main.go:169-171 | Emitting the open commit after the last line gives `ParsedCommits` of all the lines. |
| LogParser.BlocksShape | main.go:138-148 | Laid end to end, the blocks give back the lines. There is one block per header line, or one block when there is none. The first block holds one header at most. Every later block starts with its header and holds no other. |
| LogParser.CommitCount | main.go:136-171 | The number of commits is the number of lines starting with `commit`, or 1 when there is none. |
| LogParser.EmptyLogYieldsOneEmptyCommit | main.go:169-171 | Empty output yields exactly one commit, the zero `Commit{}`. |
| LogParser.ResetOnHeader | main.go:141-148 | A header after some header emits the open commit. The new commit holds only the new id: no comment, no files and no other field of earlier lines. |
| LogParser.CommitsCompose | main.go:141-148 | No commit bleeds into the next. The commits of `lines + more`, where `more` starts at a later header, are the commits of `lines` followed by those of `more`. |
| LogParser.LeadingLinesJoinFirstBlock | main.go:139-140 | The first header resets nothing: every line up to it, together with the lines after it, belongs to the first block. |
| LogParser.LeadingLinesJoinFirstCommit | main.go:139-140 | The paths listed before the first header are the first files of the first commit. |
| LogParser.RecordsAt | main.go:142-145 | The k-th commit is the record of the k-th block. Its comment is `TrimSpace` of the block's indented lines, each trimmed and ended by `"\n"`; its files are the block's path lines. |
| LogParser.ExtendBlock | main.go:150-166 | How one more line changes each field of a block. A header sets the id to the line without `"commit "`. An author line sets the author to the line without `"Author:     "`. A date line sets the date only when the date parses. An indented line adds its trimmed text and `"\n"` to the comment. A non-empty other line adds a file. |
| LogParser.FilesPartition | main.go:161-165 | Laid end to end, the files of all commits are exactly the path lines of the input, in input order. Empty lines are never files. |
| LogParser.PathNamedCommitOpensCommit | main.go:138 | A path such as `commit.go` starts with `commit`, so it opens a commit of its own, with the whole path as its id. |
| LogParser.AuthorWithFourSpaces | main.go:151-152 | An author line with four spaces passes the guard but not the five-space trim, so the whole line becomes the author. With five spaces only the name is kept. |
| Signatures.ContainsI | signatures.go:12-17 | `ContainsI(a, b)`, which lower-cases both strings and asks `strings.Contains`, holds iff `b` occurs in `a` at some index, letter by letter, with ASCII letter case ignored. |
| Signatures.ContainsIEmpty | signatures.go:12-17 | The empty pattern is found in every comment. |
| Signatures.ContainsIIgnoresCase | signatures.go:12-17 | Upper- or lower-casing either argument does not change the answer. |
| Signatures.ContainsIWithin | signatures.go:12-17 | A pattern found in a text is found in any text that contains it. |
| Signatures.ContainsIExample | signatures.go:12-17 | `"oops"` is found in `"fixed Oops here"`. |
| Signatures.SimpleMatch | signatures.go:67-69 | A simple signature matches a comment iff its pattern, the needle, occurs in the comment, the haystack, up to case. Upper-casing the comment does not change the answer. |
| Signatures.PatternVariable.CompileRegexp | signatures.go:32-34 | `Regexp` is set to the compilation of the variable's own `Pattern`; nothing else changes. |
| Signatures.GettersReturnStoredFields | signatures.go:43-65 | `GetPattern`, `GetDescription` and `GetComment` return the stored field for both kinds of signature. Compiling a pattern signature changes none of them. |
| Signatures.AssembledMatch | signatures.go:67-73 | On the appended entries, `Match` of a simple signature is `ContainsI(comment, Pattern)`. `Match` of a pattern signature runs the regular expression compiled from its own decoded pattern on the comment. |
| Signatures.AssembledShape | signatures.go:98-107 | The appended list has one entry per decoded signature: simples first, in file order, then patterns, in file order. Each pattern is compiled from its own text. Every getter returns the decoded field, and every entry can be matched. |
| Signatures.SignatureRegistry.constructor | signatures.go:75 | The registry starts empty. |
| Signatures.SignatureRegistry.ParsePatternsFile | signatures.go:98-110 | Existing entries stay in place and `Assembled(decoded)` is appended after them. The result is always true. |
| Hunter.NormalizeGitDir | main.go:82-88 | An empty flag stays empty. A flag ending in `/` gets `.git`, any other flag gets `/.git`. The result extends the flag and ends in `/.git`. |
| Hunter.GrepCommand | main.go:236-241 | A pattern whose first four characters are `(?i)` gives `grep -i -E` and the rest of the pattern. Any other pattern gives `grep -E` and the pattern unchanged. |
| Hunter.StripNewline | main.go:247-249 | Exactly one trailing newline is removed, when there is one. Otherwise the list is unchanged. |
| Hunter.GrepArgs | main.go:231-259 | The overwritten revision list loses one trailing newline. The arguments are the grep part, then the pieces of the split list in order, with `--git-dir=<gitDir>` in front when gitDir is set. |
| Hunter.GrepGetsTheRevisions | main.go:243-254 | Over the output of `git rev-list`, each revision ended by a newline, a grep receives the grep part followed by exactly those revisions, in order, with no extra trailing empty argument. |
| Hunter.BlankLineGivesEmptyRevision | main.go:247-250 | Only one newline is stripped, so for a list ending in a blank line the first grep still passes an empty argument. |
| Hunter.RevListSettles | main.go:247-249 | Since `revList` is overwritten, the first grep strips the final newline. For `git rev-list` output whose last revision is not empty, every later grep sees the same list. |
| Hunter.ExitStatusAcceptance | main.go:274-278 | Of the errors of a git that ran, exactly exit status 1 is tolerated. Every other status and every signal is fatal. |
| Hunter.GrepOnce | main.go:235-278 | One grep runs and is accepted iff the pattern has at least four characters, the list is not empty, and git's error is tolerated. The list it leaves behind has its trailing newline stripped. |
| Hunter.ScanComments | main.go:208-287 | Within one commit the outcome depends on grepping. Without grep the commit never aborts. With grep it finishes iff the greps so far and this commit's greps, one per signature, all succeed. When it finishes, the hit flag says whether some comment signature matched. |
| Hunter.MatchFiles | main.go:289-302 | The file hit flag says whether some file signature matches some file of the commit. |
| Hunter.FoundAmongStep | main.go:207-302 | Something is found among `ci + 1` commits iff something is found among `ci` or the next commit is a hit. |
| Hunter.AbortedRunFails | main.go:274-278 | A commit whose greps fail makes the whole run of greps fail. |
| Hunter.Scan | main.go:179-306 | Without grep the search finishes. With grep it finishes iff every grep, for each commit and each signature in order, runs and is accepted. When it finishes, `somethingFound` says whether some commit's comment matched a comment signature or some file matched a file signature. |
| Hunter.DumpListing | main.go:173-177 | The commits are listed in order, with the numbers `len(commits) - i`. These run from the count down to 1 and strictly decrease. |

## Left out

- Running git (`exec.Command` for `git log`, `git rev-list` and `git grep`) is not modelled. Its outputs are parameters, and grep's output is only logged by the source.
- `os.Stat` checks, `Usage()` and `os.Exit` are not modelled. In the search, a `log.Fatal` or a panic becomes the `Aborted` outcome.
- Flag parsing, the banner, logrus level selection (main.go:73-80) and `main`'s sequencing of the steps are not modelled.
- Printing is not modelled: aurora colouring, every `fmt.Print*` and `Commit.PrintCommit`. The "no interesting information" message reduces to the value of `somethingFound`.
- The Go `regexp` engine is a parameter. `MustCompile`'s panic on an invalid pattern is not modelled: every pattern is taken to compile.
- `time.Parse` is a parameter. The model does not state which texts parse.
- `strings.ToLower` and `ToUpper` are ASCII-only here. Unicode case mapping is not modelled.
- Strings are sequences of characters. Go slices strings by bytes, as in `pattern[0:4]` and `revList[len(revList)-1:]`. The model measures those in characters, so patterns with non-ASCII characters in their first four bytes are not modelled exactly.
- `bufio.Scanner`'s 64 KiB token limit is not modelled. `ScanLines` is the whole-text result without that limit.
- `ParsePatternsFile` is not modelled up to the decoded value. Opening and reading the file, `json.Unmarshal`, and the errors it ignores are left out, and the method receives the decoded `JSONPatterns`.
- gitrob's `core.NewMatchFile` and `core.Signatures` are not modelled. A `MatchFile` is its path, and file signatures are a type parameter with a match function.
- `Scan`: the grep oracle is taken to be deterministic, giving one answer per argument list.
- Empty `git log` output yields one commit, the zero `Commit{}`, because the final append at main.go:169-171 is unconditional (`EmptyLogYieldsOneEmptyCommit`).
- A date line that fails to parse keeps the field's previous value, which is zero unless an earlier date line of the same block parsed (`Commit.AuthorDate`, `Commit.CommitDate`).
- The program has no batching of revisions, no parsing of grep output and no concurrency, so none is modelled.
