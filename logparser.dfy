/**
 * The scanner over the lines of `git log --pretty=fuller --name-only --all` (main.go:129-171).
 *
 * Reference definition: the lines are cut into blocks (Blocks); a header line opens a new block,
 * except the first header, which joins the lines before it. Each block gives one commit
 * (Record). Its id, author and committer come from the last line of their kind in that block,
 * each date from the last line of its kind that parses, the comment from all the indented
 * lines and the files from all the path lines.
 * Implementation: HistoryScanner keeps the accumulators of the source's loop and
 * ParseLog drives it, proved to produce exactly ParsedCommits(lines).
 */
module LogParser {
  import opened Wrappers
  import opened GoStrings
  import opened CommitRecords

  const HeaderGuard := "commit"
  const IdTrim := "commit "
  // The guard has four spaces after the colon, the trimmed prefix five.
  const AuthorGuard := "Author:    "
  const AuthorTrim := "Author:     "
  const AuthorDateGuard := "AuthorDate:"
  const CommitGuard := "Commit:    "
  const CommitTrim := "Commit:     "
  const CommitDateGuard := "CommitDate:"
  const Indent := "    "

  /** What the scanner's if-chain makes of a line, tested in the source's order. */
  datatype LineKind =
    | Header | AuthorLine | AuthorDateLine | CommitLine | CommitDateLine
    | CommentLine | PathLine | BlankLine

  function Kind(line: string): LineKind {
    if HasPrefix(line, HeaderGuard) then Header
    else if HasPrefix(line, AuthorGuard) then AuthorLine
    else if HasPrefix(line, AuthorDateGuard) then AuthorDateLine
    else if HasPrefix(line, CommitGuard) then CommitLine
    else if HasPrefix(line, CommitDateGuard) then CommitDateLine
    else if HasPrefix(line, Indent) then CommentLine
    else if line != "" then PathLine
    else BlankLine
  }

  /**
   * The prefix tests exclude each other, so their order does not matter: each kind is exactly
   * its own prefix test, a line is ignored exactly when it is empty, and every other line is a path.
   */
  lemma KindByPrefix(line: string)
    ensures Kind(line) == Header <==> HasPrefix(line, HeaderGuard)
    ensures Kind(line) == AuthorLine <==> HasPrefix(line, AuthorGuard)
    ensures Kind(line) == AuthorDateLine <==> HasPrefix(line, AuthorDateGuard)
    ensures Kind(line) == CommitLine <==> HasPrefix(line, CommitGuard)
    ensures Kind(line) == CommitDateLine <==> HasPrefix(line, CommitDateGuard)
    ensures Kind(line) == CommentLine <==> HasPrefix(line, Indent)
    ensures Kind(line) == BlankLine <==> line == ""
  {
    assert HasPrefix(line, HeaderGuard) ==> line[0] == 'c';
    assert HasPrefix(line, AuthorGuard) ==> line[0] == 'A' && line[6] == ':';
    assert HasPrefix(line, AuthorDateGuard) ==> line[0] == 'A' && line[6] == 'D';
    assert HasPrefix(line, CommitGuard) ==> line[0] == 'C' && line[6] == ':';
    assert HasPrefix(line, CommitDateGuard) ==> line[0] == 'C' && line[6] == 'D';
    assert HasPrefix(line, Indent) ==> line[0] == ' ';
  }

  function Init<T>(s: seq<T>): seq<T>
    requires s != []
  {
    s[..|s| - 1]
  }

  function Last<T>(s: seq<T>): T
    requires s != []
  {
    s[|s| - 1]
  }

  /** The number of header lines */
  function CountHeaders(lines: seq<string>): nat {
    if lines == [] then 0
    else CountHeaders(Init(lines)) + (if Kind(Last(lines)) == Header then 1 else 0)
  }

  // ----- What a block says about its commit -----

  /** The id from the block's last header line, without a leading "commit ". */
  function IdOf(block: seq<string>): string {
    if block == [] then ""
    else if Kind(Last(block)) == Header then TrimPrefix(Last(block), IdTrim)
    else IdOf(Init(block))
  }

  /** The author from the block's last author line, without a leading "Author:     ". */
  function AuthorOf(block: seq<string>): string {
    if block == [] then ""
    else if Kind(Last(block)) == AuthorLine then TrimPrefix(Last(block), AuthorTrim)
    else AuthorOf(Init(block))
  }

  /** The committer from the block's last committer line, without a leading "Commit:     ". */
  function CommitOf(block: seq<string>): string {
    if block == [] then ""
    else if Kind(Last(block)) == CommitLine then TrimPrefix(Last(block), CommitTrim)
    else CommitOf(Init(block))
  }

  /** The author date of the block's last author-date line that parses; the zero time if none does. */
  function AuthorDateOf(block: seq<string>, parseTime: TimeParser): Time {
    if block == [] then ZeroTime
    else
      var previous := AuthorDateOf(Init(block), parseTime);
      if Kind(Last(block)) == AuthorDateLine then
        var t := parseTime(DateLayout, TrimPrefix(Last(block), AuthorDateTrim));
        if t.Some? then t.value else previous
      else previous
  }

  /** The commit date of the block's last commit-date line that parses; the zero time if none does. */
  function CommitDateOf(block: seq<string>, parseTime: TimeParser): Time {
    if block == [] then ZeroTime
    else
      var previous := CommitDateOf(Init(block), parseTime);
      if Kind(Last(block)) == CommitDateLine then
        var t := parseTime(DateLayout, TrimPrefix(Last(block), CommitDateTrim));
        if t.Some? then t.value else previous
      else previous
  }

  /** The block's indented lines, each trimmed and followed by a newline, in order. */
  function RawComment(block: seq<string>): string {
    if block == [] then ""
    else if Kind(Last(block)) == CommentLine then RawComment(Init(block)) + TrimSpace(Last(block)) + "\n"
    else RawComment(Init(block))
  }

  /** The block's path lines, in order. */
  function FilesOf(block: seq<string>): seq<MatchFile> {
    if block == [] then []
    else if Kind(Last(block)) == PathLine then FilesOf(Init(block)) + [MatchFile(Last(block))]
    else FilesOf(Init(block))
  }

  /** The commit while its block is still open: comment and files are attached only when it is emitted. */
  function InProgress(block: seq<string>, parseTime: TimeParser): CommitRecord {
    CommitRecord(IdOf(block), AuthorOf(block), AuthorDateOf(block, parseTime),
                 CommitOf(block), CommitDateOf(block, parseTime), "", [])
  }

  /** The commit a block gives once emitted. */
  function Record(block: seq<string>, parseTime: TimeParser): CommitRecord {
    InProgress(block, parseTime).(comment := TrimSpace(RawComment(block)), matchFiles := FilesOf(block))
  }

  // ----- Cutting the lines into blocks -----

  /** A header opens a new block once some header has been seen; every other line joins the last block. */
  function Blocks(lines: seq<string>): (blocks: seq<seq<string>>)
    ensures |blocks| >= 1
  {
    if lines == [] then [[]]
    else
      var bs := Blocks(Init(lines));
      if Kind(Last(lines)) == Header && CountHeaders(Init(lines)) > 0 then bs + [[Last(lines)]]
      else Init(bs) + [Last(bs) + [Last(lines)]]
  }

  /** The commits of the blocks, one each, in order. */
  function Records(blocks: seq<seq<string>>, parseTime: TimeParser): (rs: seq<CommitRecord>)
    ensures |rs| == |blocks|
  {
    if blocks == [] then [] else Records(Init(blocks), parseTime) + [Record(Last(blocks), parseTime)]
  }

  /** The commits the scanner produces from these lines, in order. */
  function ParsedCommits(lines: seq<string>, parseTime: TimeParser): seq<CommitRecord> {
    Records(Blocks(lines), parseTime)
  }

  /** The blocks laid end to end */
  function Flatten(blocks: seq<seq<string>>): seq<string> {
    if blocks == [] then [] else Flatten(Init(blocks)) + Last(blocks)
  }

  /** The files of the commits laid end to end */
  function AllFiles(commits: seq<CommitRecord>): seq<MatchFile> {
    if commits == [] then [] else AllFiles(Init(commits)) + Last(commits).matchFiles
  }

  // ----- Lemmas -----

  lemma InitSnoc<T>(s: seq<T>, x: T)
    ensures Init(s + [x]) == s && Last(s + [x]) == x
  {
    assert (s + [x])[..|s|] == s;
  }

  lemma {:induction false} CountHeadersAppend(a: seq<string>, b: seq<string>)
    ensures CountHeaders(a + b) == CountHeaders(a) + CountHeaders(b)
    decreases |b|
  {
    if b == [] {
      assert a + b == a;
    } else {
      InitSnoc(Init(b), Last(b));
      assert Init(b) + [Last(b)] == b;
      assert a + b == (a + Init(b)) + [Last(b)];
      InitSnoc(a + Init(b), Last(b));
      CountHeadersAppend(a, Init(b));
    }
  }

  lemma {:induction false} FilesOfAppend(a: seq<string>, b: seq<string>)
    ensures FilesOf(a + b) == FilesOf(a) + FilesOf(b)
    decreases |b|
  {
    if b == [] {
      assert a + b == a;
    } else {
      assert Init(b) + [Last(b)] == b;
      assert a + b == (a + Init(b)) + [Last(b)];
      InitSnoc(a + Init(b), Last(b));
      FilesOfAppend(a, Init(b));
    }
  }

  /** A sequence that starts with a header holds at least one. */
  lemma {:induction false} StartsWithHeader(lines: seq<string>)
    requires lines != [] && Kind(lines[0]) == Header
    ensures CountHeaders(lines) >= 1
  {
    assert lines == [lines[0]] + lines[1..];
    CountHeadersAppend([lines[0]], lines[1..]);
    InitSnoc([], lines[0]);
  }

  /**
   * The blocks are the lines cut before every header but the first: laid end to end they
   * give back the lines; there is one block per header (and one when there is no header);
   * the first block holds the first header, if any, together with every line before it and
   * after it up to the next header; every later block starts with its own header and holds
   * no other.
   */
  lemma BlocksShape(lines: seq<string>)
    ensures var bs := Blocks(lines);
      Flatten(bs) == lines &&
      |bs| == (if CountHeaders(lines) == 0 then 1 else CountHeaders(lines)) &&
      CountHeaders(bs[0]) == (if CountHeaders(lines) == 0 then 0 else 1) &&
      forall k :: 1 <= k < |bs| ==> bs[k] != [] && Kind(bs[k][0]) == Header && CountHeaders(bs[k]) == 1
  {
    BlocksFlatten(lines);
    BlocksHeaders(lines);
  }

  /** Laid end to end, the blocks give back the lines. */
  lemma {:induction false} BlocksFlatten(lines: seq<string>)
    ensures Flatten(Blocks(lines)) == lines
    decreases |lines|
  {
    if lines == [] {
      assert Flatten([[]]) == Flatten([]) + [];
    } else {
      var init, l := Init(lines), Last(lines);
      assert init + [l] == lines;
      var b := Blocks(init);
      BlocksFlatten(init);
      BlocksSnoc(init, l);
      if Kind(l) == Header && CountHeaders(init) > 0 {
        InitSnoc(b, [l]);
      } else {
        var lb := Last(b);
        InitSnoc(Init(b), lb + [l]);
        InitSnoc(Init(b), lb);
        assert Init(b) + [lb] == b;
        AppendAssoc(Flatten(Init(b)), lb, [l]);
      }
    }
  }

  /** One block per header (one when there is none); the first holds the first header, each later one its own. */
  lemma {:induction false} BlocksHeaders(lines: seq<string>)
    ensures var bs := Blocks(lines);
      |bs| == (if CountHeaders(lines) == 0 then 1 else CountHeaders(lines)) &&
      CountHeaders(bs[0]) == (if CountHeaders(lines) == 0 then 0 else 1) &&
      forall k :: 1 <= k < |bs| ==> bs[k] != [] && Kind(bs[k][0]) == Header && CountHeaders(bs[k]) == 1
    decreases |lines|
  {
    if lines == [] {
      assert Blocks(lines) == [[]];
    } else {
      var init, l := Init(lines), Last(lines);
      assert init + [l] == lines;
      var b := Blocks(init);
      BlocksHeaders(init);
      BlocksSnoc(init, l);
      var bs := Blocks(lines);
      if Kind(l) == Header && CountHeaders(init) > 0 {
        InitSnoc([], l);
        assert CountHeaders([l]) == 1;
        assert bs[0] == b[0];
      } else {
        var lb := Last(b);
        BlocksSnocHeaders(lb, l);
        if |b| == 1 {
          assert bs == [b[0] + [l]];
        } else {
          assert bs[0] == b[0];
          forall k | 1 <= k < |bs|
            ensures bs[k] != [] && Kind(bs[k][0]) == Header && CountHeaders(bs[k]) == 1
          {
            if k == |bs| - 1 {
              assert bs[k] == lb + [l];
            } else {
              assert bs[k] == b[k];
            }
          }
        }
      }
    }
  }

  lemma BlocksSnocHeaders(block: seq<string>, line: string)
    ensures CountHeaders(block + [line]) == CountHeaders(block) + (if Kind(line) == Header then 1 else 0)
    ensures block != [] ==> (block + [line])[0] == block[0]
  {
    InitSnoc(block, line);
  }

  /**
   * The number of commits is the number of lines that start with "commit", or exactly one
   * when there is no such line: the final commit is always emitted.
   */
  lemma CommitCount(lines: seq<string>, parseTime: TimeParser)
    ensures |ParsedCommits(lines, parseTime)| == if CountHeaders(lines) == 0 then 1 else CountHeaders(lines)
  {
    BlocksShape(lines);
  }

  /** An empty log still yields one commit, the zero Commit. */
  lemma EmptyLogYieldsOneEmptyCommit(parseTime: TimeParser)
    ensures ParsedCommits([], parseTime) == [EmptyCommit]
  {
    assert Blocks([]) == [[]];
    assert Record([], parseTime) == EmptyCommit;
  }

  /** Lines with at most one header form a single block. */
  lemma {:induction false} SingleBlock(lines: seq<string>)
    requires CountHeaders(lines) <= 1
    ensures Blocks(lines) == [lines]
    decreases |lines|
  {
    if lines != [] {
      var init, l := Init(lines), Last(lines);
      assert init + [l] == lines;
      SingleBlock(init);
      InitSnoc([], init);
    }
  }

  /** The first block only grows as lines are added. */
  lemma {:induction false} FirstBlockPrefix(lines: seq<string>, m: nat)
    requires m <= |lines|
    ensures Blocks(lines[..m])[0] <= Blocks(lines)[0]
    decreases |lines| - m
  {
    if m < |lines| {
      var init := Init(lines);
      assert init[..m] == lines[..m];
      FirstBlockPrefix(init, m);
      var b := Blocks(init);
      assert init + [Last(lines)] == lines;
      if Kind(Last(lines)) == Header && CountHeaders(init) > 0 {
        assert Blocks(lines)[0] == b[0];
      } else if |b| == 1 {
        assert Blocks(lines)[0] == b[0] + [Last(lines)];
      } else {
        assert Blocks(lines)[0] == b[0];
      }
    } else {
      assert lines[..m] == lines;
    }
  }

  /**
   * The first header does not reset anything: every line before it, and the header itself,
   * belongs to the first block.
   */
  lemma LeadingLinesJoinFirstBlock(lines: seq<string>, n: nat)
    requires n <= |lines| && CountHeaders(lines[..n]) <= 1
    ensures lines[..n] <= Blocks(lines)[0]
  {
    SingleBlock(lines[..n]);
    FirstBlockPrefix(lines, n);
  }

  /** So the paths listed before the first header are the first of the first commit's files. */
  lemma LeadingLinesJoinFirstCommit(lines: seq<string>, n: nat, parseTime: TimeParser)
    requires n <= |lines| && CountHeaders(lines[..n]) <= 1
    ensures FilesOf(lines[..n]) <= ParsedCommits(lines, parseTime)[0].matchFiles
  {
    LeadingLinesJoinFirstBlock(lines, n);
    var b0 := Blocks(lines)[0];
    assert b0 == lines[..n] + b0[n..];
    FilesOfAppend(lines[..n], b0[n..]);
    RecordsAt(Blocks(lines), 0, parseTime);
  }

  /**
   * A header after some header closes the open commit and starts an empty one that has
   * only the new id: nothing of the earlier lines reaches it.
   */
  lemma ResetOnHeader(lines: seq<string>, header: string, parseTime: TimeParser)
    requires CountHeaders(lines) > 0 && Kind(header) == Header
    ensures ParsedCommits(lines + [header], parseTime)
         == ParsedCommits(lines, parseTime) + [EmptyCommit.(id := TrimPrefix(header, IdTrim))]
  {
    BlocksSnoc(lines, header);
    RecordsSnoc(Blocks(lines), [header], parseTime);
    ExtendBlock([], header, parseTime);
    assert [] + [header] == [header];
  }

  /** Blocks of a log followed by more lines that start at a header. */
  lemma AppendAssoc<T>(a: seq<T>, b: seq<T>, c: seq<T>)
    ensures (a + b) + c == a + (b + c)
  {
  }

  lemma InitLastAppend<T>(a: seq<T>, b: seq<T>)
    requires b != []
    ensures Init(a + b) == a + Init(b) && Last(a + b) == Last(b)
  {
    assert (a + b)[..|a + b| - 1] == a + b[..|b| - 1];
  }

  lemma {:induction false} BlocksAppend(lines: seq<string>, more: seq<string>)
    requires CountHeaders(lines) > 0 && more != [] && Kind(more[0]) == Header
    ensures Blocks(lines + more) == Blocks(lines) + Blocks(more)
    decreases |more|
  {
    if |more| == 1 {
      var h := more[0];
      assert more == [h] && [] + [h] == [h];
      BlocksSnoc(lines, h);
      BlocksSnoc([], h);
      assert Blocks([]) == [[]];
      assert Blocks([h]) == [[h]];
    } else {
      var m, l := Init(more), Last(more);
      assert m + [l] == more;
      assert m[0] == more[0];
      BlocksAppend(lines, m);
      assert lines + more == (lines + m) + [l];
      CountHeadersAppend(lines, m);
      StartsWithHeader(m);
      BlocksSnoc(lines + m, l);
      BlocksSnoc(m, l);
      var bl, bm := Blocks(lines), Blocks(m);
      if Kind(l) == Header {
        AppendAssoc(bl, bm, [[l]]);
      } else {
        InitLastAppend(bl, bm);
        AppendAssoc(bl, Init(bm), [Last(bm) + [l]]);
      }
    }
  }

  lemma {:induction false} RecordsAppend(a: seq<seq<string>>, b: seq<seq<string>>, parseTime: TimeParser)
    ensures Records(a + b, parseTime) == Records(a, parseTime) + Records(b, parseTime)
    decreases |b|
  {
    if b == [] {
      assert a + b == a;
    } else {
      InitSnoc(Init(b), Last(b));
      assert Init(b) + [Last(b)] == b;
      assert a + b == (a + Init(b)) + [Last(b)];
      RecordsSnoc(a + Init(b), Last(b), parseTime);
      RecordsAppend(a, Init(b), parseTime);
      RecordsSnoc(Init(b), Last(b), parseTime);
    }
  }

  /** The k-th commit is the record of the k-th block. */
  lemma {:induction false} RecordsAt(blocks: seq<seq<string>>, k: nat, parseTime: TimeParser)
    requires k < |blocks|
    ensures Records(blocks, parseTime)[k] == Record(blocks[k], parseTime)
    decreases |blocks|
  {
    if k < |blocks| - 1 {
      RecordsAt(Init(blocks), k, parseTime);
    }
  }

  /** What one more line does to the fields of a block. */
  lemma ExtendBlock(block: seq<string>, line: string, parseTime: TimeParser)
    ensures IdOf(block + [line]) == if Kind(line) == Header then TrimPrefix(line, IdTrim) else IdOf(block)
    ensures AuthorOf(block + [line]) == if Kind(line) == AuthorLine then TrimPrefix(line, AuthorTrim) else AuthorOf(block)
    ensures CommitOf(block + [line]) == if Kind(line) == CommitLine then TrimPrefix(line, CommitTrim) else CommitOf(block)
    ensures AuthorDateOf(block + [line], parseTime)
         == if Kind(line) == AuthorDateLine && parseTime(DateLayout, TrimPrefix(line, AuthorDateTrim)).Some?
            then parseTime(DateLayout, TrimPrefix(line, AuthorDateTrim)).value
            else AuthorDateOf(block, parseTime)
    ensures CommitDateOf(block + [line], parseTime)
         == if Kind(line) == CommitDateLine && parseTime(DateLayout, TrimPrefix(line, CommitDateTrim)).Some?
            then parseTime(DateLayout, TrimPrefix(line, CommitDateTrim)).value
            else CommitDateOf(block, parseTime)
    ensures RawComment(block + [line]) == if Kind(line) == CommentLine then RawComment(block) + TrimSpace(line) + "\n" else RawComment(block)
    ensures FilesOf(block + [line]) == if Kind(line) == PathLine then FilesOf(block) + [MatchFile(line)] else FilesOf(block)
  {
    InitSnoc(block, line);
  }

  /** What one more line does to the blocks. */
  lemma BlocksSnoc(lines: seq<string>, line: string)
    ensures CountHeaders(lines + [line]) == CountHeaders(lines) + (if Kind(line) == Header then 1 else 0)
    ensures Kind(line) == Header && CountHeaders(lines) > 0 ==>
      Blocks(lines + [line]) == Blocks(lines) + [[line]]
    ensures !(Kind(line) == Header && CountHeaders(lines) > 0) ==>
      Blocks(lines + [line]) == Init(Blocks(lines)) + [Last(Blocks(lines)) + [line]]
  {
    InitSnoc(lines, line);
  }

  lemma RecordsSnoc(blocks: seq<seq<string>>, block: seq<string>, parseTime: TimeParser)
    ensures Records(blocks + [block], parseTime) == Records(blocks, parseTime) + [Record(block, parseTime)]
  {
    InitSnoc(blocks, block);
  }

  /**
   * No commit bleeds into the next: once a header follows some header, the commits of the
   * lines before it and of the lines from it on are computed separately and laid end to end.
   */
  lemma CommitsCompose(lines: seq<string>, more: seq<string>, parseTime: TimeParser)
    requires CountHeaders(lines) > 0 && more != [] && Kind(more[0]) == Header
    ensures ParsedCommits(lines + more, parseTime) == ParsedCommits(lines, parseTime) + ParsedCommits(more, parseTime)
  {
    BlocksAppend(lines, more);
    RecordsAppend(Blocks(lines), Blocks(more), parseTime);
  }

  /** Every non-empty line that matches none of the prefixes is a file of exactly one commit, in input order. */
  lemma FilesPartition(lines: seq<string>, parseTime: TimeParser)
    ensures AllFiles(ParsedCommits(lines, parseTime)) == FilesOf(lines)
  {
    BlocksShape(lines);
    FilesOfBlocks(Blocks(lines), parseTime);
  }

  lemma {:induction false} FilesOfBlocks(blocks: seq<seq<string>>, parseTime: TimeParser)
    ensures AllFiles(Records(blocks, parseTime)) == FilesOf(Flatten(blocks))
    decreases |blocks|
  {
    if blocks != [] {
      FilesOfBlocks(Init(blocks), parseTime);
      var rs := Records(blocks, parseTime);
      assert Init(rs) == Records(Init(blocks), parseTime);
      FilesOfAppend(Flatten(Init(blocks)), Last(blocks));
    }
  }

  /** A path that starts with "commit", such as commit.go, opens a commit of its own, with the path as its id. */
  lemma PathNamedCommitOpensCommit(parseTime: TimeParser)
    ensures var cs := ParsedCommits(["commit 1f0e", "commit.go"], parseTime);
      |cs| == 2 && cs[0].id == "1f0e" && cs[0].matchFiles == [] && cs[1].id == "commit.go"
  {
    var h0, h1 := "commit 1f0e", "commit.go";
    assert HasPrefix(h0, HeaderGuard) && HasPrefix(h1, HeaderGuard);
    assert TrimPrefix(h0, IdTrim) == "1f0e";
    assert !HasPrefix(h1, IdTrim) by { assert h1[6] != IdTrim[6]; }
    InitSnoc([], h0);
    assert CountHeaders([h0]) == 1;
    assert Blocks([h0]) == [[h0]];
    RecordsSnoc([], [h0], parseTime);
    ExtendBlock([], h0, parseTime);
    assert [] + [h0] == [h0];
    assert ParsedCommits([h0], parseTime) == [EmptyCommit.(id := "1f0e")];
    assert [h0] + [h1] == [h0, h1];
    ResetOnHeader([h0], h1, parseTime);
  }

  /**
   * An author line is recognised with four spaces after the colon but trimmed only with
   * five: with exactly four the whole line is kept as the author.
   */
  lemma AuthorWithFourSpaces()
    ensures AuthorOf(["Author:    Eve"]) == "Author:    Eve"
    ensures AuthorOf(["Author:     Eve"]) == "Eve"
  {
    InitSnoc([], "Author:    Eve");
    InitSnoc([], "Author:     Eve");
    var four, five := "Author:    Eve", "Author:     Eve";
    assert !HasPrefix(four, HeaderGuard) by { assert four[0] != HeaderGuard[0]; }
    assert !HasPrefix(five, HeaderGuard) by { assert five[0] != HeaderGuard[0]; }
    assert HasPrefix(four, AuthorGuard) && HasPrefix(five, AuthorGuard);
    assert !HasPrefix(four, AuthorTrim) by { assert four[11] != AuthorTrim[11]; }
    assert HasPrefix(five, AuthorTrim);
  }

  // ----- The scanner -----

  /** The values of the loop's accumulators: first, commit, comment, matchFiles and commits. */
  datatype Accumulators = Accumulators(
    first: bool, commit: CommitRecord, comment: string, matchFiles: seq<MatchFile>, commits: seq<CommitRecord>)

  /** The accumulators after the given lines: the closed blocks are emitted, the last one is open. */
  ghost function AccumulatorsAfter(lines: seq<string>, parseTime: TimeParser): Accumulators {
    var bs := Blocks(lines);
    Accumulators(CountHeaders(lines) == 0, InProgress(Last(bs), parseTime), RawComment(Last(bs)),
                 FilesOf(Last(bs)), Records(Init(bs), parseTime))
  }

  /** What one line does to the accumulators, by its kind. */
  ghost function Step(a: Accumulators, line: string, parseTime: TimeParser): Accumulators {
    match Kind(line)
    case Header =>
      if a.first then a.(first := false, commit := a.commit.(id := TrimPrefix(line, IdTrim)))
      else
        var emitted := a.commit.(comment := TrimSpace(a.comment), matchFiles := a.matchFiles);
        Accumulators(false, EmptyCommit.(id := TrimPrefix(line, IdTrim)), "", [], a.commits + [emitted])
    case AuthorLine => a.(commit := a.commit.(author := TrimPrefix(line, AuthorTrim)))
    case AuthorDateLine =>
      var t := parseTime(DateLayout, TrimPrefix(line, AuthorDateTrim));
      if t.Some? then a.(commit := a.commit.(authorDate := t.value)) else a
    case CommitLine => a.(commit := a.commit.(commit := TrimPrefix(line, CommitTrim)))
    case CommitDateLine =>
      var t := parseTime(DateLayout, TrimPrefix(line, CommitDateTrim));
      if t.Some? then a.(commit := a.commit.(commitDate := t.value)) else a
    case CommentLine => a.(comment := a.comment + TrimSpace(line) + "\n")
    case PathLine => a.(matchFiles := a.matchFiles + [MatchFile(line)])
    case BlankLine => a
  }

  /** The step the loop takes on a line is the one the block split prescribes. */
  lemma StepFollowsBlocks(lines: seq<string>, line: string, parseTime: TimeParser)
    ensures AccumulatorsAfter(lines + [line], parseTime) == Step(AccumulatorsAfter(lines, parseTime), line, parseTime)
  {
    BlocksSnoc(lines, line);
    if Kind(line) == Header && CountHeaders(lines) > 0 {
      StepOpensBlock(lines, line, parseTime);
    } else {
      StepExtendsBlock(lines, line, parseTime);
    }
  }

  /** A header after some header: the open block is emitted and a block of the header alone is opened. */
  lemma StepOpensBlock(lines: seq<string>, line: string, parseTime: TimeParser)
    requires Kind(line) == Header && CountHeaders(lines) > 0
    ensures AccumulatorsAfter(lines + [line], parseTime) == Step(AccumulatorsAfter(lines, parseTime), line, parseTime)
  {
    var bs := Blocks(lines);
    BlocksSnoc(lines, line);
    InitSnoc(bs, [line]);
    HeaderAlone(line, parseTime);
    assert Records(bs, parseTime) == Records(Init(bs), parseTime) + [Record(Last(bs), parseTime)];
  }

  /** The block of a header alone: the commit has only its id, no comment and no files. */
  lemma HeaderAlone(line: string, parseTime: TimeParser)
    requires Kind(line) == Header
    ensures InProgress([line], parseTime) == EmptyCommit.(id := TrimPrefix(line, IdTrim))
    ensures RawComment([line]) == "" && FilesOf([line]) == []
  {
    ExtendBlock([], line, parseTime);
    assert [] + [line] == [line];
  }

  /** Any other line joins the open block. */
  lemma StepExtendsBlock(lines: seq<string>, line: string, parseTime: TimeParser)
    requires !(Kind(line) == Header && CountHeaders(lines) > 0)
    ensures AccumulatorsAfter(lines + [line], parseTime) == Step(AccumulatorsAfter(lines, parseTime), line, parseTime)
  {
    var bs := Blocks(lines);
    BlocksSnoc(lines, line);
    ExtendBlock(Last(bs), line, parseTime);
    InitSnoc(Init(bs), Last(bs) + [line]);
  }

  /** What the lines after the loop do: the open commit gets its comment and files and is emitted. */
  ghost function Emit(a: Accumulators): seq<CommitRecord> {
    a.commits + [a.commit.(comment := TrimSpace(a.comment), matchFiles := a.matchFiles)]
  }

  /** Emitting after the last line gives the commits of all blocks. */
  lemma EmitFollowsBlocks(lines: seq<string>, parseTime: TimeParser)
    ensures Emit(AccumulatorsAfter(lines, parseTime)) == ParsedCommits(lines, parseTime)
  {
    var bs := Blocks(lines);
    RecordsSnoc(Init(bs), Last(bs), parseTime);
    assert Init(bs) + [Last(bs)] == bs;
  }

  /** The accumulators of the source's loop */
  class HistoryScanner {
    const parseTime: TimeParser
    var first: bool
    var commit: Commit
    var comment: string
    var matchFiles: seq<MatchFile>
    var commits: seq<CommitRecord>

    ghost function State(): Accumulators
      reads this, commit
    {
      Accumulators(first, commit.Snapshot(), comment, matchFiles, commits)
    }

    /** The accumulators before the first line */
    constructor (parseTime: TimeParser)
      ensures State() == AccumulatorsAfter([], parseTime) && this.parseTime == parseTime
      ensures fresh(commit)
    {
      this.parseTime := parseTime;
      first := true;
      commit := new Commit();
      comment := "";
      matchFiles := [];
      commits := [];
    }

    /** One iteration of the scan loop. */
    method Feed(line: string)
      modifies this, commit
      ensures State() == Step(old(State()), line, parseTime)
      ensures commit == old(commit) || fresh(commit)
    {
      ghost var before := State();
      // Kind is the source's if-chain of prefix tests, in the source's order.
      match Kind(line) {
        case Header =>
          if first {
            first := false;
          } else {
            commit.comment := TrimSpace(comment);
            commit.matchFiles := matchFiles;
            matchFiles := [];
            commits := commits + [commit.Snapshot()];
            commit := new Commit();
            comment := "";
          }
          commit.id := TrimPrefix(line, IdTrim);
        case AuthorLine =>
          commit.author := TrimPrefix(line, AuthorTrim);
        case AuthorDateLine =>
          commit.AuthorDate(line, parseTime);
        case CommitLine =>
          commit.commit := TrimPrefix(line, CommitTrim);
        case CommitDateLine =>
          commit.CommitDate(line, parseTime);
        case CommentLine =>
          comment := comment + TrimSpace(line) + "\n";
        case PathLine =>
          matchFiles := matchFiles + [MatchFile(line)];
        case BlankLine =>
      }
    }

    /** After the loop: the open commit gets its comment and files and is emitted. */
    method Finish() returns (result: seq<CommitRecord>)
      modifies this`commits, commit
      ensures result == Emit(old(State()))
      ensures commits == result && commit.Snapshot() == Last(result)
    {
      commit.matchFiles := matchFiles;
      commit.comment := TrimSpace(comment);
      commits := commits + [commit.Snapshot()];
      result := commits;
    }
  }

  /**
   * The whole scan over the output of git log: for any text, the commits are
   * ParsedCommits(ScanLines(output)) — one per block, in order, each with the id, author,
   * dates and committer of its block, the trimmed comment made of its indented lines, and its
   * path lines as files.
   */
  method ParseLog(output: string, parseTime: TimeParser) returns (commits: seq<CommitRecord>)
    ensures commits == ParsedCommits(ScanLines(output), parseTime)
  {
    var lines := ScanLines(output);
    var scanner := new HistoryScanner(parseTime);
    for i := 0 to |lines|
      invariant scanner.State() == AccumulatorsAfter(lines[..i], parseTime) && scanner.parseTime == parseTime
      invariant fresh(scanner) && fresh(scanner.commit)
    {
      assert lines[..i + 1] == lines[..i] + [lines[i]];
      StepFollowsBlocks(lines[..i], lines[i], parseTime);
      scanner.Feed(lines[i]);
    }
    assert lines[..|lines|] == lines;
    EmitFollowsBlocks(lines, parseTime);
    commits := scanner.Finish();
  }
}
