/**
 * The rest of main (main.go): the repository path, the git grep command line, which grep
 * failures are tolerated, the search over commits and signatures that decides whether
 * anything was found, and the numbering of the dump listing.
 *
 * Running git is left to parameters: the parsed commits come in as values, the output of
 * git rev-list as a string, and each git grep as a function from its arguments to the error
 * it ends with (None when it exits with status 0).
 */
module Hunter {
  import opened Wrappers
  import opened GoStrings
  import opened CommitRecords
  import opened Signatures

  // ----- The repository path -----

  /**
   * The -gitdir value made into the path of the .git directory: empty stays empty; otherwise
   * a "/" is added unless the value already ends in one, then ".git".
   */
  method NormalizeGitDir(gitDirFlag: string) returns (gitDir: string)
    ensures gitDirFlag == "" ==> gitDir == ""
    ensures gitDirFlag != "" && gitDirFlag[|gitDirFlag| - 1] == '/' ==> gitDir == gitDirFlag + ".git"
    ensures gitDirFlag != "" && gitDirFlag[|gitDirFlag| - 1] != '/' ==> gitDir == gitDirFlag + "/.git"
    ensures gitDirFlag != "" ==> gitDirFlag <= gitDir && |gitDir| >= 5 && gitDir[|gitDir| - 5..] == "/.git"
  {
    gitDir := "";
    if gitDirFlag != "" {
      gitDir := gitDirFlag;
      if gitDir[|gitDir| - 1..] != "/" {
        gitDir := gitDir + "/";
      }
      gitDir := gitDir + ".git";
    }
  }

  /** The arguments of a git command, preceded by --git-dir=<gitDir> when gitDir is set. */
  function WithGitDir(gitDir: string, args: seq<string>): (r: seq<string>)
    ensures gitDir == "" ==> r == args
    ensures gitDir != "" ==> |r| == |args| + 1 && r[0] == "--git-dir=" + gitDir && r[1..] == args
  {
    if gitDir != "" then ["--git-dir=" + gitDir] + args else args
  }

  // ----- The git grep command line -----

  const CaseInsensitiveFlag := "(?i)"

  /**
   * The grep part of the command: a pattern whose first four characters are "(?i)" is given
   * without them and with -i; any other pattern is given unchanged.
   */
  function GrepCommand(pattern: string): (r: seq<string>)
    requires |pattern| >= 4
    ensures pattern[..4] == CaseInsensitiveFlag ==> r == ["grep", "-i", "-E", pattern[4..]]
    ensures pattern[..4] != CaseInsensitiveFlag ==> r == ["grep", "-E", pattern]
  {
    if pattern[..4] == CaseInsensitiveFlag then
      assert HasPrefix(pattern, CaseInsensitiveFlag);
      assert "" + pattern[4..] == pattern[4..];
      ["grep", "-i", "-E", ReplaceFirst(pattern, CaseInsensitiveFlag, "")]
    else ["grep", "-E", pattern]
  }

  /** revList without one trailing newline */
  function StripNewline(revList: string): (r: string)
    ensures revList != "" && revList[|revList| - 1] == '\n' ==> r + "\n" == revList
    ensures !(revList != "" && revList[|revList| - 1] == '\n') ==> r == revList
  {
    if revList != "" && revList[|revList| - 1..] == "\n" then revList[..|revList| - 1] else revList
  }

  /** The arguments of git for one grep, given the revision list after its newline was stripped. */
  function GrepCommandLine(pattern: string, revList: string, gitDir: string): seq<string>
    requires |pattern| >= 4
  {
    WithGitDir(gitDir, GrepCommand(pattern) + Split(revList, '\n'))
  }

  /**
   * Builds the arguments of one git grep, appending the revisions one by one, and returns
   * them with the overwritten revision list. The source slices revList[len(revList)-1:] and
   * pattern[0:4], so an empty revision list or a pattern shorter than four panics there.
   */
  method GrepArgs(pattern: string, revList: string, gitDir: string) returns (cmdArgs: seq<string>, newRevList: string)
    requires |pattern| >= 4 && revList != ""
    ensures newRevList == StripNewline(revList)
    ensures cmdArgs == GrepCommandLine(pattern, newRevList, gitDir)
  {
    if pattern[..4] == CaseInsensitiveFlag {
      var stripped := ReplaceFirst(pattern, CaseInsensitiveFlag, "");
      cmdArgs := ["grep", "-i", "-E", stripped];
    } else {
      cmdArgs := ["grep", "-E", pattern];
    }
    newRevList := revList;
    if newRevList[|newRevList| - 1..] == "\n" {
      newRevList := newRevList[..|newRevList| - 1];
    }
    var revisionsMap := Split(newRevList, '\n');
    ghost var base := cmdArgs;
    for k := 0 to |revisionsMap|
      invariant cmdArgs == base + revisionsMap[..k]
    {
      assert revisionsMap[..k + 1] == revisionsMap[..k] + [revisionsMap[k]];
      cmdArgs := cmdArgs + [revisionsMap[k]];
    }
    assert revisionsMap[..|revisionsMap|] == revisionsMap;
    if gitDir != "" {
      cmdArgs := ["--git-dir=" + gitDir] + cmdArgs;
    }
  }

  /** Does no revision contain a newline? */
  predicate NewlineFree(revs: seq<string>) {
    forall k :: 0 <= k < |revs| ==> '\n' !in revs[k]
  }

  /**
   * For the output of git rev-list — revisions each ended by a newline — one grep is given
   * exactly those revisions, in order, after the grep part and no extra trailing empty argument.
   */
  lemma GrepGetsTheRevisions(pattern: string, revs: seq<string>, gitDir: string)
    requires |pattern| >= 4 && |revs| >= 1 && NewlineFree(revs)
    ensures GrepCommandLine(pattern, StripNewline(Join(revs, '\n') + "\n"), gitDir)
         == WithGitDir(gitDir, GrepCommand(pattern) + revs)
  {
    var joined := Join(revs, '\n');
    assert StripNewline(joined + "\n") == joined;
    SplitJoin(revs, '\n');
  }

  /**
   * Only one newline is stripped: for a list ending in a blank line the first grep still gives
   * an empty argument.
   */
  lemma BlankLineGivesEmptyRevision(pattern: string, revs: seq<string>, gitDir: string)
    requires |pattern| >= 4 && |revs| >= 1 && NewlineFree(revs)
    ensures GrepCommandLine(pattern, StripNewline(Join(revs, '\n') + "\n\n"), gitDir)
         == WithGitDir(gitDir, GrepCommand(pattern) + (revs + [""]))
  {
    BlankLineRevisions(revs);
  }

  lemma BlankLineRevisions(revs: seq<string>)
    requires |revs| >= 1 && NewlineFree(revs)
    ensures Split(StripNewline(Join(revs, '\n') + "\n\n"), '\n') == revs + [""]
  {
    var joined := Join(revs, '\n');
    var t := joined + ['\n'];
    assert joined + "\n\n" == t + ['\n'];
    assert StripNewline(t + ['\n']) == t;
    TrailingSeparatorGivesEmptyPiece(revs, '\n');
  }

  // ----- Which grep failures are tolerated -----

  /** The error exec.Cmd.Output returns: the exit status, the signal, or a failure to start git. */
  datatype CmdError =
    | ExitStatus(code: nat)
    | Signaled(signal: string)
    | StartFailure(message: string)

  function Digit(d: nat): char
    requires d < 10
  {
    "0123456789"[d]
  }

  /** The decimal digits of n */
  function NatToString(n: nat): (r: string)
    ensures n >= 10 ==> |r| >= 2
    ensures |r| >= 1
  {
    if n < 10 then [Digit(n)] else NatToString(n / 10) + [Digit(n % 10)]
  }

  /** err.Error() */
  function ErrorText(err: CmdError): string {
    match err
    case ExitStatus(code) => "exit status " + NatToString(code)
    case Signaled(signal) => "signal: " + signal
    case StartFailure(message) => message
  }

  /** The grep is accepted when git exits with status 0 or the error reads "exit status 1". */
  function GrepAccepted(err: Option<CmdError>): bool {
    err.None? || ErrorText(err.value) == "exit status 1"
  }

  /**
   * Of the errors of a git that ran, exactly exit status 1 (no match) is tolerated; every
   * other status and every signal ends the program.
   */
  lemma ExitStatusAcceptance(err: CmdError)
    requires !err.StartFailure?
    ensures GrepAccepted(Some(err)) <==> err == ExitStatus(1)
  {
    var prefix := "exit status ";
    match err
    case ExitStatus(code) =>
      if code != 1 {
        var t := NatToString(code);
        if code < 10 {
          assert t == [Digit(code)];
          assert (prefix + t)[12] == Digit(code) != '1';
        } else {
          assert |prefix + t| > 13;
        }
      }
    case Signaled(signal) =>
      assert ("signal: " + signal)[0] == 's';
  }

  // ----- The search -----

  /** How the search ends: it runs to the end, or a panic or log.Fatal stops the program. */
  datatype ScanOutcome = Finished(somethingFound: bool) | Aborted

  /** git grep, left abstract: its arguments to the error it ends with, None for exit status 0. */
  type GitGrep = seq<string> -> Option<CmdError>

  /** Every comment signature can be asked to Match. */
  predicate AllCanMatch(sigs: seq<CommentSignature>) {
    forall j :: 0 <= j < |sigs| ==> CanMatch(sigs[j])
  }

  /** Some comment signature matches the commit's comment. */
  ghost predicate CommentHit(c: CommitRecord, sigs: seq<CommentSignature>, regexMatch: RegexMatcher)
    requires AllCanMatch(sigs)
  {
    exists j :: 0 <= j < |sigs| && Match(sigs[j], c.comment, regexMatch)
  }

  /** Some file signature matches one of the commit's files. */
  ghost predicate FileHit<F>(c: CommitRecord, fileSigs: seq<F>, fileMatch: (F, MatchFile) -> bool) {
    exists a, b :: 0 <= a < |fileSigs| && 0 <= b < |c.matchFiles| && fileMatch(fileSigs[a], c.matchFiles[b])
  }

  ghost predicate CommitHit<F>(c: CommitRecord, sigs: seq<CommentSignature>, regexMatch: RegexMatcher,
                               fileSigs: seq<F>, fileMatch: (F, MatchFile) -> bool)
    requires AllCanMatch(sigs)
  {
    CommentHit(c, sigs, regexMatch) || FileHit(c, fileSigs, fileMatch)
  }

  /** Among the first n commits, some comment or some file matches a signature. */
  ghost predicate FoundAmong<F>(commits: seq<CommitRecord>, n: nat, sigs: seq<CommentSignature>, regexMatch: RegexMatcher,
                                fileSigs: seq<F>, fileMatch: (F, MatchFile) -> bool)
    requires n <= |commits| && AllCanMatch(sigs)
  {
    exists k :: 0 <= k < n && CommitHit(commits[k], sigs, regexMatch, fileSigs, fileMatch)
  }

  /** The patterns of the signatures, in order */
  function Patterns(sigs: seq<CommentSignature>): (ps: seq<string>)
    ensures |ps| == |sigs| && forall j :: 0 <= j < |sigs| ==> ps[j] == GetPattern(sigs[j])
  {
    seq(|sigs|, j requires 0 <= j < |sigs| => GetPattern(sigs[j]))
  }

  /** ps laid end to end n times: the patterns in the order of the grep calls */
  function Repeat(ps: seq<string>, n: nat): seq<string> {
    if n == 0 then [] else Repeat(ps, n - 1) + ps
  }

  /** revList after n greps, each of which strips one trailing newline */
  function RevListAfter(revList: string, n: nat): string {
    if n == 0 then revList else StripNewline(RevListAfter(revList, n - 1))
  }

  /**
   * The greps for these patterns, in order, all run and are accepted: each pattern has at least
   * four characters, the revision list is not empty when it is sliced, and git's error is
   * tolerated.
   */
  ghost predicate GrepsSucceed(patterns: seq<string>, revList: string, gitDir: string, grep: GitGrep)
    decreases |patterns|
  {
    patterns == [] ||
      (GrepsSucceed(patterns[..|patterns| - 1], revList, gitDir, grep) &&
       GrepRuns(patterns[|patterns| - 1], RevListAfter(revList, |patterns| - 1), gitDir, grep))
  }

  /**
   * One grep runs and is accepted: the pattern has at least four characters, the revision
   * list is not empty when it is sliced, and git's error is tolerated.
   */
  predicate GrepRuns(pattern: string, revList: string, gitDir: string, grep: GitGrep) {
    |pattern| >= 4 && revList != "" && GrepAccepted(grep(GrepCommandLine(pattern, StripNewline(revList), gitDir)))
  }

  /** One more grep: the run succeeds iff the run so far does and the new grep runs. */
  lemma GrepsSucceedSnoc(done: seq<string>, pattern: string, revList: string, gitDir: string, grep: GitGrep)
    ensures GrepsSucceed(done + [pattern], revList, gitDir, grep)
        <==> GrepsSucceed(done, revList, gitDir, grep) && GrepRuns(pattern, RevListAfter(revList, |done|), gitDir, grep)
  {
    assert (done + [pattern])[..|done|] == done;
  }

  /** The patterns grepped before the si-th of this commit, followed by its own. */
  lemma PatternsSoFarStep(done: seq<string>, ps: seq<string>, si: nat)
    requires si < |ps|
    ensures (done + ps[..si]) + [ps[si]] == done + ps[..si + 1]
  {
    assert ps[..si + 1] == ps[..si] + [ps[si]];
  }

  lemma {:induction false} GrepsSucceedPrefix(xs: seq<string>, ys: seq<string>, revList: string, gitDir: string, grep: GitGrep)
    requires xs <= ys && GrepsSucceed(ys, revList, gitDir, grep)
    ensures GrepsSucceed(xs, revList, gitDir, grep)
    decreases |ys|
  {
    if |xs| < |ys| {
      assert xs <= ys[..|ys| - 1];
      GrepsSucceedPrefix(xs, ys[..|ys| - 1], revList, gitDir, grep);
    } else {
      assert xs == ys;
    }
  }

  lemma {:induction false} RepeatPrefix(ps: seq<string>, m: nat, n: nat)
    requires m <= n
    ensures Repeat(ps, m) <= Repeat(ps, n)
    decreases n
  {
    if m < n {
      RepeatPrefix(ps, m, n - 1);
    }
  }

  /**
   * For the output of git rev-list, when the last revision is not empty, every grep after the
   * first strip sees the same revision list: the first grep strips the final newline and the
   * later ones find none to strip.
   */
  lemma {:induction false} RevListSettles(revs: seq<string>, n: nat)
    requires |revs| >= 1 && NewlineFree(revs) && revs[|revs| - 1] != ""
    ensures n >= 1 ==> RevListAfter(Join(revs, '\n') + "\n", n) == Join(revs, '\n')
  {
    var joined := Join(revs, '\n');
    if n >= 1 {
      assert StripNewline(joined + "\n") == joined;
      if n > 1 {
        RevListSettles(revs, n - 1);
        JoinEndsWithLast(revs, '\n');
      }
    }
  }

  /** A joined list ends with its last piece. */
  lemma {:induction false} JoinEndsWithLast(parts: seq<string>, sep: char)
    requires |parts| >= 1 && parts[|parts| - 1] != ""
    ensures var j := Join(parts, sep); j != "" && j[|j| - 1] == parts[|parts| - 1][|parts[|parts| - 1]| - 1]
    decreases |parts|
  {
    if |parts| > 1 {
      JoinEndsWithLast(parts[1..], sep);
      assert parts[1..][|parts| - 2] == parts[|parts| - 1];
    }
  }

  /**
   * The search over commits and signatures: for each commit, each comment signature is
   * matched against its comment and, when grepping, a git grep is run for the signature's
   * pattern; then each file signature is matched against its files.
   *
   * Without grep the search always finishes. With grep it finishes exactly when every grep,
   * in order, runs and is accepted. When it finishes, somethingFound says whether some commit
   * matched a comment or a file signature.
   */
  method Scan<F>(commits: seq<CommitRecord>, sigs: seq<CommentSignature>, regexMatch: RegexMatcher,
                 fileSigs: seq<F>, fileMatch: (F, MatchFile) -> bool,
                 doGrep: bool, revList: string, gitDir: string, grep: GitGrep)
    returns (outcome: ScanOutcome)
    requires AllCanMatch(sigs)
    ensures !doGrep ==> outcome.Finished?
    ensures doGrep ==> (outcome.Finished? <==> GrepsSucceed(Repeat(Patterns(sigs), |commits|), revList, gitDir, grep))
    ensures outcome.Finished? ==>
      (outcome.somethingFound <==> FoundAmong(commits, |commits|, sigs, regexMatch, fileSigs, fileMatch))
  {
    var somethingFound := false;
    var revs := revList;
    ghost var ps := Patterns(sigs);
    for ci := 0 to |commits|
      invariant doGrep ==> GrepsSucceed(Repeat(ps, ci), revList, gitDir, grep)
      invariant doGrep ==> revs == RevListAfter(revList, |Repeat(ps, ci)|)
      invariant somethingFound <==> FoundAmong(commits, ci, sigs, regexMatch, fileSigs, fileMatch)
    {
      var c := commits[ci];
      var commentHit, aborted;
      commentHit, aborted, revs := ScanComments(c, sigs, regexMatch, doGrep, revs, gitDir, grep, revList, Repeat(ps, ci));
      if aborted {
        AbortedRunFails(ps, ci, |commits|, revList, gitDir, grep);
        return Aborted;
      }
      if commentHit {
        somethingFound := true;
      }
      var fileHit := MatchFiles(c, fileSigs, fileMatch);
      if fileHit {
        somethingFound := true;
      }
      FoundAmongStep(commits, ci, sigs, regexMatch, fileSigs, fileMatch);
    }
    outcome := Finished(somethingFound);
  }

  /**
   * The comment part of the search for one commit, after the greps in done: each comment
   * signature is matched against the comment and, when grepping, its pattern is grepped.
   * It stops at the first grep that cannot run or is not accepted; otherwise hit says whether
   * some signature matched, and revsOut is the revision list the later greps see.
   */
  method ScanComments(c: CommitRecord, sigs: seq<CommentSignature>, regexMatch: RegexMatcher,
                      doGrep: bool, revs: string, gitDir: string, grep: GitGrep,
                      ghost revList: string, ghost done: seq<string>)
    returns (hit: bool, aborted: bool, revsOut: string)
    requires AllCanMatch(sigs)
    requires doGrep ==> GrepsSucceed(done, revList, gitDir, grep) && revs == RevListAfter(revList, |done|)
    ensures !doGrep ==> !aborted
    ensures !aborted ==> (hit <==> CommentHit(c, sigs, regexMatch))
    ensures doGrep ==> (!aborted <==> GrepsSucceed(done + Patterns(sigs), revList, gitDir, grep))
    ensures doGrep && !aborted ==> revsOut == RevListAfter(revList, |done + Patterns(sigs)|)
  {
    hit, aborted, revsOut := false, false, revs;
    ghost var ps := Patterns(sigs);
    ghost var sofar := done;
    for si := 0 to |sigs|
      invariant doGrep ==> sofar == done + ps[..si]
      invariant doGrep ==> GrepsSucceed(sofar, revList, gitDir, grep) && revsOut == RevListAfter(revList, |sofar|)
      invariant hit <==> exists j :: 0 <= j < si && Match(sigs[j], c.comment, regexMatch)
    {
      var s := sigs[si];
      if Match(s, c.comment, regexMatch) {
        hit := true;
      }
      if doGrep {
        var pattern := GetPattern(s);
        PatternsSoFarStep(done, ps, si);
        GrepsSucceedSnoc(sofar, pattern, revList, gitDir, grep);
        var ok;
        ok, revsOut := GrepOnce(pattern, revsOut, gitDir, grep);
        if !ok {
          StepFailsCommit(done, ps, si, revList, gitDir, grep);
          aborted := true;
          return;
        }
        RevListAfterSnoc(revList, sofar, pattern);
        sofar := sofar + [pattern];
      }
    }
    assert ps[..|sigs|] == ps;
  }

  /** The file part of the search for one commit: each file signature against each of its files. */
  method MatchFiles<F>(c: CommitRecord, fileSigs: seq<F>, fileMatch: (F, MatchFile) -> bool) returns (hit: bool)
    ensures hit <==> FileHit(c, fileSigs, fileMatch)
  {
    hit := false;
    for fi := 0 to |fileSigs|
      invariant hit <==> exists a, b :: 0 <= a < fi && 0 <= b < |c.matchFiles| && fileMatch(fileSigs[a], c.matchFiles[b])
    {
      ghost var before := hit;
      for k := 0 to |c.matchFiles|
        invariant hit <==> before || exists b :: 0 <= b < k && fileMatch(fileSigs[fi], c.matchFiles[b])
      {
        if fileMatch(fileSigs[fi], c.matchFiles[k]) {
          hit := true;
        }
      }
    }
  }

  /** One more commit: found among ci + 1 commits iff found among ci or the next one is a hit. */
  lemma FoundAmongStep<F>(commits: seq<CommitRecord>, ci: nat, sigs: seq<CommentSignature>, regexMatch: RegexMatcher,
                          fileSigs: seq<F>, fileMatch: (F, MatchFile) -> bool)
    requires ci < |commits| && AllCanMatch(sigs)
    ensures FoundAmong(commits, ci + 1, sigs, regexMatch, fileSigs, fileMatch)
        <==> FoundAmong(commits, ci, sigs, regexMatch, fileSigs, fileMatch)
             || CommitHit(commits[ci], sigs, regexMatch, fileSigs, fileMatch)
  {
  }

  /**
   * One git grep for pattern over revs: it cannot run when the pattern has fewer than four
   * characters or revs is empty (the source's slices panic); otherwise git is called with the
   * command line GrepArgs builds, and the call is accepted or not. revsOut is the list the
   * source leaves behind, with its trailing newline stripped.
   */
  method GrepOnce(pattern: string, revs: string, gitDir: string, grep: GitGrep) returns (ok: bool, revsOut: string)
    ensures ok <==> GrepRuns(pattern, revs, gitDir, grep)
    ensures ok ==> revsOut == StripNewline(revs)
  {
    revsOut := revs;
    if |pattern| < 4 || revs == "" {
      return false, revsOut;
    }
    var cmdArgs;
    cmdArgs, revsOut := GrepArgs(pattern, revs, gitDir);
    var err := grep(cmdArgs);
    ok := GrepAccepted(err);
  }

  /** One more grep strips one more trailing newline. */
  lemma RevListAfterSnoc(revList: string, done: seq<string>, pattern: string)
    ensures RevListAfter(revList, |done + [pattern]|) == StripNewline(RevListAfter(revList, |done|))
  {
  }

  /** A grep of this commit that cannot run or is not accepted fails the commit's whole run. */
  lemma StepFailsCommit(done: seq<string>, ps: seq<string>, si: nat, revList: string, gitDir: string, grep: GitGrep)
    requires si < |ps| && !GrepsSucceed((done + ps[..si]) + [ps[si]], revList, gitDir, grep)
    ensures !GrepsSucceed(done + ps, revList, gitDir, grep)
  {
    PatternsSoFarStep(done, ps, si);
    assert done + ps[..si + 1] <= done + ps;
    if GrepsSucceed(done + ps, revList, gitDir, grep) {
      GrepsSucceedPrefix(done + ps[..si + 1], done + ps, revList, gitDir, grep);
    }
  }

  /** A commit whose greps do not all succeed means the whole run of greps does not succeed. */
  lemma AbortedRunFails(ps: seq<string>, ci: nat, n: nat, revList: string, gitDir: string, grep: GitGrep)
    requires ci < n && !GrepsSucceed(Repeat(ps, ci) + ps, revList, gitDir, grep)
    ensures !GrepsSucceed(Repeat(ps, n), revList, gitDir, grep)
  {
    RepeatPrefix(ps, ci + 1, n);
    if GrepsSucceed(Repeat(ps, n), revList, gitDir, grep) {
      GrepsSucceedPrefix(Repeat(ps, ci + 1), Repeat(ps, n), revList, gitDir, grep);
    }
  }

  // ----- The dump listing -----

  /** One commit of the dump, under its number */
  datatype DumpEntry = DumpEntry(number: nat, commit: CommitRecord)

  /**
   * The dump lists the commits in their order, numbered from the number of commits down to 1,
   * so the first commit gets the highest number and the numbers strictly decrease.
   */
  method DumpListing(commits: seq<CommitRecord>) returns (listing: seq<DumpEntry>)
    ensures |listing| == |commits|
    ensures forall i :: 0 <= i < |commits| ==> listing[i] == DumpEntry(|commits| - i, commits[i])
    ensures forall i :: 0 <= i < |listing| ==> 1 <= listing[i].number <= |commits|
    ensures forall i, j :: 0 <= i < j < |listing| ==> listing[i].number > listing[j].number
  {
    listing := [];
    for i := 0 to |commits|
      invariant |listing| == i
      invariant forall k :: 0 <= k < i ==> listing[k] == DumpEntry(|commits| - k, commits[k])
    {
      listing := listing + [DumpEntry(|commits| - i, commits[i])];
    }
  }
}
