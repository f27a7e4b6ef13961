/**
 * One commit of the repository's history (commit.go): the record the scanner builds and
 * the two methods that set its dates from `AuthorDate:` and `CommitDate:` lines.
 */
module CommitRecords {
  import opened Wrappers
  import opened GoStrings

  /** An instant as Go's time.Time carries it: seconds since the Unix epoch and a zone offset. */
  datatype Time = Time(unixSeconds: int, offsetSeconds: int)

  /** Go's zero time.Time: January 1 of year 1, 00:00:00 UTC. */
  const ZeroTime := Time(-62135596800, 0)

  /** The layout both date lines are parsed with (Go's reference-time notation). */
  const DateLayout := "Mon Jan 2 15:04:05 2006 -0700"

  const AuthorDateTrim := "AuthorDate: "
  const CommitDateTrim := "CommitDate: "

  /** time.Parse, left abstract: layout and text to the parsed instant, or None on an error. */
  type TimeParser = (string, string) -> Option<Time>

  /** A touched file, known by its path. */
  datatype MatchFile = MatchFile(Path: string)

  /** The value of a Commit struct, as it is copied into the list of commits. */
  datatype CommitRecord = CommitRecord(
    id: string,
    author: string,
    authorDate: Time,
    commit: string,
    commitDate: Time,
    comment: string,
    matchFiles: seq<MatchFile>)

  /** The zero value Commit{} */
  const EmptyCommit := CommitRecord("", "", ZeroTime, "", ZeroTime, "", [])

  /** The Commit variable that the scanner fills in place. */
  class Commit {
    var id: string
    var author: string
    var authorDate: Time
    var commit: string
    var commitDate: Time
    var comment: string
    var matchFiles: seq<MatchFile>

    /** Commit{} */
    constructor ()
      ensures Snapshot() == EmptyCommit
    {
      id, author, authorDate := "", "", ZeroTime;
      commit, commitDate := "", ZeroTime;
      comment, matchFiles := "", [];
    }

    /** The struct's current value. */
    function Snapshot(): CommitRecord
      reads this
    {
      CommitRecord(id, author, authorDate, commit, commitDate, comment, matchFiles)
    }

    /**
     * Sets authorDate from the text after "AuthorDate: " when it parses with DateLayout;
     * otherwise keeps the previous value. No other field changes, and no error escapes.
     */
    method AuthorDate(line: string, parseTime: TimeParser)
      modifies this`authorDate
      ensures var t := parseTime(DateLayout, TrimPrefix(line, AuthorDateTrim));
        authorDate == if t.Some? then t.value else old(authorDate)
      ensures Snapshot() == old(Snapshot()).(authorDate := authorDate)
    {
      var t := parseTime(DateLayout, TrimPrefix(line, AuthorDateTrim));
      if t.Some? {
        authorDate := t.value;
      }
    }

    /**
     * Sets commitDate from the text after "CommitDate: " when it parses with DateLayout;
     * otherwise keeps the previous value. No other field changes, and no error escapes.
     */
    method CommitDate(line: string, parseTime: TimeParser)
      modifies this`commitDate
      ensures var t := parseTime(DateLayout, TrimPrefix(line, CommitDateTrim));
        commitDate == if t.Some? then t.value else old(commitDate)
      ensures Snapshot() == old(Snapshot()).(commitDate := commitDate)
    {
      var t := parseTime(DateLayout, TrimPrefix(line, CommitDateTrim));
      if t.Some? {
        commitDate := t.value;
      }
    }
  }
}
