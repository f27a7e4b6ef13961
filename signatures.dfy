/**
 * Comment signatures (signatures.go): case-insensitive substring signatures and regular
 * expression signatures, their getters and Match, and the registry that ParsePatternsFile
 * fills from the decoded patterns file.
 */
module Signatures {
  import opened Wrappers
  import opened GoStrings

  // ----- Case-insensitive containment -----

  /** b occurs in a at index i when letter case is ignored, compared letter by letter. */
  ghost predicate OccursIgnoringCaseAt(a: string, b: string, i: int) {
    0 <= i && i + |b| <= |a| && forall j :: 0 <= j < |b| ==> LowerChar(a[i + j]) == LowerChar(b[j])
  }

  /** ContainsI: b occurs in a, letter by letter, when letter case is ignored. */
  function ContainsI(a: string, b: string): (r: bool)
    ensures r <==> exists i :: OccursIgnoringCaseAt(a, b, i)
  {
    LowerContains(a, b);
    Contains(ToLower(a), ToLower(b))
  }

  /** The lower-cased b is a substring of the lower-cased a iff b occurs in a up to case. */
  lemma LowerContains(a: string, b: string)
    ensures Contains(ToLower(a), ToLower(b)) <==> exists i :: OccursIgnoringCaseAt(a, b, i)
  {
    var la, lb := ToLower(a), ToLower(b);
    forall i ensures OccursAt(la, lb, i) <==> OccursIgnoringCaseAt(a, b, i) {
      if 0 <= i && i + |b| <= |a| {
        if OccursAt(la, lb, i) {
          forall j | 0 <= j < |b| ensures LowerChar(a[i + j]) == LowerChar(b[j]) {
            assert la[i..i + |b|][j] == la[i + j];
          }
        }
        if OccursIgnoringCaseAt(a, b, i) {
          assert la[i..i + |b|] == lb;
        }
      }
    }
  }

  /** The empty pattern is found in every comment. */
  lemma ContainsIEmpty(a: string)
    ensures ContainsI(a, "")
  {
    assert OccursIgnoringCaseAt(a, "", 0);
  }

  /** Changing the letter case of either argument does not change the answer. */
  lemma ContainsIIgnoresCase(a: string, b: string)
    ensures ContainsI(ToUpper(a), b) == ContainsI(a, b) == ContainsI(ToLower(a), b)
    ensures ContainsI(a, ToUpper(b)) == ContainsI(a, b) == ContainsI(a, ToLower(b))
  {
    LowerForgetsCase(a);
    LowerForgetsCase(b);
  }

  /** A pattern found in some text is found in any text around it. */
  lemma ContainsIWithin(x: string, a: string, y: string, b: string)
    requires ContainsI(a, b)
    ensures ContainsI(x + a + y, b)
  {
    var i :| OccursIgnoringCaseAt(a, b, i);
    var t := x + a + y;
    forall j | 0 <= j < |b| ensures LowerChar(t[|x| + i + j]) == LowerChar(b[j]) {
      assert t[|x| + i + j] == a[i + j];
    }
    assert OccursIgnoringCaseAt(t, b, |x| + i);
  }

  /** A lower-case pattern finds its capitalised occurrence. */
  lemma ContainsIExample()
    ensures ContainsI("fixed Oops here", "oops")
  {
    var a, b := "fixed Oops here", "oops";
    assert a[6] == 'O' && a[7] == 'o' && a[8] == 'p' && a[9] == 's';
    assert OccursIgnoringCaseAt(a, b, 6);
  }

  // ----- Signatures -----

  /** A compiled regular expression, known by its source text; the matching engine is a parameter. */
  datatype Regexp = Regexp(expr: string)

  /** regexp.MustCompile on a pattern it accepts */
  function MustCompile(pattern: string): (r: Regexp)
    ensures r.expr == pattern
  {
    Regexp(pattern)
  }

  /** Regexp.MatchString, left abstract: does the expression match somewhere in the text? */
  type RegexMatcher = (Regexp, string) -> bool

  datatype SimpleCommentSignature = SimpleCommentSignature(Pattern: string, Description: string, Comment: string)

  /** Regexp is None while the pointer is nil, that is until CompileRegexp has run. */
  datatype PatternCommentSignature =
    PatternCommentSignature(Regexp: Option<Regexp>, Pattern: string, Description: string, Comment: string)

  /** A value of the CommentSignature interface: one of the two implementations. */
  datatype CommentSignature =
    | Simple(simple: SimpleCommentSignature)
    | Pattern(pattern: PatternCommentSignature)

  function GetDescription(sig: CommentSignature): string {
    match sig
    case Simple(s) => s.Description
    case Pattern(p) => p.Description
  }

  function GetComment(sig: CommentSignature): string {
    match sig
    case Simple(s) => s.Comment
    case Pattern(p) => p.Comment
  }

  function GetPattern(sig: CommentSignature): string {
    match sig
    case Simple(s) => s.Pattern
    case Pattern(p) => p.Pattern
  }

  /** Match can be called: a pattern signature's Regexp pointer is not nil. */
  predicate CanMatch(sig: CommentSignature) {
    sig.Pattern? ==> sig.pattern.Regexp.Some?
  }

  /**
   * Match: a simple signature looks for its pattern in the comment ignoring case; a pattern
   * signature asks the regular expression.
   */
  function Match(sig: CommentSignature, comment: string, regexMatch: RegexMatcher): (r: bool)
    requires CanMatch(sig)
  {
    match sig
    case Simple(s) => ContainsI(comment, s.Pattern)
    case Pattern(p) => regexMatch(p.Regexp.value, comment)
  }

  /** A simple signature matches exactly the comments holding its pattern in any letter case. */
  lemma SimpleMatch(s: SimpleCommentSignature, comment: string, regexMatch: RegexMatcher)
    ensures Match(Simple(s), comment, regexMatch) <==> exists i :: OccursIgnoringCaseAt(comment, s.Pattern, i)
    ensures Match(Simple(s), comment, regexMatch) == Match(Simple(s), ToUpper(comment), regexMatch)
  {
    ContainsIIgnoresCase(comment, s.Pattern);
  }

  /** The value CompileRegexp leaves behind: Regexp compiled from its own Pattern. */
  function Compiled(p: PatternCommentSignature): (r: PatternCommentSignature)
    ensures r.Regexp == Some(MustCompile(p.Pattern))
    ensures r.Pattern == p.Pattern && r.Description == p.Description && r.Comment == p.Comment
  {
    p.(Regexp := Some(MustCompile(p.Pattern)))
  }

  /** The loop variable of ParsePatternsFile's second loop, which CompileRegexp updates through a pointer. */
  class PatternVariable {
    var Regexp: Option<Regexp>
    var Pattern: string
    var Description: string
    var Comment: string

    constructor (p: PatternCommentSignature)
      ensures Value() == p
    {
      Regexp, Pattern, Description, Comment := p.Regexp, p.Pattern, p.Description, p.Comment;
    }

    function Value(): PatternCommentSignature
      reads this
    {
      PatternCommentSignature(Regexp, Pattern, Description, Comment)
    }

    /** Sets Regexp from Pattern and touches nothing else. */
    method CompileRegexp()
      modifies this`Regexp
      ensures Value() == Compiled(old(Value()))
    {
      Regexp := Some(MustCompile(Pattern));
    }
  }

  /** The decoded patterns file */
  datatype JSONPatterns = JSONPatterns(Patterns: seq<PatternCommentSignature>, Simples: seq<SimpleCommentSignature>)

  /** What ParsePatternsFile appends: every simple signature, then every pattern signature compiled. */
  function Assembled(decoded: JSONPatterns): seq<CommentSignature> {
    seq(|decoded.Simples|, i requires 0 <= i < |decoded.Simples| => Simple(decoded.Simples[i]))
    + seq(|decoded.Patterns|, i requires 0 <= i < |decoded.Patterns| => Pattern(Compiled(decoded.Patterns[i])))
  }

  /**
   * The appended list: one entry per decoded signature, simples first and in file order, then
   * patterns in file order; each entry reports the decoded pattern, description and comment,
   * and every entry can be matched, each pattern compiled from its own pattern text.
   */
  lemma AssembledShape(decoded: JSONPatterns)
    ensures var a, ns := Assembled(decoded), |decoded.Simples|;
      && |a| == ns + |decoded.Patterns|
      && (forall i :: 0 <= i < ns ==> a[i] == Simple(decoded.Simples[i]))
      && (forall i :: 0 <= i < ns ==>
            GetPattern(a[i]) == decoded.Simples[i].Pattern
            && GetDescription(a[i]) == decoded.Simples[i].Description
            && GetComment(a[i]) == decoded.Simples[i].Comment)
      && (forall j :: 0 <= j < |decoded.Patterns| ==>
            a[ns + j].Pattern? && a[ns + j].pattern.Regexp == Some(MustCompile(decoded.Patterns[j].Pattern)))
      && (forall j :: 0 <= j < |decoded.Patterns| ==>
            GetPattern(a[ns + j]) == decoded.Patterns[j].Pattern
            && GetDescription(a[ns + j]) == decoded.Patterns[j].Description
            && GetComment(a[ns + j]) == decoded.Patterns[j].Comment)
      && (forall i :: 0 <= i < |a| ==> CanMatch(a[i]))
  {
    AssembledEntries(decoded);
    var a, ns := Assembled(decoded), |decoded.Simples|;
    forall i | 0 <= i < |a| ensures CanMatch(a[i]) {
      if i >= ns {
        assert a[ns + (i - ns)] == Pattern(Compiled(decoded.Patterns[i - ns]));
      }
    }
  }

  /** The entry at each index of the appended list */
  lemma AssembledEntries(decoded: JSONPatterns)
    ensures var a, ns := Assembled(decoded), |decoded.Simples|;
      && |a| == ns + |decoded.Patterns|
      && (forall i :: 0 <= i < ns ==> a[i] == Simple(decoded.Simples[i]))
      && (forall j :: 0 <= j < |decoded.Patterns| ==> a[ns + j] == Pattern(Compiled(decoded.Patterns[j])))
  {
    var a, ns := Assembled(decoded), |decoded.Simples|;
    forall j | 0 <= j < |decoded.Patterns| ensures a[ns + j] == Pattern(Compiled(decoded.Patterns[j])) {
    }
  }

  /**
   * What Match asks of each appended entry: a simple signature looks for its decoded pattern in
   * the comment ignoring case, a pattern signature runs the regular expression compiled from
   * its own decoded pattern.
   */
  lemma AssembledMatch(decoded: JSONPatterns, comment: string, regexMatch: RegexMatcher)
    ensures var a, ns := Assembled(decoded), |decoded.Simples|;
      && (forall i :: 0 <= i < ns ==>
            a[i].Simple? && (Match(a[i], comment, regexMatch) <==> ContainsI(comment, decoded.Simples[i].Pattern)))
      && (forall j :: 0 <= j < |decoded.Patterns| ==>
            a[ns + j].Pattern? && a[ns + j].pattern.Regexp.Some? &&
            Match(a[ns + j], comment, regexMatch) == regexMatch(MustCompile(decoded.Patterns[j].Pattern), comment))
  {
    AssembledShape(decoded);
  }

  /**
   * The getters return the stored fields of either kind of signature, and compiling a pattern
   * signature changes none of them.
   */
  lemma GettersReturnStoredFields(s: SimpleCommentSignature, p: PatternCommentSignature)
    ensures GetPattern(Simple(s)) == s.Pattern && GetDescription(Simple(s)) == s.Description
         && GetComment(Simple(s)) == s.Comment
    ensures GetPattern(Pattern(p)) == p.Pattern && GetDescription(Pattern(p)) == p.Description
         && GetComment(Pattern(p)) == p.Comment
    ensures GetPattern(Pattern(Compiled(p))) == p.Pattern && GetDescription(Pattern(Compiled(p))) == p.Description
         && GetComment(Pattern(Compiled(p))) == p.Comment
  {
  }

  /** The package-level CommentSignatures slice */
  class SignatureRegistry {
    var CommentSignatures: seq<CommentSignature>

    constructor ()
      ensures CommentSignatures == []
    {
      CommentSignatures := [];
    }

    /**
     * ParsePatternsFile after the file has been opened and decoded: the existing entries stay
     * in place and Assembled(decoded) is appended; the answer is always true.
     */
    method ParsePatternsFile(decoded: JSONPatterns) returns (ok: bool)
      modifies this
      ensures ok
      ensures CommentSignatures == old(CommentSignatures) + Assembled(decoded)
    {
      ghost var before := CommentSignatures;
      ghost var all := Assembled(decoded);
      ghost var ns := |decoded.Simples|;
      for i := 0 to |decoded.Simples|
        invariant CommentSignatures == before + all[..i]
      {
        assert all[..i + 1] == all[..i] + [Simple(decoded.Simples[i])];
        CommentSignatures := CommentSignatures + [Simple(decoded.Simples[i])];
      }
      for j := 0 to |decoded.Patterns|
        invariant CommentSignatures == before + all[..ns + j]
      {
        var pattern := new PatternVariable(decoded.Patterns[j]);
        pattern.CompileRegexp();
        assert all[..ns + j + 1] == all[..ns + j] + [Pattern(pattern.Value())];
        CommentSignatures := CommentSignatures + [Pattern(pattern.Value())];
      }
      assert all[..ns + |decoded.Patterns|] == all;
      ok := true;
    }
  }
}
