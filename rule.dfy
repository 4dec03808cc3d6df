/**
 * `Rule` (rule.rs): a glob pattern compiled to an anchored regular expression.
 * `Rule::regex_str` is tokenize, reduce, assemble; `Rule::new` rejects the
 * patterns `regex_str` rejects and otherwise keeps the compiled expression and the
 * pattern text. The compiled `Regex` is modelled by the syntax tree of the same
 * segments, whose printing is the text `regex_str` writes and whose language is
 * the full-match language of `^...$`.
 */
module GlobRule {
  import opened Util
  import opened Tokenizer
  import opened RegexModel
  import opened RegexSegments
  import opened GlobSemantics

  datatype Rule = Rule(regex: Re, pattern: string)

  /** A kept piece is rejected exactly when it is a run of three or more stars. */
  lemma RejectedPieces(pieces: seq<string>)
    ensures (exists i :: 0 <= i < |pieces| && IsStarRun(pieces[i]) && pieces[i] != "**")
            <==> HasLongRun(pieces)
  {
    forall i | 0 <= i < |pieces| && |pieces[i]| == 2 && AllStars(pieces[i])
      ensures pieces[i] == "**"
    {
      assert pieces[i] == [pieces[i][0], pieces[i][1]];
    }
  }

  /** The segment list of a pattern (the first two phases of `regex_str`). */
  function Program(pattern: string): (r: Option<seq<RegexSegment>>)
    ensures r.None? <==> HasTripleStar(pattern)
    ensures r.Some? ==> WellFormed(r.value) && FragmentsBuilt(r.value)
  {
    LexLongRun(pattern);
    LexPieces(pattern);
    RejectedPieces(Lex(pattern));
    Reduced(Lex(pattern), false)
  }

  /** `Rule::regex_str`: the unanchored expression text, or `None`. */
  function RegexText(pattern: string): (r: Option<string>)
    ensures r.None? <==> HasTripleStar(pattern)
  {
    match Program(pattern)
    case None => None
    case Some(segs) => Some(AssembledFrom(segs, 0))
  }

  /** `Rule::new`. */
  function Compile(pattern: string): (r: Option<Rule>)
    ensures r.None? <==> HasTripleStar(pattern)
    ensures r.Some? ==> r.value.pattern == pattern
    ensures r.Some? ==> RegexText(pattern) == Some(Print(r.value.regex))
  {
    match Program(pattern)
    case None => None
    case Some(segs) =>
      PrintSegments(segs, 0);
      Some(Rule(SegmentsRe(segs, 0), pattern))
  }

  /** The text handed to `Regex::new`. */
  function Source(rule: Rule): string
  {
    "^" + Print(rule.regex) + "$"
  }

  /** A rule that `Rule::new` built. */
  predicate Compiled(rule: Rule)
  {
    Compile(rule.pattern) == Some(rule)
  }

  /** `Rule::pattern`. */
  function Pattern(rule: Rule): (p: string)
    ensures Compiled(rule) ==> Compile(p) == Some(rule)
  {
    rule.pattern
  }

  /** `Rule::raw_regex_str`: `regex_str` of the kept pattern, which never fails for
      a compiled rule, and which the compiled expression anchors. */
  function RawRegexStr(rule: Rule): (r: string)
    requires Compiled(rule)
    ensures RegexText(Pattern(rule)) == Some(r)
    ensures Source(rule) == "^" + r + "$"
  {
    RegexText(rule.pattern).value
  }

  /** `Rule::is_match`: the anchored expression matches all of `s`. */
  predicate IsMatch(rule: Rule, s: string)
  {
    Lang(rule.regex, s)
  }

  // MARK: the imperative `regex_str` and `new`

  method RegexStr(pattern: string) returns (r: Option<string>)
    ensures r == RegexText(pattern)
  {
    var parts := Tokenize(pattern);
    var segments := Reduce(parts);
    if segments.None? {
      return None;
    }
    var reBuilt := Assemble(segments.value);
    return Some(reBuilt);
  }

  method New(pattern: string) returns (r: Option<Rule>)
    ensures r == Compile(pattern)
  {
    var parts := Tokenize(pattern);
    var segments := Reduce(parts);
    if segments.None? {
      return None;
    }
    return Some(Rule(SegmentsRe(segments.value, 0), pattern));
  }

  // MARK: what a rule matches

  /** A compiled rule matches exactly the paths its segments match component by
      component. */
  lemma MatchMeaning(pattern: string, s: string)
    requires Compile(pattern).Some?
    ensures IsMatch(Compile(pattern).value, s) <==> GlobMatch(Program(pattern).value, s)
  {
    SegmentsMeaning(Program(pattern).value, s);
  }

  /** Patterns cut into the same pieces compile to the same expression. */
  lemma SamePieces(p: string, q: string)
    requires Lex(p) == Lex(q)
    ensures RegexText(p) == RegexText(q)
    ensures Compile(p).Some? <==> Compile(q).Some?
    ensures Compile(p).Some? ==> Compile(p).value.regex == Compile(q).value.regex
  {
  }

  /** Repeated, leading and trailing slashes do not change the expression. */
  lemma SlashesIgnored(a: string, b: string)
    ensures RegexText(a + "//" + b) == RegexText(a + "/" + b)
    ensures RegexText("/" + a) == RegexText(a)
    ensures RegexText(a + "/") == RegexText(a)
  {
    DuplicateSlash(a, b);
    SamePieces(a + "//" + b, a + "/" + b);
    SurroundingSlash(a);
    SamePieces("/" + a, a);
    SamePieces(a + "/", a);
  }

  /** A `**` needs no slashes around it: `root**test` compiles like
      `root/**/test`. */
  lemma DoubleStarNeedsNoSlashes(a: string, b: string)
    requires |a| > 0 ==> a[|a| - 1] != '*'
    requires |b| > 0 ==> b[0] != '*'
    ensures RegexText(a + "**" + b) == RegexText(a + "/**/" + b)
  {
    LexDoubleStar(a, b);
    LexSlashedDoubleStar(a, b);
    SamePieces(a + "**" + b, a + "/**/" + b);
  }
}
