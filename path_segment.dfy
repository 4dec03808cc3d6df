/**
 * One `/`-separated token of a datapath (`PathSegment` in index/mod.rs): either a
 * constant such as `web`, or a `key=value` partition such as `domain=example.com`.
 * Parsing cuts at the first `=` only, so the value may itself hold `=`; it fails
 * on the empty token and on any token holding a newline.
 */
module PathSegments {
  import opened Util

  datatype PathSegment =
    | Constant(text: string)
    | Value(key: string, value: string)

  /** `Display for PathSegment`. */
  function Show(seg: PathSegment): string
  {
    match seg
    case Constant(x) => x
    case Value(k, v) => k + "=" + v
  }

  /** `FromStr for PathSegment`; `None` stands for `Err(())`. */
  function Parse(s: string): (r: Option<PathSegment>)
    ensures r.None? <==> '\n' in s || |s| == 0
    ensures r.Some? && r.value.Constant? ==> r.value.text == s
  {
    if '\n' in s then None
    else if |s| == 0 then None
    else if '=' in s then
      var parts := Split(s, '=');
      Some(Value(parts[0], Join(parts[1..], "=")))
    else Some(Constant(s))
  }

  /** The segments that `Parse` produces, and that print back to a token it
      accepts: a constant is non-empty and holds no `=`, a key holds no `=`, and
      nothing holds a newline. */
  predicate WellFormed(seg: PathSegment)
  {
    match seg
    case Constant(x) => |x| > 0 && '=' !in x && '\n' !in x
    case Value(k, v) => '=' !in k && '\n' !in k && '\n' !in v
  }

  /** Printing a parsed token gives the token back: the cut at the first `=` loses
      nothing (`a=b=c` is key `a`, value `b=c`; `=x` is key ``, value `x`). */
  lemma ShowParse(s: string)
    requires Parse(s).Some?
    ensures Show(Parse(s).value) == s
    ensures WellFormed(Parse(s).value)
  {
    if '=' in s {
      var parts := Split(s, '=');
      if |parts| == 1 {
        SplitSingle(s, '=');
      }
      JoinSplit(s, '=');
      assert Join(parts, "=") == parts[0] + "=" + Join(parts[1..], "=");
      SplitWithout(s, '=', '\n');
      JoinWithout(parts[1..], "=", '\n');
    }
  }

  /** Parsing a printed well-formed segment gives the segment back. */
  lemma ParseShow(seg: PathSegment)
    requires WellFormed(seg)
    ensures Parse(Show(seg)) == Some(seg)
  {
    match seg
    case Constant(x) =>
    case Value(k, v) =>
      var s := k + "=" + v;
      assert s == k + ['='] + v;
      assert '=' in s by { assert s[|k|] == '='; }
      assert '\n' !in s by {
        forall i | 0 <= i < |s| ensures s[i] != '\n' {
          if i < |k| { assert s[i] == k[i]; }
          else if i > |k| { assert s[i] == v[i - |k| - 1]; }
        }
      }
      SplitAppend(k, '=', v);
      SplitNone(k, '=');
      JoinSplit(v, '=');
      assert Split(s, '=')[1..] == Split(v, '=');
  }

  /** Parsing is injective on the tokens it accepts. */
  lemma ParseInjective(s: string, t: string)
    requires Parse(s).Some? && Parse(s) == Parse(t)
    ensures s == t
  {
    ShowParse(s);
    ShowParse(t);
  }

  /** A value's text replaced by `*`, as the index does before keying a path. */
  function Mask(seg: PathSegment): (r: PathSegment)
    ensures r.Constant? <==> seg.Constant?
    ensures WellFormed(seg) ==> WellFormed(r)
  {
    match seg
    case Constant(_) => seg
    case Value(k, _) => Value(k, "*")
  }

  lemma MaskIdempotent(seg: PathSegment)
    ensures Mask(Mask(seg)) == Mask(seg)
    ensures seg.Value? ==> Show(Mask(seg)) == seg.key + "=*"
  {
  }
}
