/**
 * The fragment of regular-expression syntax that the glob compiler emits, as a
 * small syntax tree with two readings: `Print` gives the exact text the compiler
 * writes, and `Lang` gives the set of strings that text matches under the `regex`
 * crate's default flags (`.` excludes the newline, `[^/]` does not, `^` and `$`
 * anchor at the ends of the whole input).
 */
module RegexModel {

  datatype Re =
    | Empty                    // the empty string
    | Literal(text: string)    // `regex::escape(text)`
    | SegmentWildcard          // `([^/]*)`
    | Slash                    // `[/]`
    | AnyRun                   // `.*`
    | Cat(left: Re, right: Re) // concatenation
    | Opt(body: Re)            // `((?:body)?)`
    | Alt(first: Re, second: Re) // `((?:first)|second)`

  // MARK: escaping

  /** The characters `regex::escape` puts a backslash in front of. */
  predicate IsMeta(c: char)
  {
    c in "\\.+*?()|[]{}^$#&-~"
  }

  /** `regex::escape`: every meta character is preceded by a backslash. */
  function Escape(s: string): (r: string)
    ensures |r| >= |s|
    decreases |s|
  {
    if |s| == 0 then ""
    else (if IsMeta(s[0]) then ['\\', s[0]] else [s[0]]) + Escape(s[1..])
  }

  /** Reading an escaped literal back: a backslash stands for the character after it. */
  function Unescape(r: string): string
    decreases |r|
  {
    if |r| == 0 then ""
    else if r[0] == '\\' && |r| > 1 then [r[1]] + Unescape(r[2..])
    else [r[0]] + Unescape(r[1..])
  }

  /** Escaping loses nothing (so it is injective). */
  lemma {:induction false} EscapeRoundTrip(s: string)
    ensures Unescape(Escape(s)) == s
    decreases |s|
  {
    if |s| > 0 {
      var t := Escape(s[1..]);
      EscapeRoundTrip(s[1..]);
      if IsMeta(s[0]) {
        assert Escape(s) == ['\\', s[0]] + t;
        UnescapeEscaped(s[0], t);
      } else {
        assert s[0] != '\\';
        assert Escape(s) == [s[0]] + t;
        UnescapePlain(s[0], t);
      }
      assert s == [s[0]] + s[1..];
    }
  }

  lemma UnescapeEscaped(c: char, r: string)
    ensures Unescape(['\\', c] + r) == [c] + Unescape(r)
  {
    assert (['\\', c] + r)[2..] == r;
  }

  lemma UnescapePlain(c: char, r: string)
    requires c != '\\'
    ensures Unescape([c] + r) == [c] + Unescape(r)
  {
    assert ([c] + r)[1..] == r;
  }

  lemma EscapeInjective(s: string, t: string)
    requires Escape(s) == Escape(t)
    ensures s == t
  {
    EscapeRoundTrip(s);
    EscapeRoundTrip(t);
  }

  // MARK: the two readings

  function Print(r: Re): string
  {
    match r
    case Empty => ""
    case Literal(t) => Escape(t)
    case SegmentWildcard => "([^/]*)"
    case Slash => "[/]"
    case AnyRun => ".*"
    case Cat(a, b) => Print(a) + Print(b)
    case Opt(a) => "((?:" + Print(a) + ")?)"
    case Alt(a, b) => "((?:" + Print(a) + ")|" + Print(b) + ")"
  }

  /** `s` is matched in full by `r`. */
  predicate Lang(r: Re, s: string)
  {
    match r
    case Empty => s == ""
    case Literal(t) => s == t
    case SegmentWildcard => '/' !in s
    case Slash => s == "/"
    case AnyRun => '\n' !in s
    case Cat(a, b) => exists k :: 0 <= k <= |s| && Lang(a, s[..k]) && Lang(b, s[k..])
    case Opt(a) => s == "" || Lang(a, s)
    case Alt(a, b) => Lang(a, s) || Lang(b, s)
  }

  /** Splitting a match of a concatenation at a chosen point. */
  lemma CatAt(a: Re, b: Re, s: string, k: nat)
    requires k <= |s| && Lang(a, s[..k]) && Lang(b, s[k..])
    ensures Lang(Cat(a, b), s)
  {
  }

  lemma CatOf(a: Re, b: Re, x: string, y: string)
    requires Lang(a, x) && Lang(b, y)
    ensures Lang(Cat(a, b), x + y)
  {
    var s := x + y;
    assert s[..|x|] == x && s[|x|..] == y;
  }

  lemma CatEmpty(a: Re, s: string)
    ensures Lang(Cat(a, Empty), s) <==> Lang(a, s)
  {
    assert s[..|s|] == s;
    if Lang(a, s) {
      CatAt(a, Empty, s, |s|);
    }
    if Lang(Cat(a, Empty), s) {
      var k :| 0 <= k <= |s| && Lang(a, s[..k]) && Lang(Empty, s[k..]);
      assert k == |s|;
    }
  }

  /** A concatenation that starts with a slash matches exactly the texts that
      start with one and go on with a match of the rest. */
  lemma SlashThen(b: Re, s: string)
    ensures Lang(Cat(Slash, b), s) <==> |s| > 0 && s[0] == '/' && Lang(b, s[1..])
  {
    if |s| > 0 && s[0] == '/' && Lang(b, s[1..]) {
      assert s[..1] == "/";
      CatAt(Slash, b, s, 1);
    }
  }

  /** A concatenation that ends with a slash matches exactly the texts that end
      with one after a match of the start. */
  lemma ThenSlash(a: Re, s: string)
    ensures Lang(Cat(a, Slash), s) <==> |s| > 0 && s[|s| - 1] == '/' && Lang(a, s[..|s| - 1])
  {
    if |s| > 0 && s[|s| - 1] == '/' && Lang(a, s[..|s| - 1]) {
      assert s[|s| - 1..] == "/";
      CatAt(a, Slash, s, |s| - 1);
    }
  }

  /** A match of a concatenation, cut into the matches of its two halves. */
  lemma CatParts(a: Re, b: Re, s: string) returns (x: string, y: string)
    requires Lang(Cat(a, b), s)
    ensures s == x + y && Lang(a, x) && Lang(b, y)
  {
    var k :| 0 <= k <= |s| && Lang(a, s[..k]) && Lang(b, s[k..]);
    x, y := s[..k], s[k..];
    assert s == x + y;
  }

  /** `((?:[/]x)|[/])` followed by `r` is a slash followed by `((?:x)?)` and `r`. */
  lemma SlashThenOpt(x: Re, r: Re, t: string)
    ensures Lang(Cat(Alt(Cat(Slash, x), Slash), r), t)
            <==> |t| > 0 && t[0] == '/' && Lang(Cat(Opt(x), r), t[1..])
  {
    if Lang(Cat(Alt(Cat(Slash, x), Slash), r), t) {
      SlashThenOptFrom(x, r, t);
    }
    if |t| > 0 && t[0] == '/' && Lang(Cat(Opt(x), r), t[1..]) {
      SlashThenOptTo(x, r, t);
    }
  }

  lemma SlashThenOptFrom(x: Re, r: Re, t: string)
    requires Lang(Cat(Alt(Cat(Slash, x), Slash), r), t)
    ensures |t| > 0 && t[0] == '/' && Lang(Cat(Opt(x), r), t[1..])
  {
    var alt := Alt(Cat(Slash, x), Slash);
    var a, u := CatParts(alt, r, t);
    SlashThen(x, a);
    if Lang(Cat(Slash, x), a) {
      assert t[1..] == a[1..] + u;
      CatOf(Opt(x), r, a[1..], u);
    } else {
      assert t[1..] == "" + u;
      CatOf(Opt(x), r, "", u);
    }
  }

  lemma SlashThenOptTo(x: Re, r: Re, t: string)
    requires |t| > 0 && t[0] == '/' && Lang(Cat(Opt(x), r), t[1..])
    ensures Lang(Cat(Alt(Cat(Slash, x), Slash), r), t)
  {
    var alt := Alt(Cat(Slash, x), Slash);
    var a, u := CatParts(Opt(x), r, t[1..]);
    var head := "/" + a;
    assert t == head + u by {
      assert t == [t[0]] + t[1..];
    }
    assert Lang(alt, head) by {
      if a != "" {
        SlashThen(x, head);
        assert head[1..] == a;
      }
    }
    CatOf(alt, r, head, u);
  }
}
