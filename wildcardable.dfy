/**
 * A partition value that may be wildcarded (`Wildcardable<T>` in wildcardable.rs):
 * `ts=*` holds `Star`, `ts=1337` holds `Value(1337)`. The value type's own
 * printing and parsing are parameters, standing for its `Display` and `FromStr`.
 */
module Wildcard {
  import opened Util

  datatype Wildcardable<T> = Star | Value(value: T)

  /** `Default`: a partition left unspecified is wildcarded. */
  function Default<T>(): (r: Wildcardable<T>)
    ensures r.Star?
  {
    Star
  }

  /** `inner`, `into_inner` and the conversion into `Option<T>`: the explicit value,
      if there is one. */
  function Inner<T>(w: Wildcardable<T>): (r: Option<T>)
    ensures r.None? <==> w.Star?
    ensures w.Value? ==> r == Some(w.value)
  {
    match w
    case Star => None
    case Value(x) => Some(x)
  }

  /** `From<T>`: an explicit value. */
  function FromValue<T>(x: T): (r: Wildcardable<T>)
    ensures Inner(r) == Some(x)
  {
    Value(x)
  }

  /** `Display`: a star, or the value as the value type prints it. */
  function Show<T>(w: Wildcardable<T>, show: T -> string): (r: string)
    ensures w.Star? ==> r == "*"
  {
    match w
    case Star => "*"
    case Value(x) => show(x)
  }

  /** `FromStr`: exactly the text `*` is a star; any other text is handed to the
      value type's parser, and fails when that parser fails. */
  function Parse<T>(s: string, parse: string -> Option<T>): (r: Option<Wildcardable<T>>)
    ensures r.None? <==> s != "*" && parse(s).None?
    ensures s == "*" ==> r == Some(Star)
    ensures s != "*" && parse(s).Some? ==> r == Some(Value(parse(s).value))
  {
    if s == "*" then Some(Star)
    else
      match parse(s)
      case None => None
      case Some(x) => Some(Value(x))
  }

  // MARK: laws

  /** An explicit value is recovered from its wrapper, and a wrapper from its
      explicit value. */
  lemma InnerFromValue<T>(w: Wildcardable<T>)
    ensures Inner(w).Some? ==> FromValue(Inner(w).value) == w
    ensures Inner(w).None? ==> w == Default()
  {
  }

  /** A printed star parses back as a star, whatever the value type. */
  lemma ParseShowStar<T>(show: T -> string, parse: string -> Option<T>)
    ensures Parse(Show(Star, show), parse) == Some(Star)
  {
  }

  /** A printed value parses back as itself when the value type's own printing
      round-trips and does not print as a lone star. */
  lemma ParseShowValue<T>(x: T, show: T -> string, parse: string -> Option<T>)
    requires parse(show(x)) == Some(x) && show(x) != "*"
    ensures Parse(Show(Value(x), show), parse) == Some(Value(x))
  {
  }

  /** A value that prints as a lone star (a string value `*`, say) parses back as
      the wildcard, not as itself: the printed form does not tell them apart. */
  lemma StarLookalike<T>(x: T, show: T -> string, parse: string -> Option<T>)
    requires show(x) == "*"
    ensures Parse(Show(Value(x), show), parse) == Some(Star)
    ensures Show(Value(x), show) == Show(Star, show)
  {
  }

  /** Printing what was parsed gives the text back, when the value type prints
      what it parsed as the text it came from. */
  lemma ShowParse<T>(s: string, show: T -> string, parse: string -> Option<T>)
    requires Parse(s, parse).Some?
    requires parse(s).Some? ==> show(parse(s).value) == s
    ensures Show(Parse(s, parse).value, show) == s
  {
  }
}
