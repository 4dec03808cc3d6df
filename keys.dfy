/**
 * The trie keys of the datapath index (index/mod.rs). A stored path is keyed by
 * its skeleton: its `/`-separated tokens that parse as path segments, every
 * `key=value` value replaced by `*`, joined with `/`. A query is keyed by the same
 * masking applied to the tokens of its trimmed text up to the first token that is
 * a bare `*` or `**`, so the key stops where the query's first lone wildcard
 * starts.
 */
module IndexKeys {
  import opened Util
  import opened PathSegments

  // MARK: trimming

  /** `char::is_whitespace`: the characters with the Unicode `White_Space`
      property. */
  predicate IsWhitespace(c: char)
  {
    ('\t' <= c <= '\r') || c == ' ' || c == '\U{85}' || c == '\U{A0}' || c == '\U{1680}'
    || ('\U{2000}' <= c <= '\U{200A}') || c == '\U{2028}' || c == '\U{2029}'
    || c == '\U{202F}' || c == '\U{205F}' || c == '\U{3000}'
  }

  predicate IsSlash(c: char)
  {
    c == '/'
  }

  /** `str::trim_start_matches` with a character class: the longest suffix that
      does not start with a dropped character. */
  function TrimStart(s: string, drop: char -> bool): (r: string)
    ensures |r| <= |s| && r == s[|s| - |r|..]
    ensures forall i :: 0 <= i < |s| - |r| ==> drop(s[i])
    ensures |r| > 0 ==> !drop(r[0])
    decreases |s|
  {
    if |s| > 0 && drop(s[0]) then TrimStart(s[1..], drop) else s
  }

  /** `str::trim_end_matches` with a character class: the longest prefix that does
      not end with a dropped character. */
  function TrimEnd(s: string, drop: char -> bool): (r: string)
    ensures |r| <= |s| && r == s[..|r|]
    ensures forall i :: |r| <= i < |s| ==> drop(s[i])
    ensures |r| > 0 ==> !drop(r[|r| - 1])
    decreases |s|
  {
    if |s| > 0 && drop(s[|s| - 1]) then TrimEnd(s[..|s| - 1], drop) else s
  }

  /** `str::trim_matches` with a character class (and `str::trim` with
      `IsWhitespace`). */
  function TrimBoth(s: string, drop: char -> bool): string
  {
    TrimEnd(TrimStart(s, drop), drop)
  }

  /** What the two-sided trim leaves: a piece of the text, with dropped characters
      only around it and none at either of its ends. */
  lemma TrimBothPiece(s: string, drop: char -> bool) returns (a: nat, r: string)
    ensures r == TrimBoth(s, drop)
    ensures a + |r| <= |s| && r == s[a..a + |r|]
    ensures forall i :: 0 <= i < a ==> drop(s[i])
    ensures forall i :: a + |r| <= i < |s| ==> drop(s[i])
    ensures |r| > 0 ==> !drop(s[a]) && !drop(s[a + |r| - 1])
  {
    var t := TrimStart(s, drop);
    r := TrimEnd(t, drop);
    a := InnerPiece(s, t, r, drop);
  }

  /** A prefix `r` of a suffix `t` of `s`, with the dropped characters as the
      trims leave them, sits at offset `|s| - |t|`. */
  lemma InnerPiece(s: string, t: string, r: string, drop: char -> bool) returns (a: nat)
    requires |t| <= |s| && t == s[|s| - |t|..]
    requires forall i :: 0 <= i < |s| - |t| ==> drop(s[i])
    requires |t| > 0 ==> !drop(t[0])
    requires |r| <= |t| && r == t[..|r|]
    requires forall i :: |r| <= i < |t| ==> drop(t[i])
    requires |r| > 0 ==> !drop(r[|r| - 1])
    ensures a == |s| - |t|
    ensures a + |r| <= |s| && r == s[a..a + |r|]
    ensures forall i :: a + |r| <= i < |s| ==> drop(s[i])
    ensures |r| > 0 ==> !drop(s[a]) && !drop(s[a + |r| - 1])
  {
    a := |s| - |t|;
    forall i | a + |r| <= i < |s| ensures drop(s[i]) {
      assert s[i] == t[i - a];
    }
    if |r| > 0 {
      assert s[a] == t[0];
      assert s[a + |r| - 1] == r[|r| - 1];
    }
  }

  /** `str::trim_end_matches("**")`: `**` taken off the end as long as the text
      ends with it. */
  function TrimEndDoubleStars(s: string): (r: string)
    ensures |r| <= |s| && r == s[..|r|]
    ensures (|s| - |r|) % 2 == 0
    ensures forall i :: |r| <= i < |s| ==> s[i] == '*'
    ensures !(|r| >= 2 && r[|r| - 2] == '*' && r[|r| - 1] == '*')
    decreases |s|
  {
    if |s| >= 2 && s[|s| - 2] == '*' && s[|s| - 1] == '*' then TrimEndDoubleStars(s[..|s| - 2])
    else s
  }

  /** The text `query_to_key` splits: surrounding whitespace, then trailing `**`,
      then surrounding `/` removed. */
  function Trimmed(query: string): string
  {
    TrimBoth(TrimEndDoubleStars(TrimBoth(query, IsWhitespace)), IsSlash)
  }

  /** A text that none of the three trims touches. */
  lemma TrimmedUntouched(s: string)
    requires |s| > 0 ==> s[|s| - 1] != '*'
    requires |s| > 0 ==> !IsWhitespace(s[0]) && !IsWhitespace(s[|s| - 1])
    requires |s| > 0 ==> s[0] != '/' && s[|s| - 1] != '/'
    ensures Trimmed(s) == s
  {
    assert TrimBoth(s, IsWhitespace) == s;
    assert TrimEndDoubleStars(s) == s;
    assert TrimBoth(s, IsSlash) == s;
  }

  // MARK: segment lists

  /** A token `PathSegment::from_str` accepts. */
  predicate IsToken(t: string)
  {
    |t| > 0 && '\n' !in t
  }

  /** The tokens kept, in order. */
  function Kept(tokens: seq<string>): (r: seq<string>)
    ensures forall i :: 0 <= i < |r| ==> r[i] in tokens && IsToken(r[i])
  {
    if |tokens| == 0 then []
    else (if IsToken(tokens[0]) then [tokens[0]] else []) + Kept(tokens[1..])
  }

  /** The segments of the tokens that parse, in order; the others are skipped. */
  function Segments(tokens: seq<string>): (r: seq<PathSegment>)
    ensures |r| <= |tokens|
    ensures forall i :: 0 <= i < |r| ==> WellFormed(r[i])
  {
    if |tokens| == 0 then []
    else
      var rest := Segments(tokens[1..]);
      match Parse(tokens[0])
      case None => rest
      case Some(seg) => ShowParse(tokens[0]); [seg] + rest
  }

  /** A lone `*` or `**` constant, where a query's key stops. */
  predicate IsWildcard(seg: PathSegment)
  {
    seg == Constant("*") || seg == Constant("**")
  }

  /** The segments of a query's tokens, up to its first lone wildcard. */
  function KeySegments(tokens: seq<string>): (r: seq<PathSegment>)
    ensures r <= Segments(tokens)
    ensures forall i :: 0 <= i < |r| ==> !IsWildcard(r[i])
    ensures |r| < |Segments(tokens)| ==> IsWildcard(Segments(tokens)[|r|])
    ensures (forall i :: 0 <= i < |tokens| ==> tokens[i] != "*" && tokens[i] != "**")
            ==> r == Segments(tokens)
  {
    if |tokens| == 0 then []
    else
      match Parse(tokens[0])
      case None => KeySegments(tokens[1..])
      case Some(seg) => if IsWildcard(seg) then [] else [seg] + KeySegments(tokens[1..])
  }

  function MaskAll(segs: seq<PathSegment>): (r: seq<PathSegment>)
  {
    seq(|segs|, i requires 0 <= i < |segs| => Mask(segs[i]))
  }

  function ShowAll(segs: seq<PathSegment>): (r: seq<string>)
  {
    seq(|segs|, i requires 0 <= i < |segs| => Show(segs[i]))
  }

  /** `segments.iter().join("/")`. */
  function Render(segs: seq<PathSegment>): string
  {
    Join(ShowAll(segs), "/")
  }

  // MARK: keys

  /** The trie key `new` files a path under. */
  function Skeleton(path: string): string
  {
    Render(MaskAll(Segments(Split(path, '/'))))
  }

  /** `DatapathIndex::query_to_key`. */
  function QueryToKey(query: string): string
  {
    Render(MaskAll(KeySegments(Split(Trimmed(query), '/'))))
  }

  // MARK: properties of the keys

  /** The segments print back to exactly the tokens that parse. */
  lemma {:induction false} SegmentsShow(tokens: seq<string>)
    ensures ShowAll(Segments(tokens)) == Kept(tokens)
  {
    if |tokens| > 0 {
      SegmentsShow(tokens[1..]);
      var rest := Segments(tokens[1..]);
      assert Kept(tokens) == (if IsToken(tokens[0]) then [tokens[0]] else []) + Kept(tokens[1..]);
      match Parse(tokens[0])
      case None =>
        assert Segments(tokens) == rest;
      case Some(seg) =>
        ShowParse(tokens[0]);
        assert Segments(tokens) == [seg] + rest;
        assert ShowAll([seg] + rest) == [Show(seg)] + ShowAll(rest);
    }
  }

  /** Well-formed segments survive printing and re-parsing. */
  lemma {:induction false} SegmentsOfShown(segs: seq<PathSegment>)
    requires forall i :: 0 <= i < |segs| ==> WellFormed(segs[i])
    ensures Segments(ShowAll(segs)) == segs
  {
    if |segs| > 0 {
      ParseShow(segs[0]);
      assert ShowAll(segs)[1..] == ShowAll(segs[1..]);
      SegmentsOfShown(segs[1..]);
      assert segs == [segs[0]] + segs[1..];
    }
  }

  lemma MaskSlashFree(seg: PathSegment)
    requires '/' !in Show(seg)
    ensures '/' !in Show(Mask(seg))
  {
    if seg.Value? {
      assert forall x :: x in seg.key ==> x in Show(seg);
    }
  }

  /** Splitting a rendering gives the printed segments back. */
  lemma RenderSplit(segs: seq<PathSegment>)
    requires |segs| > 0
    requires forall i :: 0 <= i < |segs| ==> '/' !in Show(segs[i])
    ensures Split(Render(segs), '/') == ShowAll(segs)
  {
    SplitJoin(ShowAll(segs), '/');
  }

  /** The masked segments of a path: well formed, slash-free, and already masked. */
  lemma SkeletonParts(path: string)
    ensures var ms := MaskAll(Segments(Split(path, '/')));
            (forall i :: 0 <= i < |ms| ==> WellFormed(ms[i]) && '/' !in Show(ms[i]))
            && MaskAll(ms) == ms
  {
    var tokens := Split(path, '/');
    var segs := Segments(tokens);
    SegmentsShow(tokens);
    forall i | 0 <= i < |segs|
      ensures '/' !in Show(Mask(segs[i])) && Mask(Mask(segs[i])) == Mask(segs[i])
    {
      assert Show(segs[i]) == Kept(tokens)[i];
      MaskSlashFree(segs[i]);
      MaskIdempotent(segs[i]);
    }
  }

  /** A skeleton is its own skeleton: the key of a bucket would be filed under
      itself. */
  lemma SkeletonIdempotent(path: string)
    ensures Skeleton(Skeleton(path)) == Skeleton(path)
  {
    var ms := MaskAll(Segments(Split(path, '/')));
    SkeletonParts(path);
    if |ms| == 0 {
      assert Skeleton(path) == "";
      assert Split("", '/') == [""];
    } else {
      RenderSplit(ms);
      SegmentsOfShown(ms);
    }
  }

  /** Masking and rendering keep prefixes. */
  lemma RenderPrefix(a: seq<PathSegment>, b: seq<PathSegment>)
    requires a <= b
    ensures Render(MaskAll(a)) <= Render(MaskAll(b))
  {
    var sa := ShowAll(MaskAll(a));
    var sb := ShowAll(MaskAll(b));
    if 0 < |a| < |b| {
      assert sb == sa + sb[|a|..];
      JoinAppend(sa, sb[|a|..], "/");
    } else if |a| == |b| {
      assert a == b;
    }
  }

  /** The key of a query is a prefix of the skeleton of its trimmed text. */
  lemma QueryKeyPrefix(query: string)
    ensures QueryToKey(query) <= Skeleton(Trimmed(query))
  {
    var tokens := Split(Trimmed(query), '/');
    RenderPrefix(KeySegments(tokens), Segments(tokens));
  }

  /** A query without wildcards, whitespace or slashes at its ends is keyed like
      a stored path of the same text. */
  lemma PlainQueryKey(path: string)
    requires '*' !in path
    requires |path| > 0 ==> !IsWhitespace(path[0]) && !IsWhitespace(path[|path| - 1])
    requires |path| > 0 ==> path[0] != '/' && path[|path| - 1] != '/'
    ensures QueryToKey(path) == Skeleton(path)
  {
    if |path| > 0 {
      assert path[|path| - 1] in path;
    }
    TrimmedUntouched(path);
    var tokens := Split(path, '/');
    PiecesWithout(path, '/', '*');
    forall i | 0 <= i < |tokens| ensures tokens[i] != "*" && tokens[i] != "**" {
      assert "*"[0] == '*' && "**"[0] == '*';
    }
  }

  // MARK: the loops of `new` and `query_to_key`

  /** The masking pass `segments.iter_mut().for_each(..)` followed by the join. */
  method MaskAndJoin(segments: seq<PathSegment>) returns (key: string)
    ensures key == Render(MaskAll(segments))
  {
    var masked := segments;
    var j := 0;
    while j < |masked|
      invariant 0 <= j <= |masked| == |segments|
      invariant forall k :: 0 <= k < j ==> masked[k] == Mask(segments[k])
      invariant forall k :: j <= k < |masked| ==> masked[k] == segments[k]
    {
      match masked[j] {
        case Constant(_) =>
        case Value(k, _) => masked := masked[j := Value(k, "*")];
      }
      j := j + 1;
    }
    assert masked == MaskAll(segments);
    key := Render(masked);
  }

  /** The body of `new`'s loop that computes the key of one path. */
  method SkeletonKey(path: string) returns (key: string)
    ensures key == Skeleton(path)
  {
    var tokens := Split(path, '/');
    var segments: seq<PathSegment> := [];
    var i := 0;
    while i < |tokens|
      invariant 0 <= i <= |tokens|
      invariant segments + Segments(tokens[i..]) == Segments(tokens)
    {
      var parsed := Parse(tokens[i]);
      assert tokens[i..][0] == tokens[i] && tokens[i..][1..] == tokens[i + 1..];
      i := i + 1;
      if parsed.None? {
        continue;
      }
      segments := segments + [parsed.value];
    }
    assert tokens[i..] == [];
    assert segments == Segments(tokens);
    key := MaskAndJoin(segments);
  }

  /** The token loop of `query_to_key`, with its `continue` and `break`. */
  method KeyTokens(tokens: seq<string>) returns (segments: seq<PathSegment>)
    ensures segments == KeySegments(tokens)
  {
    segments := [];
    var i := 0;
    while i < |tokens|
      invariant 0 <= i <= |tokens|
      invariant segments + KeySegments(tokens[i..]) == KeySegments(tokens)
    {
      var parsed := Parse(tokens[i]);
      assert tokens[i..][0] == tokens[i] && tokens[i..][1..] == tokens[i + 1..];
      if parsed.None? {
        i := i + 1;
        continue;
      }
      if IsWildcard(parsed.value) {
        assert KeySegments(tokens[i..]) == [];
        break;
      }
      segments := segments + [parsed.value];
      i := i + 1;
    }
  }

  /** `DatapathIndex::query_to_key`. */
  method QueryKey(query: string) returns (key: string)
    ensures key == QueryToKey(query)
  {
    var trimmed := Trimmed(query);
    var segments := KeyTokens(Split(trimmed, '/'));
    key := MaskAndJoin(segments);
  }
}
