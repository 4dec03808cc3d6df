/**
 * What a compiled pattern means, stated without regular expressions: the path is
 * cut into its `/`-separated components; a `**` segment takes any number (zero or
 * more) of whole components as long as none holds a newline (the `.` of the
 * emitted expression does not match one); every other segment takes exactly one
 * component, whose text must hold the segment's literal parts in order, the first
 * at its start and the last at its end, with anything between them (a single `*`).
 *
 * `SegmentsMeaning` proves that this is exactly the language of the expression
 * the assembler writes for a reduced segment list.
 */
module GlobSemantics {
  import opened Util
  import opened RegexModel
  import opened RegexSegments

  /** Component `c` matches the literal parts of a piece split at its single
      stars. */
  predicate PieceMatch(parts: seq<string>, c: string)
    requires |parts| >= 1
    decreases |parts|
  {
    if |parts| == 1 then c == parts[0]
    else
      && |parts[0]| <= |c|
      && c[..|parts[0]|] == parts[0]
      && exists j :: |parts[0]| <= j <= |c| && PieceMatch(parts[1..], c[j..])
  }

  predicate NoNewlines(cs: seq<string>)
  {
    forall i :: 0 <= i < |cs| ==> '\n' !in cs[i]
  }

  /** The segments, in order, take up exactly the components `cs`. */
  predicate CompMatch(segs: seq<RegexSegment>, cs: seq<string>)
    decreases |segs|
  {
    if |segs| == 0 then cs == []
    else
      match segs[0]
      case Single(piece, _) =>
        |cs| > 0 && PieceMatch(Split(piece, '*'), cs[0]) && CompMatch(segs[1..], cs[1..])
      case DoubleStar =>
        exists k :: 0 <= k <= |cs| && NoNewlines(cs[..k]) && CompMatch(segs[1..], cs[k..])
  }

  /** The path `s` matches the segment list; an empty list matches only the
      empty path. */
  predicate GlobMatch(segs: seq<RegexSegment>, s: string)
  {
    if |segs| == 0 then s == "" else CompMatch(segs, Split(s, '/'))
  }

  /** No piece holds a slash (the tokenizer cut the pattern at every slash). */
  predicate SlashFreePieces(segs: seq<RegexSegment>)
  {
    forall i :: 0 <= i < |segs| && segs[i].Single? ==> '/' !in segs[i].piece
  }

  predicate WellFormed(segs: seq<RegexSegment>)
  {
    NoAdjacentDoubleStars(segs) && SlashFreePieces(segs)
  }

  // MARK: one component

  /** A fragment matches exactly the slash-free texts that match its parts. */
  lemma FragmentLang(parts: seq<string>, c: string)
    requires |parts| >= 1
    requires forall i :: 0 <= i < |parts| ==> '/' !in parts[i]
    ensures Lang(FragmentRe(parts), c) <==> '/' !in c && PieceMatch(parts, c)
  {
    if Lang(FragmentRe(parts), c) {
      FragmentMatches(parts, c);
    }
    if '/' !in c && PieceMatch(parts, c) {
      MatchesFragment(parts, c);
    }
  }

  lemma {:induction false} FragmentMatches(parts: seq<string>, c: string)
    requires |parts| >= 1
    requires forall i :: 0 <= i < |parts| ==> '/' !in parts[i]
    requires Lang(FragmentRe(parts), c)
    ensures '/' !in c && PieceMatch(parts, c)
    decreases |parts|
  {
    if |parts| == 1 {
      assert c == parts[0];
    } else {
      var rest := parts[1..];
      var tail := Cat(SegmentWildcard, FragmentRe(rest));
      assert FragmentRe(parts) == Cat(Literal(parts[0]), tail);
      var p0, v := CatParts(Literal(parts[0]), tail, c);
      var w, d := CatParts(SegmentWildcard, FragmentRe(rest), v);
      assert forall i :: 0 <= i < |rest| ==> rest[i] == parts[i + 1];
      FragmentMatches(rest, d);
      PieceCons(parts, w, d, c);
    }
  }

  /** The first literal part, a slash-free run, then a match of the other parts. */
  lemma PieceCons(parts: seq<string>, w: string, d: string, c: string)
    requires |parts| > 1 && c == parts[0] + w + d
    requires '/' !in parts[0] && '/' !in w && '/' !in d
    requires PieceMatch(parts[1..], d)
    ensures '/' !in c && PieceMatch(parts, c)
  {
    var n := |parts[0]|;
    assert c[..n] == parts[0];
    assert c[n + |w|..] == d;
  }

  lemma {:induction false} MatchesFragment(parts: seq<string>, c: string)
    requires |parts| >= 1
    requires forall i :: 0 <= i < |parts| ==> '/' !in parts[i]
    requires '/' !in c && PieceMatch(parts, c)
    ensures Lang(FragmentRe(parts), c)
    decreases |parts|
  {
    if |parts| > 1 {
      var rest := parts[1..];
      var w, d := PieceUncons(parts, c);
      assert forall i :: 0 <= i < |rest| ==> rest[i] == parts[i + 1];
      MatchesFragment(rest, d);
      FragmentCons(parts, w, d);
    }
  }

  /** A match of several parts: the first part, some slash-free text, then a match
      of the others. */
  lemma PieceUncons(parts: seq<string>, c: string) returns (w: string, d: string)
    requires |parts| > 1 && '/' !in c && PieceMatch(parts, c)
    ensures c == parts[0] + w + d && '/' !in w && '/' !in d
    ensures PieceMatch(parts[1..], d)
  {
    var n := |parts[0]|;
    var j :| n <= j <= |c| && PieceMatch(parts[1..], c[j..]);
    Slices(c, n, j);
    w, d := c[n..j], c[j..];
  }

  /** The fragment of several parts: the first part, a slash-free run, then the
      fragment of the others. */
  lemma FragmentCons(parts: seq<string>, w: string, d: string)
    requires |parts| > 1 && '/' !in w && Lang(FragmentRe(parts[1..]), d)
    ensures Lang(FragmentRe(parts), parts[0] + w + d)
  {
    var tail := Cat(SegmentWildcard, FragmentRe(parts[1..]));
    assert FragmentRe(parts) == Cat(Literal(parts[0]), tail);
    CatOf(SegmentWildcard, FragmentRe(parts[1..]), w, d);
    CatOf(Literal(parts[0]), tail, parts[0], w + d);
    assert parts[0] + w + d == parts[0] + (w + d);
  }

  /** The literal parts of a slash-free piece are slash-free. */
  lemma PartsSlashFree(segs: seq<RegexSegment>, i: nat)
    requires i < |segs| && segs[i].Single? && SlashFreePieces(segs)
    ensures forall j :: 0 <= j < |Split(segs[i].piece, '*')| ==> '/' !in Split(segs[i].piece, '*')[j]
  {
    SplitWithout(segs[i].piece, '*', '/');
  }

  // MARK: components and slashes

  /** A split with more than `k` pieces can be cut after its first `k` pieces. */
  lemma SplitAt(w: string, k: nat) returns (x: string, u: string)
    requires 0 < k < |Split(w, '/')|
    ensures w == x + "/" + u
    ensures Split(x, '/') == Split(w, '/')[..k] && Split(u, '/') == Split(w, '/')[k..]
  {
    x, u := SplitCut(w, '/', k);
    assert [('/')] == "/";
  }

  /** `**` as the last segment takes every remaining component. */
  lemma LastDoubleStar(segs: seq<RegexSegment>, cs: seq<string>)
    requires |segs| == 1 && segs[0].DoubleStar?
    ensures CompMatch(segs, cs) <==> NoNewlines(cs)
  {
    assert segs[1..] == [];
    assert cs[..|cs|] == cs;
  }

  /** A text is free of newlines exactly when its components are. */
  lemma NoNewlinesSplit(w: string)
    ensures '\n' !in w <==> NoNewlines(Split(w, '/'))
  {
    SplitWithout(w, '/', '\n');
  }

  /** `CompMatch` from position `i` on, one segment at a time. */
  lemma CompSingle(segs: seq<RegexSegment>, i: nat, cs: seq<string>)
    requires i < |segs| && segs[i].Single?
    ensures CompMatch(segs[i..], cs)
            <==> |cs| > 0 && PieceMatch(Split(segs[i].piece, '*'), cs[0]) && CompMatch(segs[i + 1..], cs[1..])
  {
    assert segs[i..][0] == segs[i] && segs[i..][1..] == segs[i + 1..];
  }

  lemma CompDouble(segs: seq<RegexSegment>, i: nat, cs: seq<string>)
    requires i < |segs| && segs[i].DoubleStar?
    ensures CompMatch(segs[i..], cs)
            <==> exists k :: 0 <= k <= |cs| && NoNewlines(cs[..k]) && CompMatch(segs[i + 1..], cs[k..])
  {
    assert segs[i..][0] == segs[i] && segs[i..][1..] == segs[i + 1..];
  }

  lemma CompEnd(segs: seq<RegexSegment>, cs: seq<string>)
    ensures CompMatch(segs[|segs|..], cs) <==> cs == []
  {
    assert segs[|segs|..] == [];
  }

  // MARK: each kind of neighbourhood, over abstract tails

  /** A `Single` followed by a `Single`: the fragment, a slash, then the rest. */
  lemma {:induction false} SingleSlashCore(parts: seq<string>, rest: seq<RegexSegment>, r: Re, t: string)
    requires |parts| >= 1 && forall j :: 0 <= j < |parts| ==> '/' !in parts[j]
    requires |rest| > 0 && rest[0].Single?
    requires forall u :: Lang(r, u) <==> CompMatch(rest, Split(u, '/'))
    ensures var cs := Split(t, '/');
            Lang(Cat(Cat(FragmentRe(parts), Slash), r), t)
            <==> |cs| > 0 && PieceMatch(parts, cs[0]) && CompMatch(rest, cs[1..])
  {
    var cs := Split(t, '/');
    if Lang(Cat(Cat(FragmentRe(parts), Slash), r), t) {
      SingleSlashFrom(parts, rest, r, t);
    }
    if |cs| > 0 && PieceMatch(parts, cs[0]) && CompMatch(rest, cs[1..]) {
      SingleSlashTo(parts, rest, r, t);
    }
  }

  lemma SingleSlashFrom(parts: seq<string>, rest: seq<RegexSegment>, r: Re, t: string)
    requires |parts| >= 1 && forall j :: 0 <= j < |parts| ==> '/' !in parts[j]
    requires forall u :: Lang(r, u) ==> CompMatch(rest, Split(u, '/'))
    requires Lang(Cat(Cat(FragmentRe(parts), Slash), r), t)
    ensures var cs := Split(t, '/');
            |cs| > 0 && PieceMatch(parts, cs[0]) && CompMatch(rest, cs[1..])
  {
    var f := FragmentRe(parts);
    var a, u := CatParts(Cat(f, Slash), r, t);
    ThenSlash(f, a);
    var c := a[..|a| - 1];
    assert a == c + "/";
    assert Lang(r, u);
    FragmentLang(parts, c);
    SplitNone(c, '/');
    SplitAppend(c, '/', u);
    assert t == c + "/" + u;
  }

  lemma SingleSlashTo(parts: seq<string>, rest: seq<RegexSegment>, r: Re, t: string)
    requires |parts| >= 1 && forall j :: 0 <= j < |parts| ==> '/' !in parts[j]
    requires |rest| > 0 && rest[0].Single?
    requires forall u :: CompMatch(rest, Split(u, '/')) ==> Lang(r, u)
    requires var cs := Split(t, '/');
             |cs| > 0 && PieceMatch(parts, cs[0]) && CompMatch(rest, cs[1..])
    ensures Lang(Cat(Cat(FragmentRe(parts), Slash), r), t)
  {
    assert !CompMatch(rest, []);
    var c, u := SlashCut(t);
    assert Lang(r, u);
    FragmentLang(parts, c);
    SlashAfter(FragmentRe(parts), r, c, u);
  }

  /** A text of two components or more, cut at its first slash. */
  lemma SlashCut(t: string) returns (c: string, u: string)
    requires |Split(t, '/')| >= 2
    ensures t == c + "/" + u
    ensures c == Split(t, '/')[0] && Split(u, '/') == Split(t, '/')[1..]
  {
    var m := SplitHead(t, '/');
    c, u := t[..m], t[m + 1..];
    assert t == c + "/" + u;
  }

  /** Two matches with a slash between them. */
  lemma SlashAfter(f: Re, r: Re, c: string, u: string)
    requires Lang(f, c) && Lang(r, u)
    ensures Lang(Cat(Cat(f, Slash), r), c + "/" + u)
  {
    CatOf(f, Slash, c, "/");
    CatOf(Cat(f, Slash), r, c + "/", u);
  }

  /** What may follow a component when a `**` part comes next: nothing, or a
      slash and then components that `rest` matches. */
  predicate SlashTail(rest: seq<RegexSegment>, v: string)
  {
    || (v == "" && CompMatch(rest, []))
    || (|v| > 0 && v[0] == '/' && CompMatch(rest, Split(v[1..], '/')))
  }

  /** A `Single` followed by a `**`: the fragment, then the `**` part, which
      brings its own leading slash. */
  lemma SingleDoubleStarCore(parts: seq<string>, rest: seq<RegexSegment>, r: Re, t: string)
    requires |parts| >= 1 && forall j :: 0 <= j < |parts| ==> '/' !in parts[j]
    requires forall v :: Lang(r, v) <==> SlashTail(rest, v)
    ensures var cs := Split(t, '/');
            Lang(Cat(FragmentRe(parts), r), t)
            <==> |cs| > 0 && PieceMatch(parts, cs[0]) && CompMatch(rest, cs[1..])
  {
    var cs := Split(t, '/');
    if Lang(Cat(FragmentRe(parts), r), t) {
      SingleDoubleStarFrom(parts, rest, r, t);
    }
    if |cs| > 0 && PieceMatch(parts, cs[0]) && CompMatch(rest, cs[1..]) {
      SingleDoubleStarTo(parts, rest, r, t);
    }
  }

  lemma SingleDoubleStarFrom(parts: seq<string>, rest: seq<RegexSegment>, r: Re, t: string)
    requires |parts| >= 1 && forall j :: 0 <= j < |parts| ==> '/' !in parts[j]
    requires forall v :: Lang(r, v) ==> SlashTail(rest, v)
    requires Lang(Cat(FragmentRe(parts), r), t)
    ensures var cs := Split(t, '/');
            |cs| > 0 && PieceMatch(parts, cs[0]) && CompMatch(rest, cs[1..])
  {
    var c, v := CatParts(FragmentRe(parts), r, t);
    assert Lang(r, v);
    FragmentThenDoubleStar(parts, rest, c, v, t);
  }

  /** A fragment's match followed by what a trailing `**` part matches. */
  lemma FragmentThenDoubleStar(parts: seq<string>, rest: seq<RegexSegment>, c: string, v: string, t: string)
    requires |parts| >= 1 && forall j :: 0 <= j < |parts| ==> '/' !in parts[j]
    requires t == c + v && Lang(FragmentRe(parts), c)
    requires SlashTail(rest, v)
    ensures var cs := Split(t, '/');
            |cs| > 0 && PieceMatch(parts, cs[0]) && CompMatch(rest, cs[1..])
  {
    var tail: seq<string> := if v == "" then [] else Split(v[1..], '/');
    FragmentLang(parts, c);
    SplitAtSlash(c, v, t);
    assert Split(t, '/') == [c] + tail;
    assert CompMatch(rest, tail);
  }

  /** A piece without a slash, then nothing or a slash and more. */
  lemma SplitAtSlash(c: string, v: string, t: string)
    requires '/' !in c && t == c + v && (v == "" || v[0] == '/')
    ensures Split(t, '/') == [c] + (if v == "" then [] else Split(v[1..], '/'))
  {
    SplitNone(c, '/');
    if v == "" {
      assert t == c;
    } else {
      assert t == c + "/" + v[1..];
      SplitAppend(c, '/', v[1..]);
    }
  }

  lemma SingleDoubleStarTo(parts: seq<string>, rest: seq<RegexSegment>, r: Re, t: string)
    requires |parts| >= 1 && forall j :: 0 <= j < |parts| ==> '/' !in parts[j]
    requires forall v :: SlashTail(rest, v) ==> Lang(r, v)
    requires var cs := Split(t, '/');
             |cs| > 0 && PieceMatch(parts, cs[0]) && CompMatch(rest, cs[1..])
    ensures Lang(Cat(FragmentRe(parts), r), t)
  {
    var cs := Split(t, '/');
    if |cs| == 1 {
      SplitSingle(t, '/');
      SplitNone(t, '/');
      assert cs[1..] == [];
      assert SlashTail(rest, "");
      assert Lang(r, "");
      assert t == t + "";
      FragmentThen(parts, r, t, t, "");
    } else {
      var c, u := SlashCut(t);
      var v := "/" + u;
      assert t == c + v && v[0] == '/' && v[1..] == u;
      assert SlashTail(rest, v);
      FragmentThen(parts, r, t, c, v);
    }
  }

  /** A first component the fragment matches, then text `r` matches. */
  lemma FragmentThen(parts: seq<string>, r: Re, t: string, c: string, v: string)
    requires |parts| >= 1 && forall j :: 0 <= j < |parts| ==> '/' !in parts[j]
    requires t == c + v && '/' !in c && PieceMatch(parts, c) && Lang(r, v)
    ensures Lang(Cat(FragmentRe(parts), r), t)
  {
    FragmentLang(parts, c);
    CatOf(FragmentRe(parts), r, c, v);
  }

  /** A `**` followed by a `Single`, written as `((?:.*[/])?)`: any number of
      newline-free components, then the rest. */
  lemma {:induction false} DoubleStarCore(rest: seq<RegexSegment>, r: Re, t: string)
    requires |rest| > 0 && rest[0].Single?
    requires forall u :: Lang(r, u) <==> CompMatch(rest, Split(u, '/'))
    ensures var cs := Split(t, '/');
            Lang(Cat(Opt(Cat(AnyRun, Slash)), r), t)
            <==> exists k :: 0 <= k <= |cs| && NoNewlines(cs[..k]) && CompMatch(rest, cs[k..])
  {
    var cs := Split(t, '/');
    if Lang(Cat(Opt(Cat(AnyRun, Slash)), r), t) {
      var k := DoubleStarFrom(rest, r, t);
      assert NoNewlines(cs[..k]) && CompMatch(rest, cs[k..]);
    }
    if exists k :: 0 <= k <= |cs| && NoNewlines(cs[..k]) && CompMatch(rest, cs[k..]) {
      var k :| 0 <= k <= |cs| && NoNewlines(cs[..k]) && CompMatch(rest, cs[k..]);
      DoubleStarTo(rest, r, t, k);
    }
  }

  lemma DoubleStarFrom(rest: seq<RegexSegment>, r: Re, t: string) returns (k: nat)
    requires forall u :: Lang(r, u) ==> CompMatch(rest, Split(u, '/'))
    requires Lang(Cat(Opt(Cat(AnyRun, Slash)), r), t)
    ensures k <= |Split(t, '/')|
    ensures NoNewlines(Split(t, '/')[..k]) && CompMatch(rest, Split(t, '/')[k..])
  {
    var cs := Split(t, '/');
    var a, u := CatParts(Opt(Cat(AnyRun, Slash)), r, t);
    assert CompMatch(rest, Split(u, '/'));
    if a == "" {
      assert t == u && cs[..0] == [] && cs[0..] == cs;
      k := 0;
    } else {
      k := LeadComponents(a, u, t);
    }
  }

  /** Text that `.*[/]` matches, in front of `u`, makes up the first
      newline-free components. */
  lemma LeadComponents(a: string, u: string, t: string) returns (k: nat)
    requires t == a + u && Lang(Cat(AnyRun, Slash), a)
    ensures k <= |Split(t, '/')|
    ensures NoNewlines(Split(t, '/')[..k]) && Split(t, '/')[k..] == Split(u, '/')
  {
    var cs := Split(t, '/');
    ThenSlash(AnyRun, a);
    var x := a[..|a| - 1];
    assert a == x + "/";
    assert t == x + "/" + u;
    SplitAppend(x, '/', u);
    NoNewlinesSplit(x);
    k := |Split(x, '/')|;
    assert cs[..k] == Split(x, '/') && cs[k..] == Split(u, '/');
  }

  lemma DoubleStarTo(rest: seq<RegexSegment>, r: Re, t: string, k: nat)
    requires |rest| > 0 && rest[0].Single?
    requires forall u :: CompMatch(rest, Split(u, '/')) ==> Lang(r, u)
    requires var cs := Split(t, '/');
             k <= |cs| && NoNewlines(cs[..k]) && CompMatch(rest, cs[k..])
    ensures Lang(Cat(Opt(Cat(AnyRun, Slash)), r), t)
  {
    var lead := Opt(Cat(AnyRun, Slash));
    var cs := Split(t, '/');
    if k == 0 {
      assert cs[0..] == cs;
      assert Lang(r, t);
      CatOf(lead, r, "", t);
      assert "" + t == t;
    } else {
      assert !CompMatch(rest, []);
      var x, u := SplitAt(t, k);
      assert Lang(r, u);
      NoNewlinesSplit(x);
      CatOf(AnyRun, Slash, x, "/");
      CatOf(lead, r, x + "/", u);
    }
  }

  // MARK: the expression, segment by segment

  /** What the expression for the segments from `i` on must match. Before a
      `Single`, or at the very start, the text begins at a component; after a
      `Single`, a `**` writes the slash that leads into its components itself. */
  predicate TailMatch(segs: seq<RegexSegment>, i: nat, t: string)
    requires i <= |segs|
  {
    if i == |segs| then t == ""
    else if segs[i].Single? || i == 0 then CompMatch(segs[i..], Split(t, '/'))
    else
      || (t == "" && CompMatch(segs[i..], []))
      || (|t| > 0 && t[0] == '/' && CompMatch(segs[i..], Split(t[1..], '/')))
  }

  lemma {:induction false} SegmentsLang(segs: seq<RegexSegment>, i: nat, t: string)
    requires i <= |segs| && WellFormed(segs)
    ensures Lang(SegmentsRe(segs, i), t) <==> TailMatch(segs, i, t)
    decreases |segs| - i, 1
  {
    if i == |segs| {
    } else if segs[i].Single? {
      if i + 1 == |segs| {
        SingleLast(segs, i, t);
      } else if segs[i + 1].Single? {
        SingleThenSingle(segs, i, t);
      } else {
        SingleThenDoubleStar(segs, i, t);
      }
    } else if i + 1 == |segs| {
      if i == 0 {
        OnlyDoubleStar(segs, t);
      } else {
        TrailingDoubleStar(segs, i, t);
      }
    } else {
      assert segs[i + 1].Single?;
      if i == 0 {
        LeadingDoubleStar(segs, t);
      } else {
        assert segs[i - 1].Single?;
        InnerDoubleStar(segs, i, t);
      }
    }
  }

  lemma {:induction false} SingleLast(segs: seq<RegexSegment>, i: nat, t: string)
    requires i + 1 == |segs| && WellFormed(segs) && segs[i].Single?
    ensures Lang(SegmentsRe(segs, i), t) <==> CompMatch(segs[i..], Split(t, '/'))
    decreases 0, 0
  {
    var parts := Split(segs[i].piece, '*');
    PartsSlashFree(segs, i);
    var f := FragmentRe(parts);
    assert SegmentsRe(segs, i) == Cat(f, Empty);
    var cs := Split(t, '/');
    CompSingle(segs, i, cs);
    CompEnd(segs, cs[1..]);
    CatEmpty(f, t);
    FragmentLang(parts, t);
    if '/' !in t {
      SplitNone(t, '/');
    }
    if |cs| == 1 {
      SplitSingle(t, '/');
    }
  }

  lemma {:induction false} SingleThenSingle(segs: seq<RegexSegment>, i: nat, t: string)
    requires i + 1 < |segs| && WellFormed(segs) && segs[i].Single? && segs[i + 1].Single?
    ensures Lang(SegmentsRe(segs, i), t) <==> CompMatch(segs[i..], Split(t, '/'))
    decreases |segs| - i, 0
  {
    var r := SegmentsRe(segs, i + 1);
    var rest := segs[i + 1..];
    forall u | true
      ensures Lang(r, u) <==> CompMatch(rest, Split(u, '/'))
    {
      SegmentsLang(segs, i + 1, u);
    }
    var parts := Split(segs[i].piece, '*');
    PartsSlashFree(segs, i);
    assert SegmentsRe(segs, i) == Cat(Cat(FragmentRe(parts), Slash), r);
    SingleSlashCore(parts, rest, r, t);
    CompSingle(segs, i, Split(t, '/'));
  }

  lemma {:induction false} SingleThenDoubleStar(segs: seq<RegexSegment>, i: nat, t: string)
    requires i + 1 < |segs| && WellFormed(segs) && segs[i].Single? && segs[i + 1].DoubleStar?
    ensures Lang(SegmentsRe(segs, i), t) <==> CompMatch(segs[i..], Split(t, '/'))
    decreases |segs| - i, 0
  {
    var r := SegmentsRe(segs, i + 1);
    var rest := segs[i + 1..];
    forall v | true
      ensures Lang(r, v) <==> SlashTail(rest, v)
    {
      SegmentsLang(segs, i + 1, v);
    }
    var parts := Split(segs[i].piece, '*');
    PartsSlashFree(segs, i);
    assert SegmentsRe(segs, i) == Cat(FragmentRe(parts), r);
    SingleDoubleStarCore(parts, rest, r, t);
    CompSingle(segs, i, Split(t, '/'));
  }

  lemma {:induction false} OnlyDoubleStar(segs: seq<RegexSegment>, t: string)
    requires |segs| == 1 && segs[0].DoubleStar?
    ensures Lang(SegmentsRe(segs, 0), t) <==> CompMatch(segs[0..], Split(t, '/'))
    decreases 0, 0
  {
    assert SegmentsRe(segs, 0) == Cat(Opt(AnyRun), Empty);
    assert segs[0..] == segs;
    CatEmpty(Opt(AnyRun), t);
    LastDoubleStar(segs, Split(t, '/'));
    NoNewlinesSplit(t);
  }

  lemma {:induction false} TrailingDoubleStar(segs: seq<RegexSegment>, i: nat, t: string)
    requires 0 < i && i + 1 == |segs| && WellFormed(segs) && segs[i].DoubleStar?
    ensures Lang(SegmentsRe(segs, i), t)
            <==> || (t == "" && CompMatch(segs[i..], []))
                 || (|t| > 0 && t[0] == '/' && CompMatch(segs[i..], Split(t[1..], '/')))
    decreases 0, 0
  {
    assert segs[i - 1].Single?;
    var body := Cat(Slash, AnyRun);
    assert SegmentsRe(segs, i) == Cat(Opt(body), Empty);
    CatEmpty(Opt(body), t);
    SlashThen(AnyRun, t);
    assert segs[i..] == [DoubleStar];
    LastDoubleStar(segs[i..], []);
    if |t| > 0 {
      LastDoubleStar(segs[i..], Split(t[1..], '/'));
      NoNewlinesSplit(t[1..]);
    }
  }

  lemma {:induction false} LeadingDoubleStar(segs: seq<RegexSegment>, t: string)
    requires 1 < |segs| && WellFormed(segs) && segs[0].DoubleStar? && segs[1].Single?
    ensures Lang(SegmentsRe(segs, 0), t) <==> CompMatch(segs[0..], Split(t, '/'))
    decreases |segs|, 0
  {
    var r := SegmentsRe(segs, 1);
    var rest := segs[1..];
    forall u | true
      ensures Lang(r, u) <==> CompMatch(rest, Split(u, '/'))
    {
      SegmentsLang(segs, 1, u);
    }
    assert rest[0] == segs[1];
    assert SegmentsRe(segs, 0) == Cat(Opt(Cat(AnyRun, Slash)), r);
    DoubleStarCore(rest, r, t);
    CompDouble(segs, 0, Split(t, '/'));
  }

  lemma {:induction false} InnerDoubleStar(segs: seq<RegexSegment>, i: nat, t: string)
    requires 0 < i && i + 1 < |segs| && WellFormed(segs)
    requires segs[i].DoubleStar? && segs[i - 1].Single? && segs[i + 1].Single?
    ensures Lang(SegmentsRe(segs, i), t)
            <==> || (t == "" && CompMatch(segs[i..], []))
                 || (|t| > 0 && t[0] == '/' && CompMatch(segs[i..], Split(t[1..], '/')))
    decreases |segs| - i, 0
  {
    var r := SegmentsRe(segs, i + 1);
    var rest := segs[i + 1..];
    forall u | true
      ensures Lang(r, u) <==> CompMatch(rest, Split(u, '/'))
    {
      SegmentsLang(segs, i + 1, u);
    }
    assert rest[0] == segs[i + 1];
    var x := Cat(AnyRun, Slash);
    assert SegmentsRe(segs, i) == Cat(Alt(Cat(Slash, x), Slash), r);
    SlashThenOpt(x, r, t);
    CompDouble(segs, i, []);
    CompSingle(segs, i + 1, []);
    if |t| > 0 {
      DoubleStarCore(rest, r, t[1..]);
      CompDouble(segs, i, Split(t[1..], '/'));
    }
  }

  /** The expression written for a reduced segment list matches exactly the paths
      the segments match component by component. */
  lemma SegmentsMeaning(segs: seq<RegexSegment>, s: string)
    requires WellFormed(segs)
    ensures Lang(SegmentsRe(segs, 0), s) <==> GlobMatch(segs, s)
  {
    SegmentsLang(segs, 0, s);
    assert segs[0..] == segs;
  }
}
