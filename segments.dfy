/**
 * Second and third phases of the glob compiler (rule.rs): each kept piece becomes a
 * `RegexSegment`, runs of `**` collapse, longer star runs reject the pattern, and
 * the segments are written out as one regular expression whose separators depend
 * on each segment's neighbours (`RegexSegment::to_regex_part`).
 */
module RegexSegments {
  import opened Util
  import opened Tokenizer
  import opened RegexModel

  /** `Single` is one path segment's worth of pattern. Besides the regex fragment the
      source stores, it keeps the glob piece the fragment was built from, which is
      what gives the fragment its meaning in `PartRe`. */
  datatype RegexSegment =
    | Single(piece: string, fragment: string)
    | DoubleStar

  /** What `[^/]*`-style single stars become inside a fragment. */
  const SegmentWildcardText := "([^/]*)"

  function EscapeAll(parts: seq<string>): (r: seq<string>)
    ensures |r| == |parts|
    ensures forall i :: 0 <= i < |parts| ==> r[i] == Escape(parts[i])
    decreases |parts|
  {
    if |parts| == 0 then [] else [Escape(parts[0])] + EscapeAll(parts[1..])
  }

  /** The fragment of a piece: its literal parts (the text between single stars),
      each escaped, joined by the single-segment wildcard. */
  function Fragment(piece: string): string
  {
    Join(EscapeAll(Split(piece, '*')), SegmentWildcardText)
  }

  /** The fragment as a syntax tree. */
  function FragmentRe(parts: seq<string>): Re
    requires |parts| >= 1
    decreases |parts|
  {
    if |parts| == 1 then Literal(parts[0])
    else Cat(Literal(parts[0]), Cat(SegmentWildcard, FragmentRe(parts[1..])))
  }

  /** The fragment tree prints as the fragment text. */
  lemma {:induction false} PrintFragment(parts: seq<string>)
    requires |parts| >= 1
    ensures Print(FragmentRe(parts)) == Join(EscapeAll(parts), SegmentWildcardText)
    decreases |parts|
  {
    if |parts| > 1 {
      PrintFragment(parts[1..]);
      var e := EscapeAll(parts);
      assert e[1..] == EscapeAll(parts[1..]);
      assert Join(e, SegmentWildcardText) == e[0] + SegmentWildcardText + Join(e[1..], SegmentWildcardText);
      var tail := FragmentRe(parts[1..]);
      assert FragmentRe(parts) == Cat(Literal(parts[0]), Cat(SegmentWildcard, tail));
      assert Print(Cat(SegmentWildcard, tail)) == SegmentWildcardText + Print(tail);
    }
  }

  /** A piece holding k single stars has k + 1 literal parts, none holding a star,
      and putting the stars back between them gives the piece. */
  lemma FragmentShape(piece: string)
    ensures |Split(piece, '*')| == Count(piece, '*') + 1
    ensures forall i :: 0 <= i < |Split(piece, '*')| ==> '*' !in Split(piece, '*')[i]
    ensures Join(Split(piece, '*'), "*") == piece
  {
    SplitCount(piece, '*');
    JoinSplit(piece, '*');
  }

  /** The inner loop of the reducer (rule.rs:133-142): escape each literal part and
      put the wildcard between neighbouring parts. */
  method BuildFragment(piece: string) returns (rebuilt: string)
    ensures rebuilt == Fragment(piece)
  {
    var parts := Split(piece, '*');
    rebuilt := "";
    var i := 0;
    while i < |parts|
      invariant 0 <= i <= |parts|
      invariant rebuilt == Join(EscapeAll(parts[..i]), SegmentWildcardText)
    {
      FragmentStep(parts, i);
      if i != 0 {
        rebuilt := rebuilt + SegmentWildcardText;
      }
      rebuilt := rebuilt + Escape(parts[i]);
      i := i + 1;
    }
    assert parts[..i] == parts;
  }

  /** One more literal part: a wildcard (except before the first) and its escaping. */
  lemma FragmentStep(parts: seq<string>, i: nat)
    requires i < |parts|
    ensures Join(EscapeAll(parts[..i + 1]), SegmentWildcardText)
            == (if i == 0 then "" else Join(EscapeAll(parts[..i]), SegmentWildcardText) + SegmentWildcardText)
               + Escape(parts[i])
  {
    assert parts[..i + 1] == parts[..i] + [parts[i]];
    assert EscapeAll(parts[..i] + [parts[i]]) == EscapeAll(parts[..i]) + [Escape(parts[i])];
    if i > 0 {
      JoinSnoc(EscapeAll(parts[..i]), Escape(parts[i]), SegmentWildcardText);
    } else {
      assert EscapeAll(parts[..1]) == [Escape(parts[0])];
    }
  }

  lemma {:induction false} JoinSnoc(xs: seq<string>, x: string, sep: string)
    requires |xs| > 0
    ensures Join(xs + [x], sep) == Join(xs, sep) + sep + x
    decreases |xs|
  {
    if |xs| == 1 {
      assert (xs + [x])[1..] == [x];
    } else {
      assert (xs + [x])[1..] == xs[1..] + [x];
      JoinSnoc(xs[1..], x, sep);
    }
  }

  // MARK: reduction

  /** A piece the reducer treats as a wildcard run (`**`, `***`, ...). */
  predicate IsStarRun(s: string)
  {
    |s| > 1 && AllStars(s)
  }

  predicate NoAdjacentDoubleStars(segs: seq<RegexSegment>)
  {
    forall i :: 0 <= i < |segs| - 1 ==> !(segs[i].DoubleStar? && segs[i + 1].DoubleStar?)
  }

  /** Every `Single` carries the fragment of its own piece. */
  predicate FragmentsBuilt(segs: seq<RegexSegment>)
  {
    forall i :: 0 <= i < |segs| ==> BuiltAt(segs, i)
  }

  predicate BuiltAt(segs: seq<RegexSegment>, i: nat)
    requires i < |segs|
  {
    segs[i].Single? ==> segs[i].fragment == Fragment(segs[i].piece)
  }

  /** The segment the reducer makes of a piece that is not a star run. */
  function Seg(t: string): RegexSegment
  {
    Single(t, Fragment(t))
  }

  /** The reducer loop of `regex_str` (rule.rs:113-145) as a function of the pieces
      still to read and of its `last_was_doublestar` flag. */
  function Reduced(pieces: seq<string>, lastWasDoubleStar: bool): (r: Option<seq<RegexSegment>>)
    ensures r.None? <==> exists i :: 0 <= i < |pieces| && IsStarRun(pieces[i]) && pieces[i] != "**"
    ensures r.Some? ==> NoAdjacentDoubleStars(r.value) && FragmentsBuilt(r.value)
    ensures r.Some? && lastWasDoubleStar && |r.value| > 0 ==> r.value[0].Single?
    ensures r.Some? ==> forall i :: 0 <= i < |r.value| && r.value[i].Single? ==> r.value[i].piece in pieces
    decreases |pieces|
  {
    if |pieces| == 0 then Some([])
    else
      var s := pieces[0];
      assert forall i :: 1 <= i < |pieces| ==> pieces[i] == pieces[1..][i - 1];
      if IsStarRun(s) then
        if s == "**" then
          match Reduced(pieces[1..], true)
          case None => None
          case Some(rest) =>
            if lastWasDoubleStar then
              PiecesWiden(rest, pieces);
              Some(rest)
            else
              ConsSegment(DoubleStar, rest, pieces);
              Some([DoubleStar] + rest)
        else None
      else
        match Reduced(pieces[1..], false)
        case None => None
        case Some(rest) =>
          ConsSegment(Seg(s), rest, pieces);
          Some([Seg(s)] + rest)
  }

  /** Pieces from the rest of the input are pieces of the input. */
  lemma PiecesWiden(segs: seq<RegexSegment>, pieces: seq<string>)
    requires |pieces| > 0
    requires forall i :: 0 <= i < |segs| && segs[i].Single? ==> segs[i].piece in pieces[1..]
    ensures forall i :: 0 <= i < |segs| && segs[i].Single? ==> segs[i].piece in pieces
  {
  }

  /** A segment in front of a reduced rest: a `**` only before a `Single` or at
      the end, a `Single` only of the first piece. */
  lemma ConsSegment(seg: RegexSegment, rest: seq<RegexSegment>, pieces: seq<string>)
    requires |pieces| > 0
    requires NoAdjacentDoubleStars(rest) && FragmentsBuilt(rest)
    requires forall i :: 0 <= i < |rest| && rest[i].Single? ==> rest[i].piece in pieces[1..]
    requires seg.DoubleStar? ==> |rest| == 0 || rest[0].Single?
    requires seg.Single? ==> seg == Seg(pieces[0])
    ensures NoAdjacentDoubleStars([seg] + rest) && FragmentsBuilt([seg] + rest)
    ensures forall i :: 0 <= i < |[seg] + rest| && ([seg] + rest)[i].Single? ==> ([seg] + rest)[i].piece in pieces
  {
    var r := [seg] + rest;
    assert forall i :: 1 <= i < |r| ==> r[i] == rest[i - 1];
    forall i | 0 <= i < |r|
      ensures BuiltAt(r, i)
    {
      if i > 0 {
        assert BuiltAt(rest, i - 1);
      }
    }
  }

  /** Prefixing already-built segments to an optional result. */
  function Prefixed(done: seq<RegexSegment>, r: Option<seq<RegexSegment>>): Option<seq<RegexSegment>>
  {
    match r
    case None => None
    case Some(rest) => Some(done + rest)
  }

  lemma PrefixedAssoc(a: seq<RegexSegment>, b: seq<RegexSegment>, r: Option<seq<RegexSegment>>)
    ensures Prefixed(a, Prefixed(b, r)) == Prefixed(a + b, r)
  {
    if r.Some? {
      assert a + (b + r.value) == (a + b) + r.value;
    }
  }

  lemma PrefixedNothing(r: Option<seq<RegexSegment>>)
    ensures Prefixed([], r) == r
  {
    if r.Some? {
      assert [] + r.value == r.value;
    }
  }

  /** A piece that is not a star run becomes one `Single` segment in front of
      whatever the rest reduces to. */
  lemma ReducedWord(t: string, rest: seq<string>, flag: bool)
    requires !IsStarRun(t)
    ensures Reduced([t] + rest, flag) == Prefixed([Seg(t)], Reduced(rest, false))
  {
    assert ([t] + rest)[1..] == rest;
  }

  /** One step of the reducer on the piece at `i`. */
  lemma ReducedStep(pieces: seq<string>, i: nat, flag: bool)
    requires i < |pieces|
    ensures var s := pieces[i];
            Reduced(pieces[i..], flag)
            == if IsStarRun(s) then
                 if s == "**" then Prefixed(if flag then [] else [DoubleStar], Reduced(pieces[i + 1..], true))
                 else None
               else Prefixed([Single(s, Fragment(s))], Reduced(pieces[i + 1..], false))
  {
    var s := pieces[i];
    assert pieces[i..][0] == s && pieces[i..][1..] == pieces[i + 1..];
    if IsStarRun(s) && s == "**" {
      var rest := Reduced(pieces[i + 1..], true);
      PrefixedNothing(rest);
    }
  }

  /** The reducer loop of `regex_str`. */
  method Reduce(pieces: seq<string>) returns (r: Option<seq<RegexSegment>>)
    ensures r == Reduced(pieces, false)
  {
    var rebuilt: seq<RegexSegment> := [];
    var lastWasDoubleStar := false;
    var i := 0;
    assert pieces[0..] == pieces;
    PrefixedNothing(Reduced(pieces, false));
    while i < |pieces|
      invariant 0 <= i <= |pieces|
      invariant Reduced(pieces, false) == Prefixed(rebuilt, Reduced(pieces[i..], lastWasDoubleStar))
    {
      var segment := pieces[i];
      ReducedStep(pieces, i, lastWasDoubleStar);
      if IsStarRun(segment) {
        if segment == "**" {
          PrefixedAssoc(rebuilt, if lastWasDoubleStar then [] else [DoubleStar], Reduced(pieces[i + 1..], true));
          if !lastWasDoubleStar {
            rebuilt := rebuilt + [DoubleStar];
          }
          lastWasDoubleStar := true;
        } else {
          return None;
        }
      } else {
        PrefixedAssoc(rebuilt, [Single(segment, Fragment(segment))], Reduced(pieces[i + 1..], false));
        lastWasDoubleStar := false;
        var fragment := BuildFragment(segment);
        rebuilt := rebuilt + [Single(segment, fragment)];
      }
      i := i + 1;
    }
    assert pieces[i..] == [];
    assert rebuilt + [] == rebuilt;
    return Some(rebuilt);
  }

  // MARK: assembly

  /** Two neighbouring `**` never reach the assembler; the source panics if they do. */
  predicate NeighboursAllowed(prev: Option<RegexSegment>, seg: RegexSegment, next: Option<RegexSegment>)
  {
    !(seg.DoubleStar? && ((prev.Some? && prev.value.DoubleStar?) || (next.Some? && next.value.DoubleStar?)))
  }

  /** `RegexSegment::to_regex_part`: the text one segment contributes. */
  function Part(prev: Option<RegexSegment>, seg: RegexSegment, next: Option<RegexSegment>): string
    requires NeighboursAllowed(prev, seg, next)
  {
    match seg
    // consecutive singles need a slash between them; a final single, or one
    // followed by `**`, adds none
    case Single(_, x) => if next.Some? && next.value.Single? then x + "[/]" else x
    // `**` at the start, the end, or both ends, or between two singles
    case DoubleStar =>
      if prev.None? && next.None? then "((?:.*)?)"
      else if next.None? then "((?:[/].*)?)"
      else if prev.None? then "((?:.*[/])?)"
      else "((?:[/].*[/])|[/])"
  }

  /** The same contribution as a syntax tree. */
  function PartRe(prev: Option<RegexSegment>, seg: RegexSegment, next: Option<RegexSegment>): Re
    requires NeighboursAllowed(prev, seg, next)
  {
    match seg
    case Single(t, _) =>
      if next.Some? && next.value.Single? then Cat(FragmentRe(Split(t, '*')), Slash)
      else FragmentRe(Split(t, '*'))
    case DoubleStar =>
      if prev.None? && next.None? then Opt(AnyRun)
      else if next.None? then Opt(Cat(Slash, AnyRun))
      else if prev.None? then Opt(Cat(AnyRun, Slash))
      else Alt(Cat(Slash, Cat(AnyRun, Slash)), Slash)
  }

  /** The text `to_regex_part` writes is the printing of `PartRe`. */
  lemma PrintPart(prev: Option<RegexSegment>, seg: RegexSegment, next: Option<RegexSegment>)
    requires NeighboursAllowed(prev, seg, next)
    requires seg.Single? ==> seg.fragment == Fragment(seg.piece)
    ensures Print(PartRe(prev, seg, next)) == Part(prev, seg, next)
  {
    if seg.Single? {
      PrintFragment(Split(seg.piece, '*'));
    }
  }

  function PrevOf(segs: seq<RegexSegment>, i: nat): Option<RegexSegment>
    requires i < |segs|
  {
    if i == 0 then None else Some(segs[i - 1])
  }

  function NextOf(segs: seq<RegexSegment>, i: nat): Option<RegexSegment>
    requires i < |segs|
  {
    if i + 1 < |segs| then Some(segs[i + 1]) else None
  }

  /** The assembled text of the segments from `i` on. */
  function AssembledFrom(segs: seq<RegexSegment>, i: nat): string
    requires i <= |segs| && NoAdjacentDoubleStars(segs)
    decreases |segs| - i
  {
    if i == |segs| then ""
    else Part(PrevOf(segs, i), segs[i], NextOf(segs, i)) + AssembledFrom(segs, i + 1)
  }

  /** The regular expression of the segments from `i` on. */
  function SegmentsRe(segs: seq<RegexSegment>, i: nat): Re
    requires i <= |segs| && NoAdjacentDoubleStars(segs)
    decreases |segs| - i
  {
    if i == |segs| then Empty
    else Cat(PartRe(PrevOf(segs, i), segs[i], NextOf(segs, i)), SegmentsRe(segs, i + 1))
  }

  /** The assembled text is the printing of the segments' regular expression. */
  lemma {:induction false} PrintSegments(segs: seq<RegexSegment>, i: nat)
    requires i <= |segs| && NoAdjacentDoubleStars(segs) && FragmentsBuilt(segs)
    ensures Print(SegmentsRe(segs, i)) == AssembledFrom(segs, i)
    decreases |segs| - i
  {
    if i == |segs| {
      PrintSegmentsEnd(segs);
    } else {
      PrintSegmentsStep(segs, i);
      PrintSegments(segs, i + 1);
    }
  }

  lemma PrintSegmentsEnd(segs: seq<RegexSegment>)
    requires NoAdjacentDoubleStars(segs)
    ensures Print(SegmentsRe(segs, |segs|)) == AssembledFrom(segs, |segs|) == ""
  {
  }

  lemma PrintSegmentsStep(segs: seq<RegexSegment>, i: nat)
    requires i < |segs| && NoAdjacentDoubleStars(segs) && FragmentsBuilt(segs)
    ensures Print(SegmentsRe(segs, i)) == Part(PrevOf(segs, i), segs[i], NextOf(segs, i)) + Print(SegmentsRe(segs, i + 1))
    ensures AssembledFrom(segs, i) == Part(PrevOf(segs, i), segs[i], NextOf(segs, i)) + AssembledFrom(segs, i + 1)
  {
    assert BuiltAt(segs, i);
    PrintPart(PrevOf(segs, i), segs[i], NextOf(segs, i));
  }

  lemma AssembledStep(segs: seq<RegexSegment>, i: nat)
    requires i < |segs| && NoAdjacentDoubleStars(segs)
    ensures NeighboursAllowed(PrevOf(segs, i), segs[i], NextOf(segs, i))
    ensures AssembledFrom(segs, i) == Part(PrevOf(segs, i), segs[i], NextOf(segs, i)) + AssembledFrom(segs, i + 1)
  {
  }

  /** The assembler loop of `regex_str` (rule.rs:147-153), tracking the previous
      segment. */
  method Assemble(segs: seq<RegexSegment>) returns (reBuilt: string)
    requires NoAdjacentDoubleStars(segs)
    ensures reBuilt == AssembledFrom(segs, 0)
  {
    reBuilt := "";
    var prev: Option<RegexSegment> := None;
    var i := 0;
    while i < |segs|
      invariant 0 <= i <= |segs|
      invariant prev == if i == 0 then None else Some(segs[i - 1])
      invariant reBuilt + AssembledFrom(segs, i) == AssembledFrom(segs, 0)
    {
      var next := if i + 1 < |segs| then Some(segs[i + 1]) else None;
      assert prev == PrevOf(segs, i) && next == NextOf(segs, i);
      AssembledStep(segs, i);
      var part := Part(prev, segs[i], next);
      assert reBuilt + AssembledFrom(segs, i) == (reBuilt + part) + AssembledFrom(segs, i + 1);
      reBuilt := reBuilt + part;
      prev := Some(segs[i]);
      i := i + 1;
    }
  }
}
