/**
 * First phase of the glob compiler (rule.rs, `Rule::regex_str`): the pattern is cut
 * at every match of the separator expression `[*]{2,}|[/]` (leftmost, greedy,
 * non-overlapping), the text between matches and the star runs are kept as
 * pieces, and `/` pieces and empty pieces are dropped.
 *
 * `Lex` is the specification of that scan; `Tokenize` is the left-to-right loop
 * with the `last` cursor of the source, proved to compute it.
 */
module Tokenizer {

  /** Position `j` of `s` starts a match of `[*]{2,}|[/]`. */
  predicate StartsSeparator(s: string, j: nat)
    requires j < |s|
  {
    s[j] == '/' || (s[j] == '*' && j + 1 < |s| && s[j + 1] == '*')
  }

  predicate AllStars(s: string)
  {
    forall i :: 0 <= i < |s| ==> s[i] == '*'
  }

  /** `s` holds no two consecutive stars. */
  predicate NoDoubleStar(s: string)
  {
    forall i :: 0 <= i < |s| - 1 ==> !(s[i] == '*' && s[i + 1] == '*')
  }

  /** `s` holds three consecutive stars somewhere. */
  predicate HasTripleStar(s: string)
  {
    exists i :: 0 <= i < |s| - 2 && s[i] == '*' && s[i + 1] == '*' && s[i + 2] == '*'
  }

  /** Length of the run of stars that `s` starts with (greedy `[*]+`). */
  function StarRun(s: string): (n: nat)
    ensures n <= |s|
    ensures forall i :: 0 <= i < n ==> s[i] == '*'
    ensures n < |s| ==> s[n] != '*'
    decreases |s|
  {
    if |s| == 0 || s[0] != '*' then 0 else 1 + StarRun(s[1..])
  }

  /** Length of the text that `s` starts with: everything before the first match
      of the separator expression. */
  function TextLen(s: string): (n: nat)
    ensures n <= |s|
    ensures forall j :: 0 <= j < n ==> !StartsSeparator(s, j)
    ensures n < |s| ==> StartsSeparator(s, n)
    decreases |s|
  {
    if |s| == 0 || StartsSeparator(s, 0) then 0
    else
      var m := TextLen(s[1..]);
      assert forall j :: 1 <= j <= m && j < |s| ==> (StartsSeparator(s, j) <==> StartsSeparator(s[1..], j - 1));
      1 + m
  }

  /** The pieces the compiler keeps, in order: star runs of length two or more and
      the non-empty text between separators; single slashes are dropped. */
  function Lex(p: string): (r: seq<string>)
    decreases |p|
  {
    if |p| == 0 then []
    else if p[0] == '/' then Lex(p[1..])
    else if p[0] == '*' && |p| > 1 && p[1] == '*' then
      var n := StarRun(p);
      [p[..n]] + Lex(p[n..])
    else
      var n := TextLen(p);
      [p[..n]] + Lex(p[n..])
  }

  /** A kept piece is either a star run of two or more, or non-empty text holding
      neither a slash nor two consecutive stars. */
  predicate WellFormedPiece(t: string)
  {
    && |t| > 0
    && '/' !in t
    && ((|t| >= 2 && AllStars(t)) || NoDoubleStar(t))
  }

  lemma {:induction false} LexPieces(p: string)
    ensures forall i :: 0 <= i < |Lex(p)| ==> WellFormedPiece(Lex(p)[i])
    decreases |p|
  {
    if |p| == 0 {
    } else if p[0] == '/' {
      LexPieces(p[1..]);
    } else if p[0] == '*' && |p| > 1 && p[1] == '*' {
      var n := StarRun(p);
      LexPieces(p[n..]);
      assert WellFormedPiece(p[..n]);
    } else {
      var n := TextLen(p);
      LexPieces(p[n..]);
      var t := p[..n];
      assert forall j :: 0 <= j < n ==> !StartsSeparator(p, j) && t[j] == p[j];
      assert forall j :: 0 <= j < |t| ==> t[j] != '/';
      assert NoDoubleStar(t);
    }
  }

  /** A slash splits the pattern into two independent halves: repeated, leading and
      trailing slashes therefore never change the pieces. */
  lemma LexSlash(a: string, b: string)
    ensures Lex(a + "/" + b) == Lex(a) + Lex(b)
  {
    var s := "/" + b;
    LexSeparated(a, s);
    assert a + s == a + "/" + b;
    assert s[1..] == b;
  }

  lemma {:induction false} LexSeparated(a: string, s: string)
    requires |s| > 0 && s[0] == '/'
    ensures Lex(a + s) == Lex(a) + Lex(s[1..])
    decreases |a|
  {
    if |a| == 0 {
      assert a + s == s;
    } else if a[0] == '/' {
      assert (a + s)[1..] == a[1..] + s;
      LexSeparated(a[1..], s);
    } else {
      var n: nat;
      if a[0] == '*' && |a| > 1 && a[1] == '*' {
        n := StarRunPrefix(a, s);
      } else {
        n := TextLenPrefix(a, s);
      }
      FirstPieceShared(a, s, n);
      LexSeparated(a[n..], s);
      FirstPieceStep(a, s, n, Lex(s[1..]));
    }
  }

  /** One step of `LexSeparated` and `LexDoubleStar`: when the first piece of `a` is
      also the first piece of `a + s`, what `s` adds after `a[n..]` it adds
      after `a`. */
  lemma FirstPieceStep(a: string, s: string, n: nat, added: seq<string>)
    requires |a| > 0 && a[0] != '/'
    requires n == FirstLen(a) == FirstLen(a + s)
    requires n <= |a| && Lex(a[n..] + s) == Lex(a[n..]) + added
    ensures Lex(a + s) == Lex(a) + added
  {
    FirstPieceShared(a, s, n);
  }

  /** The star run at the start of `a` is unaffected by a suffix that does not start
      with a star. */
  lemma {:induction false} StarRunPrefix(a: string, b: string) returns (n: nat)
    requires |b| > 0 ==> b[0] != '*'
    ensures n == StarRun(a) == StarRun(a + b)
    decreases |a|
  {
    if |a| == 0 || a[0] != '*' {
      n := 0;
    } else {
      assert (a + b)[1..] == a[1..] + b;
      var m := StarRunPrefix(a[1..], b);
      n := m + 1;
    }
  }

  /** The text at the start of non-empty `a` is unaffected by a suffix that starts
      with a slash. */
  lemma {:induction false} TextLenPrefix(a: string, b: string) returns (n: nat)
    requires |b| > 0 && b[0] == '/'
    ensures n == TextLen(a) == TextLen(a + b)
    decreases |a|
  {
    if |a| == 0 {
      n := 0;
    } else if StartsSeparator(a, 0) {
      assert StartsSeparator(a + b, 0);
      n := 0;
    } else {
      assert !StartsSeparator(a + b, 0);
      assert (a + b)[1..] == a[1..] + b;
      var m := TextLenPrefix(a[1..], b);
      n := m + 1;
    }
  }

  /** Consequence for the tests on duplicate slashes: `dir//file.txt` and
      `dir/file.txt` are cut into the same pieces. */
  lemma DuplicateSlash(a: string, b: string)
    ensures Lex(a + "//" + b) == Lex(a + "/" + b)
  {
    var t, u := "//" + b, "/" + b;
    LexSeparated(a, t);
    assert a + t == a + "//" + b && t[1..] == u;
    LexSeparated("", u);
    assert "" + u == u && u[1..] == b;
    LexSlash(a, b);
  }

  /** Leading and trailing slashes are ignored. */
  lemma SurroundingSlash(p: string)
    ensures Lex("/" + p) == Lex(p)
    ensures Lex(p + "/") == Lex(p)
  {
    LexSlash("", p);
    assert "" + "/" + p == "/" + p;
    LexSlash(p, "");
    assert p + "/" + "" == p + "/";
  }

  /** A text with no separator in it is one piece. */
  lemma LexWord(t: string)
    requires |t| > 0 && forall j :: 0 <= j < |t| ==> !StartsSeparator(t, j)
    ensures Lex(t) == [t]
  {
    assert !StartsSeparator(t, 0);
    var n := TextLen(t);
    assert n == |t|;
    assert t[..n] == t && t[n..] == "";
  }

  /** A pattern that is only a `**` is that one piece. */
  lemma LexStarStar()
    ensures Lex("**") == ["**"]
  {
    StarRunUnique("**", 2);
    assert "**"[..2] == "**" && "**"[2..] == "";
  }

  /** A `**` set off by slashes is the piece `**` between the pieces on either
      side. */
  lemma LexSlashedDoubleStar(a: string, b: string)
    ensures Lex(a + "/**/" + b) == Lex(a) + ["**"] + Lex(b)
  {
    var t, u := "/**/" + b, "/" + b;
    SlashedDoubleStarText(a, b, t, u);
    LexSlashedBetween(a, "**", b, t, u);
    LexStarStar();
  }

  lemma SlashedDoubleStarText(a: string, b: string, t: string, u: string)
    requires t == "/**/" + b && u == "/" + b
    ensures a + t == a + "/**/" + b
    ensures |t| > 0 && t[0] == '/' && t[1..] == "**" + u
    ensures |u| > 0 && u[0] == '/' && u[1..] == b
  {
  }

  /** A middle `m` set off by slashes is lexed on its own. */
  lemma LexSlashedBetween(a: string, m: string, b: string, t: string, u: string)
    requires |t| > 0 && t[0] == '/' && t[1..] == m + u
    requires |u| > 0 && u[0] == '/' && u[1..] == b
    ensures Lex(a + t) == Lex(a) + Lex(m) + Lex(b)
  {
    LexSeparated(a, t);
    LexSeparated(m, u);
  }

  /** `StarRun` is the only length with its two properties. */
  lemma StarRunUnique(s: string, m: nat)
    requires m <= |s|
    requires forall i :: 0 <= i < m ==> s[i] == '*'
    requires m < |s| ==> s[m] != '*'
    ensures StarRun(s) == m
  {
  }

  /** `TextLen` is the only length with its two properties. */
  lemma TextLenUnique(s: string, m: nat)
    requires m <= |s|
    requires forall j :: 0 <= j < m ==> !StartsSeparator(s, j)
    requires m < |s| ==> StartsSeparator(s, m)
    ensures TextLen(s) == m
  {
  }

  /** A `**` between two texts that do not touch it with further stars cuts the
      pattern just like `/**/` would: `root**test` and `root/**/test` are cut into
      the same pieces. */
  lemma {:induction false} LexDoubleStar(a: string, b: string)
    requires |a| > 0 ==> a[|a| - 1] != '*'
    requires |b| > 0 ==> b[0] != '*'
    ensures Lex(a + "**" + b) == Lex(a) + ["**"] + Lex(b)
    decreases |a|, 1
  {
    var p := a + "**" + b;
    if |a| == 0 {
      assert p == "**" + b;
      StarRunUnique(p, 2);
      assert p[..2] == "**" && p[2..] == b;
    } else if a[0] == '/' {
      assert p[1..] == a[1..] + "**" + b;
      LexDoubleStar(a[1..], b);
    } else {
      var n: nat;
      if a[0] == '*' && |a| > 1 && a[1] == '*' {
        n := StarRun(a);
        StarRunUnique(p, n);
      } else {
        n := TextLen(a);
        TextExtends(a, b, n);
      }
      DoubleStarStep(a, b, n);
    }
  }

  /** Length of the first piece of a pattern that does not start with a slash. */
  function FirstLen(q: string): nat
    requires |q| > 0
  {
    if q[0] == '*' && |q| > 1 && q[1] == '*' then StarRun(q) else TextLen(q)
  }

  lemma LexFirst(q: string)
    requires |q| > 0 && q[0] != '/'
    ensures 0 < FirstLen(q) <= |q|
    ensures Lex(q) == [q[..FirstLen(q)]] + Lex(q[FirstLen(q)..])
  {
  }

  /** After a first piece `a[..n]` that does not reach the `**`. */
  lemma DoubleStarStep(a: string, b: string, n: nat)
    requires |a| > 0 && a[|a| - 1] != '*' && a[0] != '/'
    requires |b| > 0 ==> b[0] != '*'
    requires n == FirstLen(a) == FirstLen(a + "**" + b)
    ensures Lex(a + "**" + b) == Lex(a) + ["**"] + Lex(b)
    decreases |a|, 0
  {
    var s := "**" + b;
    var rest := a[n..];
    StepText(a, rest, b, s);
    FirstPieceShared(a, s, n);
    LastOfRest(a, n);
    LexDoubleStar(rest, b);
    ConsAround(Lex(a + s), a[..n], Lex(rest + s), Lex(rest), Lex(a), "**", Lex(b));
  }

  lemma StepText(a: string, rest: string, b: string, s: string)
    requires s == "**" + b
    ensures a + "**" + b == a + s && rest + s == rest + "**" + b
  {
  }

  /** A first piece in front of pieces around a middle one. */
  lemma ConsAround(whole: seq<string>, x: string, tail: seq<string>, l: seq<string>, lx: seq<string>, d: string, m: seq<string>)
    requires whole == [x] + tail && tail == l + [d] + m && lx == [x] + l
    ensures whole == lx + [d] + m
  {
  }

  lemma LastOfRest(a: string, n: nat)
    requires n <= |a|
    ensures |a[n..]| > 0 ==> a[n..][|a[n..]| - 1] == a[|a| - 1]
  {
  }

  /** When the first piece of `a` is also the first piece of `a + s`, the rest of
      `a + s` is lexed on its own. */
  lemma FirstPieceShared(a: string, s: string, n: nat)
    requires |a| > 0 && a[0] != '/'
    requires n == FirstLen(a) == FirstLen(a + s)
    ensures n <= |a|
    ensures Lex(a) == [a[..n]] + Lex(a[n..])
    ensures Lex(a + s) == [a[..n]] + Lex(a[n..] + s)
  {
    LexFirst(a);
    LexFirst(a + s);
    CutAppended(a, s, n);
  }

  lemma CutAppended(a: string, s: string, n: nat)
    requires n <= |a|
    ensures (a + s)[..n] == a[..n] && (a + s)[n..] == a[n..] + s
  {
  }

  /** The text at the start of `a` (which does not end with a star) is unaffected by
      a following `**`. */
  lemma TextExtends(a: string, b: string, n: nat)
    requires |a| > 0 && a[|a| - 1] != '*' && !StartsSeparator(a, 0)
    requires n == TextLen(a)
    ensures TextLen(a + "**" + b) == n
  {
    var p := a + "**" + b;
    forall j | 0 <= j < n
      ensures !StartsSeparator(p, j)
    {
      assert !StartsSeparator(a, j);
      assert p[j] == a[j];
      if j + 1 < |a| {
        assert p[j + 1] == a[j + 1];
      }
    }
    if n < |a| {
      assert StartsSeparator(a, n);
      assert p[n] == a[n];
      if n + 1 < |a| {
        assert p[n + 1] == a[n + 1];
      }
    } else {
      assert p[|a|] == '*' && p[|a| + 1] == '*';
    }
    TextLenUnique(p, n);
  }

  /** Some kept piece is a run of three or more stars. */
  predicate HasLongRun(pieces: seq<string>)
  {
    exists i :: 0 <= i < |pieces| && |pieces[i]| > 2 && AllStars(pieces[i])
  }

  lemma LongRunCons(t: string, rest: seq<string>)
    ensures HasLongRun([t] + rest) <==> (|t| > 2 && AllStars(t)) || HasLongRun(rest)
  {
    var r := [t] + rest;
    if HasLongRun(r) {
      var k :| 0 <= k < |r| && |r[k]| > 2 && AllStars(r[k]);
      if k > 0 {
        assert r[k] == rest[k - 1];
      }
    }
    if HasLongRun(rest) {
      var k :| 0 <= k < |rest| && |rest[k]| > 2 && AllStars(rest[k]);
      assert r[k + 1] == rest[k];
    }
    assert r[0] == t;
  }

  /** The pieces hold a run of three or more stars exactly when the pattern holds
      three consecutive stars. */
  lemma {:induction false} LexLongRun(p: string)
    ensures HasLongRun(Lex(p)) <==> HasTripleStar(p)
    decreases |p|
  {
    if |p| == 0 {
    } else if p[0] == '/' {
      LexLongRun(p[1..]);
      TripleShift(p, 1);
      assert HasTripleStar(p) ==> HasTripleStar(p[1..]) by {
        if HasTripleStar(p) {
          var k :| 0 <= k < |p| - 2 && p[k] == '*' && p[k + 1] == '*' && p[k + 2] == '*';
          assert p[1..][k - 1] == p[k];
        }
      }
    } else if p[0] == '*' && |p| > 1 && p[1] == '*' {
      var n := StarRun(p);
      LexLongRun(p[n..]);
      LongRunCons(p[..n], Lex(p[n..]));
      RunTriple(p, n);
    } else {
      var n := TextLen(p);
      LexLongRun(p[n..]);
      LongRunCons(p[..n], Lex(p[n..]));
      TextTriple(p, n);
    }
  }

  lemma RunTriple(p: string, n: nat)
    requires |p| > 1 && p[0] == '*' && p[1] == '*' && n == StarRun(p)
    ensures HasTripleStar(p) <==> (|p[..n]| > 2 && AllStars(p[..n])) || HasTripleStar(p[n..])
  {
    TripleShift(p, n);
    if n > 2 {
      assert p[0] == '*' && p[1] == '*' && p[2] == '*';
    }
    if HasTripleStar(p) && n <= 2 {
      var k :| 0 <= k < |p| - 2 && p[k] == '*' && p[k + 1] == '*' && p[k + 2] == '*';
      assert k >= n;
      assert p[n..][k - n] == p[k];
    }
  }

  lemma TextTriple(p: string, n: nat)
    requires |p| > 0 && !StartsSeparator(p, 0) && n == TextLen(p)
    ensures !(|p[..n]| > 2 && AllStars(p[..n]))
    ensures HasTripleStar(p) <==> HasTripleStar(p[n..])
  {
    TripleShift(p, n);
    if HasTripleStar(p) {
      var k :| 0 <= k < |p| - 2 && p[k] == '*' && p[k + 1] == '*' && p[k + 2] == '*';
      assert StartsSeparator(p, k);
      assert k >= n;
      assert p[n..][k - n] == p[k];
    }
  }

  /** A triple star in a suffix of `p` is a triple star of `p`. */
  lemma TripleShift(p: string, n: nat)
    requires n <= |p|
    ensures HasTripleStar(p[n..]) ==> HasTripleStar(p)
  {
    if HasTripleStar(p[n..]) {
      var k :| 0 <= k < |p[n..]| - 2 && p[n..][k] == '*' && p[n..][k + 1] == '*' && p[n..][k + 2] == '*';
      assert p[n + k] == '*' && p[n + k + 1] == '*' && p[n + k + 2] == '*';
    }
  }

  // MARK: the scan
  //
  // Each step lemma below says how the scan may move on while keeping
  // `Lex(p) == parts + Lex(p[last..])`: emit the pending text, skip a slash, or
  // emit a star run.

  lemma TextUpTo(p: string, last: nat, i: nat, parts: seq<string>)
    requires last < i <= |p|
    requires forall j :: last <= j < i ==> !StartsSeparator(p, j)
    requires i < |p| ==> StartsSeparator(p, i)
    requires Lex(p) == parts + Lex(p[last..])
    ensures Lex(p) == (parts + [p[last..i]]) + Lex(p[i..])
  {
    TextPiece(p, last, i);
    PieceThen(Lex(p), parts, Lex(p[last..]), p[last..i], Lex(p[i..]));
  }

  /** Emitting the first piece of what is still to be lexed. */
  lemma PieceThen(whole: seq<string>, parts: seq<string>, tail: seq<string>, piece: string, rest: seq<string>)
    requires whole == parts + tail && tail == [piece] + rest
    ensures whole == (parts + [piece]) + rest
  {
  }

  /** The text of `p` from `last` up to a separator (or the end) is one piece. */
  lemma TextPiece(p: string, last: nat, i: nat)
    requires last < i <= |p|
    requires forall j :: last <= j < i ==> !StartsSeparator(p, j)
    requires i < |p| ==> StartsSeparator(p, i)
    ensures Lex(p[last..]) == [p[last..i]] + Lex(p[i..])
  {
    var q := p[last..];
    assert forall j :: 0 <= j < |q| ==> (StartsSeparator(q, j) <==> StartsSeparator(p, last + j));
    assert !StartsSeparator(q, 0);
    var n := TextLen(q);
    assert i < |p| ==> StartsSeparator(q, i - last);
    assert n == i - last;
    assert q[..n] == p[last..i];
    assert q[n..] == p[i..];
  }

  lemma RunAt(p: string, i: nat, e: nat, parts: seq<string>)
    requires i + 2 <= e <= |p|
    requires forall j :: i <= j < e ==> p[j] == '*'
    requires e < |p| ==> p[e] != '*'
    requires Lex(p) == parts + Lex(p[i..])
    ensures Lex(p) == (parts + [p[i..e]]) + Lex(p[e..])
  {
    RunPiece(p, i, e);
    PieceThen(Lex(p), parts, Lex(p[i..]), p[i..e], Lex(p[e..]));
  }

  /** The star run of `p` that starts at `i` and ends at `e` is one piece. */
  lemma RunPiece(p: string, i: nat, e: nat)
    requires i + 2 <= e <= |p|
    requires forall j :: i <= j < e ==> p[j] == '*'
    requires e < |p| ==> p[e] != '*'
    ensures Lex(p[i..]) == [p[i..e]] + Lex(p[e..])
  {
    var q := p[i..];
    var n := StarRun(q);
    assert n == e - i;
    assert q[..n] == p[i..e];
    assert q[n..] == p[e..];
  }

  /** A slash is dropped. */
  lemma SlashAt(p: string, i: nat, parts: seq<string>)
    requires i < |p| && p[i] == '/'
    requires Lex(p) == parts + Lex(p[i..])
    ensures Lex(p) == parts + Lex(p[i + 1..])
  {
    assert p[i..][1..] == p[i + 1..];
  }

  /** The pending text goes on over a character that starts no separator. */
  lemma TextGoesOn(p: string, last: nat, i: nat)
    requires last <= i < |p| && !StartsSeparator(p, i)
    requires forall j :: last <= j < i ==> !StartsSeparator(p, j)
    ensures forall j :: last <= j < i + 1 ==> !StartsSeparator(p, j)
  {
  }

  /** End of the maximal star run that starts with the two stars at `i`. */
  method RunEnd(p: string, i: nat) returns (e: nat)
    requires i + 1 < |p| && p[i] == '*' && p[i + 1] == '*'
    ensures i + 2 <= e <= |p|
    ensures forall j :: i <= j < e ==> p[j] == '*'
    ensures e < |p| ==> p[e] != '*'
  {
    e := i + 2;
    while e < |p| && p[e] == '*'
      invariant i + 2 <= e <= |p|
      invariant forall j :: i <= j < e ==> p[j] == '*'
    {
      e := e + 1;
    }
  }

  /** The tokenizing loop of `regex_str`: `last` marks the start of the pending text
      piece, which is emitted when a slash or a star run of two or more is met. */
  method Tokenize(p: string) returns (parts: seq<string>)
    ensures parts == Lex(p)
  {
    parts := [];
    var last := 0;
    var i := 0;
    while i < |p|
      invariant 0 <= last <= i <= |p|
      invariant forall j :: last <= j < i ==> !StartsSeparator(p, j)
      invariant Lex(p) == parts + Lex(p[last..])
      decreases |p| - i, i - last
    {
      if StartsSeparator(p, i) && last < i {
        // the text before the separator
        TextUpTo(p, last, i, parts);
        parts := parts + [p[last..i]];
        last := i;
      } else if p[i] == '/' {
        SlashAt(p, i, parts);
        i := i + 1;
        last := i;
      } else if StartsSeparator(p, i) {
        var e := RunEnd(p, i);
        RunAt(p, i, e, parts);
        parts := parts + [p[i..e]];
        i := e;
        last := i;
      } else {
        TextGoesOn(p, last, i);
        i := i + 1;
      }
    }
    if last < i {
      TextUpTo(p, last, i, parts);
      parts := parts + [p[last..i]];
      assert p[i..] == [];
    }
  }
}
