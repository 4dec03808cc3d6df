// The unit tests of rule.rs, as theorems. Each family of test patterns gets a
// theorem over every path (what the compiled rule matches, in terms of the
// path's `/`-separated components), and each test is then an instance of it on
// the test's own paths.
//
// The concrete lemmas take the pattern as a parameter fixed by their `requires`,
// so that the verifier reasons about the compiled rule through the family
// theorem rather than by evaluating the compiler on a literal.
module RuleTests {
  import opened Util
  import opened Tokenizer
  import opened RegexModel
  import opened RegexSegments
  import opened GlobSemantics
  import opened GlobRule

  // MARK: vocabulary

  /** A literal text: no slash and no star. */
  predicate Plain(x: string)
  {
    '/' !in x && '*' !in x
  }

  predicate EndsIn(c: string, x: string)
  {
    |x| <= |c| && c[|c| - |x|..] == x
  }

  // MARK: computing the pieces and segments of the test patterns

  lemma PlainWord(x: string)
    requires |x| > 0 && Plain(x)
    ensures Lex(x) == [x] && !IsStarRun(x) && Split(x, '*') == [x]
  {
    LexWord(x);
    assert x[0] != '*';
    SplitNone(x, '*');
  }

  lemma StarWord(x: string)
    requires Plain(x)
    ensures Lex("*" + x) == ["*" + x] && !IsStarRun("*" + x)
  {
    var w := "*" + x;
    if |x| > 0 {
      assert w[1] == x[0];
    }
    LexWord(w);
  }

  /** A rule matches a path when its segments take the path's components. */
  lemma MatchVia(pattern: string, rule: Rule, s: string, segs: seq<RegexSegment>)
    requires Compile(pattern) == Some(rule) && Program(pattern) == Some(segs) && |segs| > 0
    ensures IsMatch(rule, s) <==> CompMatch(segs, Split(s, '/'))
  {
    MatchMeaning(pattern, s);
  }

  lemma ReducedWordSome(t: string, rest: seq<string>, flag: bool, tail: seq<RegexSegment>)
    requires !IsStarRun(t) && Reduced(rest, false) == Some(tail)
    ensures Reduced([t] + rest, flag) == Some([Seg(t)] + tail)
  {
    ReducedWord(t, rest, flag);
  }

  lemma ReducedDoubleSome(rest: seq<string>, tail: seq<RegexSegment>)
    requires Reduced(rest, true) == Some(tail)
    ensures Reduced(["**"] + rest, false) == Some([DoubleStar] + tail)
  {
    ReducedDouble(rest, false);
  }

  lemma ReducedDouble(rest: seq<string>, flag: bool)
    ensures Reduced(["**"] + rest, flag) == Prefixed(if flag then [] else [DoubleStar], Reduced(rest, true))
  {
    assert IsStarRun("**");
    assert (["**"] + rest)[0] == "**";
    assert (["**"] + rest)[1..] == rest;
    var r := Reduced(rest, true);
    if r.Some? {
      assert [] + r.value == r.value;
    }
  }

  // MARK: matching a few segment lists

  /** A single segment takes exactly one component. */
  lemma OneSegment(seg: RegexSegment, ds: seq<string>)
    requires seg.Single?
    ensures CompMatch([seg], ds) <==> |ds| == 1 && PieceMatch(Split(seg.piece, '*'), ds[0])
  {
    CompSingle([seg], 0, ds);
    if |ds| > 0 {
      CompEnd([seg], ds[1..]);
    }
    assert [seg][0..] == [seg];
  }

  /** A lone `**` takes every component, provided none holds a newline. */
  lemma DoubleStarAlone(ds: seq<string>)
    ensures CompMatch([DoubleStar], ds) <==> NoNewlines(ds)
  {
    CompDouble([DoubleStar], 0, ds);
    assert [DoubleStar][0..] == [DoubleStar];
    if CompMatch([DoubleStar], ds) {
      var k :| 0 <= k <= |ds| && NoNewlines(ds[..k]) && CompMatch([DoubleStar][1..], ds[k..]);
      CompEnd([DoubleStar], ds[k..]);
      assert ds[..k] == ds;
    }
    if NoNewlines(ds) {
      CompEnd([DoubleStar], ds[|ds|..]);
      assert ds[..|ds|] == ds;
    }
  }

  /** `**` followed by one segment: the segment takes the last component, and
      the `**` all the others. */
  lemma DoubleStarThenOne(seg: RegexSegment, cs: seq<string>)
    requires seg.Single?
    ensures CompMatch([DoubleStar, seg], cs)
            <==> |cs| > 0 && NoNewlines(cs[..|cs| - 1]) && PieceMatch(Split(seg.piece, '*'), cs[|cs| - 1])
  {
    var segs := [DoubleStar, seg];
    CompDouble(segs, 0, cs);
    assert segs[0..] == segs && segs[1..] == [seg];
    if CompMatch(segs, cs) {
      var k :| 0 <= k <= |cs| && NoNewlines(cs[..k]) && CompMatch([seg], cs[k..]);
      OneSegment(seg, cs[k..]);
      assert k == |cs| - 1;
    }
    if |cs| > 0 && NoNewlines(cs[..|cs| - 1]) && PieceMatch(Split(seg.piece, '*'), cs[|cs| - 1]) {
      OneSegment(seg, cs[|cs| - 1..]);
    }
  }

  /** A piece `*x` matches the components that end with `x`. */
  lemma StarThen(x: string, c: string)
    requires '*' !in x
    ensures Split("*" + x, '*') == ["", x]
    ensures PieceMatch(["", x], c) <==> EndsIn(c, x)
  {
    SplitAppend("", '*', x);
    assert "" + ['*'] + x == "*" + x;
    SplitNone(x, '*');
    var parts := ["", x];
    assert parts[1..] == [x];
    assert c[..0] == "";
    assert PieceMatch(parts, c) <==> exists j :: 0 <= j <= |c| && c[j..] == x;
    if EndsIn(c, x) {
      assert PieceMatch([x], c[|c| - |x|..]);
    }
  }

  /** The components of paths written out with one, two and three of them. */
  lemma TwoComponents(a: string, b: string)
    requires '/' !in a && '/' !in b
    ensures Split(a + "/" + b, '/') == [a, b]
  {
    SplitNone(a, '/');
    SplitNone(b, '/');
    SplitAppend(a, '/', b);
  }

  lemma Components(a: string, b: string, c: string)
    requires '/' !in a && '/' !in b && '/' !in c
    ensures Split(a, '/') == [a]
    ensures Split(a + "/" + b, '/') == [a, b]
    ensures Split(a + "/" + b + "/" + c, '/') == [a, b, c]
  {
    SplitNone(a, '/');
    SplitNone(b, '/');
    SplitNone(c, '/');
    SplitAppend(a, '/', b);
    SplitAppend(b, '/', c);
    SplitAppend(a, '/', b + "/" + c);
    assert a + "/" + b + "/" + c == a + ['/'] + (b + ['/'] + c);
  }

  // MARK: any depth, then a suffix (`simple_doublestar`, `doublestar_good_extension`)

  lemma AnyDepthSuffixProgram(x: string)
    requires Plain(x)
    ensures Program("**/*" + x) == Some([DoubleStar, Seg("*" + x)])
  {
    var w := "*" + x;
    LexSlash("**", w);
    assert "**" + "/" + w == "**/*" + x;
    LexStarStar();
    StarWord(x);
    ReducedWord(w, [], true);
    assert Reduced([], false) == Some([]);
    ReducedDouble([w], false);
    assert ["**"] + [w] == ["**", w];
    assert [Seg(w)] + [] == [Seg(w)];
    assert [DoubleStar] + [Seg(w)] == [DoubleStar, Seg(w)];
  }

  // A star after a `**` and a slash: the rule matches exactly the paths whose
  // last component ends with `x` and whose other components hold no newline.
  lemma AnyDepthSuffix(x: string, rule: Rule, s: string)
    requires Plain(x) && Compile("**/*" + x) == Some(rule)
    ensures IsMatch(rule, s)
            <==> var cs := Split(s, '/'); NoNewlines(cs[..|cs| - 1]) && EndsIn(cs[|cs| - 1], x)
  {
    AnyDepthSuffixProgram(x);
    MatchVia("**/*" + x, rule, s, [DoubleStar, Seg("*" + x)]);
    AnyDepthSuffixComponents(x, Split(s, '/'));
  }

  lemma AnyDepthSuffixComponents(x: string, cs: seq<string>)
    requires Plain(x) && |cs| > 0
    ensures CompMatch([DoubleStar, Seg("*" + x)], cs)
            <==> NoNewlines(cs[..|cs| - 1]) && EndsIn(cs[|cs| - 1], x)
  {
    DoubleStarThenOne(Seg("*" + x), cs);
    StarThen(x, cs[|cs| - 1]);
  }

  /** `AnyDepthSuffix` on paths of one, two and three components. */
  lemma AnyDepthOne(x: string, rule: Rule, a: string)
    requires Plain(x) && Compile("**/*" + x) == Some(rule) && '/' !in a
    ensures IsMatch(rule, a) <==> EndsIn(a, x)
  {
    SplitNone(a, '/');
    AnyDepthSuffix(x, rule, a);
  }

  lemma AnyDepthTwo(x: string, rule: Rule, a: string, b: string)
    requires Plain(x) && Compile("**/*" + x) == Some(rule) && '/' !in a && '/' !in b
    ensures IsMatch(rule, a + "/" + b) <==> '\n' !in a && EndsIn(b, x)
  {
    TwoComponents(a, b);
    AnyDepthSuffix(x, rule, a + "/" + b);
    assert [a, b][..1] == [a];
    assert NoNewlines([a]) <==> '\n' !in a by {
      assert [a][0] == a;
    }
  }

  lemma AnyDepthThree(x: string, rule: Rule, a: string, b: string, c: string)
    requires Plain(x) && Compile("**/*" + x) == Some(rule)
    requires '/' !in a && '/' !in b && '/' !in c
    ensures IsMatch(rule, a + "/" + b + "/" + c) <==> '\n' !in a && '\n' !in b && EndsIn(c, x)
  {
    Components(a, b, c);
    AnyDepthSuffix(x, rule, a + "/" + b + "/" + c);
    assert [a, b, c][..2] == [a, b];
    assert NoNewlines([a, b]) <==> '\n' !in a && '\n' !in b by {
      assert [a, b][0] == a && [a, b][1] == b;
    }
  }

  lemma SimpleDoubleStarText()
    ensures "**/*" + ".txt" == "**/*.txt" && "**/**/**/*" + ".txt" == "**/**/**/*.txt"
    ensures "dir" + "/" + "file.txt" == "dir/file.txt"
    ensures "dir" + "/" + "file.jpg" == "dir/file.jpg"
    ensures "dir" + "/" + "subdir" + "/" + "file.txt" == "dir/subdir/file.txt"
    ensures EndsIn("file.txt", ".txt") && !EndsIn("file.jpg", ".txt")
    ensures Plain(".txt") && Plain("file.txt") && Plain("file.jpg") && Plain("dir") && Plain("subdir")
    ensures '\n' !in "dir" && '\n' !in "subdir"
  {
    assert "file.txt"[4..] == ".txt";
    assert "file.jpg"[4..] == ".jpg";
  }

  /** The `simple_doublestar` test (rule.rs:218-227). */
  lemma SimpleDoubleStar(pattern: string, rule: Rule)
    requires pattern == "**/*.txt" && Compile(pattern) == Some(rule)
    ensures IsMatch(rule, "file.txt")
    ensures IsMatch(rule, "dir/file.txt")
    ensures IsMatch(rule, "dir/subdir/file.txt")
    ensures !IsMatch(rule, "file.jpg")
    ensures !IsMatch(rule, "dir/file.jpg")
  {
    SimpleDoubleStarText();
    AnyDepthOne(".txt", rule, "file.txt");
    AnyDepthOne(".txt", rule, "file.jpg");
    AnyDepthTwo(".txt", rule, "dir", "file.txt");
    AnyDepthTwo(".txt", rule, "dir", "file.jpg");
    AnyDepthThree(".txt", rule, "dir", "subdir", "file.txt");
  }

  // MARK: consecutive `**` (`consecutive_doublestar`)

  lemma LexSlashes(a: string, b: string, c: string, d: string)
    ensures Lex(a + "/" + b + "/" + c + "/" + d) == Lex(a) + Lex(b) + Lex(c) + Lex(d)
  {
    LexSlash(a + "/" + b + "/" + c, d);
    LexSlash(a + "/" + b, c);
    LexSlash(a, b);
  }

  lemma ConsecutiveText(x: string)
    ensures "**" + "/" + "**" + "/" + "**" + "/" + ("*" + x) == "**/**/**/*" + x
  {
    assert "**" + "/" + "**" + "/" + "**" + "/" == "**/**/**/";
    assert "**/**/**/" + "*" == "**/**/**/*";
  }

  lemma ConsecutiveLex(x: string)
    requires |x| > 0 && Plain(x)
    ensures Lex("**/**/**/*" + x) == ["**"] + ["**"] + ["**"] + ["*" + x]
  {
    StarWord(x);
    LexStarStar();
    ConsecutiveText(x);
    LexSlashes("**", "**", "**", "*" + x);
  }

  // Three `**` in a row compile to the same expression as one.
  lemma ConsecutiveDoubleStars(x: string)
    requires |x| > 0 && Plain(x)
    ensures Program("**/**/**/*" + x) == Program("**/*" + x)
    ensures Compile("**/**/**/*" + x).Some? && Compile("**/*" + x).Some?
    ensures Compile("**/**/**/*" + x).value.regex == Compile("**/*" + x).value.regex
  {
    var w := "*" + x;
    AnyDepthSuffixProgram(x);
    ConsecutiveLex(x);
    StarWord(x);
    ReducedWord(w, [], true);
    assert [Seg(w)] + [] == [Seg(w)];
    ReducedDouble([w], true);
    ReducedDouble(["**"] + [w], true);
    ReducedDouble(["**"] + (["**"] + [w]), false);
    assert ["**"] + ["**"] + ["**"] + [w] == ["**"] + (["**"] + (["**"] + [w]));
    assert [DoubleStar] + [Seg(w)] == [DoubleStar, Seg(w)];
  }

  /** The `consecutive_doublestar` test (rule.rs:229-238): the same paths as
      `SimpleDoubleStar`. */
  lemma ConsecutiveDoubleStar(pattern: string, rule: Rule)
    requires pattern == "**/**/**/*.txt" && Compile(pattern) == Some(rule)
    ensures IsMatch(rule, "file.txt")
    ensures IsMatch(rule, "dir/file.txt")
    ensures IsMatch(rule, "dir/subdir/file.txt")
    ensures !IsMatch(rule, "file.jpg")
    ensures !IsMatch(rule, "dir/file.jpg")
  {
    var single := ConsecutiveRule(pattern, "**/*.txt", rule);
    SimpleDoubleStar("**/*.txt", single);
  }

  // Three consecutive `**` before `*.txt` give the rule of a single one.
  lemma ConsecutiveRule(pattern: string, simple: string, rule: Rule) returns (single: Rule)
    requires pattern == "**/**/**/*.txt" && simple == "**/*.txt" && Compile(pattern) == Some(rule)
    ensures Compile(simple) == Some(single) && single.regex == rule.regex
  {
    SimpleDoubleStarText();
    ConsecutiveDoubleStars(".txt");
    single := Compile(simple).value;
  }

  // MARK: everything under a directory (`doublestar_end`, `doublestar_nullable_post`)

  lemma UnderDirProgram(r: string)
    requires |r| > 0 && Plain(r)
    ensures Program(r + "/**") == Some([Seg(r), DoubleStar])
  {
    LexSlash(r, "**");
    assert r + "/" + "**" == r + "/**";
    LexStarStar();
    PlainWord(r);
    ReducedDouble([], false);
    assert Reduced([], true) == Some([]);
    assert [DoubleStar] + [] == [DoubleStar];
    ReducedWord(r, ["**"], false);
    assert [r] + ["**"] == Lex(r + "/" + "**");
    assert [Seg(r)] + [DoubleStar] == [Seg(r), DoubleStar];
  }

  lemma UnderDirComponents(r: string, cs: seq<string>)
    requires |r| > 0 && Plain(r) && |cs| > 0
    ensures CompMatch([Seg(r), DoubleStar], cs) <==> cs[0] == r && NoNewlines(cs[1..])
  {
    var segs := [Seg(r), DoubleStar];
    PlainWord(r);
    CompSingle(segs, 0, cs);
    assert segs[0..] == segs && segs[1..] == [DoubleStar];
    DoubleStarAlone(cs[1..]);
  }

  // A `**` after a directory and a slash: the rule matches the directory itself
  // and every path below it (with no newline in the components below it).
  lemma UnderDir(r: string, rule: Rule, s: string)
    requires |r| > 0 && Plain(r) && Compile(r + "/**") == Some(rule)
    ensures IsMatch(rule, s) <==> var cs := Split(s, '/'); cs[0] == r && NoNewlines(cs[1..])
  {
    UnderDirProgram(r);
    MatchVia(r + "/**", rule, s, [Seg(r), DoubleStar]);
    UnderDirComponents(r, Split(s, '/'));
  }

  lemma UnderDirOn(r: string, rule: Rule, a: string, b: string)
    requires |r| > 0 && Plain(r) && Compile(r + "/**") == Some(rule)
    requires '/' !in a && '/' !in b
    ensures IsMatch(rule, a) <==> a == r
    ensures IsMatch(rule, a + "/" + b) <==> a == r && '\n' !in b
  {
    Components(a, b, "");
    UnderDir(r, rule, a);
    UnderDir(r, rule, a + "/" + b);
    assert [a][1..] == [];
    assert [a, b][1..] == [b];
    assert NoNewlines([b]) <==> '\n' !in b by {
      assert [b][0] == b;
    }
  }

  lemma UnderDirText()
    ensures "root" + "/**" == "root/**"
    ensures "root" + "/" + "file" == "root/file"
    ensures "dir" + "/" + "file" == "dir/file"
    ensures "rootfile" != "root" && "dir" != "root"
    ensures Plain("root") && Plain("rootfile") && Plain("dir") && Plain("file") && Plain("")
    ensures '\n' !in "file" && '\n' !in ""
  {
  }

  /** The `doublestar_end` and `doublestar_nullable_post` tests
      (rule.rs:263-270, 323-330). */
  lemma DoubleStarEnd(pattern: string, rule: Rule)
    requires pattern == "root/**" && Compile(pattern) == Some(rule)
    ensures IsMatch(rule, "root")
    ensures IsMatch(rule, "root/file")
    ensures !IsMatch(rule, "rootfile")
    ensures !IsMatch(rule, "dir/file")
  {
    UnderDirText();
    UnderDirOn("root", rule, "root", "file");
    UnderDirOn("root", rule, "rootfile", "");
    UnderDirOn("root", rule, "dir", "file");
  }

  // MARK: a last component (`doublestar_start`, `doublestar_bad_extension`)

  lemma LastIsProgram(x: string)
    requires |x| > 0 && Plain(x)
    ensures Program("**" + x) == Some([DoubleStar, Seg(x)])
    ensures Program("**/" + x) == Some([DoubleStar, Seg(x)])
  {
    LexDoubleStar("", x);
    assert "" + "**" + x == "**" + x;
    LexSlash("**", x);
    assert "**" + "/" + x == "**/" + x;
    LexStarStar();
    PlainWord(x);
    assert Lex("**" + x) == ["**"] + [x] == Lex("**/" + x);
    ReducedWord(x, [], true);
    assert [Seg(x)] + [] == [Seg(x)];
    ReducedDouble([x], false);
    assert [DoubleStar] + [Seg(x)] == [DoubleStar, Seg(x)];
  }

  lemma LastIsComponents(x: string, cs: seq<string>)
    requires |x| > 0 && Plain(x) && |cs| > 0
    ensures CompMatch([DoubleStar, Seg(x)], cs) <==> NoNewlines(cs[..|cs| - 1]) && cs[|cs| - 1] == x
  {
    PlainWord(x);
    DoubleStarThenOne(Seg(x), cs);
  }

  // A `**` followed by a literal, with or without a slash between them: the
  // rule matches exactly the paths whose last component IS the literal, so
  // `**.flac` does not match `test.flac`.
  lemma LastIs(x: string, rule: Rule, s: string)
    requires |x| > 0 && Plain(x)
    requires Compile("**" + x) == Some(rule) || Compile("**/" + x) == Some(rule)
    ensures IsMatch(rule, s) <==> var cs := Split(s, '/'); NoNewlines(cs[..|cs| - 1]) && cs[|cs| - 1] == x
  {
    LastIsProgram(x);
    var segs := [DoubleStar, Seg(x)];
    if Compile("**" + x) == Some(rule) {
      MatchVia("**" + x, rule, s, segs);
    } else {
      MatchVia("**/" + x, rule, s, segs);
    }
    LastIsComponents(x, Split(s, '/'));
  }

  /** `LastIs` on paths of one, two and three components. */
  lemma LastIsOne(x: string, rule: Rule, a: string)
    requires |x| > 0 && Plain(x) && '/' !in a
    requires Compile("**" + x) == Some(rule) || Compile("**/" + x) == Some(rule)
    ensures IsMatch(rule, a) <==> a == x
  {
    SplitNone(a, '/');
    LastIs(x, rule, a);
  }

  lemma LastIsTwo(x: string, rule: Rule, a: string, b: string)
    requires |x| > 0 && Plain(x) && '/' !in a && '/' !in b
    requires Compile("**" + x) == Some(rule) || Compile("**/" + x) == Some(rule)
    ensures IsMatch(rule, a + "/" + b) <==> '\n' !in a && b == x
  {
    TwoComponents(a, b);
    LastIs(x, rule, a + "/" + b);
    assert [a, b][..1] == [a];
    assert NoNewlines([a]) <==> '\n' !in a by {
      assert [a][0] == a;
    }
  }

  lemma LastIsThree(x: string, rule: Rule, a: string, b: string, c: string)
    requires |x| > 0 && Plain(x) && '/' !in a && '/' !in b && '/' !in c
    requires Compile("**" + x) == Some(rule) || Compile("**/" + x) == Some(rule)
    ensures IsMatch(rule, a + "/" + b + "/" + c) <==> '\n' !in a && '\n' !in b && c == x
  {
    Components(a, b, c);
    LastIs(x, rule, a + "/" + b + "/" + c);
    assert [a, b, c][..2] == [a, b];
    assert NoNewlines([a, b]) <==> '\n' !in a && '\n' !in b by {
      assert [a, b][0] == a && [a, b][1] == b;
    }
  }

  lemma LastIsText()
    ensures "**" + ".flac" == "**.flac" && "**/" + "dir" == "**/dir"
    ensures "root" + "/" + ".flac" == "root/.flac"
    ensures "root" + "/" + "a" + "/" + ".flac" == "root/a/.flac"
    ensures "root" + "/" + "test.flac" == "root/test.flac"
    ensures "test.flac" != ".flac" && "test.mp3" != ".flac"
    ensures "a" + "/" + "b" + "/" + "dir" == "a/b/dir"
    ensures "dir" + "/" + "file" == "dir/file"
    ensures "file" != "dir"
    ensures Plain(".flac") && Plain("root") && Plain("a") && Plain("b") && Plain("dir") && Plain("file")
    ensures Plain("test.flac") && Plain("test.mp3")
    ensures '\n' !in "root" && '\n' !in "a" && '\n' !in "b" && '\n' !in "dir"
  {
  }

  /** The `doublestar_start` test (rule.rs:271-278). */
  lemma DoubleStarStart(pattern: string, rule: Rule)
    requires pattern == "**/dir" && Compile(pattern) == Some(rule)
    ensures IsMatch(rule, "dir")
    ensures IsMatch(rule, "a/b/dir")
    ensures !IsMatch(rule, "dir/file")
  {
    LastIsText();
    LastIsOne("dir", rule, "dir");
    LastIsThree("dir", rule, "a", "b", "dir");
    LastIsTwo("dir", rule, "dir", "file");
  }

  /** The `doublestar_bad_extension` test (rule.rs:341-352): without the slash,
      the `**` cannot be followed by more text in the last component. */
  lemma DoubleStarBadExtension(pattern: string, rule: Rule)
    requires pattern == "**.flac" && Compile(pattern) == Some(rule)
    ensures IsMatch(rule, "root/.flac")
    ensures IsMatch(rule, "root/a/.flac")
    ensures !IsMatch(rule, "root/test.flac")
    ensures !IsMatch(rule, "test.flac")
    ensures !IsMatch(rule, "root/test/a/b/c.flac")
    ensures !IsMatch(rule, "root/testflac")
    ensures !IsMatch(rule, "test.mp3")
  {
    LastIsText();
    LastIsTwo(".flac", rule, "root", ".flac");
    LastIsThree(".flac", rule, "root", "a", ".flac");
    LastIsTwo(".flac", rule, "root", "test.flac");
    LastIsOne(".flac", rule, "test.flac");
    FlacPaths();
    BadExtensionDeep(pattern, rule);
    LastIsTwo(".flac", rule, "root", "testflac");
    LastIsOne(".flac", rule, "test.mp3");
  }

  // MARK: `**` inside a component (`doublestar_adjacent_middle`)

  lemma AdjacentMiddleProgram(d: string, a: string, b: string)
    requires |d| > 0 && Plain(d) && |a| > 0 && Plain(a) && |b| > 0 && Plain(b)
    ensures Program(d + "/" + a + "**" + b) == Some([Seg(d), Seg(a), DoubleStar, Seg(b)])
  {
    AdjacentMiddleLex(d, a, b);
    AdjacentMiddleReduced(d, a, b);
  }

  lemma AdjacentMiddleLex(d: string, a: string, b: string)
    requires |d| > 0 && Plain(d) && |a| > 0 && Plain(a) && |b| > 0 && Plain(b)
    ensures Lex(d + "/" + a + "**" + b) == [d, a, "**", b]
  {
    var p := d + "/" + a;
    assert p[|p| - 1] == a[|a| - 1];
    assert b[0] != '*';
    LexDoubleStar(p, b);
    LexSlash(d, a);
    PlainWord(d);
    PlainWord(a);
    PlainWord(b);
    FourPieces(d, a, "**", b);
  }

  lemma FourPieces(w: string, x: string, y: string, z: string)
    ensures [w] + [x] + [y] + [z] == [w, x, y, z]
  {
  }

  lemma DoubleStarThenWord(b: string)
    requires |b| > 0 && Plain(b)
    ensures Reduced(["**"] + [b], false) == Some([DoubleStar] + [Seg(b)])
  {
    PlainWord(b);
    ReducedWordSome(b, [], true, []);
    assert [b] + [] == [b] && [Seg(b)] + [] == [Seg(b)];
    ReducedDoubleSome([b], [Seg(b)]);
  }

  lemma AdjacentMiddleReduced(d: string, a: string, b: string)
    requires |d| > 0 && Plain(d) && |a| > 0 && Plain(a) && |b| > 0 && Plain(b)
    ensures Reduced([d, a, "**", b], false) == Some([Seg(d), Seg(a), DoubleStar, Seg(b)])
  {
    assert [d, a, "**", b] == [d] + ([a] + (["**"] + [b]));
    PlainWord(d);
    PlainWord(a);
    DoubleStarThenWord(b);
    ReducedWordSome(a, ["**"] + [b], false, [DoubleStar] + [Seg(b)]);
    ReducedWordSome(d, [a] + (["**"] + [b]), false, [Seg(a)] + ([DoubleStar] + [Seg(b)]));
    assert [Seg(d)] + ([Seg(a)] + ([DoubleStar] + [Seg(b)])) == [Seg(d), Seg(a), DoubleStar, Seg(b)];
  }

  /** A literal segment takes exactly the component equal to it. */
  lemma WordThen(w: string, rest: seq<RegexSegment>, cs: seq<string>)
    requires |w| > 0 && Plain(w)
    ensures CompMatch([Seg(w)] + rest, cs) <==> |cs| > 0 && cs[0] == w && CompMatch(rest, cs[1..])
  {
    var segs := [Seg(w)] + rest;
    PlainWord(w);
    CompSingle(segs, 0, cs);
    assert segs[0..] == segs && segs[1..] == rest;
  }

  lemma AdjacentMiddleComponents(d: string, a: string, b: string, cs: seq<string>)
    requires |d| > 0 && Plain(d) && |a| > 0 && Plain(a) && |b| > 0 && Plain(b)
    ensures CompMatch([Seg(d), Seg(a), DoubleStar, Seg(b)], cs)
            <==> |cs| >= 3 && cs[0] == d && cs[1] == a && NoNewlines(cs[2..|cs| - 1]) && cs[|cs| - 1] == b
  {
    var tail := [DoubleStar, Seg(b)];
    WordThen(d, [Seg(a)] + tail, cs);
    assert [Seg(d), Seg(a), DoubleStar, Seg(b)] == [Seg(d)] + ([Seg(a)] + tail);
    if |cs| >= 3 {
      Middle(a, b, cs);
    } else if |cs| > 0 {
      WordThen(a, tail, cs[1..]);
      if |cs| == 2 {
        PlainWord(b);
        DoubleStarThenOne(Seg(b), cs[1..][1..]);
      }
    }
  }

  lemma Middle(a: string, b: string, cs: seq<string>)
    requires |a| > 0 && Plain(a) && |b| > 0 && Plain(b) && |cs| >= 3
    ensures CompMatch([Seg(a), DoubleStar, Seg(b)], cs[1..])
            <==> cs[1] == a && NoNewlines(cs[2..|cs| - 1]) && cs[|cs| - 1] == b
  {
    var tail := [DoubleStar, Seg(b)];
    assert [Seg(a), DoubleStar, Seg(b)] == [Seg(a)] + tail;
    WordThen(a, tail, cs[1..]);
    var es := cs[2..];
    assert cs[1..][1..] == es;
    PlainWord(b);
    DoubleStarThenOne(Seg(b), es);
    assert es[..|es| - 1] == cs[2..|cs| - 1];
  }

  // A `**` between two texts of one component splits that component: the rule
  // matches `d/a/.../b`, never `d/ab`.
  lemma AdjacentMiddle(d: string, a: string, b: string, rule: Rule, s: string)
    requires |d| > 0 && Plain(d) && |a| > 0 && Plain(a) && |b| > 0 && Plain(b)
    requires Compile(d + "/" + a + "**" + b) == Some(rule)
    ensures IsMatch(rule, s)
            <==> var cs := Split(s, '/');
                 |cs| >= 3 && cs[0] == d && cs[1] == a && NoNewlines(cs[2..|cs| - 1]) && cs[|cs| - 1] == b
  {
    AdjacentMiddleProgram(d, a, b);
    MatchVia(d + "/" + a + "**" + b, rule, s, [Seg(d), Seg(a), DoubleStar, Seg(b)]);
    AdjacentMiddleComponents(d, a, b, Split(s, '/'));
  }

  lemma AdjacentMiddleOn(d: string, a: string, b: string, rule: Rule, x: string, y: string, z: string)
    requires |d| > 0 && Plain(d) && |a| > 0 && Plain(a) && |b| > 0 && Plain(b)
    requires Compile(d + "/" + a + "**" + b) == Some(rule)
    requires '/' !in x && '/' !in y && '/' !in z
    ensures !IsMatch(rule, x + "/" + y)
    ensures IsMatch(rule, x + "/" + y + "/" + z) <==> x == d && y == a && z == b
  {
    Components(x, y, z);
    AdjacentMiddle(d, a, b, rule, x + "/" + y);
    AdjacentMiddle(d, a, b, rule, x + "/" + y + "/" + z);
    assert [x, y, z][2..2] == [];
  }

  lemma AdjacentMiddleText()
    ensures "root" + "/" + "test" + "**" + "file" == "root/test**file"
    ensures "root" + "/" + "test" + "/" + "file" == "root/test/file"
    ensures "root" + "/" + "test" == "root/test"
    ensures "root" + "/" + "testfile" == "root/testfile"
    ensures "root" + "/" + "file" == "root/file"
    ensures Plain("root") && Plain("test") && Plain("file") && Plain("testfile") && Plain("")
    ensures "testfile" != "test" && "file" != "test"
    ensures "root" + "/" + "testxxfile" == "root/testxxfile" && Plain("testxxfile")
  {
  }

  lemma DeepText()
    ensures "root" + "/" + "test" + "/" + "a" + "/" + "b" + "/" + "c" + "/" + "file" == "root/test/a/b/c/file"
    ensures "root" + "/" + "test" + "**" + "file" == "root/test**file"
    ensures Plain("root") && Plain("test") && Plain("file")
    ensures '/' !in "a" && '/' !in "b" && '/' !in "c"
    ensures '\n' !in "a" && '\n' !in "b" && '\n' !in "c"
  {
  }

  /** The deepest path of the `doublestar_adjacent_middle` test. */
  lemma AdjacentMiddleDeep(pattern: string, rule: Rule)
    requires pattern == "root/test**file" && Compile(pattern) == Some(rule)
    ensures IsMatch(rule, "root/test/a/b/c/file")
  {
    DeepText();
    var cs := ["root", "test", "a", "b", "c", "file"];
    SixText("root", "test", "a", "b", "c", "file");
    PathOf(cs, "root/test/a/b/c/file");
    AdjacentMiddle("root", "test", "file", rule, "root/test/a/b/c/file");
    assert cs[2..5] == ["a", "b", "c"];
  }

  /** The `doublestar_adjacent_middle` test (rule.rs:302-312). */
  lemma DoubleStarAdjacentMiddle(pattern: string, rule: Rule)
    requires pattern == "root/test**file" && Compile(pattern) == Some(rule)
    ensures IsMatch(rule, "root/test/file")
    ensures IsMatch(rule, "root/test/a/b/c/file")
    ensures !IsMatch(rule, "root/test")
    ensures !IsMatch(rule, "root/file")
    ensures !IsMatch(rule, "root/testfile")
    ensures !IsMatch(rule, "root/testxxfile")
  {
    AdjacentMiddleText();
    AdjacentMiddleOn("root", "test", "file", rule, "root", "test", "file");
    AdjacentMiddleOn("root", "test", "file", rule, "root", "testfile", "");
    AdjacentMiddleOn("root", "test", "file", rule, "root", "file", "");
    AdjacentMiddleOn("root", "test", "file", rule, "root", "testxxfile", "");
    AdjacentMiddleDeep(pattern, rule);
  }

  lemma SixText(a: string, b: string, c: string, d: string, e: string, f: string)
    requires '/' !in a && '/' !in b && '/' !in c && '/' !in d && '/' !in e && '/' !in f
    ensures Free([a, b, c, d, e, f], '/')
    ensures Join([a, b, c, d, e, f], "/") == a + "/" + b + "/" + c + "/" + d + "/" + e + "/" + f
  {
    FiveText(b, c, d, e, f);
    assert [a, b, c, d, e, f][1..] == [b, c, d, e, f];
    assert Join([a, b, c, d, e, f], "/") == a + "/" + Join([b, c, d, e, f], "/");
  }

  // MARK: helpers for the remaining tests

  /** A path written out from slash-free components splits back into them. */
  lemma PathOf(cs: seq<string>, s: string)
    requires |cs| > 0 && Free(cs, '/') && s == Join(cs, "/")
    ensures Split(s, '/') == cs
  {
    SplitJoin(cs, '/');
  }

  /** Patterns cut into the same pieces give rules with the same expression,
      which therefore match the same paths. */
  lemma SameRule(p: string, q: string, rule: Rule) returns (other: Rule)
    requires Lex(p) == Lex(q) && Compile(p) == Some(rule)
    ensures Compile(q) == Some(other) && other.regex == rule.regex
    ensures forall s :: IsMatch(rule, s) <==> IsMatch(other, s)
  {
    SamePieces(p, q);
    other := Compile(q).value;
  }

  // MARK: literal patterns (`simple`, `simple_dir`, `multi_slash_a`)

  lemma WordProgram(x: string)
    requires |x| > 0 && Plain(x)
    ensures Program(x) == Some([Seg(x)])
  {
    PlainWord(x);
    assert Reduced([], false) == Some([]);
    ReducedWordSome(x, [], false, []);
    assert [x] + [] == [x] && [Seg(x)] + [] == [Seg(x)];
  }

  lemma DirWordProgram(d: string, x: string)
    requires |d| > 0 && Plain(d) && |x| > 0 && Plain(x)
    ensures Program(d + "/" + x) == Some([Seg(d), Seg(x)])
  {
    LexSlash(d, x);
    PlainWord(d);
    PlainWord(x);
    assert Reduced([], false) == Some([]);
    ReducedWordSome(x, [], false, []);
    assert [x] + [] == [x] && [Seg(x)] + [] == [Seg(x)];
    ReducedWordSome(d, [x], false, [Seg(x)]);
    assert [d] + [x] == [d, x] && [Seg(d)] + [Seg(x)] == [Seg(d), Seg(x)];
  }

  /** Components joined back with slashes, for one and two of them. */
  lemma JoinedBack(s: string, cs: seq<string>)
    requires Split(s, '/') == cs
    ensures |cs| == 1 ==> s == cs[0]
    ensures |cs| == 2 ==> s == cs[0] + "/" + cs[1]
  {
    JoinSplit(s, '/');
    assert [('/')] == "/";
    if |cs| == 2 {
      assert cs[1..] == [cs[1]];
    }
  }

  // A star-free pattern of one component matches that one text only.
  lemma Exact(x: string, rule: Rule, s: string)
    requires |x| > 0 && Plain(x) && Compile(x) == Some(rule)
    ensures IsMatch(rule, s) <==> s == x
  {
    WordProgram(x);
    MatchVia(x, rule, s, [Seg(x)]);
    var cs := Split(s, '/');
    WordThen(x, [], cs);
    assert [Seg(x)] + [] == [Seg(x)];
    JoinedBack(s, cs);
    if s == x {
      SplitNone(x, '/');
    }
  }

  // A star-free pattern of two components matches that one path only.
  lemma ExactDir(d: string, x: string, rule: Rule, s: string)
    requires |d| > 0 && Plain(d) && |x| > 0 && Plain(x) && Compile(d + "/" + x) == Some(rule)
    ensures IsMatch(rule, s) <==> s == d + "/" + x
  {
    DirWordProgram(d, x);
    MatchVia(d + "/" + x, rule, s, [Seg(d), Seg(x)]);
    var cs := Split(s, '/');
    WordThen(d, [Seg(x)], cs);
    assert [Seg(d), Seg(x)] == [Seg(d)] + [Seg(x)];
    if |cs| > 0 {
      WordThen(x, [], cs[1..]);
      assert [Seg(x)] + [] == [Seg(x)];
    }
    JoinedBack(s, cs);
    if s == d + "/" + x {
      TwoComponents(d, x);
    }
  }

  lemma ExactText()
    ensures "dir" + "/" + "file.txt" == "dir/file.txt"
    ensures "dir" + "//" + "file.txt" == "dir//file.txt"
    ensures Plain("file.txt") && Plain("dir")
  {
  }

  /** The `simple` test (rule.rs:191-197). */
  lemma Simple(pattern: string, rule: Rule)
    requires pattern == "file.txt" && Compile(pattern) == Some(rule)
    ensures IsMatch(rule, "file.txt")
    ensures !IsMatch(rule, "other.txt")
    ensures !IsMatch(rule, "path/file.txt")
  {
    ExactText();
    Exact(pattern, rule, "file.txt");
    Exact(pattern, rule, "other.txt");
    Exact(pattern, rule, "path/file.txt");
  }

  /** The `simple_dir` test (rule.rs:200-206). */
  lemma SimpleDir(pattern: string, rule: Rule)
    requires pattern == "dir/file.txt" && Compile(pattern) == Some(rule)
    ensures IsMatch(rule, "dir/file.txt")
    ensures !IsMatch(rule, "file.txt")
    ensures !IsMatch(rule, "other/file.txt")
  {
    ExactText();
    ExactDir("dir", "file.txt", rule, "dir/file.txt");
    ExactDir("dir", "file.txt", rule, "file.txt");
    ExactDir("dir", "file.txt", rule, "other/file.txt");
  }

  /** The `multi_slash_a` test (rule.rs:368-374): the doubled slash is ignored. */
  lemma MultiSlashA(pattern: string, rule: Rule)
    requires pattern == "dir//file.txt" && Compile(pattern) == Some(rule)
    ensures IsMatch(rule, "dir/file.txt")
    ensures !IsMatch(rule, "dirfile.txt")
    ensures !IsMatch(rule, "dir/other.txt")
  {
    ExactText();
    DuplicateSlash("dir", "file.txt");
    var single := SameRule(pattern, "dir/file.txt", rule);
    ExactDir("dir", "file.txt", single, "dir/file.txt");
    ExactDir("dir", "file.txt", single, "dirfile.txt");
    ExactDir("dir", "file.txt", single, "dir/other.txt");
  }

  // MARK: a single star (`simple_star`)

  lemma StarSuffixProgram(x: string)
    requires Plain(x)
    ensures Program("*" + x) == Some([Seg("*" + x)])
  {
    var w := "*" + x;
    StarWord(x);
    assert Reduced([], false) == Some([]);
    ReducedWordSome(w, [], false, []);
    assert [w] + [] == [w] && [Seg(w)] + [] == [Seg(w)];
  }

  // A star then a suffix: the rule matches exactly the paths of one component
  // that end with the suffix; the star never takes a slash.
  lemma StarSuffix(x: string, rule: Rule, s: string)
    requires Plain(x) && Compile("*" + x) == Some(rule)
    ensures IsMatch(rule, s) <==> '/' !in s && EndsIn(s, x)
  {
    var w := "*" + x;
    StarSuffixProgram(x);
    MatchVia(w, rule, s, [Seg(w)]);
    var cs := Split(s, '/');
    OneSegment(Seg(w), cs);
    StarThen(x, cs[0]);
    if '/' !in s {
      SplitNone(s, '/');
    }
    if |cs| == 1 {
      SplitSingle(s, '/');
      SplitNone(s, '/');
    }
  }

  lemma SimpleStarText()
    ensures "*" + ".txt" == "*.txt" && Plain(".txt")
    ensures '/' !in "file.txt" && '/' !in "other.txt" && '/' in "nested/file.txt"
    ensures EndsIn("file.txt", ".txt") && EndsIn("other.txt", ".txt") && !EndsIn("file.jpg", ".txt")
  {
    assert "nested/file.txt"[6] == '/';
    assert "file.txt"[4..] == ".txt";
    assert "other.txt"[5..] == ".txt";
    assert "file.jpg"[4..] == ".jpg";
  }

  /** The `simple_star` test (rule.rs:209-216). */
  lemma SimpleStar(pattern: string, rule: Rule)
    requires pattern == "*.txt" && Compile(pattern) == Some(rule)
    ensures IsMatch(rule, "file.txt")
    ensures IsMatch(rule, "other.txt")
    ensures !IsMatch(rule, "file.jpg")
    ensures !IsMatch(rule, "nested/file.txt")
  {
    SimpleStarText();
    StarSuffix(".txt", rule, "file.txt");
    StarSuffix(".txt", rule, "other.txt");
    StarSuffix(".txt", rule, "file.jpg");
    StarSuffix(".txt", rule, "nested/file.txt");
  }

  // MARK: more of the any-depth families (`single_end`, `doublestar_good_extension`,
  // `multi_slash_b`, `doublestar_nullable_pre`)

  lemma FiveText(a: string, b: string, c: string, d: string, e: string)
    requires '/' !in a && '/' !in b && '/' !in c && '/' !in d && '/' !in e
    ensures Free([a, b, c, d, e], '/')
    ensures Join([a, b, c, d, e], "/") == a + "/" + b + "/" + c + "/" + d + "/" + e
  {
    assert [a, b, c, d, e][1..] == [b, c, d, e] && [b, c, d, e][1..] == [c, d, e];
    assert [c, d, e][1..] == [d, e] && [d, e][1..] == [e];
    assert Join([d, e], "/") == d + "/" + e;
    assert Join([c, d, e], "/") == c + "/" + (d + "/" + e);
    assert Join([b, c, d, e], "/") == b + "/" + (c + "/" + (d + "/" + e));
    assert Join([a, b, c, d, e], "/") == a + "/" + (b + "/" + (c + "/" + (d + "/" + e)));
  }

  lemma SingleEndText()
    ensures "**/*" + "" == "**/*" && Plain("")
    ensures "a" + "/" + "b" + "/" + "c" + "/" + "dir" + "/" + "file" == "a/b/c/dir/file"
    ensures "dir" + "/" + "file" == "dir/file"
    ensures EndsIn("file", "")
    ensures '/' !in "a" && '/' !in "b" && '/' !in "c" && '/' !in "dir" && '/' !in "file"
    ensures '\n' !in "a" && '\n' !in "b" && '\n' !in "c" && '\n' !in "dir"
  {
  }

  /** The `single_end` test (rule.rs:255-261): a `**`, a slash and a lone star
      are the any-depth suffix family with an empty suffix. */
  lemma SingleEnd(pattern: string, rule: Rule)
    requires pattern == "**/*" && Compile(pattern) == Some(rule)
    ensures IsMatch(rule, "file")
    ensures IsMatch(rule, "dir/file")
    ensures IsMatch(rule, "a/b/c/dir/file")
  {
    SingleEndText();
    AnyDepthOne("", rule, "file");
    AnyDepthTwo("", rule, "dir", "file");
    SingleEndDeep(pattern, rule);
  }

  /** The deepest path of the `single_end` test. */
  lemma SingleEndDeep(pattern: string, rule: Rule)
    requires pattern == "**/*" && Compile(pattern) == Some(rule)
    ensures IsMatch(rule, "a/b/c/dir/file")
  {
    SingleEndText();
    var cs := ["a", "b", "c", "dir", "file"];
    FiveText("a", "b", "c", "dir", "file");
    PathOf(cs, "a/b/c/dir/file");
    AnyDepthSuffix("", rule, "a/b/c/dir/file");
    assert cs[..4] == ["a", "b", "c", "dir"];
  }

  lemma FlacPaths()
    ensures "**/*" + ".flac" == "**/*.flac" && "**" + ".flac" == "**.flac"
    ensures "root" + "/" + ".flac" == "root/.flac"
    ensures "root" + "/" + "a" + "/" + ".flac" == "root/a/.flac"
    ensures "root" + "/" + "test.flac" == "root/test.flac"
    ensures "root" + "/" + "testflac" == "root/testflac"
    ensures "root" + "/" + "test" + "/" + "a" + "/" + "b" + "/" + "c.flac" == "root/test/a/b/c.flac"
  {
  }

  lemma FlacText()
    ensures Plain(".flac") && EndsIn(".flac", ".flac") && EndsIn("test.flac", ".flac") && EndsIn("c.flac", ".flac")
    ensures !EndsIn("testflac", ".flac") && !EndsIn("test.mp3", ".flac")
    ensures '/' !in "root" && '/' !in "test" && '/' !in "a" && '/' !in "b" && '/' !in "c.flac"
    ensures '/' !in ".flac" && '/' !in "test.flac" && '/' !in "testflac" && '/' !in "test.mp3"
    ensures '\n' !in "root" && '\n' !in "test" && '\n' !in "a" && '\n' !in "b"
    ensures "c.flac" != ".flac" && "testflac" != ".flac"
  {
    assert "test.flac"[4..] == ".flac";
    assert "c.flac"[1..] == ".flac";
    assert "testflac"[3..] == "tflac";
    assert "test.mp3"[4..] == ".mp3";
  }

  /** The `doublestar_good_extension` test (rule.rs:355-365): with the slash, the
      last component may hold more text before the extension. */
  lemma DoubleStarGoodExtension(pattern: string, rule: Rule)
    requires pattern == "**/*.flac" && Compile(pattern) == Some(rule)
    ensures IsMatch(rule, "root/.flac")
    ensures IsMatch(rule, "root/a/.flac")
    ensures IsMatch(rule, "root/test.flac")
    ensures IsMatch(rule, "test.flac")
    ensures IsMatch(rule, "root/test/a/b/c.flac")
    ensures !IsMatch(rule, "root/testflac")
    ensures !IsMatch(rule, "test.mp3")
  {
    FlacText();
    FlacPaths();
    AnyDepthTwo(".flac", rule, "root", ".flac");
    AnyDepthThree(".flac", rule, "root", "a", ".flac");
    AnyDepthTwo(".flac", rule, "root", "test.flac");
    AnyDepthOne(".flac", rule, "test.flac");
    GoodExtensionDeep(pattern, rule);
    AnyDepthTwo(".flac", rule, "root", "testflac");
    AnyDepthOne(".flac", rule, "test.mp3");
  }

  /** The deepest path of the `doublestar_good_extension` test. */
  lemma GoodExtensionDeep(pattern: string, rule: Rule)
    requires pattern == "**/*.flac" && Compile(pattern) == Some(rule)
    ensures IsMatch(rule, "root/test/a/b/c.flac")
  {
    FlacText();
    FlacPaths();
    var cs := ["root", "test", "a", "b", "c.flac"];
    FiveText("root", "test", "a", "b", "c.flac");
    PathOf(cs, "root/test/a/b/c.flac");
    AnyDepthSuffix(".flac", rule, "root/test/a/b/c.flac");
    assert cs[..4] == ["root", "test", "a", "b"];
  }

  /** The deepest path of the `doublestar_bad_extension` test. */
  lemma BadExtensionDeep(pattern: string, rule: Rule)
    requires pattern == "**.flac" && Compile(pattern) == Some(rule)
    ensures !IsMatch(rule, "root/test/a/b/c.flac")
  {
    FlacText();
    FlacPaths();
    var cs := ["root", "test", "a", "b", "c.flac"];
    FiveText("root", "test", "a", "b", "c.flac");
    PathOf(cs, "root/test/a/b/c.flac");
    LastIs(".flac", rule, "root/test/a/b/c.flac");
  }

  lemma MultiSlashBText()
    ensures "**" + "//" + "/*.txt" == "**///*.txt"
    ensures "**" + "/" + "/*.txt" == "**" + "//" + "*.txt"
    ensures "**" + "/" + "*.txt" == "**/*.txt" && "**/*" + ".txt" == "**/*.txt"
    ensures "dir" + "/" + "file.txt" == "dir/file.txt"
    ensures "dir" + "/" + "subdir" + "/" + "file.txt" == "dir/subdir/file.txt"
    ensures EndsIn("file.txt", ".txt") && !EndsIn("file.jpg", ".txt")
    ensures Plain(".txt") && Plain("file.txt") && Plain("file.jpg") && Plain("dir") && Plain("subdir")
    ensures '\n' !in "dir" && '\n' !in "subdir"
  {
    assert "file.txt"[4..] == ".txt";
    assert "file.jpg"[4..] == ".jpg";
  }

  /** The `multi_slash_b` test (rule.rs:377-383): the three slashes after the
      `**` compile like one. */
  lemma MultiSlashB(pattern: string, rule: Rule)
    requires pattern == "**///*.txt" && Compile(pattern) == Some(rule)
    ensures IsMatch(rule, "dir/file.txt")
    ensures IsMatch(rule, "dir/subdir/file.txt")
    ensures !IsMatch(rule, "file.jpg")
  {
    MultiSlashBText();
    DuplicateSlash("**", "/*.txt");
    DuplicateSlash("**", "*.txt");
    var single := SameRule(pattern, "**/*.txt", rule);
    AnyDepthTwo(".txt", single, "dir", "file.txt");
    AnyDepthThree(".txt", single, "dir", "subdir", "file.txt");
    AnyDepthOne(".txt", single, "file.jpg");
  }

  lemma NullablePreText()
    ensures "**/" + "file" == "**/file"
    ensures "root" + "/" + "file" == "root/file"
    ensures Plain("file") && Plain("root") && Plain("rootfile") && '\n' !in "root"
    ensures "rootfile" != "file"
  {
  }

  /** The `doublestar_nullable_pre` test (rule.rs:333-339). */
  lemma DoubleStarNullablePre(pattern: string, rule: Rule)
    requires pattern == "**/file" && Compile(pattern) == Some(rule)
    ensures IsMatch(rule, "file")
    ensures IsMatch(rule, "root/file")
    ensures !IsMatch(rule, "rootfile")
  {
    NullablePreText();
    LastIsOne("file", rule, "file");
    LastIsTwo("file", rule, "root", "file");
    LastIsOne("file", rule, "rootfile");
  }

  // MARK: a directory, any depth, then a last component (`doublestar_adjacent_before`,
  // `doublestar_nullable`, `multi_slash_c`)

  lemma DoubleStarThen(w: string)
    requires !IsStarRun(w)
    ensures Reduced(["**"] + [w], false) == Some([DoubleStar] + [Seg(w)])
  {
    assert Reduced([], false) == Some([]);
    ReducedWordSome(w, [], true, []);
    assert [w] + [] == [w] && [Seg(w)] + [] == [Seg(w)];
    ReducedDoubleSome([w], [Seg(w)]);
  }

  lemma DirDepthReduced(d: string, w: string)
    requires |d| > 0 && Plain(d) && !IsStarRun(w)
    ensures Reduced([d, "**", w], false) == Some([Seg(d), DoubleStar, Seg(w)])
  {
    PlainWord(d);
    DoubleStarThen(w);
    ReducedWordSome(d, ["**"] + [w], false, [DoubleStar] + [Seg(w)]);
    assert [d] + (["**"] + [w]) == [d, "**", w];
    assert [Seg(d)] + ([DoubleStar] + [Seg(w)]) == [Seg(d), DoubleStar, Seg(w)];
  }

  lemma ThreePieces(x: string, y: string, z: string)
    ensures [x] + [y] + [z] == [x, y, z]
  {
  }

  /** The pieces of a directory, a `**` and a last piece, with a slash after the
      `**`. */
  lemma DirDepthLex(d: string, x: string)
    requires |d| > 0 && Plain(d) && |x| > 0 && Plain(x)
    ensures Lex(d + "/**/" + x) == [d, "**", x]
  {
    PlainWord(d);
    PlainWord(x);
    LexSlashedDoubleStar(d, x);
    ThreePieces(d, "**", x);
  }

  lemma DirAdjacentText(d: string, x: string, t: string)
    requires t == "**" + x
    ensures d + "/" + t == d + "/**" + x && "" + "**" + x == t
  {
  }

  /** The same pieces without the slash after the `**`. */
  lemma DirAdjacentLex(d: string, x: string)
    requires |d| > 0 && Plain(d) && |x| > 0 && Plain(x)
    ensures Lex(d + "/**" + x) == [d, "**", x]
  {
    var t := "**" + x;
    DirAdjacentText(d, x, t);
    LexSlash(d, t);
    assert x[0] != '*';
    LexDoubleStar("", x);
    assert Lex("") == [];
    PlainWord(d);
    PlainWord(x);
    ThreePieces(d, "**", x);
  }

  lemma DirDepthSuffixLex(d: string, x: string)
    requires |d| > 0 && Plain(d) && Plain(x)
    ensures Lex(d + "/**/*" + x) == [d, "**", "*" + x]
  {
    var w := "*" + x;
    PlainWord(d);
    StarWord(x);
    LexSlashedDoubleStar(d, w);
    SuffixText(d, x, w);
    ThreePieces(d, "**", w);
  }

  lemma SuffixText(d: string, x: string, w: string)
    requires w == "*" + x
    ensures d + "/**/" + w == d + "/**/*" + x
  {
  }

  lemma DirDepthProgram(d: string, x: string)
    requires |d| > 0 && Plain(d) && |x| > 0 && Plain(x)
    ensures Program(d + "/**/" + x) == Some([Seg(d), DoubleStar, Seg(x)])
    ensures Program(d + "/**" + x) == Some([Seg(d), DoubleStar, Seg(x)])
  {
    DirDepthLex(d, x);
    DirAdjacentLex(d, x);
    PlainWord(x);
    DirDepthReduced(d, x);
  }

  lemma DirDepthSuffixProgram(d: string, x: string)
    requires |d| > 0 && Plain(d) && Plain(x)
    ensures Program(d + "/**/*" + x) == Some([Seg(d), DoubleStar, Seg("*" + x)])
  {
    DirDepthSuffixLex(d, x);
    StarWord(x);
    DirDepthReduced(d, "*" + x);
  }

  /** A literal, a `**`, then one more segment: the literal takes the first
      component, the segment the last, and the `**` those between. */
  lemma DirDepthComponents(d: string, seg: RegexSegment, cs: seq<string>)
    requires |d| > 0 && Plain(d) && seg.Single?
    ensures CompMatch([Seg(d), DoubleStar, seg], cs)
            <==> |cs| >= 2 && cs[0] == d && NoNewlines(cs[1..|cs| - 1])
                 && PieceMatch(Split(seg.piece, '*'), cs[|cs| - 1])
  {
    WordThen(d, [DoubleStar, seg], cs);
    assert [Seg(d), DoubleStar, seg] == [Seg(d)] + [DoubleStar, seg];
    if |cs| > 0 {
      var es := cs[1..];
      DoubleStarThenOne(seg, es);
      if |es| > 0 {
        assert es[..|es| - 1] == cs[1..|cs| - 1] && es[|es| - 1] == cs[|cs| - 1];
      }
    }
  }

  // A directory, a `**`, then a literal last component, with or without a
  // slash between the `**` and the literal: the rule matches the paths that
  // start with the directory and end with the literal, at any depth between.
  lemma DirDepthLast(d: string, x: string, rule: Rule, s: string)
    requires |d| > 0 && Plain(d) && |x| > 0 && Plain(x)
    requires Compile(d + "/**/" + x) == Some(rule) || Compile(d + "/**" + x) == Some(rule)
    ensures IsMatch(rule, s)
            <==> var cs := Split(s, '/');
                 |cs| >= 2 && cs[0] == d && NoNewlines(cs[1..|cs| - 1]) && cs[|cs| - 1] == x
  {
    var segs := [Seg(d), DoubleStar, Seg(x)];
    DirDepthProgram(d, x);
    PlainWord(x);
    if Compile(d + "/**/" + x) == Some(rule) {
      MatchVia(d + "/**/" + x, rule, s, segs);
    } else {
      MatchVia(d + "/**" + x, rule, s, segs);
    }
    DirDepthComponents(d, Seg(x), Split(s, '/'));
  }

  // A directory, a `**`, then a star and a suffix: the last component needs
  // only to end with the suffix.
  lemma DirDepthSuffix(d: string, x: string, rule: Rule, s: string)
    requires |d| > 0 && Plain(d) && Plain(x) && Compile(d + "/**/*" + x) == Some(rule)
    ensures IsMatch(rule, s)
            <==> var cs := Split(s, '/');
                 |cs| >= 2 && cs[0] == d && NoNewlines(cs[1..|cs| - 1]) && EndsIn(cs[|cs| - 1], x)
  {
    var w := "*" + x;
    var segs := [Seg(d), DoubleStar, Seg(w)];
    DirDepthSuffixProgram(d, x);
    MatchVia(d + "/**/*" + x, rule, s, segs);
    var cs := Split(s, '/');
    DirDepthComponents(d, Seg(w), cs);
    StarThen(x, cs[|cs| - 1]);
  }

  /** `DirDepthLast` on paths of one, two and three components. */
  lemma DirDepthOne(d: string, x: string, rule: Rule, a: string)
    requires |d| > 0 && Plain(d) && |x| > 0 && Plain(x) && '/' !in a
    requires Compile(d + "/**/" + x) == Some(rule) || Compile(d + "/**" + x) == Some(rule)
    ensures !IsMatch(rule, a)
  {
    SplitNone(a, '/');
    DirDepthLast(d, x, rule, a);
  }

  lemma DirDepthTwo(d: string, x: string, rule: Rule, a: string, b: string)
    requires |d| > 0 && Plain(d) && |x| > 0 && Plain(x) && '/' !in a && '/' !in b
    requires Compile(d + "/**/" + x) == Some(rule) || Compile(d + "/**" + x) == Some(rule)
    ensures IsMatch(rule, a + "/" + b) <==> a == d && b == x
  {
    TwoComponents(a, b);
    DirDepthLast(d, x, rule, a + "/" + b);
    assert [a, b][1..1] == [];
  }

  lemma DirDepthThree(d: string, x: string, rule: Rule, a: string, b: string, c: string)
    requires |d| > 0 && Plain(d) && |x| > 0 && Plain(x) && '/' !in a && '/' !in b && '/' !in c
    requires Compile(d + "/**/" + x) == Some(rule) || Compile(d + "/**" + x) == Some(rule)
    ensures IsMatch(rule, a + "/" + b + "/" + c) <==> a == d && '\n' !in b && c == x
  {
    Components(a, b, c);
    DirDepthLast(d, x, rule, a + "/" + b + "/" + c);
    assert [a, b, c][1..2] == [b];
    assert NoNewlines([b]) <==> '\n' !in b by {
      assert [b][0] == b;
    }
  }

  lemma AdjacentBeforeText()
    ensures "root" + "/**" + "test" == "root/**test"
    ensures "root" + "/" + "test" == "root/test"
    ensures "root" + "/" + "a" + "/" + "test" == "root/a/test"
    ensures "root" + "/" + "a" + "/" + "b" + "/" + "c" + "/" + "test" == "root/a/b/c/test"
    ensures "root" + "/" + "file" == "root/file"
    ensures "root" + "/" + "xxtest" == "root/xxtest"
    ensures Plain("root") && Plain("test") && Plain("a") && Plain("file") && Plain("xxtest")
    ensures '/' !in "b" && '/' !in "c" && '\n' !in "a" && '\n' !in "b" && '\n' !in "c"
    ensures "file" != "test" && "xxtest" != "test"
  {
  }

  /** The `doublestar_adjacent_before` test (rule.rs:281-289). */
  lemma DoubleStarAdjacentBefore(pattern: string, rule: Rule)
    requires pattern == "root/**test" && Compile(pattern) == Some(rule)
    ensures IsMatch(rule, "root/test")
    ensures IsMatch(rule, "root/a/test")
    ensures IsMatch(rule, "root/a/b/c/test")
    ensures !IsMatch(rule, "root/file")
    ensures !IsMatch(rule, "root/xxtest")
  {
    AdjacentBeforeText();
    DirDepthTwo("root", "test", rule, "root", "test");
    DirDepthThree("root", "test", rule, "root", "a", "test");
    var cs := ["root", "a", "b", "c", "test"];
    FiveText("root", "a", "b", "c", "test");
    PathOf(cs, "root/a/b/c/test");
    DirDepthLast("root", "test", rule, "root/a/b/c/test");
    assert cs[1..4] == ["a", "b", "c"];
    DirDepthTwo("root", "test", rule, "root", "file");
    DirDepthTwo("root", "test", rule, "root", "xxtest");
  }

  lemma NullableText()
    ensures "root" + "/**/" + "file" == "root/**/file"
    ensures "root" + "/" + "test" + "/" + "file" == "root/test/file"
    ensures "root" + "/" + "file" == "root/file"
    ensures Plain("root") && Plain("test") && Plain("file") && Plain("rootfile")
    ensures '\n' !in "test"
  {
  }

  /** The `doublestar_nullable` test (rule.rs:315-321): the `**` may take no
      component at all. */
  lemma DoubleStarNullable(pattern: string, rule: Rule)
    requires pattern == "root/**/file" && Compile(pattern) == Some(rule)
    ensures IsMatch(rule, "root/test/file")
    ensures IsMatch(rule, "root/file")
    ensures !IsMatch(rule, "rootfile")
  {
    NullableText();
    DirDepthThree("root", "file", rule, "root", "test", "file");
    DirDepthTwo("root", "file", rule, "root", "file");
    DirDepthOne("root", "file", rule, "rootfile");
  }

  lemma MultiSlashCText(p: string)
    requires p == "///dir//**//*.txt//"
    ensures p == "/" + ("/" + ("/" + ("dir//**//*.txt" + "/" + "/")))
  {
  }

  lemma MultiSlashCInner()
    ensures "dir//**//*.txt" == "dir" + "//" + "**//*.txt"
    ensures "dir" + "/" + "**//*.txt" == "dir/**" + "//" + "*.txt"
    ensures "dir/**" + "/" + "*.txt" == "dir" + "/**/*" + ".txt"
  {
  }

  // The repeated, leading and trailing slashes of the `multi_slash_c` pattern
  // leave the pieces of the same pattern written with single slashes.
  lemma MultiSlashCLex(p: string)
    requires p == "///dir//**//*.txt//"
    ensures Lex(p) == Lex("dir" + "/**/*" + ".txt")
  {
    MultiSlashCText(p);
    MultiSlashCInner();
    var q := "dir//**//*.txt";
    SurroundingSlash("/" + ("/" + (q + "/" + "/")));
    SurroundingSlash("/" + (q + "/" + "/"));
    SurroundingSlash(q + "/" + "/");
    SurroundingSlash(q + "/");
    SurroundingSlash(q);
    DuplicateSlash("dir", "**//*.txt");
    DuplicateSlash("dir/**", "*.txt");
  }

  lemma MultiSlashCPaths()
    ensures "dir" + "/" + "subdir" + "/" + "file.txt" == "dir/subdir/file.txt"
    ensures "dir" + "/" + "sub1" + "/" + "sub2" + "/" + "file.txt" == "dir/sub1/sub2/file.txt"
    ensures "other" + "/" + "sub" + "/" + "file.txt" == "other/sub/file.txt"
    ensures "dir" + "/" + "file.jpg" == "dir/file.jpg"
    ensures Plain("dir") && Plain("subdir") && Plain("sub1") && Plain("sub2") && Plain("file.txt")
    ensures Plain("other") && Plain("sub") && Plain("file.jpg") && Plain(".txt")
    ensures '\n' !in "subdir" && '\n' !in "sub1" && '\n' !in "sub2" && "other" != "dir"
    ensures EndsIn("file.txt", ".txt") && !EndsIn("file.jpg", ".txt")
  {
    assert "file.txt"[4..] == ".txt";
    assert "file.jpg"[4..] == ".jpg";
  }

  /** `DirDepthSuffix` on paths of two and three components. */
  lemma DirSuffixTwo(d: string, x: string, rule: Rule, a: string, b: string)
    requires |d| > 0 && Plain(d) && Plain(x) && Compile(d + "/**/*" + x) == Some(rule)
    requires '/' !in a && '/' !in b
    ensures IsMatch(rule, a + "/" + b) <==> a == d && EndsIn(b, x)
  {
    TwoComponents(a, b);
    DirDepthSuffix(d, x, rule, a + "/" + b);
    assert [a, b][1..1] == [];
  }

  lemma DirSuffixThree(d: string, x: string, rule: Rule, a: string, b: string, c: string)
    requires |d| > 0 && Plain(d) && Plain(x) && Compile(d + "/**/*" + x) == Some(rule)
    requires '/' !in a && '/' !in b && '/' !in c
    ensures IsMatch(rule, a + "/" + b + "/" + c) <==> a == d && '\n' !in b && EndsIn(c, x)
  {
    Components(a, b, c);
    DirDepthSuffix(d, x, rule, a + "/" + b + "/" + c);
    assert [a, b, c][1..2] == [b];
    assert NoNewlines([b]) <==> '\n' !in b by {
      assert [b][0] == b;
    }
  }

  /** The four-component path of the `multi_slash_c` test. */
  lemma DirSuffixFour(rule: Rule)
    requires Compile("dir" + "/**/*" + ".txt") == Some(rule)
    ensures IsMatch(rule, "dir/sub1/sub2/file.txt")
  {
    MultiSlashCPaths();
    var cs := ["dir", "sub1", "sub2", "file.txt"];
    FourText("dir", "sub1", "sub2", "file.txt");
    PathOf(cs, "dir/sub1/sub2/file.txt");
    DirDepthSuffix("dir", ".txt", rule, "dir/sub1/sub2/file.txt");
    assert cs[1..3] == ["sub1", "sub2"];
  }

  /** The `multi_slash_c` test (rule.rs:386-393). */
  lemma MultiSlashC(pattern: string, rule: Rule)
    requires pattern == "///dir//**//*.txt//" && Compile(pattern) == Some(rule)
    ensures IsMatch(rule, "dir/subdir/file.txt")
    ensures IsMatch(rule, "dir/sub1/sub2/file.txt")
    ensures !IsMatch(rule, "other/sub/file.txt")
    ensures !IsMatch(rule, "dir/file.jpg")
  {
    MultiSlashCLex(pattern);
    var single := SameRule(pattern, "dir" + "/**/*" + ".txt", rule);
    MultiSlashCPaths();
    DirSuffixThree("dir", ".txt", single, "dir", "subdir", "file.txt");
    DirSuffixFour(single);
    DirSuffixThree("dir", ".txt", single, "other", "sub", "file.txt");
    DirSuffixTwo("dir", ".txt", single, "dir", "file.jpg");
  }

  lemma FourText(a: string, b: string, c: string, d: string)
    requires '/' !in a && '/' !in b && '/' !in c && '/' !in d
    ensures Free([a, b, c, d], '/')
    ensures Join([a, b, c, d], "/") == a + "/" + b + "/" + c + "/" + d
  {
    assert [a, b, c, d][1..] == [b, c, d] && [b, c, d][1..] == [c, d] && [c, d][1..] == [d];
    assert Join([c, d], "/") == c + "/" + d;
    assert Join([b, c, d], "/") == b + "/" + (c + "/" + d);
    assert Join([a, b, c, d], "/") == a + "/" + (b + "/" + (c + "/" + d));
  }

  // MARK: a directory and a word, then any depth (`doublestar_adjacent_after`)

  lemma UnderWordLex(d: string, a: string)
    requires |d| > 0 && Plain(d) && |a| > 0 && Plain(a)
    ensures Lex(d + "/" + a + "**") == [d, a, "**"]
  {
    var p := d + "/" + a;
    assert p[|p| - 1] == a[|a| - 1];
    LexDoubleStar(p, "");
    assert p + "**" + "" == d + "/" + a + "**";
    LexSlash(d, a);
    PlainWord(d);
    PlainWord(a);
    LexStarStar();
    assert Lex("") == [];
  }

  lemma UnderWordReduced(d: string, a: string)
    requires |d| > 0 && Plain(d) && |a| > 0 && Plain(a)
    ensures Reduced([d, a, "**"], false) == Some([Seg(d), Seg(a), DoubleStar])
  {
    PlainWord(d);
    PlainWord(a);
    assert Reduced([], true) == Some([]);
    ReducedDoubleSome([], []);
    assert ["**"] + [] == ["**"] && [DoubleStar] + [] == [DoubleStar];
    ReducedWordSome(a, ["**"], false, [DoubleStar]);
    ReducedWordSome(d, [a] + ["**"], false, [Seg(a)] + [DoubleStar]);
    assert [d] + ([a] + ["**"]) == [d, a, "**"];
    assert [Seg(d)] + ([Seg(a)] + [DoubleStar]) == [Seg(d), Seg(a), DoubleStar];
  }

  lemma UnderWordComponents(d: string, a: string, cs: seq<string>)
    requires |d| > 0 && Plain(d) && |a| > 0 && Plain(a)
    ensures CompMatch([Seg(d), Seg(a), DoubleStar], cs)
            <==> |cs| >= 2 && cs[0] == d && cs[1] == a && NoNewlines(cs[2..])
  {
    WordThen(d, [Seg(a), DoubleStar], cs);
    assert [Seg(d), Seg(a), DoubleStar] == [Seg(d)] + [Seg(a), DoubleStar];
    if |cs| > 0 {
      WordThen(a, [DoubleStar], cs[1..]);
      assert [Seg(a), DoubleStar] == [Seg(a)] + [DoubleStar];
      if |cs| > 1 {
        DoubleStarAlone(cs[1..][1..]);
        assert cs[1..][1..] == cs[2..];
      }
    }
  }

  // A `**` right after a word: the rule matches the directory and the word as
  // the first two components, then any depth below them.
  lemma UnderWord(d: string, a: string, rule: Rule, s: string)
    requires |d| > 0 && Plain(d) && |a| > 0 && Plain(a) && Compile(d + "/" + a + "**") == Some(rule)
    ensures IsMatch(rule, s)
            <==> var cs := Split(s, '/'); |cs| >= 2 && cs[0] == d && cs[1] == a && NoNewlines(cs[2..])
  {
    UnderWordLex(d, a);
    UnderWordReduced(d, a);
    MatchVia(d + "/" + a + "**", rule, s, [Seg(d), Seg(a), DoubleStar]);
    UnderWordComponents(d, a, Split(s, '/'));
  }

  lemma AdjacentAfterText()
    ensures "root" + "/" + "test" + "**" == "root/test**"
    ensures "root" + "/" + "test" == "root/test"
    ensures "root" + "/" + "test" + "/" + "a" == "root/test/a"
    ensures "root" + "/" + "test" + "/" + "a" + "/" + "b" + "/" + "c" == "root/test/a/b/c"
    ensures "root" + "/" + "testxx" == "root/testxx"
    ensures "root" + "/" + "file" == "root/file"
    ensures Plain("root") && Plain("test") && Plain("a") && Plain("testxx") && Plain("file")
    ensures '/' !in "b" && '/' !in "c" && '\n' !in "a" && '\n' !in "b" && '\n' !in "c"
    ensures "testxx" != "test" && "file" != "test"
  {
  }

  /** `UnderWord` on paths of two and three components. */
  lemma UnderWordTwo(d: string, a: string, rule: Rule, x: string, y: string)
    requires |d| > 0 && Plain(d) && |a| > 0 && Plain(a) && Compile(d + "/" + a + "**") == Some(rule)
    requires '/' !in x && '/' !in y
    ensures IsMatch(rule, x + "/" + y) <==> x == d && y == a
  {
    TwoComponents(x, y);
    UnderWord(d, a, rule, x + "/" + y);
    assert [x, y][2..] == [];
  }

  lemma UnderWordThree(d: string, a: string, rule: Rule, x: string, y: string, z: string)
    requires |d| > 0 && Plain(d) && |a| > 0 && Plain(a) && Compile(d + "/" + a + "**") == Some(rule)
    requires '/' !in x && '/' !in y && '/' !in z
    ensures IsMatch(rule, x + "/" + y + "/" + z) <==> x == d && y == a && '\n' !in z
  {
    Components(x, y, z);
    UnderWord(d, a, rule, x + "/" + y + "/" + z);
    assert [x, y, z][2..] == [z];
    assert NoNewlines([z]) <==> '\n' !in z by {
      assert [z][0] == z;
    }
  }

  /** The deepest path of the `doublestar_adjacent_after` test. */
  lemma AdjacentAfterDeep(pattern: string, rule: Rule)
    requires pattern == "root/test**" && Compile(pattern) == Some(rule)
    ensures IsMatch(rule, "root/test/a/b/c")
  {
    AdjacentAfterText();
    var cs := ["root", "test", "a", "b", "c"];
    FiveText("root", "test", "a", "b", "c");
    PathOf(cs, "root/test/a/b/c");
    UnderWord("root", "test", rule, "root/test/a/b/c");
    assert cs[2..] == ["a", "b", "c"];
  }

  /** The `doublestar_adjacent_after` test (rule.rs:292-300). */
  lemma DoubleStarAdjacentAfter(pattern: string, rule: Rule)
    requires pattern == "root/test**" && Compile(pattern) == Some(rule)
    ensures IsMatch(rule, "root/test")
    ensures IsMatch(rule, "root/test/a")
    ensures IsMatch(rule, "root/test/a/b/c")
    ensures !IsMatch(rule, "root/testxx")
    ensures !IsMatch(rule, "root/file")
  {
    AdjacentAfterText();
    UnderWordTwo("root", "test", rule, "root", "test");
    UnderWordThree("root", "test", rule, "root", "test", "a");
    AdjacentAfterDeep(pattern, rule);
    UnderWordTwo("root", "test", rule, "root", "testxx");
    UnderWordTwo("root", "test", rule, "root", "file");
  }

  // MARK: a text anywhere in the last component (`dual_star`)

  /** `x` occurs in `c` at index `j`. */
  predicate At(c: string, x: string, j: int)
  {
    0 <= j <= |c| - |x| && c[j..j + |x|] == x
  }

  /** `x` occurs somewhere in `c`. */
  predicate Contains(c: string, x: string)
  {
    exists j :: 0 <= j <= |c| && At(c, x, j)
  }

  lemma InfixWord(x: string)
    requires |x| > 0 && Plain(x)
    ensures Lex("*" + x + "*") == ["*" + x + "*"] && !IsStarRun("*" + x + "*")
  {
    var w := "*" + x + "*";
    forall j | 0 <= j < |w| ensures !StartsSeparator(w, j) {
      if j == 0 {
        assert w[1] == x[0];
      } else if j <= |x| {
        assert w[j] == x[j - 1];
      }
    }
    LexWord(w);
    assert w[1] == x[0];
  }

  lemma InfixSplit(x: string)
    requires Plain(x)
    ensures Split("*" + x + "*", '*') == ["", x, ""]
  {
    SplitNone(x, '*');
    SplitAppend(x, '*', "");
    assert x + ['*'] + "" == x + "*";
    SplitAppend("", '*', x + "*");
    assert "" + ['*'] + (x + "*") == "*" + x + "*";
  }

  /** A piece `*x*` matches the components holding `x`. */
  lemma InfixPiece(x: string, c: string)
    ensures PieceMatch(["", x, ""], c) <==> Contains(c, x)
  {
    var parts := ["", x, ""];
    assert parts[1..] == [x, ""] && [x, ""][1..] == [""];
    assert c[..0] == "";
    if PieceMatch(parts, c) {
      var j :| 0 <= j <= |c| && PieceMatch([x, ""], c[j..]);
      assert c[j..][..|x|] == c[j..j + |x|];
      assert At(c, x, j);
    }
    if Contains(c, x) {
      var j :| 0 <= j <= |c| && At(c, x, j);
      assert j + |x| <= |c| && c[j..j + |x|] == x;
      var e := c[j..];
      assert e[..|x|] == x;
      assert PieceMatch([""], e[|e|..]);
      assert PieceMatch([x, ""], e);
    }
  }

  lemma AnyDepthInfixProgram(x: string)
    requires |x| > 0 && Plain(x)
    ensures Program("**/*" + x + "*") == Some([DoubleStar, Seg("*" + x + "*")])
  {
    var w := "*" + x + "*";
    LexSlash("**", w);
    InfixText(x, w);
    LexStarStar();
    InfixWord(x);
    DoubleStarThen(w);
    assert ["**"] + [w] == Lex("**/*" + x + "*");
    assert [DoubleStar] + [Seg(w)] == [DoubleStar, Seg(w)];
  }

  lemma InfixText(x: string, w: string)
    requires w == "*" + x + "*"
    ensures "**" + "/" + w == "**/*" + x + "*"
  {
  }

  // A `**`, a slash, then a text between two stars: the rule matches exactly the
  // paths whose last component holds the text and whose other components hold
  // no newline.
  lemma AnyDepthInfix(x: string, rule: Rule, s: string)
    requires |x| > 0 && Plain(x) && Compile("**/*" + x + "*") == Some(rule)
    ensures IsMatch(rule, s)
            <==> var cs := Split(s, '/'); NoNewlines(cs[..|cs| - 1]) && Contains(cs[|cs| - 1], x)
  {
    var w := "*" + x + "*";
    AnyDepthInfixProgram(x);
    MatchVia("**/*" + x + "*", rule, s, [DoubleStar, Seg(w)]);
    var cs := Split(s, '/');
    DoubleStarThenOne(Seg(w), cs);
    InfixSplit(x);
    InfixPiece(x, cs[|cs| - 1]);
  }

  lemma AnyDepthInfixOne(x: string, rule: Rule, a: string)
    requires |x| > 0 && Plain(x) && Compile("**/*" + x + "*") == Some(rule) && '/' !in a
    ensures IsMatch(rule, a) <==> Contains(a, x)
  {
    SplitNone(a, '/');
    AnyDepthInfix(x, rule, a);
  }

  lemma AnyDepthInfixTwo(x: string, rule: Rule, a: string, b: string)
    requires |x| > 0 && Plain(x) && Compile("**/*" + x + "*") == Some(rule) && '/' !in a && '/' !in b
    ensures IsMatch(rule, a + "/" + b) <==> '\n' !in a && Contains(b, x)
  {
    TwoComponents(a, b);
    AnyDepthInfix(x, rule, a + "/" + b);
    assert [a, b][..1] == [a];
    assert NoNewlines([a]) <==> '\n' !in a by {
      assert [a][0] == a;
    }
  }

  /** A one-character text occurs exactly where its character does. */
  lemma ContainsChar(c: string, x: string)
    requires |x| == 1
    ensures Contains(c, x) <==> x[0] in c
  {
    if Contains(c, x) {
      var j :| 0 <= j <= |c| && At(c, x, j);
      assert j + 1 <= |c| && c[j..j + 1] == x;
      assert c[j] == c[j..j + 1][0];
    }
    if x[0] in c {
      var j :| 0 <= j < |c| && c[j] == x[0];
      assert c[j..j + 1] == x;
      assert At(c, x, j);
    }
  }

  lemma DualStarText()
    ensures "**/*" + "a" + "*" == "**/*a*" && Plain("a")
    ensures "dir" + "/" + "fileafile" == "dir/fileafile"
    ensures "dir" + "/" + "filea" == "dir/filea"
    ensures "dir" + "/" + "afile" == "dir/afile"
    ensures "dir" + "/" + "noletter" == "dir/noletter"
    ensures 'a' in "fileafile" && 'a' in "filea" && 'a' in "afile" && 'a' !in "noletter"
    ensures '/' !in "dir" && '/' !in "fileafile" && '/' !in "filea" && '/' !in "afile"
    ensures '/' !in "noletter" && '\n' !in "dir"
  {
    assert "fileafile"[4] == 'a';
    assert "filea"[4] == 'a';
    assert "afile"[0] == 'a';
  }

  /** The `dual_star` test (rule.rs:241-252). */
  lemma DualStar(pattern: string, rule: Rule)
    requires pattern == "**/*a*" && Compile(pattern) == Some(rule)
    ensures IsMatch(rule, "fileafile")
    ensures IsMatch(rule, "dir/fileafile")
    ensures IsMatch(rule, "filea")
    ensures IsMatch(rule, "dir/filea")
    ensures IsMatch(rule, "afile")
    ensures IsMatch(rule, "dir/afile")
    ensures !IsMatch(rule, "noletter")
    ensures !IsMatch(rule, "dir/noletter")
  {
    DualStarText();
    ContainsChar("fileafile", "a");
    ContainsChar("filea", "a");
    ContainsChar("afile", "a");
    ContainsChar("noletter", "a");
    AnyDepthInfixOne("a", rule, "fileafile");
    AnyDepthInfixTwo("a", rule, "dir", "fileafile");
    AnyDepthInfixOne("a", rule, "filea");
    AnyDepthInfixTwo("a", rule, "dir", "filea");
    AnyDepthInfixOne("a", rule, "afile");
    AnyDepthInfixTwo("a", rule, "dir", "afile");
    AnyDepthInfixOne("a", rule, "noletter");
    AnyDepthInfixTwo("a", rule, "dir", "noletter");
  }
}
