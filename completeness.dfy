/**
 * How far a query's key may reach. `query` promises every known datapath that
 * matches, but `query_to_key` stops only at tokens that are exactly `*` or `**`:
 * a token such as `test**file` stays in the key although the rule lets it match
 * several components, and the prefix search then skips buckets holding matches.
 * Here the key is instead cut before the first token holding a star, taken from
 * the query text the rule is compiled from; with that key a query returns every
 * matching path of a built index.
 */
module CompleteKeys {
  import opened Util
  import opened Tokenizer
  import opened RegexSegments
  import opened GlobSemantics
  import opened GlobRule
  import opened PathSegments
  import opened IndexKeys
  import opened Index
  import RuleTests

  /** The tokens before the first one holding a star. */
  function LiteralTokens(tokens: seq<string>): (r: seq<string>)
    ensures r <= tokens
    ensures forall i :: 0 <= i < |r| ==> '*' !in r[i]
    ensures |r| < |tokens| ==> '*' in tokens[|r|]
  {
    if |tokens| == 0 || '*' in tokens[0] then []
    else [tokens[0]] + LiteralTokens(tokens[1..])
  }

  /** The non-empty texts, in order. */
  function NonEmpty(ts: seq<string>): (r: seq<string>)
    ensures forall i :: 0 <= i < |r| ==> |r[i]| > 0 && r[i] in ts
  {
    if |ts| == 0 then []
    else (if |ts[0]| > 0 then [ts[0]] else []) + NonEmpty(ts[1..])
  }

  /** The key cut before the first token holding a star. */
  function LiteralKey(query: string): string
  {
    Render(MaskAll(Segments(LiteralTokens(Split(query, '/')))))
  }

  /** `query` searching with `LiteralKey`. */
  function CompleteQuery(idx: DatapathIndex, query: string): (r: Option<seq<string>>)
    ensures r.None? <==> HasTripleStar(query)
  {
    match Compile(query)
    case None => None
    case Some(rule) => Some(Search(idx, LiteralKey(query), rule))
  }

  function SegsOf(ts: seq<string>): seq<RegexSegment>
  {
    seq(|ts|, i requires 0 <= i < |ts| => Seg(ts[i]))
  }

  // MARK: the literal head of a pattern

  /** A token without slash or star is one piece, or none when empty. */
  lemma LexPlain(t: string)
    requires '/' !in t && '*' !in t
    ensures Lex(t) == NonEmpty([t])
  {
    assert [t][1..] == [];
    if |t| > 0 {
      forall j | 0 <= j < |t| ensures !StartsSeparator(t, j) {
        assert t[j] in t;
      }
      LexWord(t);
    }
  }

  /** The pattern's pieces start with its literal tokens, empty ones dropped. */
  lemma {:induction false} LexLiteral(q: string) returns (rest: seq<string>)
    ensures Lex(q) == NonEmpty(LiteralTokens(Split(q, '/'))) + rest
    ensures '*' !in q ==> rest == []
    decreases |q|
  {
    var tokens := Split(q, '/');
    if |tokens| == 1 {
      SplitSingle(q, '/');
      SplitNone(q, '/');
      if '*' in q {
        rest := Lex(q);
      } else {
        LexPlain(q);
        assert LiteralTokens(tokens) == [q] by {
          assert tokens[1..] == [];
        }
        rest := [];
      }
    } else {
      var m := SplitHead(q, '/');
      var t := q[..m];
      var u := q[m + 1..];
      assert q == t + "/" + u;
      assert tokens == [t] + Split(u, '/');
      if '*' in t {
        assert LiteralTokens(tokens) == [];
        rest := Lex(q);
        assert '*' in q by {
          var i :| 0 <= i < |t| && t[i] == '*';
          assert q[i] == t[i];
        }
      } else {
        assert '*' !in q ==> '*' !in u by {
          forall j | 0 <= j < |u| && '*' !in q ensures u[j] != '*' {
            assert u[j] == q[m + 1 + j];
          }
        }
        rest := LexLiteral(u);
        LiteralHead(t, u, LiteralTokens(Split(u, '/')), rest);
        LiteralCons(t, Split(u, '/'));
      }
    }
  }

  /** One literal token in front of a pattern whose pieces are known. */
  lemma LiteralHead(t: string, u: string, lits: seq<string>, rest: seq<string>)
    requires '/' !in t && '*' !in t
    requires Lex(u) == NonEmpty(lits) + rest
    ensures Lex(t + "/" + u) == NonEmpty([t] + lits) + rest
  {
    LexSlash(t, u);
    LexPlain(t);
    NonEmptyCons(t, lits);
    Regroup(Lex(t + "/" + u), Lex(t), Lex(u), NonEmpty(lits), NonEmpty([t] + lits), rest);
  }

  lemma Regroup<T>(whole: seq<T>, front: seq<T>, back: seq<T>, mid: seq<T>, joined: seq<T>, rest: seq<T>)
    requires whole == front + back && back == mid + rest && joined == front + mid
    ensures whole == joined + rest
  {
  }

  lemma LiteralCons(t: string, ts: seq<string>)
    requires '*' !in t
    ensures LiteralTokens([t] + ts) == [t] + LiteralTokens(ts)
  {
    assert ([t] + ts)[1..] == ts;
  }

  lemma NonEmptyCons(t: string, ts: seq<string>)
    ensures NonEmpty([t] + ts) == NonEmpty([t]) + NonEmpty(ts)
  {
    assert ([t] + ts)[1..] == ts;
    assert [t][1..] == [];
  }

  lemma LiteralSplit(lits: seq<string>, pieces: seq<string>)
    requires |lits| > 0
    ensures lits + pieces == [lits[0]] + (lits[1..] + pieces)
    ensures SegsOf(lits) == [Seg(lits[0])] + SegsOf(lits[1..])
  {
  }

  /** Literal pieces reduce to one `Single` each, in front of the rest. */
  lemma {:induction false} ReducedLiteral(lits: seq<string>, pieces: seq<string>, flag: bool)
    returns (tail: seq<RegexSegment>)
    requires forall i :: 0 <= i < |lits| ==> |lits[i]| > 0 && '*' !in lits[i]
    requires Reduced(lits + pieces, flag).Some?
    ensures Reduced(lits + pieces, flag).value == SegsOf(lits) + tail
    ensures pieces == [] ==> tail == []
    decreases |lits|
  {
    if |lits| == 0 {
      assert lits + pieces == pieces;
      tail := Reduced(pieces, flag).value;
    } else {
      var t, more := lits[0], lits[1..];
      assert !IsStarRun(t) by { assert t[0] in t; }
      LiteralSplit(lits, pieces);
      ReducedWord(t, more + pieces, flag);
      tail := ReducedLiteral(more, pieces, false);
      Regroup(Reduced(lits + pieces, flag).value, [Seg(t)], Reduced(more + pieces, false).value,
              SegsOf(more), SegsOf(lits), tail);
    }
  }

  /** Literal segments take up exactly their own texts as components. */
  lemma {:induction false} CompLiteral(lits: seq<string>, tail: seq<RegexSegment>, cs: seq<string>)
    requires forall i :: 0 <= i < |lits| ==> '*' !in lits[i]
    requires CompMatch(SegsOf(lits) + tail, cs)
    ensures |lits| <= |cs| && cs[..|lits|] == lits
    decreases |lits|
  {
    if |lits| > 0 {
      var segs := SegsOf(lits) + tail;
      SplitNone(lits[0], '*');
      assert segs[0] == Seg(lits[0]);
      assert segs[1..] == SegsOf(lits[1..]) + tail;
      CompLiteral(lits[1..], tail, cs[1..]);
      assert cs[..|lits|] == [cs[0]] + cs[1..][..|lits| - 1];
      assert lits == [lits[0]] + lits[1..];
    }
  }

  lemma {:induction false} SegmentsAppend(a: seq<string>, b: seq<string>)
    ensures Segments(a + b) == Segments(a) + Segments(b)
    decreases |a|
  {
    if |a| > 0 {
      assert (a + b)[0] == a[0] && (a + b)[1..] == a[1..] + b;
      SegmentsAppend(a[1..], b);
    } else {
      assert a + b == b;
    }
  }

  /** Empty tokens make no segment. */
  lemma {:induction false} SegmentsNonEmpty(ts: seq<string>)
    ensures Segments(NonEmpty(ts)) == Segments(ts)
    decreases |ts|
  {
    if |ts| > 0 {
      SegmentsNonEmpty(ts[1..]);
      var head := if |ts[0]| > 0 then [ts[0]] else [];
      SegmentsAppend(head, NonEmpty(ts[1..]));
      if |ts[0]| > 0 {
        assert Segments([ts[0]]) == Segments(ts[..1]);
        assert [ts[0]][1..] == [];
      }
    }
  }

  // MARK: completeness

  /** A compiled pattern's program opens with one literal segment per non-empty
      literal token. */
  lemma LiteralProgram(query: string) returns (heads: seq<string>, tail: seq<RegexSegment>)
    requires Program(query).Some?
    ensures heads == NonEmpty(LiteralTokens(Split(query, '/')))
    ensures forall i :: 0 <= i < |heads| ==> '*' !in heads[i]
    ensures Program(query).value == SegsOf(heads) + tail
  {
    var lits := LiteralTokens(Split(query, '/'));
    heads := NonEmpty(lits);
    var rest := LexLiteral(query);
    assert Program(query) == Reduced(heads + rest, false);
    forall i | 0 <= i < |heads| ensures |heads[i]| > 0 && '*' !in heads[i] {
      assert heads[i] in lits;
    }
    tail := ReducedLiteral(heads, rest, false);
  }

  /** Every path a query's rule matches has a skeleton that starts with the
      query's literal key. */
  lemma LiteralKeyComplete(query: string, x: string)
    requires Compile(query).Some? && IsMatch(Compile(query).value, x)
    ensures LiteralKey(query) <= Skeleton(x)
  {
    MatchMeaning(query, x);
    var heads, tail := LiteralProgram(query);
    SegmentsNonEmpty(LiteralTokens(Split(query, '/')));
    if |heads| == 0 {
      assert Segments(heads) == [];
    } else {
      assert |SegsOf(heads) + tail| > 0;
      LiteralPrefix(heads, tail, x);
    }
  }

  /** Components matched by literal segments are the front tokens of the path. */
  lemma LiteralPrefix(heads: seq<string>, tail: seq<RegexSegment>, x: string)
    requires forall i :: 0 <= i < |heads| ==> '*' !in heads[i]
    requires CompMatch(SegsOf(heads) + tail, Split(x, '/'))
    ensures Render(MaskAll(Segments(heads))) <= Skeleton(x)
  {
    var cs := Split(x, '/');
    CompLiteral(heads, tail, cs);
    assert cs == heads + cs[|heads|..];
    SegmentsAppend(heads, cs[|heads|..]);
    RenderPrefix(Segments(heads), Segments(cs));
  }

  /** With the literal key a query of a built index returns exactly the given
      paths its rule matches, each as often as it was given. */
  lemma CompleteQueryResults(paths: seq<string>, query: string, x: string)
    requires Compile(query).Some?
    ensures multiset(CompleteQuery(Build(paths), query).value)[x]
            == if IsMatch(Compile(query).value, x) then multiset(paths)[x] else 0
  {
    var idx := Build(paths);
    var key := LiteralKey(query);
    var rule := Compile(query).value;
    BuiltBuckets(paths, x);
    CandidatesCount(idx, idx.keys, key, x, Skeleton(x), multiset(paths)[x]);
    MatchingCount(rule, Candidates(idx, idx.keys, key), x);
    if IsMatch(rule, x) {
      LiteralKeyComplete(query, x);
    }
  }

  // MARK: exact lookups

  lemma {:induction false} LiteralTokensAll(ts: seq<string>)
    requires forall i :: 0 <= i < |ts| ==> '*' !in ts[i]
    ensures LiteralTokens(ts) == ts
    decreases |ts|
  {
    if |ts| > 0 {
      LiteralTokensAll(ts[1..]);
    }
  }

  lemma {:induction false} NonEmptyAll(ts: seq<string>)
    requires forall i :: 0 <= i < |ts| ==> |ts[i]| > 0
    ensures NonEmpty(ts) == ts
    decreases |ts|
  {
    if |ts| > 0 {
      NonEmptyAll(ts[1..]);
    }
  }

  /** A pattern with no star and no empty token is cut into its tokens. */
  lemma ExactLex(p: string)
    requires '*' !in p
    requires forall i :: 0 <= i < |Split(p, '/')| ==> |Split(p, '/')[i]| > 0
    ensures Lex(p) == Split(p, '/')
    ensures !HasTripleStar(p)
  {
    var ts := Split(p, '/');
    var rest := LexLiteral(p);
    PiecesWithout(p, '/', '*');
    LiteralTokensAll(ts);
    NonEmptyAll(ts);
    assert ts + [] == ts;
    forall i | 0 <= i < |p| - 2 ensures p[i] != '*' {
      assert p[i] in p;
    }
  }

  /** A pattern with no star and no empty token compiles to one literal segment
      per token. */
  lemma ExactProgram(p: string)
    requires '*' !in p
    requires forall i :: 0 <= i < |Split(p, '/')| ==> |Split(p, '/')[i]| > 0
    ensures Program(p) == Some(SegsOf(Split(p, '/')))
  {
    var ts := Split(p, '/');
    ExactLex(p);
    PiecesWithout(p, '/', '*');
    assert ts + [] == ts;
    assert Program(p) == Reduced(ts + [], false);
    var tail := ReducedLiteral(ts, [], false);
    assert SegsOf(ts) + tail == SegsOf(ts);
  }

  /** Literal segments take up their own texts. */
  lemma {:induction false} CompSelf(ts: seq<string>)
    requires forall i :: 0 <= i < |ts| ==> |ts[i]| > 0 && RuleTests.Plain(ts[i])
    ensures CompMatch(SegsOf(ts), ts)
    decreases |ts|
  {
    if |ts| > 0 {
      CompSelf(ts[1..]);
      assert SegsOf(ts) == [Seg(ts[0])] + SegsOf(ts[1..]);
      RuleTests.WordThen(ts[0], SegsOf(ts[1..]), ts);
    }
  }

  /** A stored path with no star and no empty token, queried by itself, is found
      as often as it was given (the exact lookups of the index tests). */
  lemma ExactLookup(paths: seq<string>, p: string)
    requires '*' !in p
    requires forall i :: 0 <= i < |Split(p, '/')| ==> |Split(p, '/')[i]| > 0
    requires |p| > 0 && p[0] != '/' && p[|p| - 1] != '/'
    requires !IsWhitespace(p[0]) && !IsWhitespace(p[|p| - 1])
    ensures Compile(p).Some?
    ensures multiset(Query(Build(paths), p).value)[p] == multiset(paths)[p]
  {
    var ts := Split(p, '/');
    ExactProgram(p);
    PiecesWithout(p, '/', '*');
    CompSelf(ts);
    MatchMeaning(p, p);
    assert p[|p| - 1] in p;
    TrimmedUntouched(p);
    QueryKeyPrefix(p);
    QueryResults(paths, p, p);
  }

  // MARK: the key as written misses a match

  lemma DroppedMatchText()
    ensures "root" + "/" + "test**file" == "root/test**file"
    ensures "root" + "/" + "test" + "**" + "file" == "root/test**file"
    ensures "root" + "/" + "test" + "/" + "file" == "root/test/file"
  {
  }

  /** `root/test**file` matches `root/test/file`, but its key keeps the starred
      token, which the path's skeleton does not start with: `query` leaves the
      stored path out, where the literal key finds it. */
  lemma DroppedMatch(query: string, path: string)
    requires query == "root/test**file" && path == "root/test/file"
    ensures Compile(query).Some? && IsMatch(Compile(query).value, path)
    ensures QueryToKey(query) == query && Skeleton(path) == path
    ensures multiset(Query(Build([path]), query).value)[path] == 0
    ensures multiset(CompleteQuery(Build([path]), query).value)[path] == 1
  {
    DroppedMatchText();
    RuleTests.AdjacentMiddleProgram("root", "test", "file");
    var rule := Compile(query).value;
    RuleTests.DoubleStarAdjacentMiddle(query, rule);
    DroppedKey(query, "root", "test**file");
    DroppedSkeleton(path, "root", "test", "file");
    QueryResults([path], query, path);
    CompleteQueryResults([path], query, path);
  }

  lemma DroppedKey(query: string, a: string, b: string)
    requires a == "root" && b == "test**file" && query == a + "/" + b
    ensures QueryToKey(query) == query
  {
    assert a[0] == 'r' && b[|b| - 1] == 'e';
    assert '/' !in a && '=' !in a && '\n' !in a by { assert a == ['r', 'o', 'o', 't']; }
    assert '/' !in b && '=' !in b && '\n' !in b by {
      assert b == ['t', 'e', 's', 't', '*', '*', 'f', 'i', 'l', 'e'];
    }
    KeyOfTwo(query, a, b);
  }

  lemma DroppedSkeleton(path: string, a: string, b: string, c: string)
    requires a == "root" && b == "test" && c == "file" && path == a + "/" + b + "/" + c
    ensures Skeleton(path) == path
  {
    assert '/' !in a && '=' !in a && '\n' !in a by { assert a == ['r', 'o', 'o', 't']; }
    assert '/' !in b && '=' !in b && '\n' !in b by { assert b == ['t', 'e', 's', 't']; }
    assert '/' !in c && '=' !in c && '\n' !in c by { assert c == ['f', 'i', 'l', 'e']; }
    SkeletonOfThree(path, a, b, c);
  }

  /** Tokens that each parse as a constant key as themselves. */
  lemma ConstantTokens(ts: seq<string>)
    requires forall i :: 0 <= i < |ts| ==> |ts[i]| > 0 && '=' !in ts[i] && '\n' !in ts[i]
    ensures Render(MaskAll(Segments(ts))) == Join(ts, "/")
  {
    var segs := Segments(ts);
    SegmentsOfConstants(ts);
    assert MaskAll(segs) == segs;
    assert ShowAll(segs) == ts;
  }

  lemma {:induction false} SegmentsOfConstants(ts: seq<string>)
    requires forall i :: 0 <= i < |ts| ==> |ts[i]| > 0 && '=' !in ts[i] && '\n' !in ts[i]
    ensures |Segments(ts)| == |ts|
    ensures forall i :: 0 <= i < |ts| ==> Segments(ts)[i] == Constant(ts[i])
    decreases |ts|
  {
    if |ts| > 0 {
      SegmentsOfConstants(ts[1..]);
      assert Parse(ts[0]) == Some(Constant(ts[0]));
      assert Segments(ts) == [Constant(ts[0])] + Segments(ts[1..]);
    }
  }

  /** The key of a two-token query that neither trim touches and whose tokens are
      constants other than a lone wildcard. */
  lemma KeyOfTwo(query: string, a: string, b: string)
    requires query == a + "/" + b
    requires |a| > 0 && |b| > 0 && '/' !in a && '/' !in b
    requires '=' !in a && '=' !in b && '\n' !in a && '\n' !in b
    requires !IsWhitespace(a[0]) && !IsWhitespace(b[|b| - 1]) && b[|b| - 1] != '*'
    requires a != "*" && a != "**" && b != "*" && b != "**"
    ensures QueryToKey(query) == query
  {
    assert query[0] == a[0] && query[|query| - 1] == b[|b| - 1];
    TrimmedUntouched(query);
    RuleTests.Components(a, b, b);
    NoLoneWildcard(a, b);
    ConstantPair(a, b);
    ConstantTokens([a, b]);
    JoinSplit(query, '/');
  }

  lemma ConstantPair(a: string, b: string)
    requires |a| > 0 && |b| > 0 && '=' !in a && '=' !in b && '\n' !in a && '\n' !in b
    ensures forall i :: 0 <= i < |[a, b]| ==> |[a, b][i]| > 0 && '=' !in [a, b][i] && '\n' !in [a, b][i]
  {
    forall i | 0 <= i < |[a, b]| ensures |[a, b][i]| > 0 && '=' !in [a, b][i] && '\n' !in [a, b][i] {
      assert [a, b][i] == if i == 0 then a else b;
    }
  }

  lemma NoLoneWildcard(a: string, b: string)
    requires a != "*" && a != "**" && b != "*" && b != "**"
    ensures KeySegments([a, b]) == Segments([a, b])
  {
    var ts := [a, b];
    forall i | 0 <= i < |ts| ensures ts[i] != "*" && ts[i] != "**" {
    }
  }

  /** The skeleton of a path of three constants. */
  lemma SkeletonOfThree(path: string, a: string, b: string, c: string)
    requires path == a + "/" + b + "/" + c
    requires |a| > 0 && |b| > 0 && |c| > 0 && '/' !in a && '/' !in b && '/' !in c
    requires '=' !in a && '=' !in b && '=' !in c && '\n' !in a && '\n' !in b && '\n' !in c
    ensures Skeleton(path) == path
  {
    RuleTests.Components(a, b, c);
    var tokens := Split(path, '/');
    assert tokens == [a, b, c];
    ConstantTokens(tokens);
    JoinSplit(path, '/');
  }
}
