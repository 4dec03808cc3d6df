/**
 * Small shared vocabulary: an optional value, and the two string operations the
 * path code uses everywhere, splitting on a separator character and joining with
 * a separator string (the semantics of Rust's `str::split(char)` and
 * `Itertools::join`).
 */
module Util {

  datatype Option<+T> = None | Some(value: T)

  /** `s` split at every occurrence of `c`; empty pieces are kept, so the result
      always has one more piece than `s` has occurrences of `c`. */
  function Split(s: string, c: char): (r: seq<string>)
    ensures |r| >= 1
    ensures forall i :: 0 <= i < |r| ==> c !in r[i]
    decreases |s|
  {
    if |s| == 0 then [""]
    else if s[0] == c then [""] + Split(s[1..], c)
    else
      var rest := Split(s[1..], c);
      [[s[0]] + rest[0]] + rest[1..]
  }

  /** The pieces of `parts` with `sep` between each neighbouring pair. */
  function Join(parts: seq<string>, sep: string): string
    decreases |parts|
  {
    if |parts| == 0 then ""
    else if |parts| == 1 then parts[0]
    else parts[0] + sep + Join(parts[1..], sep)
  }

  /** Joining the pieces of a split with the separator gives the text back. */
  lemma {:induction false} JoinSplit(s: string, c: char)
    ensures Join(Split(s, c), [c]) == s
    decreases |s|
  {
    if |s| > 0 {
      JoinSplit(s[1..], c);
      var rest := Split(s[1..], c);
      if s[0] == c {
        assert Split(s, c) == [""] + rest;
        JoinEmptyHead(rest, [c]);
      } else {
        assert Split(s, c) == [[s[0]] + rest[0]] + rest[1..];
        JoinLongerHead(s[0], rest, [c]);
      }
      assert s == [s[0]] + s[1..];
    }
  }

  lemma JoinEmptyHead(rest: seq<string>, sep: string)
    requires |rest| >= 1
    ensures Join([""] + rest, sep) == sep + Join(rest, sep)
  {
    assert ([""] + rest)[1..] == rest;
  }

  lemma JoinLongerHead(x: char, rest: seq<string>, sep: string)
    requires |rest| >= 1
    ensures Join([[x] + rest[0]] + rest[1..], sep) == [x] + Join(rest, sep)
  {
    var r := [[x] + rest[0]] + rest[1..];
    if |rest| > 1 {
      assert r[1..] == rest[1..];
    }
  }

  /** Splitting is compositional at an occurrence of the separator. */
  lemma {:induction false} SplitAppend(a: string, c: char, b: string)
    ensures Split(a + [c] + b, c) == Split(a, c) + Split(b, c)
    decreases |a|
  {
    if |a| == 0 {
      assert a + [c] + b == [c] + b;
      assert ([c] + b)[1..] == b;
    } else {
      var s := a + [c] + b;
      assert s[0] == a[0] && s[1..] == a[1..] + [c] + b;
      SplitAppend(a[1..], c, b);
      if a[0] != c {
        HeadOntoFirst(a[0], Split(a[1..], c), Split(b, c));
      }
    }
  }

  /** Prefixing a character to the first piece of a concatenation of splits. */
  lemma HeadOntoFirst(x: char, p: seq<string>, q: seq<string>)
    requires |p| >= 1
    ensures [[x] + (p + q)[0]] + (p + q)[1..] == ([[x] + p[0]] + p[1..]) + q
  {
    assert (p + q)[1..] == p[1..] + q;
  }

  /** Number of occurrences of `c` in `s`. */
  function Count(s: string, c: char): nat
    decreases |s|
  {
    if |s| == 0 then 0 else (if s[0] == c then 1 else 0) + Count(s[1..], c)
  }

  /** A split has one piece more than there are separators. */
  lemma {:induction false} SplitCount(s: string, c: char)
    ensures |Split(s, c)| == Count(s, c) + 1
    decreases |s|
  {
    if |s| > 0 {
      SplitCount(s[1..], c);
    }
  }

  /** Without a separator there is nothing to split. */
  lemma {:induction false} SplitNone(s: string, c: char)
    requires c !in s
    ensures Split(s, c) == [s]
    decreases |s|
  {
    if |s| > 0 {
      assert s[0] in s;
      assert forall x :: x in s[1..] ==> x in s;
      SplitNone(s[1..], c);
      assert s == [s[0]] + s[1..];
    }
  }

  /** A split with one piece means there was no separator. */
  lemma {:induction false} SplitSingle(s: string, c: char)
    requires |Split(s, c)| == 1
    ensures c !in s
  {
    if c in s {
      var m :| 0 <= m < |s| && s[m] == c;
      assert s == s[..m] + [c] + s[m + 1..];
      SplitAppend(s[..m], c, s[m + 1..]);
    }
  }

  /** A split with more than one piece starts with the text before the first
      separator, and goes on with the split of the text after it. */
  lemma {:induction false} SplitHead(s: string, c: char) returns (m: nat)
    requires |Split(s, c)| >= 2
    ensures m < |s| && s[m] == c && c !in s[..m]
    ensures Split(s, c)[0] == s[..m] && Split(s, c)[1..] == Split(s[m + 1..], c)
    decreases |s|
  {
    if s[0] == c {
      m := 0;
    } else {
      var rest := Split(s[1..], c);
      var m' := SplitHead(s[1..], c);
      m := m' + 1;
      assert s[..m] == [s[0]] + s[1..][..m'];
      assert s[1..][m' + 1..] == s[m + 1..];
    }
  }

  lemma {:induction false} JoinAppend(a: seq<string>, b: seq<string>, sep: string)
    requires |a| > 0 && |b| > 0
    ensures Join(a + b, sep) == Join(a, sep) + sep + Join(b, sep)
    decreases |a|
  {
    if |a| == 1 {
      assert (a + b)[1..] == b;
    } else {
      assert (a + b)[1..] == a[1..] + b;
      JoinAppend(a[1..], b, sep);
    }
  }

  /** A split with more than `k` pieces, cut after its first `k` pieces. */
  lemma SplitCut(w: string, c: char, k: nat) returns (x: string, u: string)
    requires 0 < k < |Split(w, c)|
    ensures w == x + [c] + u
    ensures Split(x, c) == Split(w, c)[..k] && Split(u, c) == Split(w, c)[k..]
  {
    JoinSplit(w, c);
    x, u := CutPieces(Split(w, c), k, c);
  }

  /** Separator-free pieces, joined, cut after the first `k` of them. */
  lemma CutPieces(cs: seq<string>, k: nat, c: char) returns (x: string, u: string)
    requires 0 < k < |cs| && Free(cs, c)
    ensures Join(cs, [c]) == x + [c] + u
    ensures Split(x, c) == cs[..k] && Split(u, c) == cs[k..]
  {
    var a, b := cs[..k], cs[k..];
    SlicesFree(cs, k, c);
    x, u := Join(a, [c]), Join(b, [c]);
    JoinCut(a, b, c);
    assert a + b == cs;
  }

  /** No piece holds `c`. */
  predicate Free(parts: seq<string>, c: char)
  {
    forall i :: 0 <= i < |parts| ==> c !in parts[i]
  }

  lemma SlicesFree(cs: seq<string>, k: nat, c: char)
    requires k <= |cs| && Free(cs, c)
    ensures Free(cs[..k], c) && Free(cs[k..], c)
  {
    forall i | 0 <= i < |cs| - k ensures c !in cs[k..][i] {
      assert cs[k..][i] == cs[k + i];
    }
  }

  /** Two runs of separator-free pieces, joined together and each on its own. */
  lemma JoinCut(a: seq<string>, b: seq<string>, c: char)
    requires |a| > 0 && |b| > 0 && Free(a, c) && Free(b, c)
    ensures Split(Join(a, [c]), c) == a && Split(Join(b, [c]), c) == b
    ensures Join(a + b, [c]) == Join(a, [c]) + [c] + Join(b, [c])
  {
    SplitJoin(a, c);
    SplitJoin(b, c);
    JoinAppend(a, b, [c]);
  }

  /** Splitting the join of separator-free pieces gives the pieces back. */
  lemma {:induction false} SplitJoin(parts: seq<string>, c: char)
    requires |parts| >= 1
    requires forall i :: 0 <= i < |parts| ==> c !in parts[i]
    ensures Split(Join(parts, [c]), c) == parts
    decreases |parts|
  {
    SplitNone(parts[0], c);
    if |parts| > 1 {
      SplitJoin(parts[1..], c);
      SplitAppend(parts[0], c, Join(parts[1..], [c]));
      assert parts[0] + [c] + Join(parts[1..], [c]) == Join(parts, [c]);
    }
  }

  /** A character found neither in the pieces nor in the separator is not in the
      join. */
  lemma {:induction false} JoinWithout(parts: seq<string>, sep: string, d: char)
    requires d !in sep
    requires forall i :: 0 <= i < |parts| ==> d !in parts[i]
    ensures d !in Join(parts, sep)
    decreases |parts|
  {
    if |parts| > 1 {
      JoinWithout(parts[1..], sep, d);
    }
  }

  /** A character other than the separator occurs in the text exactly when it
      occurs in one of the pieces. */
  lemma SplitWithout(s: string, c: char, d: char)
    requires d != c
    ensures d !in s <==> forall i :: 0 <= i < |Split(s, c)| ==> d !in Split(s, c)[i]
  {
    var parts := Split(s, c);
    if d !in s {
      PiecesWithout(s, c, d);
    } else {
      JoinSplit(s, c);
      var i := JoinHas(parts, [c], d);
      assert d in parts[i];
    }
  }

  /** A character of a joined text that is not in the separator comes from one of
      the parts. */
  lemma {:induction false} JoinHas(parts: seq<string>, sep: string, d: char) returns (i: nat)
    requires d !in sep && d in Join(parts, sep)
    ensures i < |parts| && d in parts[i]
    decreases |parts|
  {
    if |parts| == 1 || d in parts[0] {
      i := 0;
    } else {
      var j := JoinHas(parts[1..], sep, d);
      i := j + 1;
    }
  }

  lemma {:induction false} PiecesWithout(s: string, c: char, d: char)
    requires d !in s
    ensures forall i :: 0 <= i < |Split(s, c)| ==> d !in Split(s, c)[i]
    decreases |s|
  {
    if |s| > 0 {
      assert forall x :: x in s[1..] ==> x in s;
      PiecesWithout(s[1..], c, d);
      var rest := Split(s[1..], c);
      if s[0] != c {
        assert Split(s, c)[0] == [s[0]] + rest[0];
        assert forall i :: 1 <= i < |rest| ==> Split(s, c)[i] == rest[i];
      }
    }
  }

  /** Cutting a text at two points. */
  lemma Slices(s: string, a: nat, b: nat)
    requires a <= b <= |s|
    ensures s == s[..a] + s[a..b] + s[b..]
    ensures s[a..][..b - a] == s[a..b] && s[a..][b - a..] == s[b..]
    ensures forall x :: x in s[a..b] ==> x in s
    ensures forall x :: x in s[b..] ==> x in s
  {
  }
}
