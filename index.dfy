/**
 * `DatapathIndex` (index/mod.rs): the known paths filed by skeleton, and how many
 * were filed. The trie is modelled by `keys`, the distinct skeletons in the order
 * the builder first met them, and `buckets`, each skeleton's paths in the order
 * they were given; `predictive_search(key)` visits the buckets whose skeleton has
 * `key` as a prefix. A query compiles its pattern to a rule, searches with the
 * query's key, and keeps the visited paths the rule matches.
 */
module Index {
  import opened Util
  import Tokenizer
  import GlobRule
  import opened IndexKeys

  datatype DatapathIndex = DatapathIndex(keys: seq<string>, buckets: map<string, seq<string>>, len: nat)

  /** The trie's shape: each skeleton once, and a bucket for exactly the listed
      skeletons. */
  predicate Valid(idx: DatapathIndex)
  {
    (forall i, j :: 0 <= i < j < |idx.keys| ==> idx.keys[i] != idx.keys[j])
    && (forall k :: k in idx.buckets ==> k in idx.keys)
    && (forall i :: 0 <= i < |idx.keys| ==> idx.keys[i] in idx.buckets)
  }

  /** The bucket of a skeleton; none is an empty bucket. */
  function BucketOf(idx: DatapathIndex, k: string): seq<string>
  {
    if k in idx.buckets then idx.buckets[k] else []
  }

  /** The given paths whose skeleton is `k`, in the order given. */
  function Filed(paths: seq<string>, k: string): seq<string>
  {
    FiledBy(paths, k, Skeleton)
  }

  /** The given paths that `key` sends to `k`, in the order given. */
  function FiledBy(paths: seq<string>, k: string, key: string -> string): seq<string>
  {
    if |paths| == 0 then []
    else
      var last := paths[|paths| - 1];
      FiledBy(paths[..|paths| - 1], k, key) + (if key(last) == k then [last] else [])
  }

  // MARK: building

  /** `DatapathIndex::new_empty`. */
  function NewEmpty(): (r: DatapathIndex)
    ensures Valid(r) && r.len == 0
    ensures forall k :: BucketOf(r, k) == []
  {
    DatapathIndex([], map[], 0)
  }

  /** One pass of `new`'s loop: file the path under its skeleton and count it. */
  function Insert(idx: DatapathIndex, path: string): (r: DatapathIndex)
    ensures Valid(idx) ==> Valid(r)
    ensures r.len == idx.len + 1
    ensures forall k :: BucketOf(r, k)
                        == if k == Skeleton(path) then BucketOf(idx, k) + [path] else BucketOf(idx, k)
    ensures forall k :: k in r.buckets <==> k in idx.buckets || k == Skeleton(path)
  {
    var k := Skeleton(path);
    if k in idx.buckets then
      idx.(buckets := idx.buckets[k := idx.buckets[k] + [path]], len := idx.len + 1)
    else
      DatapathIndex(idx.keys + [k], idx.buckets[k := [path]], idx.len + 1)
  }

  /** The index `new` builds from `paths`: every path filed under its skeleton,
      each bucket in the order given, and one count per path. */
  function Build(paths: seq<string>): (r: DatapathIndex)
    ensures Valid(r)
    ensures r.len == |paths|
  {
    if |paths| == 0 then NewEmpty()
    else Insert(Build(paths[..|paths| - 1]), paths[|paths| - 1])
  }

  /** `DatapathIndex::new`. */
  method New(paths: seq<string>) returns (idx: DatapathIndex)
    ensures idx == Build(paths)
  {
    var len := 0;
    var keys: seq<string> := [];
    var patterns: map<string, seq<string>> := map[];
    var i := 0;
    while i < |paths|
      invariant 0 <= i <= |paths|
      invariant DatapathIndex(keys, patterns, len) == Build(paths[..i])
    {
      var s := paths[i];
      var pattern := SkeletonKey(s);
      if pattern in patterns {
        patterns := patterns[pattern := patterns[pattern] + [s]];
      } else {
        keys := keys + [pattern];
        patterns := patterns[pattern := [s]];
      }
      len := len + 1;
      assert paths[..i + 1][..i] == paths[..i];
      i := i + 1;
    }
    assert paths[..i] == paths;
    idx := DatapathIndex(keys, patterns, len);
  }

  /** `DatapathIndex::len`. */
  function Len(idx: DatapathIndex): nat
  {
    idx.len
  }

  /** `DatapathIndex::is_empty`. */
  predicate IsEmpty(idx: DatapathIndex)
  {
    Len(idx) == 0
  }

  // MARK: searching

  /** `predictive_search(key)` followed by `flat_map`: the buckets of the listed
      skeletons that have `key` as a prefix, concatenated in list order. */
  function Candidates(idx: DatapathIndex, ks: seq<string>, key: string): seq<string>
  {
    if |ks| == 0 then []
    else
      var k := ks[|ks| - 1];
      Candidates(idx, ks[..|ks| - 1], key) + (if key <= k then BucketOf(idx, k) else [])
  }

  /** `filter(is_match)`: the paths the rule matches, in order. */
  function Matching(rule: GlobRule.Rule, xs: seq<string>): seq<string>
  {
    if |xs| == 0 then []
    else
      var last := xs[|xs| - 1];
      Matching(rule, xs[..|xs| - 1]) + (if GlobRule.IsMatch(rule, last) then [last] else [])
  }

  /** The paths a rule finds from a key. */
  function Search(idx: DatapathIndex, key: string, rule: GlobRule.Rule): seq<string>
  {
    Matching(rule, Candidates(idx, idx.keys, key))
  }

  /** `DatapathIndex::query`: `None` for a pattern `Rule::new` refuses. */
  function Query(idx: DatapathIndex, query: string): (r: Option<seq<string>>)
    ensures r.None? <==> Tokenizer.HasTripleStar(query)
  {
    match GlobRule.Compile(query)
    case None => None
    case Some(rule) => Some(Search(idx, QueryToKey(query), rule))
  }

  /** `DatapathIndex::query_rule`: with a compiled rule it answers what `query`
      answers for the rule's pattern. */
  function QueryRule(idx: DatapathIndex, rule: GlobRule.Rule): (r: seq<string>)
    ensures GlobRule.Compiled(rule) ==> Query(idx, GlobRule.Pattern(rule)) == Some(r)
  {
    Search(idx, QueryToKey(GlobRule.Pattern(rule)), rule)
  }

  /** The nested loops of `query_match` and `query_rule_match`: the buckets the
      key reaches, each path in turn, left at the first match. */
  method AnyMatch(idx: DatapathIndex, key: string, rule: GlobRule.Rule) returns (r: bool)
    ensures r <==> |Search(idx, key, rule)| > 0
  {
    var i := 0;
    while i < |idx.keys|
      invariant 0 <= i <= |idx.keys|
      invariant Matching(rule, Candidates(idx, idx.keys[..i], key)) == []
    {
      var k := idx.keys[i];
      assert idx.keys[..i + 1][..i] == idx.keys[..i];
      if key <= k {
        var strings := BucketOf(idx, k);
        var found, j := FirstMatch(rule, strings);
        if found {
          FoundInSearch(idx, key, rule, i, strings[j]);
          return true;
        }
        MatchingAppend(rule, Candidates(idx, idx.keys[..i], key), strings);
      } else {
        assert Candidates(idx, idx.keys[..i + 1], key) == Candidates(idx, idx.keys[..i], key);
      }
      i := i + 1;
    }
    assert idx.keys[..i] == idx.keys;
    return false;
  }

  /** The inner loop of `AnyMatch`: the paths of one bucket in turn, left at the
      first that the rule matches. */
  method FirstMatch(rule: GlobRule.Rule, strings: seq<string>) returns (found: bool, j: nat)
    ensures found ==> j < |strings| && GlobRule.IsMatch(rule, strings[j])
                      && Matching(rule, strings[..j]) == []
    ensures !found ==> Matching(rule, strings) == []
  {
    j := 0;
    while j < |strings|
      invariant 0 <= j <= |strings|
      invariant Matching(rule, strings[..j]) == []
    {
      assert strings[..j + 1][..j] == strings[..j];
      if GlobRule.IsMatch(rule, strings[j]) {
        return true, j;
      }
      j := j + 1;
    }
    assert strings[..j] == strings;
    return false, j;
  }

  /** A match in a bucket the key reaches is a search result. */
  lemma FoundInSearch(idx: DatapathIndex, key: string, rule: GlobRule.Rule, i: nat, x: string)
    requires i < |idx.keys| && key <= idx.keys[i] && x in BucketOf(idx, idx.keys[i])
    requires GlobRule.IsMatch(rule, x)
    ensures |Search(idx, key, rule)| > 0
  {
    var all := Candidates(idx, idx.keys, key);
    CandidateFound(idx, idx.keys, key, i, x);
    MatchingCount(rule, all, x);
    assert multiset(Matching(rule, all))[x] > 0;
  }

  /** `DatapathIndex::query_rule_match`. */
  method QueryRuleMatch(idx: DatapathIndex, rule: GlobRule.Rule) returns (r: bool)
    ensures r <==> |QueryRule(idx, rule)| > 0
  {
    var key := QueryKey(GlobRule.Pattern(rule));
    r := AnyMatch(idx, key, rule);
  }

  /** `DatapathIndex::query_match`. */
  method QueryMatch(idx: DatapathIndex, query: string) returns (r: Option<bool>)
    ensures r.None? <==> Query(idx, query).None?
    ensures r.Some? ==> (r.value <==> |Query(idx, query).value| > 0)
  {
    var rule := GlobRule.New(query);
    if rule.None? {
      return None;
    }
    var key := QueryKey(query);
    var found := AnyMatch(idx, key, rule.value);
    return Some(found);
  }

  // MARK: properties

  lemma {:induction false} MatchingAppend(rule: GlobRule.Rule, a: seq<string>, b: seq<string>)
    ensures Matching(rule, a + b) == Matching(rule, a) + Matching(rule, b)
    decreases |b|
  {
    if |b| == 0 {
      assert a + b == a;
    } else {
      assert (a + b)[..|a + b| - 1] == a + b[..|b| - 1];
      MatchingAppend(rule, a, b[..|b| - 1]);
    }
  }

  /** A path in the bucket of a listed skeleton with the key as prefix is among the
      candidates. */
  lemma {:induction false} CandidateFound(idx: DatapathIndex, ks: seq<string>, key: string, i: nat, x: string)
    requires i < |ks| && key <= ks[i] && x in BucketOf(idx, ks[i])
    ensures x in Candidates(idx, ks, key)
    decreases |ks|
  {
    if i < |ks| - 1 {
      CandidateFound(idx, ks[..|ks| - 1], key, i, x);
    }
  }

  /** A built index counts the given paths: `len` is their number, and
      `is_empty` holds exactly when none was given. */
  lemma BuildLen(paths: seq<string>)
    ensures Len(Build(paths)) == |paths|
    ensures IsEmpty(Build(paths)) <==> |paths| == 0
  {
  }

  /** A path is filed as often as it was given, in the bucket of its skeleton
      only. */
  lemma FiledCount(paths: seq<string>, k: string, x: string)
    ensures multiset(Filed(paths, k))[x] == if Skeleton(x) == k then multiset(paths)[x] else 0
  {
    FiledByCount(paths, k, x, Skeleton);
  }

  lemma {:induction false} FiledByCount(paths: seq<string>, k: string, x: string, key: string -> string)
    ensures multiset(FiledBy(paths, k, key))[x] == if key(x) == k then multiset(paths)[x] else 0
    decreases |paths|
  {
    if |paths| > 0 {
      var last := paths[|paths| - 1];
      FiledByCount(paths[..|paths| - 1], k, x, key);
      assert paths == paths[..|paths| - 1] + [last];
    }
  }

  /** The filter keeps every copy of a matched path and nothing else. */
  lemma {:induction false} MatchingCount(rule: GlobRule.Rule, xs: seq<string>, x: string)
    ensures multiset(Matching(rule, xs))[x] == if GlobRule.IsMatch(rule, x) then multiset(xs)[x] else 0
    decreases |xs|
  {
    if |xs| > 0 {
      var last := xs[|xs| - 1];
      MatchingCount(rule, xs[..|xs| - 1], x);
      assert xs == xs[..|xs| - 1] + [last];
    }
  }

  /** The copies of a path among the candidates of distinct skeletons, when all
      `c` of them sit in the bucket of `home`. */
  lemma {:induction false} CandidatesCount(idx: DatapathIndex, ks: seq<string>, key: string, x: string, home: string, c: nat)
    requires forall i, j :: 0 <= i < j < |ks| ==> ks[i] != ks[j]
    requires forall k :: multiset(BucketOf(idx, k))[x] == if k == home then c else 0
    ensures multiset(Candidates(idx, ks, key))[x] == if home in ks && key <= home then c else 0
    decreases |ks|
  {
    if |ks| > 0 {
      var init := ks[..|ks| - 1];
      var k := ks[|ks| - 1];
      DistinctInit(ks);
      CandidatesCount(idx, init, key, x, home, c);
      assert ks == init + [k];
      assert Candidates(idx, ks, key) == Candidates(idx, init, key) + (if key <= k then BucketOf(idx, k) else []);
    }
  }

  /** Dropping the last of distinct keys leaves distinct keys without it. */
  lemma DistinctInit(ks: seq<string>)
    requires |ks| > 0
    requires forall i, j :: 0 <= i < j < |ks| ==> ks[i] != ks[j]
    ensures var init := ks[..|ks| - 1];
            (forall i, j :: 0 <= i < j < |init| ==> init[i] != init[j])
            && ks[|ks| - 1] !in init
  {
    var init := ks[..|ks| - 1];
    forall i, j | 0 <= i < j < |init| ensures init[i] != init[j] {
      assert init[i] == ks[i] && init[j] == ks[j];
    }
    forall i | 0 <= i < |init| ensures init[i] != ks[|ks| - 1] {
      assert init[i] == ks[i];
    }
  }

  /** Each bucket of a built index holds the paths of its skeleton, in the order
      given, and the empty ones are absent. */
  lemma {:induction false} BuildBuckets(paths: seq<string>, k: string)
    ensures BucketOf(Build(paths), k) == Filed(paths, k)
    ensures k in Build(paths).buckets <==> |Filed(paths, k)| > 0
    decreases |paths|
  {
    if |paths| > 0 {
      var init := paths[..|paths| - 1];
      var last := paths[|paths| - 1];
      BuildBuckets(init, k);
      assert Build(paths) == Insert(Build(init), last);
      assert Filed(paths, k) == Filed(init, k) + (if Skeleton(last) == k then [last] else []);
    }
  }

  /** The buckets of a built index: every copy of `x` sits in the bucket of its
      skeleton, a bucket that exists exactly when `x` was given. */
  lemma BuiltBuckets(paths: seq<string>, x: string)
    ensures forall k :: multiset(BucketOf(Build(paths), k))[x]
                        == if k == Skeleton(x) then multiset(paths)[x] else 0
    ensures x in paths ==> Skeleton(x) in Build(paths).keys
  {
    var idx := Build(paths);
    forall k ensures multiset(BucketOf(idx, k))[x] == if k == Skeleton(x) then multiset(paths)[x] else 0 {
      BuildBuckets(paths, k);
      FiledCount(paths, k, x);
    }
    if x in paths {
      BuildBuckets(paths, Skeleton(x));
      FiledCount(paths, Skeleton(x), x);
      assert multiset(Filed(paths, Skeleton(x)))[x] > 0;
    }
  }

  /** Every path is filed in exactly one bucket, the one of its skeleton. */
  lemma Partition(paths: seq<string>, x: string)
    ensures forall k :: x in BucketOf(Build(paths), k) <==> x in paths && Skeleton(x) == k
  {
    var idx := Build(paths);
    BuiltBuckets(paths, x);
    forall k ensures x in BucketOf(idx, k) <==> x in paths && Skeleton(x) == k {
      assert x in BucketOf(idx, k) <==> multiset(BucketOf(idx, k))[x] > 0;
    }
  }

  /** Listing every bucket gives each path as often as it was given. */
  lemma AllListed(paths: seq<string>, x: string)
    ensures multiset(Candidates(Build(paths), Build(paths).keys, ""))[x] == multiset(paths)[x]
  {
    var idx := Build(paths);
    BuiltBuckets(paths, x);
    CandidatesCount(idx, idx.keys, "", x, Skeleton(x), multiset(paths)[x]);
  }

  /** The buckets' lengths add up to `len`: listing every bucket gives back the
      given paths, in some order. */
  lemma BucketsSum(paths: seq<string>)
    ensures multiset(Candidates(Build(paths), Build(paths).keys, "")) == multiset(paths)
    ensures |Candidates(Build(paths), Build(paths).keys, "")| == Len(Build(paths))
  {
    var idx := Build(paths);
    var all := Candidates(idx, idx.keys, "");
    forall x ensures multiset(all)[x] == multiset(paths)[x] {
      AllListed(paths, x);
    }
    SameCounts(all, paths);
    BuildLen(paths);
  }

  lemma SameCounts(a: seq<string>, b: seq<string>)
    requires forall x :: multiset(a)[x] == multiset(b)[x]
    ensures multiset(a) == multiset(b) && |a| == |b|
  {
    assert multiset(a) == multiset(b);
    assert |a| == |multiset(a)|;
  }

  /** What a query of a built index returns: each given path whose skeleton
      starts with the query's key and that the query's rule matches, as often as
      it was given, and nothing else. */
  lemma QueryResults(paths: seq<string>, query: string, x: string)
    requires GlobRule.Compile(query).Some?
    ensures multiset(Query(Build(paths), query).value)[x]
            == if QueryToKey(query) <= Skeleton(x) && GlobRule.IsMatch(GlobRule.Compile(query).value, x)
               then multiset(paths)[x] else 0
  {
    var idx := Build(paths);
    var key := QueryToKey(query);
    BuiltBuckets(paths, x);
    CandidatesCount(idx, idx.keys, key, x, Skeleton(x), multiset(paths)[x]);
    MatchingCount(GlobRule.Compile(query).value, Candidates(idx, idx.keys, key), x);
  }

  /** An empty index answers every valid query with nothing. */
  lemma EmptyQuery(query: string)
    ensures Query(NewEmpty(), query).Some? ==> Query(NewEmpty(), query).value == []
    ensures IsEmpty(NewEmpty())
  {
  }
}
