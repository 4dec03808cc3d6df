# datapath index and glob rules, in Dafny

This project models the matching engine of the `datapath` crate:
- `Rule` compiles a glob pattern into an anchored regular expression. `*` matches within one path component and `**` matches any number of components.
- `DatapathIndex` files slash-separated object paths by their *skeleton*: the path with every `key=value` value masked to `*`. It answers glob queries by a prefix search on a key derived from the query, then filters the candidates with the rule.
- `Wildcardable<T>` is a partition value that is either `*` or explicit.

The modules follow the source:
- `Tokenizer`, `RegexModel`, `RegexSegments`, `GlobSemantics` and `GlobRule` cover `rule.rs`. `RuleTests` restates each of its unit tests as an instance of a theorem about the test's pattern family.
- `PathSegments`, `IndexKeys` and `Index` cover `index/mod.rs`.
- `CompleteKeys` holds the completeness finding below and the exact-lookup theorem.
- `Wildcard` covers `wildcardable.rs`.
- `Util` holds splitting and joining strings.

The three compiler phases of `Rule::regex_str` are written as specification functions, each paired with the loop that computes it:
- `Lex`, with the `Tokenize` method;
- `Reduced`, with the `Reduce` method;
- `AssembledFrom`, with the `Assemble` method.

The regular-expression language is given by a small syntax tree with a printer and a matcher (`Print`, `Lang`). The main theorem, `GlobSemantics.SegmentsMeaning`, says the emitted expression matches a path exactly when the reduced segments match its components one by one:
- a `Single` matches one component, by its literal parts around single stars;
- a `**` matches any run of components that hold no newline.

The index is a value: the distinct skeletons in the order they were first met, a map from each skeleton to its bucket of paths, and the count.

Where the prose description of the system and the code disagree, the model follows the code. The description promises that a query returns every stored path its rule matches, and the code does not keep that promise (see Findings).

## Model

| member | source | states |
|---|---|---|
| Tokenizer.Lex | crates/datapath/src/index/rule.rs:83-111 | the specification of the pieces `regex_str` keeps; `Tokenizer.Tokenize` computes it, and `LexPieces`, `LexSlash` and `LexLongRun` state what it keeps |
| Tokenizer.TextLen | crates/datapath/src/index/rule.rs:85-97 | the text before the next match of `[*]{2,}\|[/]`: no separator inside, a separator (or the end) right after it |
| Tokenizer.StarRun | crates/datapath/src/index/rule.rs:85 | the greedy star run: all stars, followed by a non-star or the end |
| Tokenizer.RunEnd | crates/datapath/src/index/rule.rs:85-86 | the end of a `[*]{2,}` match starting at `i` is at least `i + 2` and maximal |
| Tokenizer.Tokenize | crates/datapath/src/index/rule.rs:83-111 | the bounds loop keeps exactly the pieces `Lex` gives |
| Tokenizer.LexPieces | crates/datapath/src/index/rule.rs:99-108 | every kept piece is a run of two or more stars, or non-empty text without a slash or a double star |
| Tokenizer.LexSlash | crates/datapath/src/index/rule.rs:99-108 | a slash splits a pattern into independent halves: `Lex(a + "/" + b) == Lex(a) + Lex(b)` |
| Tokenizer.DuplicateSlash | crates/datapath/src/index/rule.rs:103-106 | a doubled slash cuts the same pieces as a single one |
| Tokenizer.SurroundingSlash | crates/datapath/src/index/rule.rs:99-108 | leading and trailing slashes change no piece |
| Tokenizer.LexDoubleStar | crates/datapath/src/index/rule.rs:79-82 | a `**` not touching other stars is its own piece whether or not slashes surround it |
| Tokenizer.LexLongRun | crates/datapath/src/index/rule.rs:85-128 | some piece is a run of three or more stars exactly when the pattern holds `***` |
| RegexModel.Escape | crates/datapath/src/index/rule.rs:141 | `regex::escape` puts a backslash before each meta character, so it never shortens the text |
| RegexModel.EscapeRoundTrip | crates/datapath/src/index/rule.rs:141 | escaping can be undone, so escaped literals stand for their own text |
| RegexModel.EscapeInjective | crates/datapath/src/index/rule.rs:141 | different literals escape differently |
| RegexSegments.EscapeAll | crates/datapath/src/index/rule.rs:136-142 | each literal part is escaped in place, nothing added or dropped |
| RegexSegments.FragmentShape | crates/datapath/src/index/rule.rs:133 | a piece with k single stars has k + 1 star-free literal parts that join back to the piece |
| RegexSegments.PrintFragment | crates/datapath/src/index/rule.rs:133-144 | the fragment is the escaped parts joined by `([^/]*)` |
| RegexSegments.BuildFragment | crates/datapath/src/index/rule.rs:135-142 | the inner push loop builds exactly that fragment |
| RegexSegments.Reduced | crates/datapath/src/index/rule.rs:113-145 | fails exactly on a star run other than `**`; otherwise no two `DoubleStar` are adjacent, every `Single` carries its piece's fragment, and after a `**` the next segment is a `Single` |
| RegexSegments.ReducedWord | crates/datapath/src/index/rule.rs:131-144 | a non-star piece becomes one `Single` and clears the double-star flag |
| RegexSegments.ReducedStep | crates/datapath/src/index/rule.rs:115-145 | one step of the reducer: `**` adds a `DoubleStar` unless one was just added, a longer star run fails, and any other piece adds a `Single` with its fragment |
| RegexSegments.Reduce | crates/datapath/src/index/rule.rs:113-145 | the reducer loop computes `Reduced` |
| RegexSegments.Part | crates/datapath/src/index/rule.rs:20-52 | `to_regex_part`; its precondition is the `unreachable!` arm that no two `**` are adjacent, which `Reduced` guarantees. `PrintPart` ties its text to a syntax tree, and `SegmentsLang` gives that tree's meaning |
| RegexSegments.PrintPart | crates/datapath/src/index/rule.rs:20-52 | the text of `to_regex_part` for each neighbour combination is the printing of its syntax tree |
| RegexSegments.PrintSegments | crates/datapath/src/index/rule.rs:147-153 | the assembled text is the printing of the whole segment list's tree |
| RegexSegments.Assemble | crates/datapath/src/index/rule.rs:147-153 | the assembler loop, tracking the previous segment, computes the assembled text |
| GlobSemantics.FragmentLang | crates/datapath/src/index/rule.rs:133-144 | a fragment matches exactly the slash-free components that match its literal parts around the stars |
| GlobSemantics.SegmentsLang | crates/datapath/src/index/rule.rs:20-52 | the tree of the segments from `i` on matches what the remaining segments must match, by neighbour case |
| GlobSemantics.SegmentsMeaning | crates/datapath/src/index/rule.rs:20-52 | the whole expression matches a path exactly when the segments match its components |
| GlobRule.RejectedPieces | crates/datapath/src/index/rule.rs:118-128 | the reducer fails exactly when a kept piece is a star run of three or more |
| GlobRule.Program | crates/datapath/src/index/rule.rs:83-145 | the segment list is missing exactly when the pattern holds `***`, and is well formed otherwise |
| GlobRule.RegexText | crates/datapath/src/index/rule.rs:78-156 | `regex_str` fails exactly when the pattern holds `***` |
| GlobRule.Compile | crates/datapath/src/index/rule.rs:159-178 | `Rule::new` fails exactly on `***`, keeps the pattern verbatim and anchors `regex_str`'s text |
| GlobRule.Pattern | crates/datapath/src/index/rule.rs:62-64 | recompiling the returned pattern gives back the same rule |
| GlobRule.RawRegexStr | crates/datapath/src/index/rule.rs:74-76 | `raw_regex_str` is `regex_str` of the kept pattern, and the compiled source is it wrapped in `^` and `$` |
| GlobRule.RegexStr | crates/datapath/src/index/rule.rs:78-156 | the three loops together compute `regex_str` |
| GlobRule.New | crates/datapath/src/index/rule.rs:159-178 | the constructor computes `Compile` |
| GlobRule.IsMatch | crates/datapath/src/index/rule.rs:70-72 | `is_match` is the language of the compiled expression; `GlobRule.MatchMeaning` states what it accepts |
| GlobRule.MatchMeaning | crates/datapath/src/index/rule.rs:70-72 | `is_match` holds exactly when the pattern's segments match the path's components |
| GlobRule.SamePieces | crates/datapath/src/index/rule.rs:99-108 | patterns with the same pieces compile to the same expression |
| GlobRule.SlashesIgnored | crates/datapath/src/index/rule.rs:99-108 | doubled, leading and trailing slashes do not change `regex_str` |
| GlobRule.DoubleStarNeedsNoSlashes | crates/datapath/src/index/rule.rs:79-82 | `a**b` compiles like `a/**/b` |
| RuleTests.StarThen | crates/datapath/src/index/rule.rs:133-144 | a piece `*x` matches exactly the components that end in `x` |
| RuleTests.Exact | crates/datapath/src/index/rule.rs:190-197 | a star-free, slash-free pattern matches exactly the path equal to it |
| RuleTests.Simple | crates/datapath/src/index/rule.rs:190-197 | the `simple` test's three results |
| RuleTests.ExactDir | crates/datapath/src/index/rule.rs:199-206 | `d/x` with star-free, slash-free `d` and `x` matches exactly the path `d/x` |
| RuleTests.SimpleDir | crates/datapath/src/index/rule.rs:199-206 | the `simple_dir` test's three results |
| RuleTests.MultiSlashA | crates/datapath/src/index/rule.rs:367-374 | `dir//file.txt` compiles like `dir/file.txt`, so the `multi_slash_a` test's three results |
| RuleTests.StarSuffix | crates/datapath/src/index/rule.rs:208-216 | `*x` matches a path exactly when it has no slash and ends in `x` |
| RuleTests.SimpleStar | crates/datapath/src/index/rule.rs:208-216 | the `simple_star` test's four results |
| RuleTests.AnyDepthSuffix | crates/datapath/src/index/rule.rs:218-227 | `**/*x` matches a path exactly when its last component ends in `x` and no earlier one holds a newline |
| RuleTests.SimpleDoubleStar | crates/datapath/src/index/rule.rs:218-227 | the `simple_doublestar` test's five results |
| RuleTests.ConsecutiveDoubleStars | crates/datapath/src/index/rule.rs:229-238 | `**/**/**/*x` reduces and compiles exactly like `**/*x` |
| RuleTests.ConsecutiveDoubleStar | crates/datapath/src/index/rule.rs:229-238 | the `consecutive_doublestar` test's five results |
| RuleTests.InfixPiece | crates/datapath/src/index/rule.rs:133-144 | a piece `*x*` matches exactly the components that contain `x` |
| RuleTests.AnyDepthInfix | crates/datapath/src/index/rule.rs:240-252 | `**/*x*` matches a path exactly when its last component contains `x` and no earlier one holds a newline |
| RuleTests.DualStar | crates/datapath/src/index/rule.rs:240-252 | the `dual_star` test's eight results |
| RuleTests.SingleEnd | crates/datapath/src/index/rule.rs:254-261 | the `single_end` test's three results, from `AnyDepthSuffix` with empty `x` |
| RuleTests.UnderDirOn | crates/datapath/src/index/rule.rs:263-269 | `r/**` matches `a` exactly when `a` is `r`, and `a/b` exactly when `a` is `r` and `b` has no newline |
| RuleTests.DoubleStarEnd | crates/datapath/src/index/rule.rs:323-330 | `root/**` matches `root` and `root/file` but not `rootfile`, nor `dir/file` (test at rule.rs:263-269) |
| RuleTests.LastIs | crates/datapath/src/index/rule.rs:332-339 | `**x` and `**/x` match exactly the paths whose last component is `x` and whose other components hold no newline |
| RuleTests.DoubleStarNullablePre | crates/datapath/src/index/rule.rs:332-339 | the `doublestar_nullable_pre` test's three results |
| RuleTests.DoubleStarStart | crates/datapath/src/index/rule.rs:271-278 | the `doublestar_start` test's three results |
| RuleTests.DirDepthLast | crates/datapath/src/index/rule.rs:280-289 | `d/**x` and `d/**/x` match a path exactly when its first component is `d`, its last is `x`, there are at least two, and none between holds a newline |
| RuleTests.DoubleStarAdjacentBefore | crates/datapath/src/index/rule.rs:280-289 | the `doublestar_adjacent_before` test's five results |
| RuleTests.DoubleStarNullable | crates/datapath/src/index/rule.rs:314-321 | the `doublestar_nullable` test's three results |
| RuleTests.DirDepthSuffix | crates/datapath/src/index/rule.rs:385-393 | `d/**/*x` matches a path exactly when its first component is `d`, its last ends in `x`, there are at least two, and none between holds a newline |
| RuleTests.MultiSlashC | crates/datapath/src/index/rule.rs:385-393 | `///dir//**//*.txt//` compiles like `dir/**/*.txt`, so the `multi_slash_c` test's four results |
| RuleTests.UnderWord | crates/datapath/src/index/rule.rs:291-300 | `d/a**` matches a path exactly when its first two components are `d` and `a` and none after holds a newline |
| RuleTests.DoubleStarAdjacentAfter | crates/datapath/src/index/rule.rs:291-300 | the `doublestar_adjacent_after` test's five results |
| RuleTests.DoubleStarBadExtension | crates/datapath/src/index/rule.rs:341-352 | the `doublestar_bad_extension` test's seven results: `**.flac` matches `root/.flac` and `root/a/.flac` only, not `root/test.flac`, `test.flac`, `root/test/a/b/c.flac`, `root/testflac` or `test.mp3` |
| RuleTests.DoubleStarGoodExtension | crates/datapath/src/index/rule.rs:354-365 | the `doublestar_good_extension` test's seven results |
| RuleTests.MultiSlashB | crates/datapath/src/index/rule.rs:376-383 | `**///*.txt` compiles like `**/*.txt`, so the `multi_slash_b` test's three results |
| RuleTests.AdjacentMiddleProgram | crates/datapath/src/index/rule.rs:302-312 | `d/a**b` reduces to `d`, `a`, `**`, `b` |
| RuleTests.AdjacentMiddleOn | crates/datapath/src/index/rule.rs:302-312 | `d/a**b` matches no two-component path, and matches a three-component path exactly when it is `d/a/b` |
| RuleTests.DoubleStarAdjacentMiddle | crates/datapath/src/index/rule.rs:302-312 | the `doublestar_adjacent_middle` test's six results: `root/test**file` matches `root/test/file` and `root/test/a/b/c/file`, not `root/test`, `root/file`, `root/testfile` or `root/testxxfile` |
| PathSegments.Show | crates/datapath/src/index/mod.rs:19-26 | the `Display` of a segment; `ShowParse` and `ParseShow` prove that it and `Parse` undo each other |
| PathSegments.Parse | crates/datapath/src/index/mod.rs:28-48 | parsing fails exactly on empty text or text with a newline; a constant keeps the whole text |
| PathSegments.ShowParse | crates/datapath/src/index/mod.rs:19-47 | printing a parsed token gives the token back (the cut is at the first `=`), and what parses is well formed |
| PathSegments.ParseShow | crates/datapath/src/index/mod.rs:19-47 | a well-formed segment parses back from its printing |
| PathSegments.ParseInjective | crates/datapath/src/index/mod.rs:28-48 | different accepted tokens parse to different segments |
| PathSegments.Mask | crates/datapath/src/index/mod.rs:81-84 | masking keeps a constant a constant and keeps well-formedness |
| PathSegments.MaskIdempotent | crates/datapath/src/index/mod.rs:110-113 | masking twice is masking once, and a masked value prints as `key=*` |
| IndexKeys.TrimStart | crates/datapath/src/index/mod.rs:65 | the longest suffix not starting with a dropped character; everything cut was dropped |
| IndexKeys.TrimEnd | crates/datapath/src/index/mod.rs:65 | the longest prefix not ending with a dropped character; everything cut was dropped |
| IndexKeys.TrimBothPiece | crates/datapath/src/index/mod.rs:65 | trimming both ends yields a contiguous piece of the input, everything cut from either end is a dropped character, and a non-empty piece neither starts nor ends with one |
| IndexKeys.TrimEndDoubleStars | crates/datapath/src/index/mod.rs:65 | `trim_end_matches("**")` removes an even number of trailing stars and leaves no trailing `**` |
| IndexKeys.TrimmedUntouched | crates/datapath/src/index/mod.rs:65 | a query with no whitespace or slash at its ends and no star at its end is not trimmed |
| IndexKeys.Kept | crates/datapath/src/index/mod.rs:67-71 | the kept tokens are tokens of the input that parse |
| IndexKeys.Segments | crates/datapath/src/index/mod.rs:102-108 | no more segments than tokens, all well formed |
| IndexKeys.KeySegments | crates/datapath/src/index/mod.rs:67-79 | the key's segments are a prefix of all segments and hold no lone wildcard. When they are fewer, the next segment is a lone wildcard, so the key stops exactly at the first `*` or `**` token, and it is all of them when there is none |
| IndexKeys.SegmentsShow | crates/datapath/src/index/mod.rs:102-108 | printing the segments gives back exactly the tokens that parse |
| IndexKeys.SegmentsOfShown | crates/datapath/src/index/mod.rs:102-108 | parsing printed well-formed segments gives them back |
| IndexKeys.RenderSplit | crates/datapath/src/index/mod.rs:86 | splitting a rendered key at `/` gives back the printed segments |
| IndexKeys.SkeletonParts | crates/datapath/src/index/mod.rs:102-115 | a skeleton's segments are well formed, print without a slash, and are unchanged by masking again |
| IndexKeys.SkeletonIdempotent | crates/datapath/src/index/mod.rs:102-115 | the skeleton of a skeleton is itself |
| IndexKeys.RenderPrefix | crates/datapath/src/index/mod.rs:81-86 | rendering a prefix of the segments gives a prefix of the text |
| IndexKeys.QueryKeyPrefix | crates/datapath/src/index/mod.rs:64-87 | a query's key is a prefix of the skeleton of its trimmed text |
| IndexKeys.PlainQueryKey | crates/datapath/src/index/mod.rs:64-87 | for a star-free query with no whitespace or slash at its ends, the key is its skeleton |
| IndexKeys.MaskAndJoin | crates/datapath/src/index/mod.rs:81-86 | the masking pass and the join give the rendered masked segments |
| IndexKeys.Skeleton | crates/datapath/src/index/mod.rs:100-115 | the key a stored path is filed under; `SkeletonParts` and `SkeletonIdempotent` state its shape, and `SkeletonKey` is the loop that computes it |
| IndexKeys.QueryToKey | crates/datapath/src/index/mod.rs:64-87 | the trie search key of a query; `QueryKeyPrefix` and `PlainQueryKey` relate it to the skeleton, and `QueryKey` is the loop that computes it |
| IndexKeys.SkeletonKey | crates/datapath/src/index/mod.rs:100-115 | the per-path loop of `new` computes the skeleton |
| IndexKeys.KeyTokens | crates/datapath/src/index/mod.rs:67-79 | the `continue`/`break` loop collects the key's segments |
| IndexKeys.QueryKey | crates/datapath/src/index/mod.rs:64-87 | `query_to_key` computes the query's key |
| Index.NewEmpty | crates/datapath/src/index/mod.rs:89-94 | the empty index is valid, counts nothing and has only empty buckets |
| Index.Insert | crates/datapath/src/index/mod.rs:117-118 | filing a path appends it to its skeleton's bucket only, adds that skeleton, counts one more and keeps validity |
| Index.Build | crates/datapath/src/index/mod.rs:96-130 | the built index is valid and counts every given path |
| Index.New | crates/datapath/src/index/mod.rs:96-130 | the builder loop builds `Build(paths)` |
| Index.Len | crates/datapath/src/index/mod.rs:170-173 | the stored count; `BuildLen` and `BucketsSum` prove it counts the given paths |
| Index.IsEmpty | crates/datapath/src/index/mod.rs:175-177 | `len() == 0`; `BuildLen` proves it holds exactly when no path was given |
| Index.BuildLen | crates/datapath/src/index/mod.rs:170-177 | `len` is the number of given paths, and `is_empty` holds exactly when none was given |
| Index.BuildBuckets | crates/datapath/src/index/mod.rs:100-119 | each bucket holds the paths of its skeleton in input order, and a skeleton is present exactly when some path has it |
| Index.FiledCount | crates/datapath/src/index/mod.rs:117 | a path is filed under its skeleton as often as given, and under no other key |
| Index.Partition | crates/datapath/src/index/mod.rs:117 | a path sits in exactly one bucket, its skeleton's, and only if it was given |
| Index.AllListed | crates/datapath/src/index/mod.rs:117 | the buckets together hold each path as often as it was given |
| Index.BucketsSum | crates/datapath/src/index/mod.rs:117-118 | together the buckets hold exactly the given paths, so their lengths add up to `len` |
| Index.MatchingCount | crates/datapath/src/index/mod.rs:194 | the filter keeps every copy of a matched path and drops every unmatched one |
| Index.CandidatesCount | crates/datapath/src/index/mod.rs:191-193 | the prefix search visits a path's copies exactly when the key is a prefix of its bucket's skeleton |
| Index.Query | crates/datapath/src/index/mod.rs:184-197 | a query fails exactly when the pattern holds `***` |
| Index.QueryResults | crates/datapath/src/index/mod.rs:184-197 | a query returns each stored path as often as stored when its skeleton starts with the key and the rule matches it, and otherwise not at all |
| Index.QueryRule | crates/datapath/src/index/mod.rs:198-208 | `query_rule` with a compiled rule returns what `query` returns for its pattern |
| Index.AnyMatch | crates/datapath/src/index/mod.rs:218-226 | the nested loops with early return answer whether the search finds anything |
| Index.FirstMatch | crates/datapath/src/index/mod.rs:219-223 | the inner loop over one bucket stops at the first string the rule matches, no earlier string matching, and otherwise reports that none in the bucket matches |
| Index.QueryRuleMatch | crates/datapath/src/index/mod.rs:229-243 | `query_rule_match` holds exactly when `query_rule` is non-empty |
| Index.QueryMatch | crates/datapath/src/index/mod.rs:211-227 | `query_match` fails exactly when `query` fails, and is true exactly when `query` is non-empty |
| Index.EmptyQuery | crates/datapath/src/index/mod.rs:253-260 | the empty index is empty and answers every valid query with nothing |
| CompleteKeys.LiteralTokens | crates/datapath/src/index/mod.rs:67-79 | the tokens before the first token holding any star, all star-free |
| CompleteKeys.CompleteQuery | crates/datapath/src/index/mod.rs:184-197 | the corrected query fails exactly when `query` does |
| CompleteKeys.LexLiteral | crates/datapath/src/index/rule.rs:83-111 | the pieces of a pattern start with its non-empty star-free tokens, and are exactly them for a star-free pattern |
| CompleteKeys.LiteralProgram | crates/datapath/src/index/rule.rs:113-145 | a compiled pattern's segments start with one literal `Single` per such token |
| CompleteKeys.LiteralKeyComplete | crates/datapath/src/index/mod.rs:64-87 | the literal key is a prefix of the skeleton of every path the rule matches |
| CompleteKeys.CompleteQueryResults | crates/datapath/src/index/mod.rs:179-197 | with the literal key a query returns every stored path its rule matches, as often as stored, and nothing else |
| CompleteKeys.DroppedMatch | crates/datapath/src/index/mod.rs:74 | `root/test**file` matches the stored `root/test/file`, but `query` does not return it, while the corrected query does |
| CompleteKeys.ExactProgram | crates/datapath/src/index/rule.rs:83-145 | a star-free pattern with no empty token compiles to one literal segment per token |
| CompleteKeys.ExactLookup | crates/datapath/src/index/mod.rs:262-280 | a stored star-free path, queried by itself, comes back as often as stored |
| Wildcard.Default | crates/datapath/src/wildcardable.rs:9-14 | the default is `Star` |
| Wildcard.Inner | crates/datapath/src/wildcardable.rs:22-34 | `inner` and `into_inner` give `None` exactly for `Star`, and `Some(x)` for `Value(x)` |
| Wildcard.FromValue | crates/datapath/src/wildcardable.rs:67-71 | the conversion from a value gives back that value through `inner` |
| Wildcard.InnerFromValue | crates/datapath/src/wildcardable.rs:73-77 | converting to `Option` loses nothing: an explicit value rebuilds the wrapper, and `None` only comes from the default |
| Wildcard.Show | crates/datapath/src/wildcardable.rs:48-55 | `Star` prints as `*` |
| Wildcard.Parse | crates/datapath/src/wildcardable.rs:57-65 | `*` parses as `Star`; other text parses as the value type's parse, and fails exactly when that fails |
| Wildcard.ParseShowStar | crates/datapath/src/wildcardable.rs:48-65 | a printed `Star` parses back as `Star` |
| Wildcard.ParseShowValue | crates/datapath/src/wildcardable.rs:48-65 | a printed value parses back as itself when the value type round-trips and does not print as `*` |
| Wildcard.StarLookalike | crates/datapath/src/wildcardable.rs:48-65 | a value printing as `*` parses back as `Star`: the printed forms do not tell them apart |
| Wildcard.ShowParse | crates/datapath/src/wildcardable.rs:48-65 | printing what was parsed gives the text back, when the value type prints what it parsed as that text |

## Left out

- `async_new` (index/mod.rs:132-167) reads its paths from a tokio channel. Its body is the same as `new`, which is modelled.
- The `trie_rs` trie is modelled by the list of distinct skeletons in first-seen order, plus a map to the buckets. The source visits buckets in the trie's order after a `HashMap` pass, and no caller may rely on that order. So the results of a query are stated per path, as counts, and their order across buckets is not modelled.
- `query` and `query_rule` return lazy iterators. The model returns the finished sequence.
- The `regex` crate is not modelled as an engine:
  - `find_iter` on `[*]{2,}|[/]` is modelled by the scan in `Tokenize`.
  - `Regex::new` on the built text is taken to succeed, as the source's `unwrap` assumes.
  - `is_match` is the language of the fragment of regular-expression syntax the compiler emits, under the crate's default flags.
- The `unreachable!` panic for adjacent double stars (rule.rs:46-50) is a precondition of `Part`. `Reduced` proves it always holds.
- The `warn!` and `trace!` logging calls are left out.
- `len` is an unbounded natural number. The overflow of `usize` is not modelled.
- The derived `Debug`, `Hash`, `PartialEq`, `Clone` and `Copy` impls are left out. Datatypes are values in Dafny, so a clone is the value itself.
- `Display` and `FromStr` of the partition value type are parameters of `Wildcard.Show` and `Wildcard.Parse`.
- `Wildcard.Show`: its contract states only the `Star` case. The `Value` case is the value type's own printing, a parameter, so it is stated only through the round-trip lemmas.
- `char::is_whitespace` is the fixed list of Unicode `White_Space` characters.
- Most concrete index tests (index/mod.rs:282-427) are not restated one by one. They are covered by `Index.QueryResults`, and the exact lookups by `CompleteKeys.ExactLookup`.
- crates/datapath-macro/src/lib.rs, datapath.rs, schema.rs, lib.rs and datapathfile.rs are not part of this model.

## Findings

| source | as written | input that shows it | evidently intended | confidence | as-written member | corrected member |
|---|---|---|---|---|---|---|
| crates/datapath/src/index/mod.rs:74 | `query_to_key` stops the key only at a token that is exactly `*` or `**`. A token such as `test**file` or `*.json` stays in the key, although the rule lets it match other text, even several components. The prefix search then skips buckets that hold matches. | query `root/test**file` over the stored path `root/test/file`: the rule matches, the key is `root/test**file`, the skeleton is `root/test/file`, and `query` returns nothing | `query` returns every stored path its rule matches (doc comment at mod.rs:179-183). This needs a key cut before the first token holding any star. The key must also be taken from the query text the rule is compiled from, because a single star matches a newline, which the skeleton drops, and because the rule keeps leading whitespace that the key trims. | not executed | CompleteKeys.DroppedMatch | CompleteKeys.CompleteQueryResults |
