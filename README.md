# ki1r0y.simple-search: a verified model of the index engine

This project models the indexing and query engine of `ki1r0y.simple-search`
(`index.js`). The engine associates opaque tags with the words of free text.
For a query, it answers the tags cited by the query's words, best match first.
The data lives in a storage collaborator, keyed by upper-cased word. An
optional liveness oracle (`idtagExists`) lets a query prune citations of tags
that no longer exist.

The model has six modules:

- `Tokenizer` (tokenizer.dfy): `text.split(/\W/)` as `Split`, and `toUpperCase` as `Upper`.
  It proves that `Split` and `Join` are inverse to each other, and that
  splitting commutes with upper-casing.
- `Citations` (citations.dfy): the storage contents as a `map<string, seq<Tag>>`, and the two
  decision functions handed to storage (`CiteDecision` for `addCitation`,
  `ValidateDecision` for `citationsOf`). It also has their folds over a token
  sequence (`CiteAll`, `ValidateAll`), with a key-by-key closed form of each.
- `Ranking` (ranking.dfy): the score map, `Object.keys`, and the best-first sort.
- `SimpleSearch` (index.dfy): class `Index`. The field `store` holds the storage
  contents and the field `tagExists` the oracle. Its methods are `Configure`,
  `Storage` (the fetch-decide-commit cycle), `AddCitation`, `AddCitations`,
  `CitationsOf` and `FindIdtags`. Each one is proved against the functions of
  `Citations` and `Ranking`.
- `SeenLookup` (findings.dfy): the duplicate-word check of `addCitations` exactly as written (see Findings).
- `Scenario` (scenario.dfy): the test suite's sequence of citations and queries, run as a client of
  `Index` (`ReferenceRun`), with the answers the suite expects proved.

The storage collaborator must make each fetch-decide-commit cycle atomic per
key. Under that contract, the per-word operations of one call have the effect
of running them one after another, so the model runs them in token order.
Score accumulation commutes, so the order does not change the score map.
Reading the same key twice in one query also gives the same validated list,
because validation is idempotent (`Citations.ValidateAllKeepsValidLists`).

The tokenizer cuts at every single non-word character, not at runs of them, so
consecutive separators give empty tokens. Those tokens are skipped when citing and
read the empty key `""` when querying.

Where the code and its doc comments differ, the model follows the code:

- The oracle is called with a one-argument boolean callback. The doc comment
  at index.js:16 describes `cb(null, false)` instead.

## Model

| member | source | states |
|---|---|---|
| Tokenizer.Split | index.js:68 | there is at least one token, and every token consists of word characters only (`[A-Za-z0-9_]`) |
| Tokenizer.SplitCount | index.js:68 | there is exactly one more token than there are separator characters, so runs of separators give empty tokens |
| Tokenizer.SplitJoin | index.js:68 | gluing the tokens back together with the separators gives the original text |
| Tokenizer.JoinSplit | index.js:116 | word tokens glued with non-word separators split back into exactly those tokens and separators (the converse round trip) |
| Tokenizer.SplitWord | index.js:68 | a text made only of word characters is one token |
| Tokenizer.SplitCons | index.js:68 | a word followed by a separator and a rest splits into that word, then the tokens of the rest |
| Tokenizer.UpperAt | index.js:49 | upper-casing a key works character by character |
| Tokenizer.UpperIdempotent | index.js:75 | upper-casing a key a second time changes nothing |
| Tokenizer.SplitUpper | index.js:49 | splitting an upper-cased text gives the upper-cased tokens of the text |
| Tokenizer.SameKeysUpToCase | index.js:75 | two texts equal up to case give the same storage keys, token by token |
| Citations.CiteDecision | index.js:49-53 | no write exactly when the tag is already listed; otherwise the write appends the tag; afterwards the tag occurs once, other tags keep their counts, and the write is never an empty list |
| Citations.CiteListed | index.js:48-50 | an empty word, or a tag already listed, leaves the store unchanged |
| Citations.CiteAllClosedForm | index.js:57-69 | after citing a tag against a token sequence, each reached key (non-empty token, upper-cased) that lacked the tag has it appended; every other key is unchanged; the key set grows by the reached keys only |
| Citations.CiteAllCovers | index.js:59-68 | every non-empty token's key lists the tag afterwards |
| Citations.CiteAllKeeps | index.js:50-52 | citation only appends: no tag already listed under a key is ever removed |
| Citations.CiteAllIdempotent | index.js:47-54 | citing the same tag against the same tokens twice has the effect of citing once |
| Citations.CiteAllWellFormed | index.js:50-52 | if no list holds a tag twice before, none does after |
| Citations.CiteAllNoEmptyEntries | index.js:50-52 | a key holding an empty list afterwards held that same empty list before: citation creates no empty entries |
| Citations.CiteAllCaseInsensitive | index.js:49 | citing a tag against two texts equal up to case has the same effect |
| Citations.CitedKeysByUpper | index.js:49 | the keys reached depend only on the upper-cased tokens |
| Citations.Filter | index.js:79 | the filtered list is an order-preserving subsequence of the original that keeps every copy of each live tag and no copy of a dead one, so it holds exactly the live tags and is no longer than the original |
| Citations.FilterKeepsAll | index.js:80-81 | a filtered list as long as the original is the original |
| Citations.FilterIdempotent | index.js:79 | filtering a filtered list removes nothing more |
| Citations.ValidateDecision | index.js:75-86 | the result is always the validated list; a write is made exactly when an oracle is configured and it removed a tag, and it writes the validated list; a write never replaces an empty list; duplicate-freedom is kept |
| Citations.ValidListIdempotent | index.js:79 | validating a validated list changes nothing |
| Citations.ValidateAllClosedForm | index.js:74-87 | after the reads of a query, each queried key holds its validated list and every other key is unchanged; no key is created; so a pruned tag stays pruned |
| Citations.ValidateAllKeepsValidLists | index.js:96-98 | earlier reads in the same query do not change what a later read of any key returns |
| Citations.ValidateAllWithoutOracle | index.js:78 | without an oracle, reads never change the store |
| Citations.ValidateAllWellFormed | index.js:83 | pruning keeps every list free of duplicates |
| Citations.ValidatedNoDup | index.js:74-87 | over a duplicate-free store, every list a query reads is duplicate-free |
| Citations.ValidateAt | index.js:74-87 | one `citationsOf` leaves its key holding the validated list and changes no other key, creating none |
| Citations.ValidatedCaseInsensitive | index.js:75 | two queries equal up to case give the same validated lists and the same store afterwards |
| Ranking.ScoreSnoc | index.js:102-104 | one more list adds its occurrences of the tag to the tag's score |
| Ranking.ScoreIsHits | index.js:102-104 | with duplicate-free lists, a tag's score is the number of query tokens whose validated list contains it (repeated tokens count again) |
| Ranking.ScorePositive | index.js:103 | a tag has a positive score exactly when some token's list contains it |
| Ranking.Tally | index.js:102-104 | each entry of the map grows by the tag's number of occurrences in the list, and exactly the listed tags gain an entry |
| Ranking.TallyExtends | index.js:96-105 | tallying the next token's list turns the score map of the earlier tokens into that of one more token |
| Ranking.KeysOf | index.js:112 | the keys of the score map, each exactly once |
| Ranking.InsertByScore | index.js:113 | inserting into a best-first list keeps it best first and adds exactly that tag |
| Ranking.ConsNonIncreasing | index.js:113 | a tag scoring at least as much as every tag of a best-first list can go in front of it |
| Ranking.SortByScore | index.js:113 | the result is a permutation of the keys, ordered by non-increasing score |
| Ranking.PermutationNoDup | index.js:112-113 | the sorted keys have no duplicates and the same elements as the keys |
| Ranking.RankingOfNothing | index.js:109-114 | a query none of whose tokens has citations answers the empty list |
| SimpleSearch.Index.constructor | index.js:41-43 | the index starts with the given storage contents and oracle |
| SimpleSearch.Index.Configure | index.js:43 | the whole configuration is replaced: storage contents and oracle |
| SimpleSearch.Index.Storage | index.js:24-33 | fetch the key's list (empty if unknown), persist the replacement the decision asks for, if any, and return its result; nothing else changes |
| SimpleSearch.Index.AddCitation | index.js:47-54 | an empty word changes nothing; otherwise the tag is listed under the upper-cased word afterwards; an already listed tag means no change; a new one is appended and no other key changes; duplicate-freedom is kept |
| SimpleSearch.Index.AddCitations | index.js:57-69 | an empty text changes nothing; the store becomes that of citing every token in turn, although raw tokens seen earlier in the call are skipped; every non-empty token's key lists the tag; duplicate-freedom is kept |
| SimpleSearch.Index.CitationsOf | index.js:74-87 | returns the word's validated list; the store becomes that of the decision's commit; without an oracle, or for an empty list, the store is unchanged; a write happens only if the list got shorter |
| SimpleSearch.Index.FindIdtags | index.js:94-117 | returns each tag with a positive score exactly once and no other, ordered by non-increasing score over the validated lists of all query tokens (not deduplicated); over a duplicate-free store a tag's score is the number of query tokens whose validated list holds it; the store afterwards is the pruned one |
| SeenLookup.AsWrittenMissesInherited | index.js:59-66 | as written, a text that is one inherited property name leaves any store untouched, while the corrected loop lists the tag under that name's key |
| SeenLookup.AsWrittenMissesConstructor | index.js:59-66 | as written, the text "constructor" leaves an empty store untouched, while the corrected loop lists the tag under CONSTRUCTOR |
| SeenLookup.AsWrittenSkipsInherited | index.js:61 | as written, a token spelled like an inherited property of `{}` is skipped whatever the store and whatever was seen |
| Scenario.RunStoreAt | test/test.js:39-50 | after the suite's four citation calls, BAR lists tag1 then tag2, RED lists tag2, and BLUE, NOT and PRESENT list nothing |
| Scenario.TestSuiteTexts | test/test.js:40-88 | the texts the run cites and queries are the suite's own strings, such as "foo bar baz" and "not present" |
| Scenario.QueryRedBar | test/test.js:51-58 | "red bar" answers tag2 (score 2), then tag1 (score 1) |
| Scenario.QueryBarRedUpper | test/test.js:59-66 | "BAR RED" answers the same |
| Scenario.QueryNotPresent | test/test.js:67-73 | "not present" answers the empty list |
| Scenario.QueryRedBlue | test/test.js:74-80 | "red blue" answers tag2 alone |
| Scenario.QueryBarPruned | test/test.js:85-93 | with tag2 reported dead, "bar" answers tag1 alone, and the store then lists only tag1 under BAR |

`Scenario.ReferenceRun` drives those queries through the methods of
`SimpleSearch.Index`, as the test suite does. It asserts each expected answer
and has no contract of its own. `SeenLookup.CiteTokensAsWritten` is the loop of
`addCitations` as the source writes it. The spec functions `Cite`, `CiteAll`,
`Validate`, `ValidateAll`, `Validated`, `Score` and `Hits` carry no `ensures`.
The lemmas above describe them.

## Left out

- Concurrency: `async.eachLimit` with its limit of 50 in-flight words, the concurrent `async.filter` oracle calls, `setImmediate`. Per-key atomicity of storage makes the sequential order used here equivalent.
- Storage errors and their propagation: `async.eachLimit` stops scheduling words after the first error and `findIdtags` hands that error to its callback. Storage is infallible in the model.
- Callback plumbing: `writerFunction`, `optionalCallback`, continuation passing. A decision is modelled as a `Decision` value, and `Storage` commits it.
- The test suite's in-memory storage with its `locked` busy-wait. Only its no-new-empty-entry check is kept, as the predicate `AcceptableWrite`.
- The scale test with 10,000 tags: that is about performance.
- Unicode: `\W` is exactly the ASCII class `[^A-Za-z0-9_]` in JavaScript without the `u` flag. Tokens therefore contain only ASCII characters, and ASCII upper-casing is exact for every storage key the core builds. JavaScript splits UTF-16 code units, while a character of the model is a whole code point: a character outside the Basic Multilingual Plane is two separators in JavaScript and one here, so JavaScript yields one more empty token. That changes no answer: an empty token is never cited, so the core never stores a list under the empty key `""`, and in a store the core built an extra read of that key finds nothing to score.
- Ranking.KeysOf: `Object.keys` enumeration order (integer-like keys first) is not modelled. Keys come out in an unspecified order.
- Ranking.SortByScore: the tie-break of `Array.prototype.sort` is not modelled. Only permutation and non-increasing score are claimed.
- Ranking.Tally: `answers` is treated as a true dictionary, where every tag starts from 0. In the source, a tag spelled like an inherited `Object.prototype` property (for example `constructor`) would start from that inherited value instead. Tags are opaque identifiers, so this is not modelled.
- The oracle is a pure predicate, fixed while a query runs. A collaborator whose answers change mid-query is not modelled.
- Texts are strings. For `addCitations`, a falsy `text` (`undefined`, `null`) returns early (index.js:58), exactly as the empty string does in the model.
- `findIdtags` with a non-string `text` (`undefined`, `null`) throws a `TypeError` at `text.split` (index.js:116) and never calls back. Texts of the model are always strings, so that thrown error is not modelled.

## Findings

| source | as written | input that shows it | evidently intended | confidence | as-written member | corrected member |
|---|---|---|---|---|---|---|
| index.js:59-66 | `seen` is `{}` and a token counts as seen when `seen[word]` is truthy. Inherited `Object.prototype` properties make that true for tokens like `constructor`, `toString`, `valueOf`, `__proto__` | `addCitations('tag1', "constructor")` then `findIdtags("constructor")` | every distinct non-empty token is cited once, so that query answers `tag1` | not executed | SeenLookup.AsWrittenMissesConstructor | SimpleSearch.Index.AddCitations |

The as-written loop is `SeenLookup.CiteTokensAsWritten`. The corrected loop in
`Index.AddCitations` keeps `seen` as a set, and its coverage is proved
(`Citations.CiteAllCovers`).
