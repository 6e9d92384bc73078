# Course search: query repair and substring ranking

This project models the search core of a course-finder web application. The
model covers two independent parts.

- **Query repair** (`src/util/relevancyAlgorithm.ts`). Each word of the
  trimmed, space-split query is compared with a word set by the tiered score
  `getMatchingScore`:
  - 0 for an empty word;
  - 3 for equal words;
  - `2 + |q|/|t|` for a strict prefix;
  - `1 + |q|/|t|` for a containment elsewhere;
  - `1 - editDistance/|t|` otherwise.

  `getMatches` scores every word of the set, sorts the results stably by
  score (highest first) and pushes them into four buckets: perfect, prefix,
  substring and close. A query word at position `i` with no perfect match is
  replaced by `prefixMatches[0]` if there is one, else by
  `substringMatches[i]` if the substring bucket is non-empty (a `TypeError`
  when that entry is missing), else by `closeMatches[0]`; with every bucket
  empty the word is kept. The words are then joined with commas.
- **Substring ranking** (`src/util/v1.ts`, copied verbatim into
  `src/App.tsx`). `count` counts the non-overlapping, case-insensitive,
  literal occurrences of the query. `getScore` gives 100 when the name
  mentions the query, plus the counts in the description and the title.
  `algorithm` sorts the courses stably by score, drops zero scores and keeps
  the first ten. The `App` component ranks only a non-empty query.

The modules, in dependency order:

- `Strings`: `trim`, `split(' ')`, the comma join of `toString`, ASCII
  lower-casing, `includes`/`startsWith`.
- `Occurrences`: `count`, written once for its three identical copies.
- `Levenshtein`: the classic recursive edit distance.
- `Sorting`: `filter`, a stable insertion sort into non-increasing score
  order (`sort((a, b) => b.score - a.score)`, stable since ECMAScript 2019),
  `map` and `splice(0, n)`.
- `Relevancy`: `getMatchingScore` and `getMatches`. `getMatches` is a method
  whose loop pushes onto the four buckets.
- `Repair`: the replacement loop. It is a method overwriting an array of
  words in place, specified by functions over sequences.
- `V1`: `getScore` and `algorithm`.
- `App`: the empty-query guard.

Modelling choices:

- A JavaScript `Set<string>` is a sequence of distinct words in insertion
  order. That order decides ties in the stable sort.
- Scores are exact `real`s (see "## Left out").
- The `TypeError` the loop throws is an `Err` result.

The query is split on single spaces (`split(' ')`), not on any whitespace, so
two spaces in a row give an empty word.

The documentation comment of `getMatchingScore`
(`src/util/relevancyAlgorithm.ts:210`) gives `[0, 1)` for the fuzzy tier. The
code goes below 0 when the query is longer than its target:
`Relevancy.FuzzyScoreBelowZero` shows this for "xxx" against "a".

## Model

| member | source | states |
|---|---|---|
| Strings.Trim | src/util/relevancyAlgorithm.ts:29 | the trimmed query is the middle slice of the query, starting and ending with a non-space, with only whitespace cut off on either side |
| Strings.Split | src/util/relevancyAlgorithm.ts:29 | splitting yields at least one piece and no piece contains the separator |
| Strings.JoinSplit | src/util/relevancyAlgorithm.ts:29 | joining the pieces of a split with the separator gives the split string back |
| Strings.SplitJoin | src/util/relevancyAlgorithm.ts:100 | splitting the comma join of words without commas gives the words back |
| Strings.LowerChar | src/util/v1.ts:46 | case folding maps `A`–`Z` to `a`–`z` and leaves every other character alone |
| Occurrences.Scan | src/util/v1.ts:46 | the matches of a global literal search lie inside the text and never overlap |
| Occurrences.ScanHits | src/util/v1.ts:46 | every reported match is an occurrence of the needle |
| Occurrences.ScanFirst | src/util/v1.ts:46 | the first match is the leftmost occurrence |
| Occurrences.ScanGaps | src/util/v1.ts:46 | each next match is the leftmost occurrence after the end of the previous one |
| Occurrences.ScanLast | src/util/v1.ts:46 | no occurrence starts after the end of the last match |
| Occurrences.ScanFindsIffOccurs | src/util/v1.ts:46 | some match is found exactly when the needle occurs |
| Occurrences.ScanBound | src/util/v1.ts:46 | the matches times the needle length fit into the text |
| Occurrences.Count | src/util/v1.ts:37-47 | an empty needle gives `|main| + 1`; otherwise `count * |needle| <= |main|`, and the count is positive exactly when the needle occurs, ignoring case (the copies at src/util/relevancyAlgorithm.ts:241-251 and src/App.tsx:48-58 are identical) |
| Occurrences.CountIgnoresCase | src/util/v1.ts:46 | lower-casing both arguments first leaves the count unchanged |
| Levenshtein.EditDistanceZeroIff | src/util/relevancyAlgorithm.ts:231 | the edit distance is zero exactly for equal strings |
| Levenshtein.EditDistanceAtMostLonger | src/util/relevancyAlgorithm.ts:231 | the edit distance never exceeds the length of the longer string |
| Levenshtein.EditDistanceAtLeastLengthGap | src/util/relevancyAlgorithm.ts:231 | the edit distance is at least the difference in length |
| Relevancy.MatchingScore | src/util/relevancyAlgorithm.ts:216-232 | an empty word scores 0; the score is 3 exactly for equal non-empty words; the tier the score falls in is exactly the textual relation of the words (equal, strict prefix, contained elsewhere, other); the score never exceeds 3 |
| Relevancy.PrefixScore | src/util/relevancyAlgorithm.ts:223-225 | a strict extension of the query scores `2 + |q|/|t|`, strictly between 2 and 3 |
| Relevancy.SubstringScore | src/util/relevancyAlgorithm.ts:227-229 | a word containing the query elsewhere than at its start scores `1 + |q|/|t|`, strictly between 1 and 2 |
| Relevancy.FuzzyScore | src/util/relevancyAlgorithm.ts:231 | the fuzzy score is below 1, and not negative when the query is not longer than the target |
| Relevancy.FuzzyScoreBelowZero | src/util/relevancyAlgorithm.ts:210 | the documented `[0, 1)` range fails: "xxx" against "a" scores at most -1 |
| Relevancy.SameTierScoresByLength | src/util/relevancyAlgorithm.ts:223-229 | within the prefix tier or the substring tier, the shorter word scores higher and equal lengths score the same |
| Relevancy.ScoreAllAt | src/util/relevancyAlgorithm.ts:171-175 | the `i`-th result pairs the `i`-th word of the set with its matching score |
| Relevancy.ScoreAllMembers | src/util/relevancyAlgorithm.ts:171-175 | a pair is among the results exactly when its word is in the set and it carries that word's score |
| Relevancy.RankedFacts | src/util/relevancyAlgorithm.ts:176-178 | the sorted results are in non-increasing score order and are a permutation of the scored words |
| Relevancy.GetMatches | src/util/relevancyAlgorithm.ts:170-203 | the loop leaves in each of the four arrays exactly the sorted results whose score selects that bucket, in sorted order |
| Relevancy.MatchesInMembers | src/util/relevancyAlgorithm.ts:185-195 | a pair is in bucket `b` exactly when its word is in the set, it carries its own score and the word relates to the query as `b` |
| Relevancy.MatchesInOrdered | src/util/relevancyAlgorithm.ts:176-195 | every bucket is in non-increasing score order |
| Relevancy.BucketsPartition | src/util/relevancyAlgorithm.ts:180-195 | the four buckets together hold every scored word of the set exactly once |
| Relevancy.PerfectMatches | src/util/relevancyAlgorithm.ts:186-187 | `perfectMatches` is `[query]` when the query is a non-empty word of the set, and empty otherwise |
| Relevancy.RankedScores | src/util/relevancyAlgorithm.ts:171-178 | every sorted entry is a word of the set with its own score |
| Relevancy.TopRankedHeadsItsBucket | src/util/relevancyAlgorithm.ts:176-195 | the best-scoring word heads its bucket and every higher bucket is empty |
| Relevancy.BucketHeadIsShortest | src/util/relevancyAlgorithm.ts:176-191 | the head of the prefix (or substring) bucket is the shortest word of that kind in the set, the earliest in set order among equally short ones |
| Relevancy.BucketSize | src/util/relevancyAlgorithm.ts:185-195 | bucket `b` holds one entry per word of the set in relation `b` to the query |
| Repair.RepairQuery | src/util/relevancyAlgorithm.ts:29-100 | the new query is the repaired words joined with commas, or the error the loop throws |
| Repair.RepairWords | src/util/relevancyAlgorithm.ts:41-63 | the in-place loop over the words yields each word's replacement, or stops with the first error |
| Repair.RepairWord | src/util/relevancyAlgorithm.ts:42-62 | the loop body keeps a word with a perfect match and otherwise takes `prefixMatches[0]`, `substringMatches[i]` (an error when absent) or `closeMatches[0]` |
| Repair.CollectErrorPersists | src/util/relevancyAlgorithm.ts:41-63 | once a word throws, the outcome of the loop is that error whatever follows |
| Repair.CollectPointwise | src/util/relevancyAlgorithm.ts:41-63 | the loop succeeds exactly when no word throws, and then each word is replaced independently of the others |
| Repair.CollectFirstError | src/util/relevancyAlgorithm.ts:41-63 | when some word throws, the loop's error is that of the first such word |
| Repair.RepairWordsPointwise | src/util/relevancyAlgorithm.ts:41-63 | the loop succeeds exactly when no word throws; it keeps the number of words, and every new word is in the set (or is the old word when the set is empty) |
| Repair.ReplaceWordKeepsKnownWord | src/util/relevancyAlgorithm.ts:48 | a non-empty word of the set is left unchanged |
| Repair.ReplaceWordInWordSet | src/util/relevancyAlgorithm.ts:53-61 | with an empty set the word is kept; otherwise every replacement is a word of the set |
| Repair.ReplaceWordFailsIff | src/util/relevancyAlgorithm.ts:55-56 | the word at position `i` throws exactly when no word of the set equals or extends it and at least one but at most `i` words contain it elsewhere |
| Repair.ReplaceWordSubstringTier | src/util/relevancyAlgorithm.ts:55-56 | with more substring matches than the position, the replacement is a word of the set containing the query word elsewhere |
| Repair.ReplaceWordShortestExtension | src/util/relevancyAlgorithm.ts:53-54 | with prefix matches, the replacement is the shortest strict extension in the set, the earliest among equally short ones |
| Repair.IntendedIsTopRanked | src/util/relevancyAlgorithm.ts:53-61 | with index 0 in the substring branch, the replacement is the best-scoring word of the set (the word itself for an empty set) |
| Repair.AsWrittenAgreesOutsideSubstringTier | src/util/relevancyAlgorithm.ts:53-61 | the loop as written and with index 0 differ only in the substring tier at a position other than the first |
| Repair.ExampleThrows | src/util/relevancyAlgorithm.ts:56 | "c" at position 1 reads past the one-entry substring bucket and throws |
| Repair.SubstringIndexCounterexample | src/util/relevancyAlgorithm.ts:56 | the query "ab c" against {"ab", "xc"} throws at position 1 |
| Repair.ExampleIntendedReplaces | src/util/relevancyAlgorithm.ts:56 | with index 0, "c" becomes "xc" |
| Repair.SubstringIndexIntended | src/util/relevancyAlgorithm.ts:56 | with index 0 the same query becomes "ab,xc" |
| Sorting.FilterMembers | src/util/v1.ts:12-14 | every kept element comes from the input and satisfies the condition |
| Sorting.FilterKeeps | src/util/v1.ts:12-14 | every element satisfying the condition is kept |
| Sorting.FilterAppend | src/util/relevancyAlgorithm.ts:185-195 | pushing one more element extends the filtered sequence by that element exactly when it passes |
| Sorting.FilterPrefix | src/util/v1.ts:16 | filtering a prefix gives a prefix of the filtered sequence |
| Sorting.FilterNonIncreasing | src/util/v1.ts:12-14 | filtering keeps a non-increasing order |
| Sorting.FilterSameMultiset | src/util/v1.ts:10-14 | filtering two orderings of the same elements keeps the same elements |
| Sorting.SortDescOrders | src/util/v1.ts:10-12 | the sort yields non-increasing scores |
| Sorting.SortDescPermutes | src/util/v1.ts:10-12 | the sort is a permutation of its input |
| Sorting.SortDescStable | src/util/relevancyAlgorithm.ts:176-178 | for every score, the elements having it keep their relative order |
| Sorting.Take | src/util/v1.ts:16 | `splice(0, n)` keeps the first `n` elements, or all of them when there are fewer |
| V1.GetScore | src/util/v1.ts:25-34 | a name mentioning the query earns at least 100; an empty query scores `100 + |description| + |title| + 2`; a non-empty query scores 0 exactly when it occurs, ignoring case, in no field (identical copy at src/App.tsx:36-45) |
| V1.ScoreCoursesAt | src/util/v1.ts:5-9 | the `i`-th scored entry pairs the `i`-th course with its score |
| V1.RankingEntries | src/util/v1.ts:5-15 | every ranked entry is a course of the corpus with its own positive score |
| V1.RankingOrdered | src/util/v1.ts:10-14 | the ranking is in non-increasing score order |
| V1.ScoredWithScore | src/util/v1.ts:5-9 | among the scored courses, those of one score are in corpus order |
| V1.ScoredNonzero | src/util/v1.ts:5-14 | there are as many nonzero scored entries as relevant courses |
| V1.RankingStable | src/util/v1.ts:5-15 | the ranked courses of one positive score are all the corpus's courses of that score, in corpus order |
| V1.RankingSize | src/util/v1.ts:5-15 | the ranking has one entry per relevant course |
| V1.ItemsWithScore | src/util/v1.ts:14-15 | in a ranking whose entries carry their own scores, the courses of one score are the entries of that score |
| V1.Algorithm | src/util/v1.ts:16 | `algorithm` returns at most ten courses |
| V1.AlgorithmSize | src/util/v1.ts:3-17 | `algorithm` returns `min(10, n)` courses, where `n` is the number of courses with a nonzero score (identical copy at src/App.tsx:14-32) |
| V1.AlgorithmRelevant | src/util/v1.ts:12-14 | every returned course is from the corpus and has a nonzero score |
| V1.AlgorithmOrdered | src/util/v1.ts:10-12 | the returned courses are best first |
| V1.AlgorithmStable | src/util/v1.ts:5-16 | for every score, the returned courses having it are the first courses of the corpus having it, in corpus order |
| V1.RankingComplete | src/util/v1.ts:5-15 | every relevant course of the corpus has an entry in the ranking |
| V1.AlgorithmKeepsBest | src/util/v1.ts:3-17 | the returned courses are the best: a relevant course of the corpus that is not returned scores no higher than the last one returned, and a relevant course is left out only when ten come back |
| V1.EmptyQueryRanksAll | src/util/v1.ts:41-43 | an empty query makes every course relevant, so `min(10, |corpus|)` courses come back |
| App.SearchResults | src/App.tsx:74 | at most ten courses are shown |
| App.SearchResultsEmptyIff | src/App.tsx:74 | nothing is shown exactly when the query is empty or occurs, ignoring case, in no name, description or title |
| App.SearchResultsRanked | src/App.tsx:74 | a non-empty query shows relevant courses of the corpus, best first |

## Left out

- `bm25Search` and the `wink-bm25-text-search` and `wink-nlp-utils` engine
  (`src/util/relevancyAlgorithm.ts:108`, `126-147`): foreign library calls
  with floating-point BM25 scoring. The model ends at `newSearchQuery`.
- The `js-levenshtein` package: its code is not part of this model. Edit
  distance is its classic recursive definition.
- `console.log` and `console.time` calls.
- The commented-out code in `src/util/relevancyAlgorithm.ts` (the list
  accumulation and the TF-IDF variant).
- The `list.splice(0, 25)` at `src/util/relevancyAlgorithm.ts:103`: it always
  acts on an empty array.
- `src/util/algorithm.worker.ts`: message passing between threads.
- The React components, `fetch`, `useState` and `useEffect` in `src/App.tsx`,
  `src/components`, `src/index.tsx` and the build configuration: UI and I/O.
- Case-insensitivity is ASCII lower-casing, not full Unicode case folding.
- `trim` strips the ASCII whitespace characters and the no-break space, not
  the whole Unicode whitespace class.
- The regular-expression escape in `count` is modelled by its effect: a
  literal, case-insensitive, global match.
- Strings are sequences of characters, so lengths count characters, not
  UTF-16 code units.
- Scores are exact rationals, where JavaScript computes `getMatchingScore`
  in IEEE double precision; the bucket tests (`=== 3`, `> 2`, `> 1`) and the
  sort's ties are taken on the exact values.
- Occurrences.Count: the `main_str += ''` coercions are identities on
  strings and are not modelled.

## Findings

| source | as written | input that shows it | evidently intended | confidence | as-written member | corrected member |
|---|---|---|---|---|---|---|
| src/util/relevancyAlgorithm.ts:56 | `inputWords[i] = substringMatches[i].word` indexes the substring bucket by the query position `i` and throws a `TypeError` when that bucket has `i` or fewer entries | query "ab c", word set {"ab", "xc"}: "c" is at position 1 and has one substring match | `substringMatches[0].word`, the best substring match, as in the other branches (`Repair.ReplaceWordIntended`) | not executed | Repair.SubstringIndexCounterexample | Repair.IntendedIsTopRanked |
