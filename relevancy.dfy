/** Query-term repair from src/util/relevancyAlgorithm.ts: the tiered
    similarity score `getMatchingScore`, the bucketing `getMatches`, and the
    loop of `relevancyAlgorithm` that replaces every query word without an
    exact match in the word set and joins the words with commas. The word
    set (a JavaScript `Set<string>`) is a sequence of distinct words in
    insertion order, the order `Array.from` produces. */
module Relevancy {
  import opened Strings
  import opened Levenshtein
  import opened Sorting

  /** The `{ word, score }` record. */
  type Match = Scored<string>

  /** The four arrays `getMatches` returns. */
  datatype Bucket = Perfect | PrefixMatch | SubstringMatch | CloseMatch

  /** The bucket `getMatches` pushes a result with this score into. */
  function BucketOf(score: real): Bucket {
    if score == 3.0 then Perfect
    else if score > 2.0 then PrefixMatch
    else if score > 1.0 then SubstringMatch
    else CloseMatch
  }

  /** How `target` relates to the query word as text, independently of any
      number: equal, a strict extension, containing it elsewhere, or none of
      these (an empty word relates to nothing). */
  function Relation(query: string, target: string): Bucket {
    if query == [] || target == [] then CloseMatch
    else if query == target then Perfect
    else if IsStrictPrefix(query, target) then PrefixMatch
    else if Occurs(target, query) then SubstringMatch
    else CloseMatch
  }

  lemma RatioBelowOne(a: nat, b: nat)
    requires 0 < a < b
    ensures 0.0 < (a as real) / (b as real) < 1.0
  {
    assert (a as real) / (b as real) * (b as real) == a as real;
  }

  /** A word that contains the query but does not start with it is longer. */
  lemma ContainedElsewhereIsLonger(query: string, target: string)
    requires query != [] && Occurs(target, query) && !(query <= target)
    ensures |query| < |target|
  {
    var i :| 0 <= i <= |target| && OccursAt(target, query, i);
  }

  /** `getMatchingScore(searchQuery, target)`. The score's tier, read back by
      `BucketOf`, is exactly the textual relation between the two words, so
      the tiers never overlap. */
  function MatchingScore(query: string, target: string): (r: real)
    ensures (query == [] || target == []) ==> r == 0.0
    ensures r == 3.0 <==> query != [] && query == target
    ensures BucketOf(r) == Relation(query, target)
    ensures r <= 3.0
  {
    if target == [] || query == [] then 0.0
    else if query == target then 3.0
    else if query <= target then
      RatioBelowOne(|query|, |target|);
      2.0 + (|query| as real) / (|target| as real)
    else if Occurs(target, query) then
      ContainedElsewhereIsLonger(query, target);
      RatioBelowOne(|query|, |target|);
      1.0 + (|query| as real) / (|target| as real)
    else
      EditDistanceZeroIff(query, target);
      assert 0.0 < (EditDistance(query, target) as real) / (|target| as real);
      1.0 - (EditDistance(query, target) as real) / (|target| as real)
  }

  /** A strict extension of the query scores in (2, 3). */
  lemma PrefixScore(query: string, target: string)
    requires query != [] && IsStrictPrefix(query, target)
    ensures 2.0 < MatchingScore(query, target) < 3.0
    ensures MatchingScore(query, target) == 2.0 + (|query| as real) / (|target| as real)
  {
    RatioBelowOne(|query|, |target|);
  }

  /** A word containing the query elsewhere than at its start scores in
      (1, 2). */
  lemma SubstringScore(query: string, target: string)
    requires query != [] && Occurs(target, query) && !(query <= target)
    ensures 1.0 < MatchingScore(query, target) < 2.0
    ensures MatchingScore(query, target) == 1.0 + (|query| as real) / (|target| as real)
  {
    ContainedElsewhereIsLonger(query, target);
    RatioBelowOne(|query|, |target|);
  }

  /** In the fuzzy tier the score stays below 1, and it is not negative as
      long as the query is not longer than the target. */
  lemma FuzzyScore(query: string, target: string)
    requires query != [] && target != [] && Relation(query, target) == CloseMatch
    ensures MatchingScore(query, target) < 1.0
    ensures |query| <= |target| ==> MatchingScore(query, target) >= 0.0
  {
    EditDistanceZeroIff(query, target);
    EditDistanceAtMostLonger(query, target);
    var d := EditDistance(query, target);
    assert MatchingScore(query, target) == 1.0 - (d as real) / (|target| as real);
    OneMinusRatio(d, |target|);
  }

  lemma OneMinusRatio(d: nat, n: nat)
    requires 0 < d && 0 < n
    ensures 1.0 - (d as real) / (n as real) < 1.0
    ensures d <= n ==> 1.0 - (d as real) / (n as real) >= 0.0
  {
    assert (d as real) / (n as real) * (n as real) == d as real;
  }

  /** The documented range [0, 1) of the fuzzy tier does not hold for a query
      longer than its target: "xxx" against "a" scores at most -1. */
  lemma FuzzyScoreBelowZero()
    ensures MatchingScore("xxx", "a") <= -1.0
  {
    EditDistanceAtLeastLengthGap("xxx", "a");
    assert !Occurs("a", "xxx");
  }

  /** Two strict extensions of the query (or two words containing it
      elsewhere) compare by length: the shorter one scores higher, equal
      lengths score the same. */
  lemma SameTierScoresByLength(query: string, t1: string, t2: string)
    requires Relation(query, t1) == Relation(query, t2)
    requires Relation(query, t1) == PrefixMatch || Relation(query, t1) == SubstringMatch
    ensures MatchingScore(query, t1) >= MatchingScore(query, t2) <==> |t1| <= |t2|
    ensures MatchingScore(query, t1) == MatchingScore(query, t2) <==> |t1| == |t2|
  {
    if Relation(query, t1) == PrefixMatch {
      PrefixScore(query, t1);
      PrefixScore(query, t2);
    } else {
      SubstringScore(query, t1);
      SubstringScore(query, t2);
    }
    LengthRatioOrder(|query|, |t1|, |t2|);
  }

  lemma LengthRatioOrder(a: nat, b1: nat, b2: nat)
    requires 0 < a && 0 < b1 && 0 < b2
    ensures (a as real) / (b1 as real) >= (a as real) / (b2 as real) <==> b1 <= b2
    ensures (a as real) / (b1 as real) == (a as real) / (b2 as real) <==> b1 == b2
  {
    var x, y := (a as real) / (b1 as real), (a as real) / (b2 as real);
    assert x * (b1 as real) == a as real;
    assert y * (b2 as real) == a as real;
    if b1 < b2 {
      assert x * (b1 as real) == y * (b2 as real);
      assert x > y;
    } else if b1 > b2 {
      assert x * (b1 as real) == y * (b2 as real);
      assert x < y;
    }
  }

  /** `Array.from(wordSet).map(word => ({ word, score: getMatchingScore(query, word) }))`. */
  function ScoreAll(query: string, words: seq<string>): (r: seq<Match>)
    ensures |r| == |words|
  {
    if words == [] then []
    else [Scored(words[0], MatchingScore(query, words[0]))] + ScoreAll(query, words[1..])
  }

  /** Position `i` holds the `i`-th word with its matching score. */
  lemma {:induction false} ScoreAllAt(query: string, words: seq<string>)
    ensures forall i :: 0 <= i < |words| ==> ScoreAll(query, words)[i] == Scored(words[i], MatchingScore(query, words[i]))
  {
    if words != [] {
      ScoreAllAt(query, words[1..]);
    }
  }

  /** The scored words sorted by score, highest first, ties in set order. */
  function Ranked(query: string, words: seq<string>): seq<Match> {
    SortDesc(ScoreAll(query, words))
  }

  /** The ranking is ordered and holds each scored word once. */
  lemma RankedFacts(query: string, words: seq<string>)
    ensures NonIncreasing(Ranked(query, words))
    ensures multiset(Ranked(query, words)) == multiset(ScoreAll(query, words))
  {
    SortDescOrders(ScoreAll(query, words));
    SortDescPermutes(ScoreAll(query, words));
  }

  function InBucket(b: Bucket): Match -> bool {
    (m: Match) => BucketOf(m.score) == b
  }

  /** The array `getMatches` returns for bucket `b`. */
  function MatchesIn(query: string, words: seq<string>, b: Bucket): seq<Match> {
    Filter(Ranked(query, words), InBucket(b))
  }

  /** `getMatches(query, wordSet)`: one pass over the sorted results pushing
      each one onto the array its score selects. */
  method GetMatches(query: string, wordSet: seq<string>)
    returns (perfectMatches: seq<Match>, prefixMatches: seq<Match>,
             substringMatches: seq<Match>, closeMatches: seq<Match>)
    ensures perfectMatches == MatchesIn(query, wordSet, Perfect)
    ensures prefixMatches == MatchesIn(query, wordSet, PrefixMatch)
    ensures substringMatches == MatchesIn(query, wordSet, SubstringMatch)
    ensures closeMatches == MatchesIn(query, wordSet, CloseMatch)
  {
    var results := Ranked(query, wordSet);
    perfectMatches, prefixMatches, substringMatches, closeMatches := [], [], [], [];
    for k := 0 to |results|
      invariant perfectMatches == Filter(results[..k], InBucket(Perfect))
      invariant prefixMatches == Filter(results[..k], InBucket(PrefixMatch))
      invariant substringMatches == Filter(results[..k], InBucket(SubstringMatch))
      invariant closeMatches == Filter(results[..k], InBucket(CloseMatch))
    {
      var result := results[k];
      assert results[..k + 1] == results[..k] + [result];
      FilterAppend(results[..k], result, InBucket(Perfect));
      FilterAppend(results[..k], result, InBucket(PrefixMatch));
      FilterAppend(results[..k], result, InBucket(SubstringMatch));
      FilterAppend(results[..k], result, InBucket(CloseMatch));
      if result.score == 3.0 {
        perfectMatches := perfectMatches + [result];
      } else if result.score > 2.0 {
        prefixMatches := prefixMatches + [result];
      } else if result.score > 1.0 {
        substringMatches := substringMatches + [result];
      } else {
        closeMatches := closeMatches + [result];
      }
    }
    assert results[..|results|] == results;
  }

  lemma ScoreAllMembers(query: string, words: seq<string>, m: Match)
    ensures m in ScoreAll(query, words) <==> m.item in words && m.score == MatchingScore(query, m.item)
  {
    var r := ScoreAll(query, words);
    ScoreAllAt(query, words);
    if m in r {
      var i :| 0 <= i < |r| && r[i] == m;
    }
    if m.item in words && m.score == MatchingScore(query, m.item) {
      var i :| 0 <= i < |words| && words[i] == m.item;
      assert r[i] == m;
    }
  }

  /** A scored word lands in bucket `b` exactly when it is a word of the set,
      carries its own score, and relates to the query as `b` says. */
  lemma MatchesInMembers(query: string, words: seq<string>, b: Bucket, m: Match)
    ensures m in MatchesIn(query, words, b) <==>
      m.item in words && m.score == MatchingScore(query, m.item) && Relation(query, m.item) == b
  {
    RankedFacts(query, words);
    var sorted := Ranked(query, words);
    var r := MatchesIn(query, words, b);
    ScoreAllMembers(query, words, m);
    assert m in sorted <==> m in ScoreAll(query, words) by {
      assert m in sorted <==> m in multiset(sorted);
    }
    FilterMembers(sorted, InBucket(b));
    if m in r {
      var i :| 0 <= i < |r| && r[i] == m;
    }
    if m in sorted && BucketOf(m.score) == b {
      var i :| 0 <= i < |sorted| && sorted[i] == m;
      FilterKeeps(sorted, InBucket(b), i);
    }
  }

  /** Each bucket is in non-increasing score order. */
  lemma MatchesInOrdered(query: string, words: seq<string>, b: Bucket)
    ensures NonIncreasing(MatchesIn(query, words, b))
  {
    RankedFacts(query, words);
    FilterNonIncreasing(Ranked(query, words), InBucket(b));
  }

  lemma FourWayPartition(s: seq<Match>)
    ensures multiset(Filter(s, InBucket(Perfect))) + multiset(Filter(s, InBucket(PrefixMatch)))
          + multiset(Filter(s, InBucket(SubstringMatch))) + multiset(Filter(s, InBucket(CloseMatch)))
          == multiset(s)
  {
    var sum := multiset(Filter(s, InBucket(Perfect))) + multiset(Filter(s, InBucket(PrefixMatch)))
             + multiset(Filter(s, InBucket(SubstringMatch))) + multiset(Filter(s, InBucket(CloseMatch)));
    forall x ensures sum[x] == multiset(s)[x] {
      FilterMultiset(s, InBucket(Perfect), x);
      FilterMultiset(s, InBucket(PrefixMatch), x);
      FilterMultiset(s, InBucket(SubstringMatch), x);
      FilterMultiset(s, InBucket(CloseMatch), x);
    }
    assert sum == multiset(s);
  }

  /** The four buckets together hold every scored word of the set exactly
      once. */
  lemma BucketsPartition(query: string, words: seq<string>)
    ensures multiset(MatchesIn(query, words, Perfect)) + multiset(MatchesIn(query, words, PrefixMatch))
          + multiset(MatchesIn(query, words, SubstringMatch)) + multiset(MatchesIn(query, words, CloseMatch))
          == multiset(ScoreAll(query, words))
  {
    RankedFacts(query, words);
    FourWayPartition(Ranked(query, words));
  }

  /** Among the scored words in set order, only the query itself scores 3. */
  lemma {:induction false} PerfectInScoreAll(query: string, words: seq<string>)
    requires Distinct(words)
    ensures Filter(ScoreAll(query, words), InBucket(Perfect))
         == if query != [] && query in words then [Scored(query, 3.0)] else []
  {
    if words != [] {
      PerfectInScoreAll(query, words[1..]);
      assert ScoreAll(query, words) == [Scored(words[0], MatchingScore(query, words[0]))] + ScoreAll(query, words[1..]);
      assert query in words <==> query == words[0] || query in words[1..];
      if query == words[0] {
        assert query !in words[1..];
      }
    }
  }

  /** `perfectMatches` is `[query]` (scored 3) when the query is a non-empty
      word of the set, and empty otherwise. */
  lemma PerfectMatches(query: string, words: seq<string>)
    requires Distinct(words)
    ensures MatchesIn(query, words, Perfect)
         == if query != [] && query in words then [Scored(query, 3.0)] else []
  {
    RankedFacts(query, words);
    var e := if query != [] && query in words then [Scored(query, 3.0)] else [];
    var p := MatchesIn(query, words, Perfect);
    PerfectInScoreAll(query, words);
    FilterSameMultiset(Ranked(query, words), ScoreAll(query, words), InBucket(Perfect));
    assert multiset(p) == multiset(e);
    assert |p| == |multiset(p)| == |e|;
    if e != [] {
      assert p[0] in multiset(e);
    }
  }

  /** Score rank of a bucket: every score of a higher bucket beats every
      score of a lower one. */
  function Rank(b: Bucket): nat {
    match b
    case Perfect => 3
    case PrefixMatch => 2
    case SubstringMatch => 1
    case CloseMatch => 0
  }

  lemma HigherBucketHigherScore(x: real, y: real)
    requires x <= 3.0 && y <= 3.0
    requires Rank(BucketOf(x)) > Rank(BucketOf(y))
    ensures x > y
  {
  }

  lemma RankedScores(query: string, words: seq<string>, i: nat)
    requires i < |Ranked(query, words)|
    ensures Ranked(query, words)[i].item in words
    ensures Ranked(query, words)[i].score == MatchingScore(query, Ranked(query, words)[i].item)
  {
    RankedFacts(query, words);
    var m := Ranked(query, words)[i];
    assert m in multiset(Ranked(query, words));
    ScoreAllMembers(query, words, m);
  }

  /** The best-scoring word heads its own bucket, and every bucket ranked
      above it is empty. */
  lemma TopRankedHeadsItsBucket(query: string, words: seq<string>)
    requires words != []
    ensures |Ranked(query, words)| == |words|
    ensures MatchesIn(query, words, BucketOf(Ranked(query, words)[0].score)) != []
    ensures MatchesIn(query, words, BucketOf(Ranked(query, words)[0].score))[0] == Ranked(query, words)[0]
    ensures forall c :: Rank(c) > Rank(BucketOf(Ranked(query, words)[0].score)) ==> MatchesIn(query, words, c) == []
  {
    RankedFacts(query, words);
    var sorted := Ranked(query, words);
    assert |sorted| == |multiset(sorted)| == |words|;
    var top := sorted[0];
    var b := BucketOf(top.score);
    FilterHead(sorted, InBucket(b), 0);
    RankedScores(query, words, 0);
    forall c | Rank(c) > Rank(b) ensures MatchesIn(query, words, c) == [] {
      var r := MatchesIn(query, words, c);
      if r != [] {
        var i := FilterHeadIndex(sorted, InBucket(c));
        RankedScores(query, words, i);
        HigherBucketHigherScore(sorted[i].score, top.score);
        assert false;
      }
    }
  }

  /** The head of the prefix bucket (and of the substring bucket) is the
      shortest word of its kind; among equally short ones, the one earliest
      in the set. */
  lemma BucketHeadIsShortest(query: string, words: seq<string>, b: Bucket)
    requires b == PrefixMatch || b == SubstringMatch
    requires MatchesIn(query, words, b) != []
    ensures MatchesIn(query, words, b)[0].item in words
    ensures Relation(query, MatchesIn(query, words, b)[0].item) == b
    ensures forall t :: t in words && Relation(query, t) == b ==>
      |MatchesIn(query, words, b)[0].item| <= |t|
    ensures forall j :: (0 <= j < |words| && Relation(query, words[j]) == b
      && |words[j]| == |MatchesIn(query, words, b)[0].item|) ==>
      MatchesIn(query, words, b)[0].item in words[..j + 1]
  {
    var bucket := MatchesIn(query, words, b);
    var h := bucket[0];
    MatchesInMembers(query, words, b, h);
    MatchesInOrdered(query, words, b);
    forall t | t in words && Relation(query, t) == b ensures |h.item| <= |t| {
      var x := Scored(t, MatchingScore(query, t));
      MatchesInMembers(query, words, b, x);
      var i :| 0 <= i < |bucket| && bucket[i] == x;
      assert h.score >= x.score;
      SameTierScoresByLength(query, h.item, t);
    }
    var sorted := Ranked(query, words);
    var all := ScoreAll(query, words);
    var k := h.score;
    var idx := FilterHeadIndex(sorted, InBucket(b));
    WithScoreHead(sorted, k, idx);
    SortDescStable(all, k);
    var j0 := WithScoreHeadIndex(all, k);
    forall j | 0 <= j < |words| && Relation(query, words[j]) == b && |words[j]| == |h.item|
      ensures h.item in words[..j + 1]
    {
      SameTierScoresByLength(query, h.item, words[j]);
      ScoreAllAt(query, words);
      assert all[j].score == k;
      assert j0 <= j;
      assert words[..j + 1][j0] == h.item;
    }
  }

  /** The words of the set standing in relation `b` to the query. */
  function RelatesAs(query: string, b: Bucket): string -> bool {
    (t: string) => Relation(query, t) == b
  }

  lemma {:induction false} ScoreAllBucketSize(query: string, words: seq<string>, b: Bucket)
    ensures |Filter(ScoreAll(query, words), InBucket(b))| == |Filter(words, RelatesAs(query, b))|
  {
    if words != [] {
      ScoreAllBucketSize(query, words[1..], b);
      assert ScoreAll(query, words) == [Scored(words[0], MatchingScore(query, words[0]))] + ScoreAll(query, words[1..]);
    }
  }

  /** Bucket `b` has one entry per word of the set in relation `b` to the
      query. */
  lemma BucketSize(query: string, words: seq<string>, b: Bucket)
    ensures |MatchesIn(query, words, b)| == |Filter(words, RelatesAs(query, b))|
  {
    RankedFacts(query, words);
    ScoreAllBucketSize(query, words, b);
    FilterSameMultiset(Ranked(query, words), ScoreAll(query, words), InBucket(b));
    assert |MatchesIn(query, words, b)| == |multiset(MatchesIn(query, words, b))|;
    assert |Filter(ScoreAll(query, words), InBucket(b))| == |multiset(Filter(ScoreAll(query, words), InBucket(b)))|;
  }
}
