/** The query-repair loop of `relevancyAlgorithm` in
    src/util/relevancyAlgorithm.ts: the trimmed query is split on spaces; a
    word at position `i` without a perfect match in the word set is replaced
    by `prefixMatches[0]` when there is one, else by `substringMatches[i]`
    when the substring bucket is non-empty, else by `closeMatches[0]`, and is
    kept when every bucket is empty; the words are then joined with commas
    (`Array.prototype.toString`).

    In the substring case the loop reads `substringMatches[i]`, indexing the
    bucket with the position of the word in the query rather than with 0.
    When the bucket has no entry at that position the property access on
    `undefined` throws a `TypeError`; that outcome is the `Err` result here.
    `ReplaceWordIntended` is the evidently intended rule. */
module Repair {
  import opened Strings
  import opened Sorting
  import opened Relevancy

  /** The `TypeError` thrown by `substringMatches[i].word` when the substring
      bucket has no entry at index `position`. */
  datatype RepairError = MissingSubstringMatch(position: nat)

  datatype Result<T> = Ok(value: T) | Err(error: RepairError)

  /** The object `getMatches` returns, one field per bucket. */
  datatype Matches = Matches(perfectMatches: seq<Match>, prefixMatches: seq<Match>,
                             substringMatches: seq<Match>, closeMatches: seq<Match>)

  function MatchesOf(word: string, wordSet: seq<string>): Matches {
    Matches(MatchesIn(word, wordSet, Perfect), MatchesIn(word, wordSet, PrefixMatch),
            MatchesIn(word, wordSet, SubstringMatch), MatchesIn(word, wordSet, CloseMatch))
  }

  /** The loop body's choice for the word at position `i` given its buckets. */
  function Replacement(word: string, i: nat, m: Matches): Result<string> {
    if |m.perfectMatches| != 0 then Ok(word)
    else if |m.prefixMatches| != 0 then Ok(m.prefixMatches[0].item)
    else if |m.substringMatches| != 0 then
      if i < |m.substringMatches| then Ok(m.substringMatches[i].item)
      else Err(MissingSubstringMatch(i))
    else if |m.closeMatches| > 0 then Ok(m.closeMatches[0].item)
    else Ok(word)
  }

  /** What the loop body does to query word `word` at position `i`, as
      written. */
  function ReplaceWord(word: string, i: nat, wordSet: seq<string>): Result<string> {
    Replacement(word, i, MatchesOf(word, wordSet))
  }

  /** What the loop body does to each query word, in order. */
  function Outcomes(words: seq<string>, wordSet: seq<string>): (r: seq<Result<string>>)
    ensures |r| == |words|
  {
    seq(|words|, k requires 0 <= k < |words| => ReplaceWord(words[k], k, wordSet))
  }

  /** The values of `outcomes`, or its first error: the loop stops at the
      first word that throws. */
  function Collect(outcomes: seq<Result<string>>): Result<seq<string>> {
    if outcomes == [] then Ok([])
    else match Collect(outcomes[..|outcomes| - 1])
      case Err(e) => Err(e)
      case Ok(done) =>
        match outcomes[|outcomes| - 1]
        case Err(e) => Err(e)
        case Ok(w) => Ok(done + [w])
  }

  /** `searchQuery.trim().split(' ')`. */
  function QueryWords(searchQuery: string): seq<string> {
    Split(Trim(searchQuery), ' ')
  }

  /** `inputWords.toString()`, or the error. */
  function Joined(repaired: Result<seq<string>>): Result<string> {
    match repaired
    case Err(e) => Err(e)
    case Ok(newWords) => Ok(Join(newWords, ','))
  }

  /** `newSearchQuery` as written, or the error the loop throws. */
  function RepairedQuery(searchQuery: string, wordSet: seq<string>): Result<string> {
    Joined(Collect(Outcomes(QueryWords(searchQuery), wordSet)))
  }

  lemma CollectSnoc(outcomes: seq<Result<string>>, x: Result<string>)
    ensures Collect(outcomes + [x]) == match Collect(outcomes)
      case Err(e) => Err(e)
      case Ok(done) => (match x case Err(e) => Err(e) case Ok(w) => Ok(done + [w]))
  {
    assert (outcomes + [x])[..|outcomes|] == outcomes;
  }

  /** An error stays the outcome however many further words there are. */
  lemma {:induction false} CollectErrorPersists(outcomes: seq<Result<string>>, n: nat)
    requires n <= |outcomes|
    requires Collect(outcomes[..n]).Err?
    decreases |outcomes| - n
    ensures Collect(outcomes) == Collect(outcomes[..n])
  {
    if n < |outcomes| {
      assert outcomes[..n + 1][..n] == outcomes[..n];
      CollectErrorPersists(outcomes, n + 1);
    } else {
      assert outcomes[..n] == outcomes;
    }
  }

  /** The loop succeeds exactly when no word throws, and then keeps the
      number of words and replaces each one independently of the others. */
  lemma {:induction false} CollectPointwise(outcomes: seq<Result<string>>)
    ensures Collect(outcomes).Ok? <==> forall k :: 0 <= k < |outcomes| ==> outcomes[k].Ok?
    ensures Collect(outcomes).Ok? ==>
      |Collect(outcomes).value| == |outcomes| &&
      forall k :: 0 <= k < |outcomes| ==> Collect(outcomes).value[k] == outcomes[k].value
  {
    if outcomes != [] {
      var shorter := outcomes[..|outcomes| - 1];
      CollectPointwise(shorter);
      assert forall k :: 0 <= k < |shorter| ==> shorter[k] == outcomes[k];
    }
  }

  /** When some word throws, the error is that of the first such word. */
  lemma {:induction false} CollectFirstError(outcomes: seq<Result<string>>, n: nat)
    requires n < |outcomes| && outcomes[n].Err?
    requires forall k :: 0 <= k < n ==> outcomes[k].Ok?
    ensures Collect(outcomes) == Err(outcomes[n].error)
  {
    var prefix := outcomes[..n];
    CollectPointwise(prefix);
    assert outcomes[..n + 1] == prefix + [outcomes[n]];
    CollectSnoc(prefix, outcomes[n]);
    CollectErrorPersists(outcomes, n + 1);
  }

  /** `relevancyAlgorithm`'s rewrite of the query, up to the computation of
      `newSearchQuery`. */
  method RepairQuery(searchQuery: string, wordSet: seq<string>) returns (r: Result<string>)
    ensures r == RepairedQuery(searchQuery, wordSet)
  {
    var inputWords := QueryWords(searchQuery);
    var repaired := RepairWords(inputWords, wordSet);
    match repaired
    case Err(e) => r := Err(e);
    case Ok(newWords) => r := Ok(Join(newWords, ','));
  }

  /** The loop over the query words, replacing them in place in an array. */
  method RepairWords(words: seq<string>, wordSet: seq<string>) returns (r: Result<seq<string>>)
    ensures r == Collect(Outcomes(words, wordSet))
  {
    ghost var all := Outcomes(words, wordSet);
    var inputWords := new string[|words|](k requires 0 <= k < |words| => words[k]);
    for i := 0 to inputWords.Length
      invariant inputWords[i..] == words[i..]
      invariant Collect(all[..i]) == Ok(inputWords[..i])
    {
      assert inputWords[i] == words[i];
      var replaced := RepairWord(inputWords[i], i, wordSet);
      CollectStep(all, i, replaced);
      if replaced.Err? {
        CollectErrorPersists(all, i + 1);
        return Err(replaced.error);
      }
      inputWords[i] := replaced.value;
      assert inputWords[..i + 1] == inputWords[..i] + [replaced.value];
    }
    assert inputWords[..] == inputWords[..|words|];
    assert all[..|words|] == all;
    r := Ok(inputWords[..]);
  }

  /** One more word of the loop, read off the full list of outcomes. */
  lemma CollectStep(all: seq<Result<string>>, i: nat, x: Result<string>)
    requires i < |all| && all[i] == x
    ensures Collect(all[..i + 1]) == match Collect(all[..i])
      case Err(e) => Err(e)
      case Ok(done) => (match x case Err(e) => Err(e) case Ok(w) => Ok(done + [w]))
  {
    assert all[..i + 1] == all[..i] + [x];
    CollectSnoc(all[..i], x);
  }

  /** The body of the loop for the word at position `i`: a perfect match
      keeps the word, otherwise the head of the prefix bucket, the `i`-th
      entry of the substring bucket (a `TypeError` when there is none) or the
      head of the close bucket replaces it. */
  method RepairWord(word: string, i: nat, wordSet: seq<string>) returns (r: Result<string>)
    ensures r == ReplaceWord(word, i, wordSet)
  {
    var perfectMatches, prefixMatches, substringMatches, closeMatches := GetMatches(word, wordSet);
    r := Ok(word);
    if |perfectMatches| == 0 {
      if |prefixMatches| != 0 {
        r := Ok(prefixMatches[0].item);
      } else if |substringMatches| != 0 {
        if i >= |substringMatches| {
          return Err(MissingSubstringMatch(i));
        }
        r := Ok(substringMatches[i].item);
      } else if |closeMatches| > 0 {
        r := Ok(closeMatches[0].item);
      }
    }
  }

  /** A non-empty word of the set is kept as it is. */
  lemma ReplaceWordKeepsKnownWord(word: string, i: nat, wordSet: seq<string>)
    requires word != [] && word in wordSet
    ensures ReplaceWord(word, i, wordSet) == Ok(word)
  {
    MatchingScoreOfItself(word);
    MatchesInMembers(word, wordSet, Perfect, Scored(word, 3.0));
  }

  lemma MatchingScoreOfItself(word: string)
    requires word != []
    ensures MatchingScore(word, word) == 3.0
  {
  }

  /** With a non-empty word set every replacement that succeeds is a word of
      the set (a kept word has a perfect match in it); with an empty word set
      every word is kept. */
  lemma ReplaceWordInWordSet(word: string, i: nat, wordSet: seq<string>)
    ensures wordSet == [] ==> ReplaceWord(word, i, wordSet) == Ok(word)
    ensures wordSet != [] && ReplaceWord(word, i, wordSet).Ok? ==>
      ReplaceWord(word, i, wordSet).value in wordSet
  {
    if wordSet == [] {
      forall b ensures MatchesIn(word, wordSet, b) == [] {
        BucketSize(word, wordSet, b);
      }
    } else {
      TopRankedHeadsItsBucket(word, wordSet);
      var perfectMatches := MatchesIn(word, wordSet, Perfect);
      var prefixMatches := MatchesIn(word, wordSet, PrefixMatch);
      var substringMatches := MatchesIn(word, wordSet, SubstringMatch);
      var closeMatches := MatchesIn(word, wordSet, CloseMatch);
      if |perfectMatches| != 0 {
        MatchesInMembers(word, wordSet, Perfect, perfectMatches[0]);
      } else if |prefixMatches| != 0 {
        MatchesInMembers(word, wordSet, PrefixMatch, prefixMatches[0]);
      } else if |substringMatches| != 0 {
        if i < |substringMatches| {
          MatchesInMembers(word, wordSet, SubstringMatch, substringMatches[i]);
        }
      } else {
        MatchesInMembers(word, wordSet, CloseMatch, closeMatches[0]);
      }
    }
  }

  /** The loop succeeds exactly when no word throws; it then keeps the
      number of query words, and every word it puts in place of the `k`-th is
      the loop body's choice for that word, a word of the set (or the word
      itself when the set is empty). */
  lemma RepairWordsPointwise(words: seq<string>, wordSet: seq<string>)
    ensures Collect(Outcomes(words, wordSet)).Ok? <==>
      forall k :: 0 <= k < |words| ==> ReplaceWord(words[k], k, wordSet).Ok?
    ensures Collect(Outcomes(words, wordSet)).Ok? ==>
      var newWords := Collect(Outcomes(words, wordSet)).value;
      |newWords| == |words|
      && (forall k :: 0 <= k < |words| ==> Ok(newWords[k]) == ReplaceWord(words[k], k, wordSet))
      && (forall k :: 0 <= k < |words| ==> if wordSet == [] then newWords[k] == words[k] else newWords[k] in wordSet)
  {
    var outcomes := Outcomes(words, wordSet);
    CollectPointwise(outcomes);
    forall k | 0 <= k < |words|
      ensures outcomes[k] == ReplaceWord(words[k], k, wordSet)
      ensures wordSet == [] ==> outcomes[k] == Ok(words[k])
      ensures wordSet != [] && outcomes[k].Ok? ==> outcomes[k].value in wordSet
    {
      ReplaceWordInWordSet(words[k], k, wordSet);
    }
  }

  /** Number of words of the set in relation `b` to `word`. */
  function Related(word: string, wordSet: seq<string>, b: Bucket): nat {
    |Filter(wordSet, RelatesAs(word, b))|
  }

  /** The loop throws for the word at position `i` exactly when no word of
      the set equals it or extends it, and at least one but at most `i` words
      contain it elsewhere. */
  lemma ReplaceWordFailsIff(word: string, i: nat, wordSet: seq<string>)
    ensures ReplaceWord(word, i, wordSet).Err? <==>
      Related(word, wordSet, Perfect) == 0 && Related(word, wordSet, PrefixMatch) == 0 &&
      0 < Related(word, wordSet, SubstringMatch) <= i
    ensures ReplaceWord(word, i, wordSet).Err? ==> ReplaceWord(word, i, wordSet).error == MissingSubstringMatch(i)
  {
    BucketSize(word, wordSet, Perfect);
    BucketSize(word, wordSet, PrefixMatch);
    BucketSize(word, wordSet, SubstringMatch);
  }

  /** A word with neither a perfect match nor a word extending it, but with
      more words of the set containing it than its position in the query, is
      replaced by one of those words. */
  lemma ReplaceWordSubstringTier(word: string, i: nat, wordSet: seq<string>)
    requires Related(word, wordSet, Perfect) == 0 && Related(word, wordSet, PrefixMatch) == 0
    requires i < Related(word, wordSet, SubstringMatch)
    ensures ReplaceWord(word, i, wordSet).Ok?
    ensures ReplaceWord(word, i, wordSet).value in wordSet
    ensures Relation(word, ReplaceWord(word, i, wordSet).value) == SubstringMatch
  {
    BucketSize(word, wordSet, Perfect);
    BucketSize(word, wordSet, PrefixMatch);
    BucketSize(word, wordSet, SubstringMatch);
    var substringMatches := MatchesIn(word, wordSet, SubstringMatch);
    MatchesInMembers(word, wordSet, SubstringMatch, substringMatches[i]);
  }

  /** A word without a perfect match but with words of the set extending it
      becomes the shortest such extension, the earliest in the set among
      equally short ones. */
  lemma ReplaceWordShortestExtension(word: string, i: nat, wordSet: seq<string>)
    requires Related(word, wordSet, Perfect) == 0 && Related(word, wordSet, PrefixMatch) > 0
    ensures ReplaceWord(word, i, wordSet).Ok?
    ensures IsStrictPrefix(word, ReplaceWord(word, i, wordSet).value)
    ensures ReplaceWord(word, i, wordSet).value in wordSet
    ensures forall t :: t in wordSet && IsStrictPrefix(word, t) ==>
      |ReplaceWord(word, i, wordSet).value| <= |t|
    ensures forall j :: (0 <= j < |wordSet| && IsStrictPrefix(word, wordSet[j])
      && |wordSet[j]| == |ReplaceWord(word, i, wordSet).value|) ==>
      ReplaceWord(word, i, wordSet).value in wordSet[..j + 1]
  {
    BucketSize(word, wordSet, Perfect);
    BucketSize(word, wordSet, PrefixMatch);
    var h := MatchesIn(word, wordSet, PrefixMatch)[0];
    assert ReplaceWord(word, i, wordSet) == Ok(h.item);
    BucketHeadIsShortest(word, wordSet, PrefixMatch);
    forall t | t in wordSet && IsStrictPrefix(word, t) ensures Relation(word, t) == PrefixMatch {
      assert word != [] && word != t;
    }
  }

  /** The evidently intended rule: the head of the first non-empty bucket,
      index 0 in the substring bucket as in the others. */
  function ReplaceWordIntended(word: string, wordSet: seq<string>): string {
    var perfectMatches := MatchesIn(word, wordSet, Perfect);
    var prefixMatches := MatchesIn(word, wordSet, PrefixMatch);
    var substringMatches := MatchesIn(word, wordSet, SubstringMatch);
    var closeMatches := MatchesIn(word, wordSet, CloseMatch);
    if |perfectMatches| != 0 then word
    else if |prefixMatches| != 0 then prefixMatches[0].item
    else if |substringMatches| != 0 then substringMatches[0].item
    else if |closeMatches| > 0 then closeMatches[0].item
    else word
  }

  /** The intended rule never fails and picks the best-scoring word of the
      set, the earliest in the set among ties (the word is kept when the set
      is empty). */
  lemma IntendedIsTopRanked(word: string, wordSet: seq<string>)
    ensures ReplaceWordIntended(word, wordSet)
         == if wordSet == [] then word else Ranked(word, wordSet)[0].item
  {
    if wordSet == [] {
      ReplaceWordInWordSet(word, 0, wordSet);
      forall b ensures MatchesIn(word, wordSet, b) == [] {
        BucketSize(word, wordSet, b);
      }
    } else {
      TopRankedHeadsItsBucket(word, wordSet);
      var top := Ranked(word, wordSet)[0];
      if BucketOf(top.score) == Perfect {
        MatchesInMembers(word, wordSet, Perfect, top);
      }
    }
  }

  /** The rule as written agrees with the intended one except in the
      substring tier at a query position other than the first. */
  lemma AsWrittenAgreesOutsideSubstringTier(word: string, i: nat, wordSet: seq<string>)
    requires i == 0 || Related(word, wordSet, Perfect) > 0 || Related(word, wordSet, PrefixMatch) > 0
      || Related(word, wordSet, SubstringMatch) == 0
    ensures ReplaceWord(word, i, wordSet) == Ok(ReplaceWordIntended(word, wordSet))
  {
    BucketSize(word, wordSet, Perfect);
    BucketSize(word, wordSet, PrefixMatch);
    BucketSize(word, wordSet, SubstringMatch);
  }

  function IntendedOutcomes(words: seq<string>, wordSet: seq<string>): (r: seq<Result<string>>)
    ensures |r| == |words|
  {
    seq(|words|, k requires 0 <= k < |words| => Ok(ReplaceWordIntended(words[k], wordSet)))
  }

  /** `newSearchQuery` under the intended rule. */
  function RepairedQueryIntended(searchQuery: string, wordSet: seq<string>): Result<string> {
    Joined(Collect(IntendedOutcomes(QueryWords(searchQuery), wordSet)))
  }

  lemma ExampleQueryWords()
    ensures QueryWords("ab c") == ["ab", "c"]
  {
    assert LeadingSpace("ab c") == 0;
    assert TrailingSpace("ab c") == 0;
    assert Trim("ab c") == "ab c";
    assert Split("", ' ') == [""];
    assert "c"[1..] == "" && ['c'] + "" == "c";
    assert Split("c", ' ') == ["c"];
    assert " c"[1..] == "c";
    assert Split(" c", ' ') == ["", "c"];
    assert "b c"[1..] == " c" && ['b'] + "" == "b";
    assert Split("b c", ' ') == ["b", "c"];
    assert "ab c"[1..] == "b c" && ['a'] + "b" == "ab";
    assert Split("ab c", ' ') == ["ab", "c"];
  }

  /** Against {"ab", "xc"}, "c" has no perfect or prefix match and exactly
      one substring match, "xc". */
  lemma ExampleBuckets()
    ensures Related("c", ["ab", "xc"], Perfect) == 0
    ensures Related("c", ["ab", "xc"], PrefixMatch) == 0
    ensures Related("c", ["ab", "xc"], SubstringMatch) == 1
    ensures MatchesIn("c", ["ab", "xc"], SubstringMatch)[0].item == "xc"
  {
    var ws := ["ab", "xc"];
    forall i | 0 <= i <= 2 ensures !OccursAt("ab", "c", i) {
      if i < 2 {
        assert "ab"[i..i + 1][0] == "ab"[i];
      }
    }
    assert !Occurs("ab", "c");
    assert !IsStrictPrefix("c", "ab") by {
      assert "c"[0] != "ab"[0];
    }
    assert "c" != "ab";
    assert Relation("c", "ab") == CloseMatch;
    assert OccursAt("xc", "c", 1);
    assert Relation("c", "xc") == SubstringMatch;
    assert ws[1..] == ["xc"] && ws[1..][1..] == [];
    assert Filter(ws, RelatesAs("c", SubstringMatch)) == ["xc"];
    assert Filter(ws, RelatesAs("c", Perfect)) == [];
    assert Filter(ws, RelatesAs("c", PrefixMatch)) == [];
    BucketSize("c", ws, SubstringMatch);
    var h := MatchesIn("c", ws, SubstringMatch)[0];
    MatchesInMembers("c", ws, SubstringMatch, h);
  }

  /** "ab" is kept; "c" has one substring match but sits at position 1. */
  lemma ExampleOutcomes()
    ensures Outcomes(["ab", "c"], ["ab", "xc"]) == [Ok("ab"), Err(MissingSubstringMatch(1))]
  {
    ExampleKeeps();
    ExampleThrows();
    var outcomes := Outcomes(["ab", "c"], ["ab", "xc"]);
    assert outcomes[0] == Ok("ab") && outcomes[1] == Err(MissingSubstringMatch(1));
  }

  lemma ExampleKeeps()
    ensures ReplaceWord("ab", 0, ["ab", "xc"]) == Ok("ab")
  {
    ReplaceWordKeepsKnownWord("ab", 0, ["ab", "xc"]);
  }

  lemma ExampleThrows()
    ensures ReplaceWord("c", 1, ["ab", "xc"]) == Err(MissingSubstringMatch(1))
  {
    ExampleBuckets();
    ReplaceWordFailsIff("c", 1, ["ab", "xc"]);
  }

  /** The query "ab c" against the set {"ab", "xc"}: "c" has one substring
      match but sits at position 1, so the loop as written throws. */
  lemma SubstringIndexCounterexample()
    ensures RepairedQuery("ab c", ["ab", "xc"]) == Err(MissingSubstringMatch(1))
  {
    ExampleQueryWords();
    ExampleFails();
  }

  /** The loop over "ab" and "c" stops with the error of "c". */
  lemma ExampleFails()
    ensures Collect(Outcomes(["ab", "c"], ["ab", "xc"])) == Err(MissingSubstringMatch(1))
  {
    ExampleOutcomes();
    var outcomes: seq<Result<string>> := [Ok("ab"), Err(MissingSubstringMatch(1))];
    CollectFirstError(outcomes, 1);
  }

  /** Under the intended rule "ab" is kept and "c" becomes "xc". */
  lemma ExampleIntendedOutcomes()
    ensures IntendedOutcomes(["ab", "c"], ["ab", "xc"]) == [Ok("ab"), Ok("xc")]
  {
    var ws := ["ab", "xc"];
    ExampleIntendedKeeps();
    ExampleIntendedReplaces();
    var outcomes := IntendedOutcomes(["ab", "c"], ws);
    assert outcomes[0] == Ok("ab") && outcomes[1] == Ok("xc");
  }

  lemma ExampleIntendedKeeps()
    ensures ReplaceWordIntended("ab", ["ab", "xc"]) == "ab"
  {
    var ws := ["ab", "xc"];
    ExampleKeeps();
    AsWrittenAgreesOutsideSubstringTier("ab", 0, ws);
  }

  lemma ExampleIntendedReplaces()
    ensures ReplaceWordIntended("c", ["ab", "xc"]) == "xc"
  {
    var ws := ["ab", "xc"];
    ExampleBuckets();
    BucketSize("c", ws, Perfect);
    BucketSize("c", ws, PrefixMatch);
  }

  /** The same query under the intended rule becomes "ab,xc". */
  lemma SubstringIndexIntended()
    ensures RepairedQueryIntended("ab c", ["ab", "xc"]) == Ok("ab,xc")
  {
    ExampleQueryWords();
    ExampleIntendedOutcomes();
    ExampleJoined();
  }

  /** Both words repaired, joined with a comma. */
  lemma ExampleJoined()
    ensures Joined(Collect([Ok("ab"), Ok("xc")])) == Ok("ab,xc")
  {
    var outcomes: seq<Result<string>> := [Ok("ab"), Ok("xc")];
    CollectPointwise(outcomes);
    var v := Collect(outcomes).value;
    assert v == ["ab", "xc"];
    assert v[1..] == ["xc"];
    assert Join(v, ',') == "ab" + [','] + "xc" == "ab,xc";
  }
}
