/** The substring-count ranker of src/util/v1.ts (written out again, verbatim,
    in src/App.tsx): every course gets a score from the occurrences of the
    query in its name, description and title; the courses are stably sorted
    by score, highest first, the zero scores dropped and the first ten
    kept. */
module V1 {
  import opened Strings
  import opened Sorting
  import opened Occurrences

  /** The fields of a course record the ranker reads, and its link. */
  datatype Course = Course(name: string, title: string, description: string, link: string)

  /** `.splice(0, 10)`. */
  const Limit: nat := 10

  /** Added once when the name mentions the query. */
  const NameBonus: nat := 100

  /** `getScore(c, searchQuery)`: the name bonus plus the number of
      occurrences in the description and in the title. */
  function GetScore(c: Course, searchQuery: string): (r: nat)
    ensures Occurs(Lower(c.name), Lower(searchQuery)) ==> r >= NameBonus
    ensures |searchQuery| == 0 ==> r == NameBonus + |c.description| + |c.title| + 2
    ensures |searchQuery| > 0 ==>
      (r == 0 <==> (!Occurs(Lower(c.name), Lower(searchQuery))
                 && !Occurs(Lower(c.description), Lower(searchQuery))
                 && !Occurs(Lower(c.title), Lower(searchQuery))))
  {
    var bonus := if Count(c.name, searchQuery) > 0 then NameBonus else 0;
    bonus + Count(c.description, searchQuery) + Count(c.title, searchQuery)
  }

  /** `allCourses.map(course => ({ score: getScore(course, searchQuery), course }))`. */
  function ScoreCourses(searchQuery: string, allCourses: seq<Course>): (r: seq<Scored<Course>>)
    ensures |r| == |allCourses|
  {
    seq(|allCourses|, i requires 0 <= i < |allCourses| =>
      Scored(allCourses[i], GetScore(allCourses[i], searchQuery) as real))
  }

  lemma ScoreCoursesAt(searchQuery: string, allCourses: seq<Course>)
    ensures forall i :: 0 <= i < |allCourses| ==>
      ScoreCourses(searchQuery, allCourses)[i]
        == Scored(allCourses[i], GetScore(allCourses[i], searchQuery) as real)
  {
  }

  /** `data.score != 0`. */
  predicate Nonzero(x: Scored<Course>) {
    x.score != 0.0
  }

  /** A course the ranker can return for the query. */
  predicate Relevant(searchQuery: string, c: Course) {
    GetScore(c, searchQuery) > 0
  }

  function HasScore(searchQuery: string, k: nat): Course -> bool {
    c => GetScore(c, searchQuery) == k
  }

  /** The whole ranking before the cut to ten: sorted, then filtered. */
  function Ranking(searchQuery: string, allCourses: seq<Course>): seq<Scored<Course>> {
    Filter(SortDesc(ScoreCourses(searchQuery, allCourses)), Nonzero)
  }

  /** `algorithm(searchQuery, allCourses)`. */
  function Algorithm(searchQuery: string, allCourses: seq<Course>): (r: seq<Course>)
    ensures |r| <= Limit
  {
    Take(Items(Ranking(searchQuery, allCourses)), Limit)
  }

  /** Every ranked entry is a course of the corpus with its own, positive,
      score. */
  lemma RankingEntries(searchQuery: string, allCourses: seq<Course>)
    ensures forall i :: 0 <= i < |Ranking(searchQuery, allCourses)| ==>
      var e := Ranking(searchQuery, allCourses)[i];
      e.item in allCourses && e.score == GetScore(e.item, searchQuery) as real
      && Relevant(searchQuery, e.item)
  {
    var scored := ScoreCourses(searchQuery, allCourses);
    var sorted := SortDesc(scored);
    SortDescPermutes(scored);
    FilterMembers(sorted, Nonzero);
    ScoreCoursesAt(searchQuery, allCourses);
    forall i | 0 <= i < |Ranking(searchQuery, allCourses)|
      ensures var e := Ranking(searchQuery, allCourses)[i];
        e.item in allCourses && e.score == GetScore(e.item, searchQuery) as real
    {
      var e := Ranking(searchQuery, allCourses)[i];
      assert e in multiset(sorted);
      var j :| 0 <= j < |scored| && scored[j] == e;
    }
  }

  lemma RankingOrdered(searchQuery: string, allCourses: seq<Course>)
    ensures NonIncreasing(Ranking(searchQuery, allCourses))
  {
    var scored := ScoreCourses(searchQuery, allCourses);
    SortDescOrders(scored);
    FilterNonIncreasing(SortDesc(scored), Nonzero);
  }

  /** Scoring keeps the corpus order among courses of one score. */
  lemma {:induction false} ScoredWithScore(searchQuery: string, allCourses: seq<Course>, k: nat)
    ensures Items(WithScore(ScoreCourses(searchQuery, allCourses), k as real))
         == Filter(allCourses, HasScore(searchQuery, k))
  {
    if allCourses != [] {
      var scored := ScoreCourses(searchQuery, allCourses);
      ScoredWithScore(searchQuery, allCourses[1..], k);
      assert scored[1..] == ScoreCourses(searchQuery, allCourses[1..]);
      var rest := WithScore(scored[1..], k as real);
      if scored[0].score == k as real {
        assert Items([scored[0]] + rest) == [allCourses[0]] + Items(rest);
      }
    }
  }

  /** Scoring keeps exactly the relevant courses nonzero. */
  lemma {:induction false} ScoredNonzero(searchQuery: string, allCourses: seq<Course>)
    ensures |Filter(ScoreCourses(searchQuery, allCourses), Nonzero)|
         == |Filter(allCourses, c => Relevant(searchQuery, c))|
  {
    if allCourses != [] {
      ScoredNonzero(searchQuery, allCourses[1..]);
      assert ScoreCourses(searchQuery, allCourses)[1..] == ScoreCourses(searchQuery, allCourses[1..]);
    }
  }

  /** Stability: among courses of one positive score, the ranking keeps
      them all, in corpus order. */
  lemma RankingStable(searchQuery: string, allCourses: seq<Course>, k: nat)
    requires k > 0
    ensures Items(WithScore(Ranking(searchQuery, allCourses), k as real))
         == Filter(allCourses, HasScore(searchQuery, k))
  {
    var scored := ScoreCourses(searchQuery, allCourses);
    FilterFilter(SortDesc(scored), Nonzero, (x: Scored<Course>) => x.score == k as real);
    SortDescStable(scored, k as real);
    ScoredWithScore(searchQuery, allCourses, k);
  }

  /** The ranking holds as many entries as there are relevant courses. */
  lemma RankingSize(searchQuery: string, allCourses: seq<Course>)
    ensures |Ranking(searchQuery, allCourses)| == |Filter(allCourses, c => Relevant(searchQuery, c))|
  {
    var scored := ScoreCourses(searchQuery, allCourses);
    SortDescPermutes(scored);
    FilterSameMultiset(SortDesc(scored), scored, Nonzero);
    assert |multiset(Ranking(searchQuery, allCourses))| == |multiset(Filter(scored, Nonzero))|;
    ScoredNonzero(searchQuery, allCourses);
  }

  /** In a ranking whose entries carry their own scores, the courses of one
      score are the entries of that score. */
  lemma {:induction false} ItemsWithScore(searchQuery: string, ranked: seq<Scored<Course>>, k: nat)
    requires forall i :: 0 <= i < |ranked| ==> ranked[i].score == GetScore(ranked[i].item, searchQuery) as real
    ensures Filter(Items(ranked), HasScore(searchQuery, k)) == Items(WithScore(ranked, k as real))
  {
    if ranked != [] {
      ItemsWithScore(searchQuery, ranked[1..], k);
      assert Items(ranked)[1..] == Items(ranked[1..]);
      var rest := WithScore(ranked[1..], k as real);
      if ranked[0].score == k as real {
        assert Items([ranked[0]] + rest) == [ranked[0].item] + Items(rest);
      }
    }
  }

  /** `algorithm` returns as many courses as there are relevant ones, up to
      ten. */
  lemma AlgorithmSize(searchQuery: string, allCourses: seq<Course>)
    ensures var n := |Filter(allCourses, c => Relevant(searchQuery, c))|;
      |Algorithm(searchQuery, allCourses)| == if n < Limit then n else Limit
  {
    RankingSize(searchQuery, allCourses);
  }

  /** Every returned course is a course of the corpus with a nonzero
      score. */
  lemma AlgorithmRelevant(searchQuery: string, allCourses: seq<Course>)
    ensures var r := Algorithm(searchQuery, allCourses);
      forall i :: 0 <= i < |r| ==> r[i] in allCourses && Relevant(searchQuery, r[i])
  {
    RankingEntries(searchQuery, allCourses);
  }

  /** The returned courses come best first. */
  lemma AlgorithmOrdered(searchQuery: string, allCourses: seq<Course>)
    ensures var r := Algorithm(searchQuery, allCourses);
      forall i, j :: 0 <= i < j < |r| ==> GetScore(r[i], searchQuery) >= GetScore(r[j], searchQuery)
  {
    var ranked := Ranking(searchQuery, allCourses);
    var r := Algorithm(searchQuery, allCourses);
    RankingEntries(searchQuery, allCourses);
    RankingOrdered(searchQuery, allCourses);
    forall i, j | 0 <= i < j < |r|
      ensures GetScore(r[i], searchQuery) >= GetScore(r[j], searchQuery)
    {
      assert r[i] == ranked[i].item && r[j] == ranked[j].item;
      assert ranked[i].score >= ranked[j].score;
    }
  }

  /** For every score, the returned courses having it are the first courses
      of the corpus having it, in corpus order. */
  lemma AlgorithmStable(searchQuery: string, allCourses: seq<Course>, k: nat)
    ensures Filter(Algorithm(searchQuery, allCourses), HasScore(searchQuery, k))
         <= Filter(allCourses, HasScore(searchQuery, k))
  {
    var ranked := Ranking(searchQuery, allCourses);
    var items := Items(ranked);
    var r := Algorithm(searchQuery, allCourses);
    var h := HasScore(searchQuery, k);
    assert r == items[..|r|];
    FilterPrefix(items, |r|, h);
    RankingEntries(searchQuery, allCourses);
    if k == 0 {
      forall i | 0 <= i < |r| ensures !h(r[i]) {
        assert r[i] == ranked[i].item;
      }
      FilterNone(r, h);
    } else {
      ItemsWithScore(searchQuery, ranked, k);
      RankingStable(searchQuery, allCourses, k);
    }
  }

  /** Every relevant course of the corpus has an entry in the ranking. */
  lemma RankingComplete(searchQuery: string, allCourses: seq<Course>, c: Course)
    requires c in allCourses && Relevant(searchQuery, c)
    ensures exists j :: 0 <= j < |Ranking(searchQuery, allCourses)| && Ranking(searchQuery, allCourses)[j].item == c
  {
    var scored := ScoreCourses(searchQuery, allCourses);
    var sorted := SortDesc(scored);
    var i :| 0 <= i < |allCourses| && allCourses[i] == c;
    ScoreCoursesAt(searchQuery, allCourses);
    var e := scored[i];
    SortDescPermutes(scored);
    assert e in multiset(sorted);
    var m :| 0 <= m < |sorted| && sorted[m] == e;
    FilterKeeps(sorted, Nonzero, m);
    var ranked := Ranking(searchQuery, allCourses);
    var j :| 0 <= j < |ranked| && ranked[j] == e;
  }

  /** The courses returned are the best ones: a relevant course left out
      scores no higher than the last course returned, and nothing relevant
      is left out when fewer than ten come back. */
  lemma AlgorithmKeepsBest(searchQuery: string, allCourses: seq<Course>, c: Course)
    requires c in allCourses && Relevant(searchQuery, c)
    ensures var r := Algorithm(searchQuery, allCourses);
      |r| > 0 && (c in r || (|r| == Limit && GetScore(c, searchQuery) <= GetScore(r[|r| - 1], searchQuery)))
  {
    var ranked := Ranking(searchQuery, allCourses);
    var r := Algorithm(searchQuery, allCourses);
    RankingComplete(searchQuery, allCourses, c);
    var j :| 0 <= j < |ranked| && ranked[j].item == c;
    RankingEntries(searchQuery, allCourses);
    if j >= |r| {
      RankingOrdered(searchQuery, allCourses);
      assert r[|r| - 1] == ranked[|r| - 1].item;
      assert ranked[|r| - 1].score >= ranked[j].score;
    } else {
      assert r[j] == c;
    }
  }

  /** An empty query gives every course a score of at least 100, so every
      course is relevant and ten of them come back when there are ten. */
  lemma EmptyQueryRanksAll(allCourses: seq<Course>)
    ensures |Algorithm("", allCourses)| == if |allCourses| < Limit then |allCourses| else Limit
  {
    FilterAll(allCourses, c => Relevant("", c));
    AlgorithmSize("", allCourses);
  }
}
