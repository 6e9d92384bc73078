/** The search step of the `App` component in src/App.tsx: the query is
    ranked against the corpus only when it is non-empty. The copies of
    `algorithm`, `getScore` and `count` in that file are the ones of
    src/util/v1.ts and are modelled there. */
module App {
  import opened Strings
  import opened Sorting
  import opened V1

  /** `searchQuery ? algorithm(searchQuery, allCourses) : []`. */
  function SearchResults(searchQuery: string, allCourses: seq<Course>): (r: seq<Course>)
    ensures |r| <= Limit
  {
    if searchQuery == "" then [] else Algorithm(searchQuery, allCourses)
  }

  /** Nothing is shown exactly when the query is empty or occurs, ignoring
      case, in no name, description or title of the corpus. */
  lemma SearchResultsEmptyIff(searchQuery: string, allCourses: seq<Course>)
    ensures SearchResults(searchQuery, allCourses) == [] <==>
      (searchQuery == "" || forall c :: c in allCourses ==>
        !Occurs(Lower(c.name), Lower(searchQuery))
        && !Occurs(Lower(c.description), Lower(searchQuery))
        && !Occurs(Lower(c.title), Lower(searchQuery)))
  {
    if searchQuery != "" {
      var relevant := Filter(allCourses, c => Relevant(searchQuery, c));
      AlgorithmSize(searchQuery, allCourses);
      if relevant == [] {
        forall c | c in allCourses ensures !Relevant(searchQuery, c) {
          var i :| 0 <= i < |allCourses| && allCourses[i] == c;
          if Relevant(searchQuery, c) {
            FilterKeeps(allCourses, c => Relevant(searchQuery, c), i);
          }
        }
      } else {
        FilterMembers(allCourses, c => Relevant(searchQuery, c));
        assert relevant[0] in allCourses && Relevant(searchQuery, relevant[0]);
      }
    }
  }

  /** A non-empty query shows what `algorithm` ranks first: at most ten
      relevant courses of the corpus, best first. */
  lemma SearchResultsRanked(searchQuery: string, allCourses: seq<Course>)
    requires searchQuery != ""
    ensures var r := SearchResults(searchQuery, allCourses);
      (forall i :: 0 <= i < |r| ==> r[i] in allCourses && GetScore(r[i], searchQuery) > 0)
      && (forall i, j :: 0 <= i < j < |r| ==> GetScore(r[i], searchQuery) >= GetScore(r[j], searchQuery))
  {
    AlgorithmRelevant(searchQuery, allCourses);
    AlgorithmOrdered(searchQuery, allCourses);
  }
}
