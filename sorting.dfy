/** The array operations both rankers chain together: `Array.prototype.filter`
    and `Array.prototype.sort` with the comparator `(a, b) => b.score - a.score`.
    Since ECMAScript 2019 `sort` is stable, so the sort here is a stable
    insertion sort into non-increasing score order: elements with equal
    scores keep their original relative order. */
module Sorting {

  /** An element paired with its score, as the `{ word, score }` and
      `{ score, course }` records of the source. */
  datatype Scored<T> = Scored(item: T, score: real)

  predicate NonIncreasing<T>(s: seq<Scored<T>>) {
    forall i, j :: 0 <= i < j < |s| ==> s[i].score >= s[j].score
  }

  /** `s.filter(p)`: the elements satisfying `p`, in their original order. */
  function Filter<T>(s: seq<T>, p: T -> bool): (r: seq<T>)
    ensures |r| <= |s|
  {
    if s == [] then []
    else if p(s[0]) then [s[0]] + Filter(s[1..], p)
    else Filter(s[1..], p)
  }

  /** Every kept element comes from `s` and satisfies `p`. */
  lemma {:induction false} FilterMembers<T>(s: seq<T>, p: T -> bool)
    ensures forall i :: 0 <= i < |Filter(s, p)| ==> Filter(s, p)[i] in s && p(Filter(s, p)[i])
  {
    if s != [] {
      FilterMembers(s[1..], p);
      var rest := Filter(s[1..], p);
      forall i | 0 <= i < |rest| ensures rest[i] in s {
        assert rest[i] in s[1..];
      }
    }
  }

  /** Every element satisfying `p` is kept. */
  lemma {:induction false} FilterKeeps<T>(s: seq<T>, p: T -> bool, i: nat)
    requires i < |s| && p(s[i])
    ensures s[i] in Filter(s, p)
  {
    if i > 0 {
      FilterKeeps(s[1..], p, i - 1);
    }
  }

  lemma {:induction false} FilterAppend<T>(s: seq<T>, x: T, p: T -> bool)
    ensures Filter(s + [x], p) == Filter(s, p) + (if p(x) then [x] else [])
  {
    if s != [] {
      assert (s + [x])[1..] == s[1..] + [x];
      FilterAppend(s[1..], x, p);
    } else {
      assert [x][1..] == [];
    }
  }

  lemma {:induction false} FilterPrefix<T>(s: seq<T>, n: nat, p: T -> bool)
    requires n <= |s|
    ensures Filter(s[..n], p) <= Filter(s, p)
  {
    if n > 0 {
      assert s[..n][1..] == s[1..][..n - 1];
      FilterPrefix(s[1..], n - 1, p);
    }
  }

  /** Filtering keeps every copy of a kept element and no copy of another. */
  lemma {:induction false} FilterMultiset<T>(s: seq<T>, p: T -> bool, x: T)
    ensures multiset(Filter(s, p))[x] == if p(x) then multiset(s)[x] else 0
  {
    if s != [] {
      FilterMultiset(s[1..], p, x);
      assert s == [s[0]] + s[1..];
    }
  }

  /** Filtering by a stronger condition after a weaker one is filtering by
      the stronger one alone. */
  lemma {:induction false} FilterFilter<T>(s: seq<T>, p: T -> bool, q: T -> bool)
    requires forall x :: q(x) ==> p(x)
    ensures Filter(Filter(s, p), q) == Filter(s, q)
  {
    if s != [] {
      FilterFilter(s[1..], p, q);
    }
  }

  /** A condition every element meets keeps them all. */
  lemma {:induction false} FilterAll<T>(s: seq<T>, p: T -> bool)
    requires forall i :: 0 <= i < |s| ==> p(s[i])
    ensures Filter(s, p) == s
  {
    if s != [] {
      FilterAll(s[1..], p);
    }
  }

  /** A condition no element meets keeps none. */
  lemma {:induction false} FilterNone<T>(s: seq<T>, p: T -> bool)
    requires forall i :: 0 <= i < |s| ==> !p(s[i])
    ensures Filter(s, p) == []
  {
    if s != [] {
      FilterNone(s[1..], p);
    }
  }

  /** Multisets with the same multiplicities are equal. */
  lemma MultisetExt<T>(a: multiset<T>, b: multiset<T>)
    requires forall x: T :: a[x] == b[x]
    ensures a == b
  {
  }

  /** Filtering two orderings of the same elements keeps the same elements. */
  lemma FilterSameMultiset<T>(s: seq<T>, t: seq<T>, p: T -> bool)
    requires multiset(s) == multiset(t)
    ensures multiset(Filter(s, p)) == multiset(Filter(t, p))
  {
    var a, b := multiset(Filter(s, p)), multiset(Filter(t, p));
    forall x: T ensures a[x] == b[x] {
      FilterMultiset(s, p, x);
      FilterMultiset(t, p, x);
    }
    MultisetExt(a, b);
  }

  lemma {:induction false} FilterNonIncreasing<T>(s: seq<Scored<T>>, p: Scored<T> -> bool)
    requires NonIncreasing(s)
    ensures NonIncreasing(Filter(s, p))
  {
    if s != [] {
      FilterNonIncreasing(s[1..], p);
      FilterMembers(s[1..], p);
      var rest := Filter(s[1..], p);
      forall x | x in rest ensures s[0].score >= x.score {
        var j :| 0 <= j < |s[1..]| && s[1..][j] == x;
        assert s[j + 1] == x;
      }
    }
  }

  /** The first element `Filter` keeps sits at the first index satisfying
      `p`. */
  lemma {:induction false} FilterHead<T>(s: seq<T>, p: T -> bool, i: nat)
    requires i < |s| && p(s[i])
    requires forall j :: 0 <= j < i ==> !p(s[j])
    ensures Filter(s, p) != [] && Filter(s, p)[0] == s[i]
  {
    if i > 0 {
      FilterHead(s[1..], p, i - 1);
    }
  }

  lemma {:induction false} FilterHeadIndex<T>(s: seq<T>, p: T -> bool) returns (i: nat)
    requires Filter(s, p) != []
    ensures i < |s| && s[i] == Filter(s, p)[0] && p(s[i])
    ensures forall j :: 0 <= j < i ==> !p(s[j])
  {
    if p(s[0]) {
      i := 0;
    } else {
      var k := FilterHeadIndex(s[1..], p);
      i := k + 1;
    }
  }

  /** The elements of `s` whose score is exactly `k`, in order. */
  function WithScore<T>(s: seq<Scored<T>>, k: real): seq<Scored<T>> {
    Filter(s, (x: Scored<T>) => x.score == k)
  }

  /** The first element of score `k` sits at the first index holding that
      score. */
  lemma {:induction false} WithScoreHead<T>(s: seq<Scored<T>>, k: real, i: nat)
    requires i < |s| && s[i].score == k
    requires forall j :: 0 <= j < i ==> s[j].score != k
    ensures WithScore(s, k) != [] && WithScore(s, k)[0] == s[i]
  {
    if i > 0 {
      WithScoreHead(s[1..], k, i - 1);
    }
  }

  lemma {:induction false} WithScoreHeadIndex<T>(s: seq<Scored<T>>, k: real) returns (i: nat)
    requires WithScore(s, k) != []
    ensures i < |s| && s[i] == WithScore(s, k)[0] && s[i].score == k
    ensures forall j :: 0 <= j < i ==> s[j].score != k
  {
    if s[0].score == k {
      i := 0;
    } else {
      var t := WithScoreHeadIndex(s[1..], k);
      i := t + 1;
    }
  }

  /** Inserting `x` into a non-increasing sequence in front of the first
      element it is not smaller than. */
  function Insert<T>(x: Scored<T>, s: seq<Scored<T>>): (r: seq<Scored<T>>)
    ensures |r| == |s| + 1
  {
    if s == [] || x.score >= s[0].score then [x] + s
    else [s[0]] + Insert(x, s[1..])
  }

  lemma {:induction false} InsertMultiset<T>(x: Scored<T>, s: seq<Scored<T>>)
    ensures multiset(Insert(x, s)) == multiset(s) + multiset{x}
  {
    if s != [] && x.score < s[0].score {
      InsertMultiset(x, s[1..]);
      assert s == [s[0]] + s[1..];
    }
  }

  lemma {:induction false} InsertNonIncreasing<T>(x: Scored<T>, s: seq<Scored<T>>)
    requires NonIncreasing(s)
    ensures NonIncreasing(Insert(x, s))
  {
    if s != [] && x.score < s[0].score {
      InsertNonIncreasing(x, s[1..]);
      var rest := Insert(x, s[1..]);
      assert |s| > 1 ==> s[0].score >= s[1].score;
      assert rest[0] == x || rest[0] == s[1..][0];
      assert s[0].score >= rest[0].score;
      assert Insert(x, s) == [s[0]] + rest;
    }
  }

  /** `arr.sort((a, b) => b.score - a.score)`. */
  function SortDesc<T>(s: seq<Scored<T>>): (r: seq<Scored<T>>)
    ensures |r| == |s|
  {
    if s == [] then []
    else Insert(s[0], SortDesc(s[1..]))
  }

  /** The sort puts the scores in non-increasing order. */
  lemma {:induction false} SortDescOrders<T>(s: seq<Scored<T>>)
    ensures NonIncreasing(SortDesc(s))
  {
    if s != [] {
      SortDescOrders(s[1..]);
      InsertNonIncreasing(s[0], SortDesc(s[1..]));
    }
  }

  /** The sort only reorders: the result is a permutation of the input. */
  lemma {:induction false} SortDescPermutes<T>(s: seq<Scored<T>>)
    ensures multiset(SortDesc(s)) == multiset(s)
  {
    if s != [] {
      SortDescPermutes(s[1..]);
      InsertMultiset(s[0], SortDesc(s[1..]));
      assert s == [s[0]] + s[1..];
    }
  }

  /** Insertion places `x` in front of every element of equal score. */
  lemma {:induction false} InsertWithScore<T>(x: Scored<T>, s: seq<Scored<T>>, k: real)
    ensures WithScore(Insert(x, s), k) == (if x.score == k then [x] else []) + WithScore(s, k)
  {
    if s != [] && x.score < s[0].score {
      InsertWithScore(x, s[1..], k);
      assert Insert(x, s) == [s[0]] + Insert(x, s[1..]);
      if x.score == k {
        assert s[0].score != k;
      }
    }
  }

  /** Stability: for every score, the elements having it appear in the sorted
      sequence in the order they had before. */
  lemma {:induction false} SortDescStable<T>(s: seq<Scored<T>>, k: real)
    ensures WithScore(SortDesc(s), k) == WithScore(s, k)
  {
    if s != [] {
      SortDescStable(s[1..], k);
      InsertWithScore(s[0], SortDesc(s[1..]), k);
    }
  }

  function Items<T>(s: seq<Scored<T>>): (r: seq<T>)
    ensures |r| == |s|
    ensures forall i :: 0 <= i < |s| ==> r[i] == s[i].item
  {
    seq(|s|, i requires 0 <= i < |s| => s[i].item)
  }

  /** `arr.splice(0, n)` as a value: the first `n` elements, or all of them
      when there are fewer. */
  function Take<T>(s: seq<T>, n: nat): (r: seq<T>)
    ensures |r| == if |s| < n then |s| else n
    ensures r <= s
  {
    if |s| < n then s else s[..n]
  }
}
