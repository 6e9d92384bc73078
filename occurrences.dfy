/** The `count(main_str, sub_str)` helper, written out identically in
    src/util/relevancyAlgorithm.ts, src/util/v1.ts and src/App.tsx: an empty
    needle yields `|main| + 1`; otherwise the needle is escaped into a literal
    regular expression with the `g` and `i` flags and the number of matches
    of `main.match(...)` is returned. A global literal match scans from the
    left, takes the leftmost occurrence at or after the current position and
    resumes right after it, so the matches never overlap. */
module Occurrences {
  import opened Strings

  /** No occurrence of `n` in `h` starts in `[lo, hi)`. */
  predicate NoneBetween(h: string, n: string, lo: nat, hi: nat)
    decreases hi - lo
  {
    lo >= hi || (!OccursAt(h, n, lo) && NoneBetween(h, n, lo + 1, hi))
  }

  lemma {:induction false} NoneBetweenAt(h: string, n: string, lo: nat, hi: nat, i: nat)
    requires NoneBetween(h, n, lo, hi) && lo <= i < hi
    decreases hi - lo
    ensures !OccursAt(h, n, i)
  {
    if lo < i {
      NoneBetweenAt(h, n, lo + 1, hi, i);
    }
  }

  /** Nothing starting at `lo` or later fits when the rest of `h` is shorter
      than `n`. */
  lemma {:induction false} NoneTooShort(h: string, n: string, lo: nat, hi: nat)
    requires lo + |n| > |h|
    decreases hi - lo
    ensures NoneBetween(h, n, lo, hi)
  {
    if lo < hi {
      NoneTooShort(h, n, lo + 1, hi);
    }
  }

  /** The start positions a global literal match of the non-empty `n` finds
      in `h` when it begins at position `from`: the leftmost occurrence at or
      after the current position is taken and the search resumes right
      after it. */
  function Scan(h: string, n: string, from: nat): (r: seq<nat>)
    requires |n| > 0 && from <= |h|
    decreases |h| - from
    ensures forall k :: 0 <= k < |r| ==> from <= r[k] && r[k] + |n| <= |h|
    // matches do not overlap
    ensures forall k :: 0 < k < |r| ==> r[k - 1] + |n| <= r[k]
  {
    if |h| - from < |n| then []
    else if h[from..from + |n|] == n then [from] + Scan(h, n, from + |n|)
    else Scan(h, n, from + 1)
  }

  /** Every reported position is an occurrence of the needle. */
  lemma {:induction false} ScanHits(h: string, n: string, from: nat)
    requires |n| > 0 && from <= |h|
    decreases |h| - from
    ensures forall k :: 0 <= k < |Scan(h, n, from)| ==> OccursAt(h, n, Scan(h, n, from)[k])
  {
    if |h| - from >= |n| {
      if h[from..from + |n|] == n {
        ScanHits(h, n, from + |n|);
        var rest := Scan(h, n, from + |n|);
        var r := [from] + rest;
        assert Scan(h, n, from) == r;
        forall k | 0 <= k < |r|
          ensures OccursAt(h, n, r[k])
        {
          if k > 0 {
            assert r[k] == rest[k - 1];
          }
        }
      } else {
        ScanHits(h, n, from + 1);
      }
    }
  }

  /** The first reported position is the leftmost occurrence. */
  lemma {:induction false} ScanFirst(h: string, n: string, from: nat)
    requires |n| > 0 && from <= |h|
    decreases |h| - from
    ensures |Scan(h, n, from)| > 0 ==> NoneBetween(h, n, from, Scan(h, n, from)[0])
  {
    if |h| - from >= |n| && h[from..from + |n|] != n {
      ScanFirst(h, n, from + 1);
    }
  }

  /** Between consecutive positions of `r`, no occurrence starts after the
      end of the earlier match. */
  predicate NoneSkipped(h: string, n: string, r: seq<nat>) {
    forall k :: 0 < k < |r| ==> NoneBetween(h, n, r[k - 1] + |n|, r[k])
  }

  lemma NoneSkippedCons(h: string, n: string, p: nat, rest: seq<nat>)
    requires NoneSkipped(h, n, rest)
    requires |rest| > 0 ==> NoneBetween(h, n, p + |n|, rest[0])
    ensures NoneSkipped(h, n, [p] + rest)
  {
    var r := [p] + rest;
    forall k | 0 < k < |r|
      ensures NoneBetween(h, n, r[k - 1] + |n|, r[k])
    {
      if k == 1 {
        assert r[0] == p && r[1] == rest[0];
      } else {
        assert r[k - 1] == rest[k - 2] && r[k] == rest[k - 1];
      }
    }
  }

  /** Each next reported position is the leftmost occurrence after the end of
      the previous match. */
  lemma {:induction false} ScanGaps(h: string, n: string, from: nat)
    requires |n| > 0 && from <= |h|
    decreases |h| - from
    ensures NoneSkipped(h, n, Scan(h, n, from))
  {
    if |h| - from >= |n| {
      if h[from..from + |n|] == n {
        ScanGaps(h, n, from + |n|);
        ScanGapsAfterHit(h, n, from);
      } else {
        ScanGaps(h, n, from + 1);
        assert Scan(h, n, from) == Scan(h, n, from + 1);
      }
    }
  }

  lemma ScanGapsAfterHit(h: string, n: string, from: nat)
    requires |n| > 0 && from + |n| <= |h| && h[from..from + |n|] == n
    requires NoneSkipped(h, n, Scan(h, n, from + |n|))
    ensures NoneSkipped(h, n, Scan(h, n, from))
  {
    ScanFirst(h, n, from + |n|);
    NoneSkippedCons(h, n, from, Scan(h, n, from + |n|));
    assert Scan(h, n, from) == [from] + Scan(h, n, from + |n|);
  }

  /** Where the search stands after its last match: the end of that match,
      or `from` when there is none. */
  function LastEnd(h: string, n: string, from: nat): nat
    requires |n| > 0 && from <= |h|
  {
    var r := Scan(h, n, from);
    if |r| == 0 then from else r[|r| - 1] + |n|
  }

  /** No occurrence starts after the end of the last reported match. */
  lemma {:induction false} ScanLast(h: string, n: string, from: nat)
    requires |n| > 0 && from <= |h|
    decreases |h| - from
    ensures NoneBetween(h, n, LastEnd(h, n, from), |h|)
  {
    if |h| - from < |n| {
      NoneTooShort(h, n, from, |h|);
    } else if h[from..from + |n|] == n {
      ScanLast(h, n, from + |n|);
      LastEndAfterHit(h, n, from);
    } else {
      ScanLast(h, n, from + 1);
      LastEndAfterMiss(h, n, from);
    }
  }

  lemma LastEndAfterHit(h: string, n: string, from: nat)
    requires |n| > 0 && from + |n| <= |h| && h[from..from + |n|] == n
    ensures LastEnd(h, n, from) == LastEnd(h, n, from + |n|)
  {
    assert Scan(h, n, from) == [from] + Scan(h, n, from + |n|);
  }

  lemma LastEndAfterMiss(h: string, n: string, from: nat)
    requires |n| > 0 && from + |n| <= |h| && h[from..from + |n|] != n
    requires NoneBetween(h, n, LastEnd(h, n, from + 1), |h|)
    ensures NoneBetween(h, n, LastEnd(h, n, from), |h|)
  {
    assert Scan(h, n, from) == Scan(h, n, from + 1);
    if |Scan(h, n, from + 1)| == 0 {
      assert LastEnd(h, n, from) == from && LastEnd(h, n, from + 1) == from + 1;
      assert !OccursAt(h, n, from);
    } else {
      assert LastEnd(h, n, from) == LastEnd(h, n, from + 1);
    }
  }

  /** A match is found exactly when the needle occurs at or after `from`. */
  lemma ScanFindsIffOccurs(h: string, n: string, from: nat)
    requires |n| > 0 && from <= |h|
    ensures |Scan(h, n, from)| > 0 <==> OccursFrom(h, n, from)
  {
    var r := Scan(h, n, from);
    if |r| > 0 {
      ScanHits(h, n, from);
      assert OccursAt(h, n, r[0]);
    } else {
      ScanLast(h, n, from);
      forall i | from <= i
        ensures !OccursAt(h, n, i)
      {
        if i < |h| {
          NoneBetweenAt(h, n, from, |h|, i);
        }
      }
    }
  }

  /** Non-overlapping matches of `n` fit into what is left of `h`. */
  lemma {:induction false} ScanBound(h: string, n: string, from: nat)
    requires |n| > 0 && from <= |h|
    decreases |h| - from
    ensures |Scan(h, n, from)| * |n| <= |h| - from
  {
    if |h| - from >= |n| {
      if h[from..from + |n|] == n {
        ScanBound(h, n, from + |n|);
        MulSucc(|Scan(h, n, from + |n|)|, |n|);
      } else {
        ScanBound(h, n, from + 1);
      }
    }
  }

  lemma MulSucc(m: nat, k: nat)
    ensures (m + 1) * k == m * k + k
  {
  }

  /** `count(main_str, sub_str)`; case-insensitivity is ASCII lower-casing of
      both sides. */
  function Count(main: string, sub: string): (r: nat)
    ensures |sub| == 0 ==> r == |main| + 1
    ensures |sub| > 0 ==> r * |sub| <= |main|
    ensures |sub| > 0 ==> (r > 0 <==> Occurs(Lower(main), Lower(sub)))
  {
    if |sub| == 0 then |main| + 1
    else
      ScanFindsIffOccurs(Lower(main), Lower(sub), 0);
      ScanBound(Lower(main), Lower(sub), 0);
      |Scan(Lower(main), Lower(sub), 0)|
  }

  /** Lower-casing either argument first does not change the count. */
  lemma CountIgnoresCase(main: string, sub: string)
    ensures Count(Lower(main), Lower(sub)) == Count(main, sub)
  {
    LowerIdempotent(main);
    LowerIdempotent(sub);
  }
}
