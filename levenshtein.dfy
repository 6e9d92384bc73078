/** Edit distance as the fuzzy tier of the matching score uses it. The score
    calls the `js-levenshtein` package, whose code is not part of this model;
    it is stated here as the classic recursive definition: the least number of
    single-character insertions, deletions and substitutions turning one
    string into the other. */
module Levenshtein {

  function Min3(a: nat, b: nat, c: nat): (m: nat)
    ensures m <= a && m <= b && m <= c
    ensures m == a || m == b || m == c
  {
    if a <= b && a <= c then a else if b <= c then b else c
  }

  function EditDistance(a: string, b: string): nat
    decreases |a| + |b|
  {
    if |a| == 0 then |b|
    else if |b| == 0 then |a|
    else Min3(EditDistance(a[1..], b) + 1,
              EditDistance(a, b[1..]) + 1,
              EditDistance(a[1..], b[1..]) + (if a[0] == b[0] then 0 else 1))
  }

  /** Distance zero means the strings are equal, and only then. */
  lemma {:induction false} EditDistanceZeroIff(a: string, b: string)
    decreases |a| + |b|
    ensures EditDistance(a, b) == 0 <==> a == b
  {
    if |a| > 0 && |b| > 0 {
      EditDistanceZeroIff(a[1..], b[1..]);
      assert a == [a[0]] + a[1..] && b == [b[0]] + b[1..];
    }
  }

  /** Replacing position by position and inserting or deleting the rest never
      needs more edits than the longer string has characters. */
  lemma {:induction false} EditDistanceAtMostLonger(a: string, b: string)
    decreases |a| + |b|
    ensures EditDistance(a, b) <= if |a| <= |b| then |b| else |a|
  {
    if |a| > 0 && |b| > 0 {
      EditDistanceAtMostLonger(a[1..], b[1..]);
    }
  }

  /** At least the difference in length has to be inserted or deleted. */
  lemma {:induction false} EditDistanceAtLeastLengthGap(a: string, b: string)
    decreases |a| + |b|
    ensures EditDistance(a, b) >= |a| - |b| && EditDistance(a, b) >= |b| - |a|
  {
    if |a| > 0 && |b| > 0 {
      EditDistanceAtLeastLengthGap(a[1..], b);
      EditDistanceAtLeastLengthGap(a, b[1..]);
      EditDistanceAtLeastLengthGap(a[1..], b[1..]);
    }
  }
}
