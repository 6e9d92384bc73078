/** Character and string primitives the search code relies on: JavaScript's
    `trim`, `split(' ')`, `Array.prototype.toString` (a comma join), ASCII
    lower-casing (the case folding a case-insensitive literal regular
    expression performs on ASCII text) and `includes`/`startsWith`. */
module Strings {

  /** The whitespace `String.prototype.trim` strips, restricted to the ASCII
      set (tab, line feed, vertical tab, form feed, carriage return, space)
      and the no-break space. */
  predicate IsSpace(c: char) {
    c == ' ' || (9 <= c as int <= 13) || c as int == 0xA0
  }

  predicate AllSpace(s: string) {
    forall k :: 0 <= k < |s| ==> IsSpace(s[k])
  }

  /** Number of whitespace characters at the front of `s`. */
  function LeadingSpace(s: string): (n: nat)
    ensures n <= |s|
    ensures AllSpace(s[..n])
    ensures n == |s| || !IsSpace(s[n])
  {
    if |s| > 0 && IsSpace(s[0]) then
      var m := LeadingSpace(s[1..]);
      assert s[1..][..m] == s[1..m + 1];
      1 + m
    else 0
  }

  /** Number of whitespace characters at the end of `s`. */
  function TrailingSpace(s: string): (n: nat)
    ensures n <= |s|
    ensures AllSpace(s[|s| - n..])
    ensures n == |s| || !IsSpace(s[|s| - 1 - n])
  {
    if |s| > 0 && IsSpace(s[|s| - 1]) then
      var m := TrailingSpace(s[..|s| - 1]);
      assert s[..|s| - 1][|s| - 1 - m..] == s[|s| - 1 - m..|s| - 1];
      1 + m
    else 0
  }

  /** `String.prototype.trim`: the text between the leading and the trailing
      whitespace. */
  function Trim(s: string): (r: string)
    ensures |r| <= |s|
    ensures r == [] || (!IsSpace(r[0]) && !IsSpace(r[|r| - 1]))
    ensures LeadingSpace(s) + |r| <= |s|
    ensures r == s[LeadingSpace(s)..LeadingSpace(s) + |r|]
    ensures AllSpace(s[..LeadingSpace(s)]) && AllSpace(s[LeadingSpace(s) + |r|..])
  {
    var i := LeadingSpace(s);
    var j := TrailingSpace(s[i..]);
    assert s[i..][|s| - i - j..] == s[|s| - j..];
    s[i..|s| - j]
  }

  /** `s.split(sep)` for a one-character separator: the pieces between the
      separators, so that `k` separators give `k + 1` pieces (an empty string
      gives one empty piece). */
  function Split(s: string, sep: char): (r: seq<string>)
    ensures |r| >= 1
    ensures forall k :: 0 <= k < |r| ==> sep !in r[k]
  {
    if |s| == 0 then [""]
    else
      var rest := Split(s[1..], sep);
      assert s == [s[0]] + s[1..];
      if s[0] == sep then [""] + rest
      else [[s[0]] + rest[0]] + rest[1..]
  }

  /** `ws.join(sep)`, which is also what `Array.prototype.toString` produces
      for an array of strings when `sep` is a comma. */
  function Join(ws: seq<string>, sep: char): (r: string)
  {
    if |ws| == 0 then ""
    else if |ws| == 1 then ws[0]
    else ws[0] + [sep] + Join(ws[1..], sep)
  }

  /** Splitting undoes joining with a separator that occurs in no word. */
  lemma {:induction false} SplitJoin(ws: seq<string>, sep: char)
    requires |ws| > 0
    requires forall k :: 0 <= k < |ws| ==> sep !in ws[k]
    ensures Split(Join(ws, sep), sep) == ws
  {
    if |ws| > 1 {
      var j := Join(ws[1..], sep);
      var t := [sep] + j;
      SplitJoin(ws[1..], sep);
      JoinCons(ws, sep);
      assert Join(ws, sep) == ws[0] + t;
      assert t[1..] == j;
      var x := Split(t, sep);
      assert x == [""] + ws[1..];
      SplitPrefix(ws[0], t, sep);
      assert ws[0] + x[0] == ws[0];
      assert x[1..] == ws[1..];
      assert [ws[0]] + ws[1..] == ws;
    } else {
      SplitPrefix(ws[0], "", sep);
      assert ws[0] + "" == ws[0];
    }
  }

  /** Splitting `w + t`, where `w` holds no separator, glues `w` onto the
      first piece of `t`. */
  lemma {:induction false} SplitPrefix(w: string, t: string, sep: char)
    requires sep !in w
    ensures Split(w + t, sep) == [w + Split(t, sep)[0]] + Split(t, sep)[1..]
  {
    if |w| > 0 {
      SplitPrefix(w[1..], t, sep);
      assert (w + t)[1..] == w[1..] + t;
      assert [w[0]] + (w[1..] + Split(t, sep)[0]) == w + Split(t, sep)[0];
    } else {
      assert w + t == t;
      assert w + Split(t, sep)[0] == Split(t, sep)[0];
      assert [Split(t, sep)[0]] + Split(t, sep)[1..] == Split(t, sep);
    }
  }

  /** Joining the pieces of a split gives the original string back. */
  lemma {:induction false} JoinSplit(s: string, sep: char)
    ensures Join(Split(s, sep), sep) == s
  {
    if |s| > 0 {
      var tail := s[1..];
      var rest := Split(tail, sep);
      JoinSplit(tail, sep);
      assert s == [s[0]] + tail;
      if s[0] == sep {
        var r := [""] + rest;
        assert Split(s, sep) == r;
        assert r[1..] == rest;
        assert Join(r, sep) == "" + [sep] + Join(rest, sep);
      } else {
        var r := [[s[0]] + rest[0]] + rest[1..];
        assert Split(s, sep) == r;
        if |rest| == 1 {
          assert Join(r, sep) == [s[0]] + rest[0];
        } else {
          JoinCons(rest, sep);
          JoinCons(r, sep);
          assert r[1..] == rest[1..];
        }
      }
    }
  }

  lemma JoinCons(ws: seq<string>, sep: char)
    requires |ws| > 1
    ensures Join(ws, sep) == ws[0] + [sep] + Join(ws[1..], sep)
  {
  }

  /** ASCII lower-casing of one character. */
  function LowerChar(c: char): (d: char)
    ensures 'A' <= c <= 'Z' ==> 'a' <= d <= 'z' && d as int - c as int == 32
    ensures !('A' <= c <= 'Z') ==> d == c
  {
    if 'A' <= c <= 'Z' then (c as int + 32) as char else c
  }

  function Lower(s: string): (r: string)
    ensures |r| == |s|
    ensures forall k :: 0 <= k < |s| ==> r[k] == LowerChar(s[k])
  {
    seq(|s|, k requires 0 <= k < |s| => LowerChar(s[k]))
  }

  lemma LowerIdempotent(s: string)
    ensures Lower(Lower(s)) == Lower(s)
  {
  }

  /** `h.includes(n)` for a non-empty needle searched from position `from`
      onwards. */
  predicate OccursFrom(h: string, n: string, from: nat) {
    exists i :: from <= i <= |h| && OccursAt(h, n, i)
  }

  /** `n` occurs in `h` starting at position `i`. */
  predicate OccursAt(h: string, n: string, i: nat) {
    i + |n| <= |h| && h[i..i + |n|] == n
  }

  predicate Occurs(h: string, n: string) {
    OccursFrom(h, n, 0)
  }

  /** `n` is a strict prefix of `t`: `t.startsWith(n)` and `t !== n`. */
  predicate IsStrictPrefix(n: string, t: string) {
    n < t
  }

  /** A JavaScript `Set<string>` seen through its iteration order. */
  predicate Distinct(ws: seq<string>) {
    forall i, j :: 0 <= i < j < |ws| ==> ws[i] != ws[j]
  }
}
