/** The edit distance the search minimises: the number of single-character
    insertions, deletions and substitutions that turn one file's text into
    the other's. `Distance` is the textbook recurrence on the last
    characters; `LevenshteinDistance` is the one-row dynamic programme the
    program runs, which copies the diagonal cost outright when the two
    characters match. */
module Levenshtein {

  function Min3(x: nat, y: nat, z: nat): (r: nat)
    ensures r <= x && r <= y && r <= z
    ensures r == x || r == y || r == z
  {
    if x <= y && x <= z then x else if y <= z then y else z
  }

  /** The textbook edit distance between `a` and `b`. */
  function Distance(a: string, b: string): nat
    decreases |a| + |b|
  {
    if |a| == 0 then |b|
    else if |b| == 0 then |a|
    else
      var a', b' := a[..|a| - 1], b[..|b| - 1];
      var sub := if a[|a| - 1] == b[|b| - 1] then 0 else 1;
      Min3(Distance(a', b) + 1, Distance(a, b') + 1, Distance(a', b') + sub)
  }

  /** Dropping the last character of `a` costs at most one deletion. */
  lemma DropLastOfA(a: string, b: string)
    requires |a| > 0
    ensures Distance(a, b) <= Distance(a[..|a| - 1], b) + 1
  {
  }

  /** Dropping the last character of `b` costs at most one insertion. */
  lemma DropLastOfB(a: string, b: string)
    requires |b| > 0
    ensures Distance(a, b) <= Distance(a, b[..|b| - 1]) + 1
  {
  }

  /** Shortening `b` by its last character lowers the distance by at most
      one. */
  lemma {:induction false} ShorterB(a: string, b: string)
    requires |b| > 0
    ensures Distance(a, b[..|b| - 1]) <= Distance(a, b) + 1
    decreases |a|
  {
    if |a| > 0 {
      var a', b' := a[..|a| - 1], b[..|b| - 1];
      ShorterB(a', b);
      DropLastOfA(a, b');
    }
  }

  /** Shortening `a` by its last character lowers the distance by at most
      one. */
  lemma {:induction false} ShorterA(a: string, b: string)
    requires |a| > 0
    ensures Distance(a[..|a| - 1], b) <= Distance(a, b) + 1
    decreases |b|
  {
    if |b| > 0 {
      var a', b' := a[..|a| - 1], b[..|b| - 1];
      ShorterA(a, b');
      DropLastOfB(a', b);
    }
  }

  /** When the last characters match, the distance is that of the two
      shortened strings: neither a deletion nor an insertion can beat
      keeping the matching pair. This is what lets the program copy the
      diagonal cost without taking a minimum. */
  lemma MatchingLast(a: string, b: string)
    requires |a| > 0 && |b| > 0 && a[|a| - 1] == b[|b| - 1]
    ensures Distance(a, b) == Distance(a[..|a| - 1], b[..|b| - 1])
  {
    var a', b' := a[..|a| - 1], b[..|b| - 1];
    ShorterB(a', b);
    ShorterA(a, b');
  }

  /** A text is at distance zero from itself. */
  lemma {:induction false} DistanceToSelf(s: string)
    ensures Distance(s, s) == 0
  {
    if |s| > 0 {
      DistanceToSelf(s[..|s| - 1]);
    }
  }

  /** Distance zero means the texts are equal. */
  lemma {:induction false} ZeroMeansEqual(a: string, b: string)
    requires Distance(a, b) == 0
    ensures a == b
    decreases |a| + |b|
  {
    if |a| > 0 && |b| > 0 {
      var a', b' := a[..|a| - 1], b[..|b| - 1];
      ZeroMeansEqual(a', b');
      assert a == a' + [a[|a| - 1]] && b == b' + [b[|b| - 1]];
    }
  }

  /** The distance is at least the difference in length and at most the
      longer length. */
  lemma {:induction false} DistanceBounds(a: string, b: string)
    ensures Distance(a, b) >= |a| - |b| && Distance(a, b) >= |b| - |a|
    ensures Distance(a, b) <= if |a| <= |b| then |b| else |a|
    decreases |a| + |b|
  {
    if |a| > 0 && |b| > 0 {
      var a', b' := a[..|a| - 1], b[..|b| - 1];
      DistanceBounds(a', b);
      DistanceBounds(a, b');
      DistanceBounds(a', b');
    }
  }

  /** The distance does not depend on which text comes first. */
  lemma {:induction false} DistanceSymmetric(a: string, b: string)
    ensures Distance(a, b) == Distance(b, a)
    decreases |a| + |b|
  {
    if |a| > 0 && |b| > 0 {
      var a', b' := a[..|a| - 1], b[..|b| - 1];
      DistanceSymmetric(a', b);
      DistanceSymmetric(a, b');
      DistanceSymmetric(a', b');
    }
  }

  /** The distance between two prefixes, from the three neighbouring
      prefix distances: the cell update of the dynamic programme. */
  lemma Cell(a: string, b: string, i: nat, j: nat)
    requires i < |a| && j < |b|
    ensures a[i] == b[j] ==> Distance(a[..i + 1], b[..j + 1]) == Distance(a[..i], b[..j])
    ensures a[i] != b[j] ==>
      Distance(a[..i + 1], b[..j + 1]) ==
        Min3(Distance(a[..i], b[..j + 1]), Distance(a[..i + 1], b[..j]), Distance(a[..i], b[..j])) + 1
  {
    assert a[..i + 1][..i] == a[..i];
    assert b[..j + 1][..j] == b[..j];
    if a[i] == b[j] {
      MatchingLast(a[..i + 1], b[..j + 1]);
    }
  }

  /** The edges of the table: against an empty text, the distance is the
      other text's length. */
  lemma Edges(a: string, i: nat)
    requires i <= |a|
    ensures Distance(a[..i], []) == i && Distance([], a[..i]) == i
  {
  }

  /** The value the program writes into a cell is that cell's distance,
      given the distances above (`upper`), to the left (`left`) and on the
      diagonal (`corner`). */
  lemma CellValue(a: string, b: string, i: nat, j: nat, upper: nat, left: nat, corner: nat)
    requires i < |a| && j < |b|
    requires upper == Distance(a[..i], b[..j + 1]) && left == Distance(a[..i + 1], b[..j])
    requires corner == Distance(a[..i], b[..j])
    ensures var t := if upper < corner then upper else corner;
      Distance(a[..i + 1], b[..j + 1]) == if a[i] == b[j] then corner else (if left < t then left else t) + 1
  {
    Cell(a, b, i, j);
  }

  /** Row `i` of the table: the distances from the first `i` characters of
      `a` to every prefix of `b`. */
  ghost predicate IsRow(a: string, b: string, i: nat, costs: seq<nat>)
    requires i <= |a|
  {
    |costs| == |b| + 1 && forall t :: 0 <= t <= |b| ==> costs[t] == Distance(a[..i], b[..t])
  }

  /** One pass of the outer loop: turns row `i` into row `i + 1`, left to
      right, keeping the old diagonal value in `corner`. */
  method NextRow(a: string, b: string, i: nat, row: seq<nat>) returns (costs: seq<nat>)
    requires i < |a| && IsRow(a, b, i, row)
    ensures IsRow(a, b, i + 1, costs)
  {
    var n := |b|;
    Edges(a, i + 1);
    costs := row[0 := i + 1];
    var corner := i;
    var j := 0;
    while j < n
      invariant j <= n && |costs| == n + 1
      invariant forall t :: 0 <= t <= j ==> costs[t] == Distance(a[..i + 1], b[..t])
      invariant forall t :: j < t <= n ==> costs[t] == row[t]
      invariant corner == row[j]
    {
      var upper := costs[j + 1];
      var v;
      if a[i] == b[j] {
        v := corner;
      } else {
        var t := if upper < corner then upper else corner;
        v := (if costs[j] < t then costs[j] else t) + 1;
      }
      assert v == Distance(a[..i + 1], b[..j + 1]) by {
        CellValue(a, b, i, j, upper, costs[j], corner);
      }
      costs := costs[j + 1 := v];
      corner := upper;
      j := j + 1;
    }
  }

  /** `levenshtein_distance`: the trivial cases, then one row of costs
      updated in place per character of `s1`, carrying the diagonal
      (`corner`) along the row. Returns exactly the textbook distance. */
  method LevenshteinDistance(s1: string, s2: string) returns (d: nat)
    ensures d == Distance(s1, s2)
  {
    var m, n := |s1|, |s2|;
    if m == 0 {
      return n;
    }
    if n == 0 {
      return m;
    }
    var costs: seq<nat> := [];
    var k := 0;
    while k <= n
      invariant k <= n + 1 && |costs| == k
      invariant forall t :: 0 <= t < k ==> costs[t] == Distance([], s2[..t])
    {
      Edges(s2, k);
      costs := costs + [k];
      k := k + 1;
    }
    var i := 0;
    while i < m
      invariant i <= m && IsRow(s1, s2, i, costs)
    {
      costs := NextRow(s1, s2, i, costs);
      i := i + 1;
    }
    assert s1[..m] == s1 && s2[..n] == s2;
    d := costs[n];
  }
}
