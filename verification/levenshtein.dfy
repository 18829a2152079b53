/**
 * Levenshtein edit distance: the least number of single-character insertions,
 * deletions and substitutions that turn one string into another, each at cost 1.
 * The dictionary calls an external library for it; this module defines it and
 * proves the table-filling computation equal to the definition.
 */
module Levenshtein {

  function Min3(a: nat, b: nat, c: nat): (m: nat)
    ensures m <= a && m <= b && m <= c
    ensures m == a || m == b || m == c
  {
    if a <= b && a <= c then a else if b <= c then b else c
  }

  /** Edit distance, recursing on the last characters of both strings. */
  function Dist(a: string, b: string): nat
    decreases |a| + |b|
  {
    if |a| == 0 then |b|
    else if |b| == 0 then |a|
    else
      Min3(Dist(a[..|a| - 1], b) + 1,
           Dist(a, b[..|b| - 1]) + 1,
           Dist(a[..|a| - 1], b[..|b| - 1]) + (if a[|a| - 1] == b[|b| - 1] then 0 else 1))
  }

  /** A string is at distance zero from itself and from nothing else. */
  lemma {:induction false} DistZeroIffEqual(a: string, b: string)
    ensures Dist(a, b) == 0 <==> a == b
    decreases |a| + |b|
  {
    if a == b {
      DistSelf(a);
    } else if |a| > 0 && |b| > 0 {
      DistZeroIffEqual(a[..|a| - 1], b[..|b| - 1]);
    }
  }

  lemma {:induction false} DistSelf(a: string)
    ensures Dist(a, a) == 0
    decreases |a|
  {
    if |a| > 0 {
      DistSelf(a[..|a| - 1]);
    }
  }

  /** Turning `a` into `b` costs what turning `b` into `a` costs. */
  lemma {:induction false} DistSymmetric(a: string, b: string)
    ensures Dist(a, b) == Dist(b, a)
    decreases |a| + |b|
  {
    if |a| > 0 && |b| > 0 {
      DistSymmetric(a[..|a| - 1], b);
      DistSymmetric(a, b[..|b| - 1]);
      DistSymmetric(a[..|a| - 1], b[..|b| - 1]);
    }
  }

  /** The distance is at least the difference in length and at most the longer length. */
  lemma {:induction false} DistBounds(a: string, b: string)
    ensures |a| - |b| <= Dist(a, b) && |b| - |a| <= Dist(a, b)
    ensures Dist(a, b) <= if |a| <= |b| then |b| else |a|
    decreases |a| + |b|
  {
    if |a| > 0 && |b| > 0 {
      DistBounds(a[..|a| - 1], b);
      DistBounds(a, b[..|b| - 1]);
      DistBounds(a[..|a| - 1], b[..|b| - 1]);
    }
  }

  /** Matching or substituting the last characters is one way to edit. */
  lemma DistDiagonal(a: string, b: string)
    requires |a| > 0 && |b| > 0
    ensures Dist(a, b) <= Dist(a[..|a| - 1], b[..|b| - 1]) + (if a[|a| - 1] == b[|b| - 1] then 0 else 1)
  {
  }

  /** One cell of the table: the recursion of `Dist` read on prefixes. */
  lemma DistPrefixStep(a: string, b: string, i: nat, j: nat)
    requires i < |a| && j < |b|
    ensures Dist(a[..i + 1], b[..j + 1])
         == Min3(Dist(a[..i], b[..j + 1]) + 1,
                 Dist(a[..i + 1], b[..j]) + 1,
                 Dist(a[..i], b[..j]) + (if a[i] == b[j] then 0 else 1))
  {
    assert a[..i + 1][..i] == a[..i];
    assert b[..j + 1][..j] == b[..j];
  }

  /** The row-by-row table computation of the edit distance. */
  method EditDistance(a: string, b: string) returns (d: nat)
    ensures d == Dist(a, b)
  {
    var prev: seq<nat> := seq(|b| + 1, j requires 0 <= j <= |b| => j);
    var i := 0;
    while i < |a|
      invariant 0 <= i <= |a|
      invariant |prev| == |b| + 1
      invariant forall j :: 0 <= j <= |b| ==> prev[j] == Dist(a[..i], b[..j])
    {
      prev := NextRow(a, b, i, prev);
      i := i + 1;
    }
    assert a[..|a|] == a && b[..|b|] == b;
    d := prev[|b|];
  }

  /** Row `i + 1` of the table from row `i`: the distances from `a[..i + 1]` to every
      prefix of `b`. */
  method NextRow(a: string, b: string, i: nat, prev: seq<nat>) returns (cur: seq<nat>)
    requires i < |a| && |prev| == |b| + 1
    requires forall j :: 0 <= j <= |b| ==> prev[j] == Dist(a[..i], b[..j])
    ensures |cur| == |b| + 1
    ensures forall j :: 0 <= j <= |b| ==> cur[j] == Dist(a[..i + 1], b[..j])
  {
    cur := [i + 1];
    var j := 0;
    while j < |b|
      invariant 0 <= j <= |b|
      invariant |cur| == j + 1
      invariant forall k :: 0 <= k <= j ==> cur[k] == Dist(a[..i + 1], b[..k])
    {
      var cost := if a[i] == b[j] then 0 else 1;
      DistPrefixStep(a, b, i, j);
      var cell := Min3(prev[j + 1] + 1, cur[j] + 1, prev[j] + cost);
      assert cell == Dist(a[..i + 1], b[..j + 1]);
      cur := cur + [cell];
      j := j + 1;
    }
  }
}
