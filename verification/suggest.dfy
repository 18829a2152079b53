/**
 * `find_closest_match`: the "did you mean" suggestion, the nearest stored key by
 * edit distance, offered only when it is within distance 2 and is not the query
 * itself up to letter case.
 */
module Suggest {
  import opened Text
  import opened WordStore
  import opened Levenshtein

  /** The largest distance at which a key is still offered. */
  const MaxSuggestionDistance := 2

  /** `k` is where Python's `min(keys, key=distance)` lands: a key of least distance to
      `word`, and the first such key in iteration order. */
  ghost predicate IsFirstNearest(word: string, keys: seq<string>, k: nat) {
    && k < |keys|
    && (forall j :: 0 <= j < |keys| ==> Dist(word, keys[k]) <= Dist(word, keys[j]))
    && (forall j :: 0 <= j < k ==> Dist(word, keys[k]) < Dist(word, keys[j]))
  }

  /** The first position of a nearest key. */
  function FirstNearest(word: string, keys: seq<string>): (k: nat)
    requires |keys| > 0
    ensures IsFirstNearest(word, keys, k)
    decreases |keys|
  {
    if |keys| == 1 then 0
    else
      var front := keys[..|keys| - 1];
      var k := FirstNearest(word, front);
      assert forall j :: 0 <= j < |front| ==> front[j] == keys[j];
      if Dist(word, keys[|keys| - 1]) < Dist(word, keys[k]) then |keys| - 1 else k
  }

  /** Only one position is the first nearest one. */
  lemma FirstNearestUnique(word: string, keys: seq<string>, k1: nat, k2: nat)
    requires IsFirstNearest(word, keys, k1) && IsFirstNearest(word, keys, k2)
    ensures k1 == k2
  {
    assert Dist(word, keys[k1]) <= Dist(word, keys[k2]);
    assert Dist(word, keys[k2]) <= Dist(word, keys[k1]);
  }

  /** The suggestion for `word`, or the empty string when there is none. */
  function ClosestMatch(s: Store, word: string): (r: string)
    ensures |s.order| == 0 ==> r == []
    ensures r == [] || (r in s.entries && Dist(word, r) <= MaxSuggestionDistance && Lower(r) != Lower(word))
    ensures forall k: nat :: IsFirstNearest(word, s.order, k) ==>
              r == (if Dist(word, s.order[k]) <= MaxSuggestionDistance && Lower(s.order[k]) != Lower(word)
                    then s.order[k] else [])
  {
    if |s.order| == 0 then []
    else
      var k := FirstNearest(word, s.order);
      var candidate := s.order[k];
      assert forall k': nat :: IsFirstNearest(word, s.order, k') ==> k' == k by {
        forall k' | IsFirstNearest(word, s.order, k') {
          FirstNearestUnique(word, s.order, k, k');
        }
      }
      if Dist(word, candidate) <= MaxSuggestionDistance && Lower(candidate) != Lower(word) then candidate else []
  }

  /** A suggestion is at least as near to the query as every stored key. */
  lemma SuggestionIsNearest(s: Store, word: string)
    requires ClosestMatch(s, word) != []
    ensures forall key :: key in s.entries ==> Dist(word, ClosestMatch(s, word)) <= Dist(word, key)
  {
    var k := FirstNearest(word, s.order);
    forall key | key in s.entries
      ensures Dist(word, ClosestMatch(s, word)) <= Dist(word, key)
    {
      assert key in s.order;
      var j :| 0 <= j < |s.order| && s.order[j] == key;
    }
  }

  /** When every stored key is more than two edits away there is no suggestion. */
  lemma NoSuggestionWhenAllFar(s: Store, word: string)
    requires forall key :: key in s.entries ==> Dist(word, key) > MaxSuggestionDistance
    ensures ClosestMatch(s, word) == []
  {
  }

  /** A query that is itself a stored key gets no suggestion, even when other keys are
      within two edits: the key itself is the unique key at distance zero and wins. */
  lemma StoredWordGetsNoSuggestion(s: Store, word: string)
    requires word in s.entries
    ensures ClosestMatch(s, word) == []
  {
    var k := FirstNearest(word, s.order);
    var j :| 0 <= j < |s.order| && s.order[j] == word;
    DistSelf(word);
    DistZeroIffEqual(word, s.order[k]);
  }

  /** The nearest-key scan of `find_closest_match`, with the table-filling distance. */
  method FindClosestMatch(s: Store, word: string) returns (r: string)
    ensures r == ClosestMatch(s, word)
  {
    if |s.order| == 0 {
      return [];
    }
    var best, bestDist := NearestIndex(word, s.order);
    ClosestMatchOfNearest(s, word);
    if bestDist <= MaxSuggestionDistance && Lower(s.order[best]) != Lower(word) {
      r := s.order[best];
    } else {
      r := [];
    }
  }

  /** `min(keys, key=lambda w: distance(word, w))`: the position and distance of the
      first nearest key. */
  method NearestIndex(word: string, keys: seq<string>) returns (best: nat, bestDist: nat)
    requires |keys| > 0
    ensures best == FirstNearest(word, keys)
    ensures best < |keys| && bestDist == Dist(word, keys[best])
  {
    best := 0;
    bestDist := EditDistance(word, keys[0]);
    var i := 1;
    while i < |keys|
      invariant 1 <= i <= |keys|
      invariant best == FirstNearest(word, keys[..i])
      invariant best < i && bestDist == Dist(word, keys[best])
    {
      FirstNearestStep(word, keys, i);
      var d := EditDistance(word, keys[i]);
      if d < bestDist {
        best := i;
        bestDist := d;
      }
      i := i + 1;
    }
    assert keys[..|keys|] == keys;
  }

  /** Python's `min` keeps its current candidate unless a later key is strictly nearer. */
  lemma FirstNearestStep(word: string, keys: seq<string>, i: nat)
    requires 1 <= i < |keys|
    ensures FirstNearest(word, keys[..i]) < i
    ensures var k := FirstNearest(word, keys[..i]);
      FirstNearest(word, keys[..i + 1]) == if Dist(word, keys[i]) < Dist(word, keys[k]) then i else k
  {
    assert keys[..i + 1][..i] == keys[..i];
  }

  lemma ClosestMatchOfNearest(s: Store, word: string)
    requires |s.order| > 0
    ensures var c := s.order[FirstNearest(word, s.order)];
      ClosestMatch(s, word) == if Dist(word, c) <= MaxSuggestionDistance && Lower(c) != Lower(word) then c else []
  {
  }

  /** The store holds only "cat"; "cwt" is one substitution away and is offered "cat". */
  lemma MisspelledQueryScenario()
    ensures ClosestMatch(Dict(["cat"], map["cat" := EmptyEntry]), "cwt") == "cat"
  {
    var s: Store := Dict(["cat"], map["cat" := EmptyEntry]);
    DistSelf("c");
    DistDiagonal("cw", "ca");
    DistDiagonal("cwt", "cat");
    assert Dist("cwt", "cat") <= 1;
    assert Lower("cat") == "cat";
    ClosestMatchOfNearest(s, "cwt");
  }
}
