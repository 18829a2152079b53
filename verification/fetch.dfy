/**
 * The part of `fetch_word` that does not touch the network: folding the dictionary
 * API's meanings and definitions into one entry and caching it in the store.
 * The HTTP call itself is abstracted into its outcome, an optional parsed response.
 */
module Fetch {
  import opened Wrappers
  import opened Text
  import opened WordStore
  import opened Display

  /** One definition object of the API; absent list fields read as empty lists. */
  datatype ApiDefinition = ApiDefinition(definition: Option<string>, example: Option<string>,
                                         synonyms: seq<string>, antonyms: seq<string>)

  /** One meaning group; an absent `definitions` field reads as an empty list. */
  datatype ApiMeaning = ApiMeaning(definitions: seq<ApiDefinition>)

  /** One top-level element of the response array; absent `meanings` reads as empty. */
  datatype ApiEntry = ApiEntry(meanings: seq<ApiMeaning>)

  datatype TokenKind = SynonymTokens | AntonymTokens

  const NoDefinition := "No definition available"

  predicate NoDuplicates(xs: seq<string>) {
    forall i, j :: 0 <= i < j < |xs| ==> xs[i] != xs[j]
  }

  function Tokens(d: ApiDefinition, kind: TokenKind): seq<string> {
    match kind
    case SynonymTokens => d.synonyms
    case AntonymTokens => d.antonyms
  }

  /** Some meaning of the response lists the definition object `d`. */
  ghost predicate Occurs(ms: seq<ApiMeaning>, d: ApiDefinition) {
    exists i :: 0 <= i < |ms| && d in ms[i].definitions
  }

  /** The definition objects of all meanings, meaning by meaning, in response order. */
  function Flatten(ms: seq<ApiMeaning>): seq<ApiDefinition> {
    if |ms| == 0 then [] else Flatten(ms[..|ms| - 1]) + ms[|ms| - 1].definitions
  }

  /** A definition object is flattened exactly when some meaning lists it. */
  lemma {:induction false} FlattenMembers(ms: seq<ApiMeaning>)
    ensures forall d :: d in Flatten(ms) <==> Occurs(ms, d)
    decreases |ms|
  {
    if |ms| > 0 {
      var front := ms[..|ms| - 1];
      FlattenMembers(front);
      forall d
        ensures Occurs(ms, d) <==> Occurs(front, d) || d in ms[|ms| - 1].definitions
      {
        if Occurs(ms, d) {
          var i :| 0 <= i < |ms| && d in ms[i].definitions;
          if i < |ms| - 1 {
            assert front[i] == ms[i];
          }
        }
        if Occurs(front, d) {
          var i :| 0 <= i < |front| && d in front[i].definitions;
          assert front[i] == ms[i];
        }
      }
    }
  }

  /** The text each definition object contributes: its `definition`, or the sentinel. */
  function DefinitionTexts(ds: seq<ApiDefinition>): (ts: seq<string>)
    ensures |ts| == |ds|
  {
    seq(|ds|, i requires 0 <= i < |ds| => ds[i].definition.GetOr(NoDefinition))
  }

  /** `ex = def_entry.get("example"); if ex: examples.append(ex)`. */
  function ExampleOf(d: ApiDefinition): seq<string> {
    if d.example.Some? && d.example.value != [] then [d.example.value] else []
  }

  /** The non-empty examples, in order, duplicates kept. */
  function ExamplesOf(ds: seq<ApiDefinition>): seq<string> {
    if |ds| == 0 then [] else ExamplesOf(ds[..|ds| - 1]) + ExampleOf(ds[|ds| - 1])
  }

  /** The examples collected are exactly the non-empty examples present. */
  lemma {:induction false} ExamplesMembers(ds: seq<ApiDefinition>)
    ensures forall x :: x in ExamplesOf(ds) <==> x != [] && exists d :: d in ds && d.example == Some(x)
    decreases |ds|
  {
    if |ds| > 0 {
      var front := ds[..|ds| - 1];
      ExamplesMembers(front);
      assert ds == front + [ds[|ds| - 1]];
    }
  }

  /** Adds each of `xs` to `acc` unless already there: a set union that keeps
      first-occurrence order. */
  function AddAll(acc: seq<string>, xs: seq<string>): seq<string> {
    if |xs| == 0 then acc
    else
      var a := AddAll(acc, xs[..|xs| - 1]);
      if xs[|xs| - 1] in a then a else a + [xs[|xs| - 1]]
  }

  /** Adding keeps what was there, in front, adds no duplicate, and yields exactly the union. */
  lemma {:induction false} AddAllUnion(acc: seq<string>, xs: seq<string>)
    ensures NoDuplicates(acc) ==> NoDuplicates(AddAll(acc, xs))
    ensures forall x :: x in AddAll(acc, xs) <==> x in acc || x in xs
    ensures |acc| <= |AddAll(acc, xs)| && AddAll(acc, xs)[..|acc|] == acc
    decreases |xs|
  {
    if |xs| > 0 {
      AddAllUnion(acc, xs[..|xs| - 1]);
      assert xs == xs[..|xs| - 1] + [xs[|xs| - 1]];
    }
  }

  /** Every synonym (or antonym) of every definition object, each once. */
  function UnionOf(ds: seq<ApiDefinition>, kind: TokenKind): seq<string> {
    if |ds| == 0 then [] else AddAll(UnionOf(ds[..|ds| - 1], kind), Tokens(ds[|ds| - 1], kind))
  }

  /** The tokens collected are duplicate-free and exactly those some definition object lists. */
  lemma {:induction false} UnionMembers(ds: seq<ApiDefinition>, kind: TokenKind)
    ensures NoDuplicates(UnionOf(ds, kind))
    ensures forall x :: x in UnionOf(ds, kind) <==> exists d :: d in ds && x in Tokens(d, kind)
    decreases |ds|
  {
    if |ds| > 0 {
      var front := ds[..|ds| - 1];
      UnionMembers(front, kind);
      AddAllUnion(UnionOf(front, kind), Tokens(ds[|ds| - 1], kind));
      assert ds == front + [ds[|ds| - 1]];
    }
  }

  /** The entry cached for a word, built from the meanings of the first response element. */
  function Aggregate(ms: seq<ApiMeaning>): (e: Entry)
    ensures e == Finish(AbsorbAll(NothingCollected, Flatten(ms)))
  {
    AbsorbAllCollects(Flatten(ms));
    Finish(CollectAll(Flatten(ms)))
  }

  /** With no definition object anywhere the cached definition is the sentinel. */
  lemma AggregateWithoutDefinitions(ms: seq<ApiMeaning>)
    requires forall i :: 0 <= i < |ms| ==> |ms[i].definitions| == 0
    ensures Aggregate(ms).definition == NoDefinition
  {
    FlattenOfEmptyMeanings(ms);
  }

  /** The cached definition is the definition field of the first object of the first
      meaning that has any, or the sentinel when that object lacks the field. */
  lemma AggregateFirstDefinition(ms: seq<ApiMeaning>, i: nat)
    requires i < |ms| && |ms[i].definitions| > 0
    requires forall h :: 0 <= h < i ==> |ms[h].definitions| == 0
    ensures Aggregate(ms).definition == ms[i].definitions[0].definition.GetOr(NoDefinition)
  {
    FlattenFirstAt(ms, i);
  }

  /** The cached examples are exactly the non-empty examples some definition object carries. */
  lemma AggregateExamples(ms: seq<ApiMeaning>)
    ensures forall x :: x in Aggregate(ms).examples <==> x != [] && exists d :: Occurs(ms, d) && d.example == Some(x)
  {
    FlattenMembers(ms);
    ExamplesMembers(Flatten(ms));
  }

  /** The cached synonyms and antonyms are duplicate-free and exactly the tokens some
      definition object lists. */
  lemma AggregateTokens(ms: seq<ApiMeaning>)
    ensures NoDuplicates(Aggregate(ms).synonyms) && NoDuplicates(Aggregate(ms).antonyms)
    ensures forall x :: x in Aggregate(ms).synonyms <==> exists d :: Occurs(ms, d) && x in d.synonyms
    ensures forall x :: x in Aggregate(ms).antonyms <==> exists d :: Occurs(ms, d) && x in d.antonyms
  {
    var ds := Flatten(ms);
    FlattenMembers(ms);
    UnionMembers(ds, SynonymTokens);
    UnionMembers(ds, AntonymTokens);
  }

  /** The four accumulators of the fetch loop: definitions, examples and the two token sets. */
  datatype Collected = Collected(definitions: seq<string>, examples: seq<string>,
                                 synonyms: seq<string>, antonyms: seq<string>)

  /** The accumulators after visiting the definition objects `ds`. */
  function CollectAll(ds: seq<ApiDefinition>): Collected {
    Collected(DefinitionTexts(ds), ExamplesOf(ds), UnionOf(ds, SynonymTokens), UnionOf(ds, AntonymTokens))
  }

  /** What visiting one more definition object does to the accumulators. */
  function Absorb(c: Collected, d: ApiDefinition): Collected {
    Collected(c.definitions + [d.definition.GetOr(NoDefinition)], c.examples + ExampleOf(d),
              AddAll(c.synonyms, d.synonyms), AddAll(c.antonyms, d.antonyms))
  }

  /** The entry made from the accumulators: the first definition, or the sentinel. */
  function Finish(c: Collected): Entry {
    Entry(if |c.definitions| == 0 then NoDefinition else c.definitions[0], c.examples, c.synonyms, c.antonyms)
  }

  lemma {:induction false} FlattenConcat(a: seq<ApiMeaning>, b: seq<ApiMeaning>)
    ensures Flatten(a + b) == Flatten(a) + Flatten(b)
    decreases |b|
  {
    if |b| == 0 {
      assert a + b == a;
    } else {
      var front := b[..|b| - 1];
      assert (a + b)[..|a + b| - 1] == a + front;
      assert (a + b)[|a + b| - 1] == b[|b| - 1];
      FlattenConcat(a, front);
      assert Flatten(a + b) == Flatten(a + front) + b[|b| - 1].definitions;
      assert Flatten(b) == Flatten(front) + b[|b| - 1].definitions;
    }
  }

  lemma {:induction false} FlattenOfEmptyMeanings(ms: seq<ApiMeaning>)
    requires forall i :: 0 <= i < |ms| ==> |ms[i].definitions| == 0
    ensures Flatten(ms) == []
    decreases |ms|
  {
    if |ms| > 0 {
      FlattenOfEmptyMeanings(ms[..|ms| - 1]);
    }
  }

  /** The first flattened definition object is the first one of the first meaning that has any. */
  lemma {:induction false} FlattenFirstAt(ms: seq<ApiMeaning>, i: nat)
    requires i < |ms| && |ms[i].definitions| > 0
    requires forall h :: 0 <= h < i ==> |ms[h].definitions| == 0
    ensures |Flatten(ms)| > 0 && Flatten(ms)[0] == ms[i].definitions[0]
    decreases |ms|
  {
    var front := ms[..|ms| - 1];
    if i < |ms| - 1 {
      FlattenFirstAt(front, i);
    } else {
      FlattenOfEmptyMeanings(front);
    }
  }

  lemma {:induction false} ExamplesConcat(a: seq<ApiDefinition>, b: seq<ApiDefinition>)
    ensures ExamplesOf(a + b) == ExamplesOf(a) + ExamplesOf(b)
    decreases |b|
  {
    if |b| == 0 {
      assert a + b == a;
    } else {
      assert (a + b)[..|a + b| - 1] == a + b[..|b| - 1];
      ExamplesConcat(a, b[..|b| - 1]);
    }
  }

  /** Examples are collected in response order without deduplication: the examples
      gathered from two runs of meanings are those of the first run followed by those
      of the second. */
  lemma ExamplesInResponseOrder(a: seq<ApiMeaning>, b: seq<ApiMeaning>)
    ensures Aggregate(a + b).examples == Aggregate(a).examples + Aggregate(b).examples
  {
    FlattenConcat(a, b);
    ExamplesConcat(Flatten(a), Flatten(b));
  }

  /** Visiting the objects one at a time builds the accumulators of the whole sequence. */
  lemma CollectAppend(before: seq<ApiDefinition>, d: ApiDefinition)
    ensures CollectAll(before + [d]) == Absorb(CollectAll(before), d)
  {
    assert (before + [d])[..|before + [d]| - 1] == before;
  }

  const NothingCollected := Collected([], [], [], [])

  /** Visiting `ds` one object at a time, starting from `c`. */
  function AbsorbAll(c: Collected, ds: seq<ApiDefinition>): Collected {
    if |ds| == 0 then c else Absorb(AbsorbAll(c, ds[..|ds| - 1]), ds[|ds| - 1])
  }

  lemma AbsorbAllAppend(c: Collected, ds: seq<ApiDefinition>, d: ApiDefinition)
    ensures AbsorbAll(c, ds + [d]) == Absorb(AbsorbAll(c, ds), d)
  {
    assert (ds + [d])[..|ds + [d]| - 1] == ds;
  }

  /** The one-at-a-time fold computes the accumulators of the whole sequence. */
  lemma {:induction false} AbsorbAllCollects(ds: seq<ApiDefinition>)
    ensures AbsorbAll(NothingCollected, ds) == CollectAll(ds)
    decreases |ds|
  {
    if |ds| > 0 {
      var front := ds[..|ds| - 1];
      AbsorbAllCollects(front);
      assert ds == front + [ds[|ds| - 1]];
      CollectAppend(front, ds[|ds| - 1]);
    }
  }

  lemma {:induction false} AbsorbAllConcat(c: Collected, a: seq<ApiDefinition>, b: seq<ApiDefinition>)
    ensures AbsorbAll(c, a + b) == AbsorbAll(AbsorbAll(c, a), b)
    decreases |b|
  {
    if |b| == 0 {
      assert a + b == a;
    } else {
      assert (a + b)[..|a + b| - 1] == a + b[..|b| - 1];
      AbsorbAllConcat(c, a, b[..|b| - 1]);
    }
  }

  /** The nested loops of the fetch: one pass over meanings and their definitions. */
  method AggregateByLoops(ms: seq<ApiMeaning>) returns (e: Entry)
    ensures e == Aggregate(ms)
  {
    var c := NothingCollected;
    for i := 0 to |ms|
      invariant c == AbsorbAll(NothingCollected, Flatten(ms[..i]))
    {
      AbsorbAllConcat(NothingCollected, Flatten(ms[..i]), ms[i].definitions);
      FlattenPrefixStep(ms, i);
      c := CollectMeaning(c, ms[i].definitions);
    }
    assert ms[..|ms|] == ms;
    e := Finish(c);
    AbsorbAllCollects(Flatten(ms));
  }

  /** The inner loop: one meaning's definition objects. */
  method CollectMeaning(c: Collected, defs: seq<ApiDefinition>) returns (r: Collected)
    ensures r == AbsorbAll(c, defs)
  {
    r := c;
    for j := 0 to |defs|
      invariant r == AbsorbAll(c, defs[..j])
    {
      assert defs[..j + 1][..j] == defs[..j];
      r := AbsorbByLoops(r, defs[j]);
    }
    assert defs[..|defs|] == defs;
  }

  lemma FlattenPrefixStep(ms: seq<ApiMeaning>, i: nat)
    requires i < |ms|
    ensures Flatten(ms[..i + 1]) == Flatten(ms[..i]) + ms[i].definitions
  {
    assert ms[..i + 1][..i] == ms[..i];
  }

  /** The body of the inner loop for one definition object. */
  method AbsorbByLoops(c: Collected, d: ApiDefinition) returns (r: Collected)
    ensures r == Absorb(c, d)
  {
    var examples := c.examples;
    var ex := d.example;
    if ex.Some? && ex.value != [] {
      examples := examples + [ex.value];
    }
    var synonyms := AddEach(c.synonyms, d.synonyms);
    var antonyms := AddEach(c.antonyms, d.antonyms);
    r := Collected(c.definitions + [d.definition.GetOr(NoDefinition)], examples, synonyms, antonyms);
  }

  /** `for s in xs: acc.add(s)`. */
  method AddEach(acc: seq<string>, xs: seq<string>) returns (r: seq<string>)
    ensures r == AddAll(acc, xs)
  {
    r := acc;
    for k := 0 to |xs|
      invariant r == AddAll(acc, xs[..k])
    {
      assert xs[..k + 1][..k] == xs[..k];
      if xs[k] !in r {
        r := r + [xs[k]];
      }
    }
    assert xs[..|xs|] == xs;
  }

  /** The fetch outcome after the request: `None` when the request, the status check or
      the JSON decoding failed (all caught), otherwise the decoded response array. */
  function FetchWord(s: Store, word: string, response: Option<seq<ApiEntry>>): (r: Step)
    ensures response.None? ==> r == Step(NoResult, s)
    ensures response == Some([]) ==> r == Step(Uncaught, s)
    ensures response.Some? && |response.value| > 0 && |response.value[0].meanings| == 0 ==> r == Step(NoResult, s)
    ensures r.reply.Shown? <==> response.Some? && |response.value| > 0 && |response.value[0].meanings| > 0
    ensures r.reply.Shown? ==>
      && word in r.store.entries
      && r.store.entries[word] == Aggregate(response.value[0].meanings)
      && SameExcept(s, r.store, word)
      && r.reply.record == Output(r.store, word)
    ensures !r.reply.Shown? ==> r.store == s
  {
    match response
    case None => Step(NoResult, s)
    case Some(data) =>
      if |data| == 0 then Step(Uncaught, s)
      else
        var meanings := data[0].meanings;
        if |meanings| == 0 then Step(NoResult, s)
        else
          var t := Put(s, word, Aggregate(meanings));
          Step(Shown(Output(t, word)), t)
  }

  /** Elements after the first one of the response array are never read. */
  lemma FetchReadsFirstElementOnly(s: Store, word: string, first: ApiEntry, rest1: seq<ApiEntry>, rest2: seq<ApiEntry>)
    ensures FetchWord(s, word, Some([first] + rest1)) == FetchWord(s, word, Some([first] + rest2))
  {
  }

  /** Two meanings, the first with definition "A" and example "ex1", the second with
      definition "B" and synonym "syn1". */
  lemma TwoMeaningsScenario()
    ensures Aggregate([ApiMeaning([ApiDefinition(Some("A"), Some("ex1"), [], [])]),
                       ApiMeaning([ApiDefinition(Some("B"), None, ["syn1"], [])])])
         == Entry("A", ["ex1"], ["syn1"], [])
  {
    var d1 := ApiDefinition(Some("A"), Some("ex1"), [], []);
    var d2 := ApiDefinition(Some("B"), None, ["syn1"], []);
    var m1 := ApiMeaning([d1]);
    var m2 := ApiMeaning([d2]);
    assert [m1, m2][..1] == [m1];
    assert [m1][..0] == [];
    assert Flatten([m1]) == [d1];
    var ds := Flatten([m1, m2]);
    assert ds == [d1, d2];
    assert ds[..1] == [d1];
    assert [d1][..0] == [];
    assert ExamplesOf([d1]) == ["ex1"];
    assert ExamplesOf(ds) == ["ex1"];
    assert UnionOf([d1], SynonymTokens) == [];
    assert ["syn1"][..0] == [];
    assert AddAll([], ["syn1"]) == ["syn1"];
    assert UnionOf(ds, SynonymTokens) == ["syn1"];
    assert UnionOf([d1], AntonymTokens) == [];
    assert UnionOf(ds, AntonymTokens) == [];
    assert DefinitionTexts(ds)[0] == "A";
  }
}
