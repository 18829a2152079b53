/**
 * `search_word`: serve a query from the store, or fetch it and cache the result.
 */
module Resolver {
  import opened Wrappers
  import opened Text
  import opened WordStore
  import opened Display
  import opened Fetch

  /** Look the normalized query up; on a miss fetch it, unless the key is empty.
      `response` is what the dictionary API would answer for the normalized key;
      it is consulted only on the fetch path. */
  function SearchWord(s: Store, query: string, response: Option<seq<ApiEntry>>): (r: Step)
    ensures Normalize(query) in s.entries ==> r == Step(Shown(Output(s, query)), s)
    ensures Normalize(query) !in s.entries && Normalize(query) == [] ==> r == Step(NoResult, s)
    ensures Normalize(query) !in s.entries && Normalize(query) != [] ==>
      && (response.None? ==> r == Step(NoResult, s))
      && (response == Some([]) ==> r == Step(Uncaught, s))
      && (response.Some? && |response.value| > 0 && |response.value[0].meanings| == 0 ==> r == Step(NoResult, s))
      && (response.Some? && |response.value| > 0 && |response.value[0].meanings| > 0 ==>
            && r.reply.Shown?
            && Normalize(query) in r.store.entries
            && r.store.entries[Normalize(query)] == Aggregate(response.value[0].meanings))
      && (r.reply.Shown? ==> SameExcept(s, r.store, Normalize(query)) && Normalize(query) in r.store.entries)
    ensures r.reply.Shown? ==> r.reply.record == Output(r.store, query)
    ensures !r.reply.Shown? ==> r.store == s
  {
    var key := Normalize(query);
    if key in s.entries then Step(Shown(Output(s, key)), s)
    else if key == [] then Step(NoResult, s)
    else FetchWord(s, key, response)
  }

  /** A word already in the store is answered the same whatever the remote
      dictionary would say: no fetch happens. */
  lemma StoredWordNeedsNoFetch(s: Store, query: string, f1: Option<seq<ApiEntry>>, f2: Option<seq<ApiEntry>>)
    requires Normalize(query) in s.entries
    ensures SearchWord(s, query, f1) == SearchWord(s, query, f2)
    ensures SearchWord(s, query, f1).store == s
  {
  }

  /** Queries that differ only in letter case or surrounding whitespace resolve the same way. */
  lemma SearchIgnoresCaseAndPadding(s: Store, p: string, query: string, q: string, f: Option<seq<ApiEntry>>)
    requires Blank(p) && Blank(q)
    ensures SearchWord(s, p + query + q, f) == SearchWord(s, query, f)
    ensures SearchWord(s, Lower(query), f) == SearchWord(s, query, f)
  {
    NormalizeIgnoresCaseAndPadding(p, query, q);
  }

  /** A successful fetch caches the entry under the key of the query, so the same query
      is then served from the store, with the same record and no further change,
      whatever the remote dictionary would answer. */
  lemma FetchedWordIsCached(s: Store, query: string, f: Option<seq<ApiEntry>>, later: Option<seq<ApiEntry>>)
    requires SearchWord(s, query, f).reply.Shown?
    ensures Normalize(query) in SearchWord(s, query, f).store.entries
    ensures SearchWord(SearchWord(s, query, f).store, query, later) == SearchWord(s, query, f)
  {
    var key := Normalize(query);
    NormalizeIdempotent(query);
    if key !in s.entries {
      assert key in SearchWord(s, query, f).store.entries;
    }
  }

  /** Searching again for the same query with the same remote answer changes nothing more. */
  lemma SearchIsIdempotent(s: Store, query: string, f: Option<seq<ApiEntry>>)
    ensures SearchWord(SearchWord(s, query, f).store, query, f) == SearchWord(s, query, f)
  {
    if SearchWord(s, query, f).reply.Shown? {
      FetchedWordIsCached(s, query, f, f);
    }
  }

  /** The store contains "cat"; the query "Cat " is served from it. */
  lemma PaddedCapitalQueryScenario(f: Option<seq<ApiEntry>>)
    ensures
      var cat := Entry("a feline", [], [], []);
      var s: Store := Dict(["cat"], map["cat" := cat]);
      SearchWord(s, "Cat ", f) == Step(Shown(Record("Cat", "a feline", [], [], [])), s)
  {
    var cat := Entry("a feline", [], [], []);
    var s: Store := Dict(["cat"], map["cat" := cat]);
    assert Blank(" ");
    StripPadding([], "Cat", " ");
    assert [] + "Cat" + " " == "Cat ";
    assert Normalize("Cat ") == "cat";
  }
}
