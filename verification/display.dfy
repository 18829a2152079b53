/**
 * The record the window shows for a word (`output`), and the reply a lookup hands
 * to the window together with the store it leaves behind.
 */
module Display {
  import opened Text
  import opened WordStore

  /** The five labelled lines of the result panel. */
  datatype Record = Record(word: string, definition: string, examples: string, synonyms: string, antonyms: string)

  /** What a lookup returns: a record, the empty dict `{}`, or an exception that
      escaped the lookup (the worker thread ends without showing anything). */
  datatype Reply = Shown(record: Record) | NoResult | Uncaught

  datatype Step = Step(reply: Reply, store: Store)

  const NotFound := "Not found"

  /** How list fields are shown. */
  const ListSeparator := ", "

  /** `output(word)`: the record for the normalized word, or a "Not found" record. */
  function Output(s: Store, word: string): (r: Record)
    ensures r.word == Capitalize(Normalize(word))
    ensures Lower(r.word) == Normalize(word)
    ensures |r.word| > 0 ==> !('a' <= r.word[0] <= 'z')
    ensures Normalize(word) !in s.entries ==>
      r.definition == NotFound && r.examples == [] && r.synonyms == [] && r.antonyms == []
    ensures Normalize(word) in s.entries ==>
      var e := s.entries[Normalize(word)];
      && r.definition == e.definition
      && r.examples == Join(e.examples, ListSeparator)
      && r.synonyms == Join(e.synonyms, ListSeparator)
      && r.antonyms == Join(e.antonyms, ListSeparator)
  {
    var key := Normalize(word);
    LowerIsLower(Strip(word));
    if key !in s.entries then
      Record(Capitalize(key), NotFound, [], [], [])
    else
      var e := s.entries[key];
      Record(Capitalize(key), e.definition,
             Join(e.examples, ListSeparator), Join(e.synonyms, ListSeparator), Join(e.antonyms, ListSeparator))
  }

  /** A list whose items have no comma and no padding is shown as text that, typed
      back into a comma-separated answer, reads as the same list. */
  lemma ShownListReadsBack(items: seq<string>)
    requires forall i :: 0 <= i < |items| ==> CleanItem(items[i])
    ensures |Join(items, ListSeparator)| > 0 ==> Fields(Join(items, ListSeparator)) == items
  {
    if |items| > 0 {
      ReadBackJoined(items);
    }
  }

  /** Queries with the same key are displayed identically. */
  lemma OutputDependsOnKeyOnly(s: Store, q1: string, q2: string)
    requires Normalize(q1) == Normalize(q2)
    ensures Output(s, q1) == Output(s, q2)
  {
  }
}
