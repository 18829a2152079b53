/**
 * `add_word` and `overwrite`: the store updates driven by the confirmation dialog and
 * the four text dialogs. A dialog answer is `None` when the dialog was cancelled.
 */
module Editing {
  import opened Wrappers
  import opened Text
  import opened WordStore
  import opened Display

  /** Python truthiness of an answer: given and non-empty. */
  predicate Given(a: Option<string>) {
    a.Some? && a.value != []
  }

  /** A definition answer, or `fallback` when it is missing or empty. */
  function TextAnswer(a: Option<string>, fallback: string): (r: string)
    ensures Given(a) ==> r == a.value
    ensures !Given(a) ==> r == fallback
  {
    if Given(a) then a.value else fallback
  }

  /** A comma-separated list answer, or `fallback` when it is missing or empty. */
  function ListAnswer(a: Option<string>, fallback: seq<string>): (r: seq<string>)
    ensures !Given(a) ==> r == fallback
    ensures Given(a) ==> |r| == multiset(a.value)[','] + 1
    ensures Given(a) ==> forall i :: 0 <= i < |r| ==> CleanItem(r[i])
    ensures Given(a) ==> |r| == |Split(a.value, ',')|
    ensures Given(a) ==> forall i :: 0 <= i < |r| ==> PaddedBy(Split(a.value, ',')[i], r[i])
  {
    if Given(a) then FieldsClean(a.value); Fields(a.value) else fallback
  }

  /** An answer typed without whitespace is split exactly at its commas: joining the
      pieces with commas gives the answer back, empty pieces included. */
  lemma ListAnswerRoundTrip(answer: string)
    requires answer != []
    requires forall i :: 0 <= i < |answer| ==> !IsSpace(answer[i])
    ensures Join(ListAnswer(Some(answer), []), ",") == answer
  {
    var parts := Split(answer, ',');
    forall i | 0 <= i < |parts|
      ensures Strip(parts[i]) == parts[i]
    {
      PiecesKeepNoSpace(answer, ',', i);
      StripKeepsStripped(parts[i]);
    }
    assert StripAll(parts) == parts;
    JoinSplit(answer, ',');
  }

  /** A piece of a whitespace-free string has no padding. */
  lemma PiecesKeepNoSpace(s: string, sep: char, i: nat)
    requires forall k :: 0 <= k < |s| ==> !IsSpace(s[k])
    requires i < |Split(s, sep)|
    ensures Stripped(Split(s, sep)[i])
  {
    var piece := Split(s, sep)[i];
    if |piece| > 0 {
      SplitKeepsCharacters(s, sep, i, piece[0]);
      SplitKeepsCharacters(s, sep, i, piece[|piece| - 1]);
    }
  }

  /** The store after `add_word(word)` with the given confirmation and answers. */
  function AddWord(s: Store, word: string, confirmed: bool, definition: Option<string>,
                   examples: Option<string>, synonyms: Option<string>, antonyms: Option<string>): (r: Store)
    ensures !confirmed ==> r == s
    ensures !Given(definition) && !Given(examples) && !Given(synonyms) && !Given(antonyms) ==> r == s
    ensures confirmed && (Given(definition) || Given(examples) || Given(synonyms) || Given(antonyms)) ==>
      var key := Normalize(word);
      && key in r.entries
      && SameExcept(s, r, key)
      && r.entries[key].definition == TextAnswer(definition, [])
      && r.entries[key].examples == ListAnswer(examples, [])
      && r.entries[key].synonyms == ListAnswer(synonyms, [])
      && r.entries[key].antonyms == ListAnswer(antonyms, [])
  {
    if !confirmed || !(Given(definition) || Given(examples) || Given(synonyms) || Given(antonyms)) then s
    else
      Put(s, Normalize(word), Entry(TextAnswer(definition, []), ListAnswer(examples, []),
                                    ListAnswer(synonyms, []), ListAnswer(antonyms, [])))
  }

  /** The store after `overwrite(word)`: each missing or empty answer keeps the field's
      current value (or the empty default when the word has no entry), each other
      answer replaces it. */
  function Overwrite(s: Store, word: string, confirmed: bool, definition: Option<string>,
                     examples: Option<string>, synonyms: Option<string>, antonyms: Option<string>): (r: Store)
    ensures !confirmed ==> r == s
    ensures confirmed ==>
      var key := Normalize(word);
      var before := Existing(s, key);
      && key in r.entries
      && SameExcept(s, r, key)
      && r.entries[key].definition == TextAnswer(definition, before.definition)
      && r.entries[key].examples == ListAnswer(examples, before.examples)
      && r.entries[key].synonyms == ListAnswer(synonyms, before.synonyms)
      && r.entries[key].antonyms == ListAnswer(antonyms, before.antonyms)
  {
    if !confirmed then s
    else
      var key := Normalize(word);
      var before := Existing(s, key);
      Put(s, key, Entry(TextAnswer(definition, before.definition), ListAnswer(examples, before.examples),
                        ListAnswer(synonyms, before.synonyms), ListAnswer(antonyms, before.antonyms)))
  }

  /** Skipping every dialog keeps a stored entry as it is; for a word without an entry
      it stores the empty entry, where adding the word would have stored nothing. */
  lemma OverwriteWithoutAnswers(s: Store, word: string, definition: Option<string>,
                                examples: Option<string>, synonyms: Option<string>, antonyms: Option<string>)
    requires !Given(definition) && !Given(examples) && !Given(synonyms) && !Given(antonyms)
    ensures Normalize(word) in s.entries ==> Overwrite(s, word, true, definition, examples, synonyms, antonyms) == s
    ensures Normalize(word) !in s.entries ==>
      && Overwrite(s, word, true, definition, examples, synonyms, antonyms).entries[Normalize(word)] == EmptyEntry
      && AddWord(s, word, true, definition, examples, synonyms, antonyms) == s
  {
    if Normalize(word) in s.entries {
      PutUnchanged(s, Normalize(word));
    }
  }

  /** Overwriting twice with the same answers is the same as overwriting once. */
  lemma OverwriteIsIdempotent(s: Store, word: string, definition: Option<string>,
                              examples: Option<string>, synonyms: Option<string>, antonyms: Option<string>)
    ensures var once := Overwrite(s, word, true, definition, examples, synonyms, antonyms);
      Overwrite(once, word, true, definition, examples, synonyms, antonyms) == once
  {
    var once := Overwrite(s, word, true, definition, examples, synonyms, antonyms);
    PutUnchanged(once, Normalize(word));
  }

  /** Adding a word twice with the same answers is the same as adding it once. */
  lemma AddWordIsIdempotent(s: Store, word: string, definition: Option<string>,
                            examples: Option<string>, synonyms: Option<string>, antonyms: Option<string>)
    ensures var once := AddWord(s, word, true, definition, examples, synonyms, antonyms);
      AddWord(once, word, true, definition, examples, synonyms, antonyms) == once
  {
    if Given(definition) || Given(examples) || Given(synonyms) || Given(antonyms) {
      var once := AddWord(s, word, true, definition, examples, synonyms, antonyms);
      PutUnchanged(once, Normalize(word));
    }
  }

  /** Every list item of an entry is clean: no comma, no surrounding whitespace. */
  predicate CleanEntry(e: Entry) {
    && (forall i :: 0 <= i < |e.examples| ==> CleanItem(e.examples[i]))
    && (forall i :: 0 <= i < |e.synonyms| ==> CleanItem(e.synonyms[i]))
    && (forall i :: 0 <= i < |e.antonyms| ==> CleanItem(e.antonyms[i]))
  }

  /** Entries typed in through the dialogs are clean. */
  lemma AddedEntryIsClean(s: Store, word: string, definition: Option<string>,
                          examples: Option<string>, synonyms: Option<string>, antonyms: Option<string>)
    requires Given(definition) || Given(examples) || Given(synonyms) || Given(antonyms)
    ensures CleanEntry(AddWord(s, word, true, definition, examples, synonyms, antonyms).entries[Normalize(word)])
  {
  }

  /** Confirming the edit dialogs with exactly the text the result panel shows leaves a
      clean entry, and the whole store, unchanged. */
  lemma EditingShownTextKeepsEntry(s: Store, word: string)
    requires Normalize(word) in s.entries
    requires CleanEntry(s.entries[Normalize(word)])
    ensures var shown := Output(s, word);
      Overwrite(s, word, true, Some(shown.definition), Some(shown.examples), Some(shown.synonyms), Some(shown.antonyms)) == s
  {
    var e := s.entries[Normalize(word)];
    ShownListReadsBack(e.examples);
    ShownListReadsBack(e.synonyms);
    ShownListReadsBack(e.antonyms);
    PutUnchanged(s, Normalize(word));
  }
}
