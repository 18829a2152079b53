/**
 * The offline word store: a mapping from normalized word to entry that, like a
 * Python dict, remembers the order in which keys were first inserted.
 */
module WordStore {

  /** One dictionary record; every field is present, possibly empty. */
  datatype Entry = Entry(definition: string, examples: seq<string>, synonyms: seq<string>, antonyms: seq<string>)

  /** What `existing_data.get(field, default)` reads when the word has no entry. */
  const EmptyEntry := Entry("", [], [], [])

  datatype Dict = Dict(order: seq<string>, entries: map<string, Entry>)

  /** Keys are listed once each, in insertion order, and exactly the mapped keys are listed. */
  ghost predicate WellFormed(d: Dict) {
    && (forall i, j :: 0 <= i < j < |d.order| ==> d.order[i] != d.order[j])
    && (forall k :: k in d.entries <==> k in d.order)
  }

  type Store = d: Dict | WellFormed(d) witness Dict([], map[])

  /** The entry stored for `key`, or the empty record when there is none. */
  function Existing(s: Store, key: string): Entry {
    if key in s.entries then s.entries[key] else EmptyEntry
  }

  /** `b` is `a` with at most the entry for `key` inserted or replaced: every other key
      keeps its entry, and the iteration order only grows by `key` at the end when
      `key` is new. */
  ghost predicate SameExcept(a: Store, b: Store, key: string) {
    && (forall k :: k != key ==> (k in a.entries <==> k in b.entries))
    && (forall k :: k != key && k in a.entries && k in b.entries ==> a.entries[k] == b.entries[k])
    && (b.order == a.order || (key !in a.entries && b.order == a.order + [key]))
  }

  /** `store[key] = e`: replacement keeps the key's place, insertion appends it. */
  function Put(s: Store, key: string, e: Entry): (r: Store)
    ensures key in r.entries && r.entries[key] == e
    ensures SameExcept(s, r, key)
    ensures key in s.entries ==> r.order == s.order
    ensures key !in s.entries ==> r.order == s.order + [key]
  {
    if key in s.entries then Dict(s.order, s.entries[key := e])
    else Dict(s.order + [key], s.entries[key := e])
  }

  /** Writing the entry a key already holds changes nothing. */
  lemma PutUnchanged(s: Store, key: string)
    requires key in s.entries
    ensures Put(s, key, s.entries[key]) == s
  {
    assert s.entries[key := s.entries[key]] == s.entries;
  }

  /** A second write to the same key wins and leaves no trace of the first. */
  lemma PutTwice(s: Store, key: string, e1: Entry, e2: Entry)
    ensures Put(Put(s, key, e1), key, e2) == Put(s, key, e2)
  {
  }
}
