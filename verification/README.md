# WordWise word store, in Dafny

A model of the decision logic of the WordWise desktop dictionary. Around its
offline word store it resolves a query, shows a result record, suggests a near
miss, caches what the online dictionary returns, and adds or edits entries.

The store maps a normalized word (trimmed, lower-cased) to an entry with a
definition, examples, synonyms and antonyms. Like the Python dict it is, it keeps
keys in insertion order. That order decides which of several equally near keys is
suggested. Every operation is a pure function. A lookup takes the store (and the
online dictionary's response) and returns a reply together with the store it
leaves. An edit takes the store and the user's answers and returns the new store.
Displaying and suggesting only read the store:

- `Resolver.SearchWord` — `search_word`: serve the normalized query from the
  store; otherwise, unless it is empty, fetch it and cache the result.
- `Display.Output` — `output`: the five-line record, lists joined with `", "`.
- `Suggest.ClosestMatch` / `Suggest.FindClosestMatch` — `find_closest_match`: the
  first key of least edit distance, offered if within distance 2 and not the
  query itself up to case.
- `Fetch.Aggregate` / `Fetch.AggregateByLoops` / `Fetch.FetchWord` — the
  non-network part of `fetch_word`: fold the response's meanings and
  definitions into one entry and store it.
- `Editing.AddWord`, `Editing.Overwrite` — the store updates of `add_word` and
  `overwrite`. The yes/no dialog is a `bool`. Each text dialog is an
  `Option<string>`, with `None` for a cancelled dialog.
- `Levenshtein.Dist` — the unit-cost edit distance the external library computes,
  defined recursively. `Levenshtein.EditDistance` is the table algorithm, proved
  equal to it.
- `Text` — `strip`, `lower`, `capitalize`, `split(",")` and `join` on ASCII.

Modules follow the components: `Wrappers`, `Text`, `Levenshtein`, `WordStore`,
`Display`, `Fetch`, `Resolver`, `Suggest`, `Editing`.

Behaviour of the code that the model keeps, and that is easy to miss:

- The online lookup uses the normalized word, not the text as typed
  (main.py:212, 218).
- `overwrite` keeps the stored definition when the definition dialog is left
  empty (main.py:139), although the comment on main.py:146 says the definition
  is updated and can be empty.
- The store is checked for the key before the empty-query test (main.py:213-216).
  So an empty key that is in the store is served from it.
- An empty response array makes `data[0]` raise `IndexError`, which
  `fetch_word` does not catch (main.py:172, 206). The model returns
  `Reply.Uncaught` and leaves the store unchanged.

## Model

| member | source | states |
|---|---|---|
| `Text.Strip` | main.py:64 | The result has no whitespace at either end and is no longer than the input |
| `Text.StripPadding` | main.py:64 | Whitespace added on either side does not change what strip returns |
| `Text.StripDecomposes` | main.py:64 | Every string is its stripped form with whitespace, possibly none, on either side |
| `Text.Normalize` | main.py:64 | A key has no surrounding whitespace and no upper-case letter |
| `Text.NormalizeCore` | main.py:64 | A query that is a whitespace-free core with whitespace on either side has the lower-cased core as its key |
| `Text.NormalizeIdempotent` | main.py:212-214 | Normalizing a key again gives the same key, so `output` finds what `search_word` found |
| `Text.NormalizeIgnoresCaseAndPadding` | main.py:212 | Case and surrounding whitespace do not change a query's key |
| `Text.StripLowerCommute` | main.py:64 | Lower-casing commutes with strip |
| `Text.Lower` | main.py:64 | Lower-casing keeps the length, maps each ASCII capital to its small letter and keeps every other character |
| `Text.Capitalize` | main.py:67 | The shown word lower-cases back to the key, its first letter is not lower-case and the rest are not upper-case |
| `Text.Split` | main.py:112 | Splitting always yields at least one piece, even for the empty answer |
| `Text.SplitCounts` | main.py:112 | Splitting on a separator yields one more piece than there are separators; empty pieces are kept and no piece holds the separator |
| `Text.JoinSplit` | main.py:112 | Joining the pieces with the separator gives the answer back |
| `Text.SplitJoin` | main.py:112 | Splitting a join of separator-free pieces gives the pieces back |
| `Text.Join` | main.py:75-77 | Joining no parts gives "", and a join begins with its first part |
| `Text.FieldsClean` | main.py:112-114 | A list answer gives one item per comma plus one, each without comma or surrounding whitespace |
| `Text.Fields` | main.py:112-114 | A list answer has one item per comma-separated piece, each item being its piece with only surrounding whitespace removed |
| `Text.ReadBackPadded` | main.py:75-77 | A list shown joined with ", " reads back as the same list when typed into a list dialog, also after leading whitespace |
| `Levenshtein.DistZeroIffEqual` | main.py:85-86 | Distance zero holds exactly between equal strings |
| `Levenshtein.DistSymmetric` | main.py:85 | The distance does not depend on argument order |
| `Levenshtein.DistBounds` | main.py:85 | The distance lies between the length difference and the longer length |
| `Levenshtein.Dist` | main.py:85 | The unit-cost edit distance, by its recursive definition; the lemmas around it state its properties and `EditDistance` computes it |
| `Levenshtein.EditDistance` | main.py:85-86 | The table computation returns the recursive edit distance |
| `Levenshtein.NextRow` | main.py:85 | From the row of distances of one prefix of the query, the next row holds the distances of the prefix one longer to every prefix of the key |
| `WordStore.Put` | main.py:197-202 | Assignment stores the entry under the key and changes no other key; a new key goes last in iteration order, a replaced key keeps its place |
| `WordStore.PutUnchanged` | main.py:145-150 | Writing a key's own entry back leaves the store equal to what it was |
| `WordStore.PutTwice` | main.py:197-202 | A second write to the same key overrides the first completely |
| `Display.Output` | main.py:62-78 | The word shown is the capitalized key (it lower-cases back to the key); an absent key gives "Not found" and empty lists; a present key gives its definition and its lists joined with ", " in stored order |
| `Display.ShownListReadsBack` | main.py:75-77 | A shown non-empty list of clean items reads back as the stored list |
| `Display.OutputDependsOnKeyOnly` | main.py:64 | Queries with the same key get the same record |
| `Fetch.FlattenMembers` | main.py:182-183 | The flattened definitions are exactly those some meaning lists |
| `Fetch.ExamplesMembers` | main.py:185-187 | Collected examples are exactly the non-empty examples present |
| `Fetch.AddAllUnion` | main.py:188-191 | Adding tokens to a duplicate-free collection keeps it duplicate-free and yields exactly the union |
| `Fetch.UnionMembers` | main.py:180-191 | Synonyms (antonyms) collected are duplicate-free and exactly those listed by some definition |
| `Fetch.FlattenFirstAt` | main.py:182-184 | The first definition object visited is the first one of the first meaning that has any |
| `Fetch.Aggregate` | main.py:178-202 | The cached entry is what visiting the definition objects one at a time, meaning by meaning in response order, leaves in the accumulators, with the first definition or the sentinel |
| `Fetch.AggregateWithoutDefinitions` | main.py:178-198 | When no meaning has a definition object, the cached definition is "No definition available" |
| `Fetch.AggregateFirstDefinition` | main.py:182-198 | The cached definition is that of the first object of the first meaning that has any, or the sentinel when that object lacks the field |
| `Fetch.AggregateExamples` | main.py:182-199 | The cached examples are exactly the non-empty examples present |
| `Fetch.AggregateTokens` | main.py:180-201 | Cached synonyms and antonyms are duplicate-free and exactly the tokens some definition object lists |
| `Fetch.ExamplesInResponseOrder` | main.py:182-187 | Examples keep response order and are not deduplicated |
| `Fetch.AbsorbAllCollects` | main.py:182-191 | Visiting definition objects one at a time yields the accumulators of the whole sequence |
| `Fetch.AggregateByLoops` | main.py:178-202 | The nested loops compute the aggregated entry |
| `Fetch.CollectMeaning` | main.py:183-191 | The inner loop over one meaning's definition objects performs one visit per object, in order |
| `Fetch.AbsorbByLoops` | main.py:184-191 | The loop body appends the definition text, appends a non-empty example and adds the synonyms and antonyms as sets |
| `Fetch.AddEach` | main.py:188-191 | Adding tokens one by one performs the union |
| `Fetch.FetchWord` | main.py:171-204 | A failed request or empty meanings return `{}` with the store unchanged; an empty response array escapes as an exception; otherwise exactly the queried key gets the aggregated entry and its record is returned |
| `Fetch.FetchReadsFirstElementOnly` | main.py:172 | Response elements after the first are never read |
| `Fetch.TwoMeaningsScenario` | main.py:178-202 | Definition "A" with example "ex1", then "B" with synonym "syn1", gives entry ("A", ["ex1"], ["syn1"], []) |
| `Resolver.SearchWord` | main.py:210-218 | A stored key is shown with the store unchanged; an empty key not in the store gives `{}`; any other key is fetched: a failed request or empty meanings give `{}`, an empty response escapes as an exception, otherwise the aggregated entry is cached under the key, which alone changes, and its record shown |
| `Resolver.StoredWordNeedsNoFetch` | main.py:213-214 | For a stored word the remote answer makes no difference |
| `Resolver.SearchIgnoresCaseAndPadding` | main.py:212 | Queries differing in case or surrounding whitespace resolve identically |
| `Resolver.FetchedWordIsCached` | main.py:197-204 | After a successful fetch the same query is served from the store with the same record, whatever the remote answer |
| `Resolver.SearchIsIdempotent` | main.py:210-218 | Repeating a search with the same remote answer changes nothing more |
| `Resolver.PaddedCapitalQueryScenario` | main.py:212-214 | With "cat" stored, "Cat " shows the "cat" entry under "Cat" |
| `Suggest.FirstNearest` | main.py:85 | `min` picks a key of least distance, the first such in iteration order |
| `Suggest.FirstNearestUnique` | main.py:85 | Only one position is the first nearest |
| `Suggest.ClosestMatch` | main.py:80-88 | An empty store gives ""; a suggestion is a stored key within distance 2 differing from the query beyond case; it is the first nearest key, and "" when that key fails either test |
| `Suggest.SuggestionIsNearest` | main.py:85-87 | A suggestion is at least as near as every stored key |
| `Suggest.NoSuggestionWhenAllFar` | main.py:86-88 | No suggestion when every key is more than two edits away |
| `Suggest.StoredWordGetsNoSuggestion` | main.py:85-88 | A query that is a stored key gets no suggestion, even with other keys within distance 2 |
| `Suggest.FirstNearestStep` | main.py:85 | A later key replaces the current candidate only when it is strictly nearer |
| `Suggest.FindClosestMatch` | main.py:80-88 | The scan with the table distance returns the suggestion |
| `Suggest.NearestIndex` | main.py:85 | The scan returns the first position of least distance and that distance |
| `Suggest.MisspelledQueryScenario` | main.py:80-88 | With only "cat" stored, "cwt" is offered "cat" |
| `Editing.TextAnswer` | main.py:111 | A given non-empty definition is taken as typed; a missing or empty one falls back |
| `Editing.ListAnswer` | main.py:112-114 | A missing or empty answer keeps the fallback; otherwise one item per comma-separated piece, each its piece without surrounding whitespace and with no comma, empty items kept |
| `Editing.ListAnswerRoundTrip` | main.py:112 | A whitespace-free answer is split exactly at its commas |
| `Editing.AddWord` | main.py:90-115 | No confirmation, or all answers missing or empty, leaves the store unchanged; otherwise only the key changes, to the answers or ""/[] |
| `Editing.Overwrite` | main.py:128-150 | No confirmation leaves the store unchanged; otherwise only the key changes, each field to its answer or else to its previous value or ""/[] |
| `Editing.OverwriteWithoutAnswers` | main.py:137-150 | Empty answers keep a stored entry; for an absent word they store the empty entry, where adding stores nothing |
| `Editing.OverwriteIsIdempotent` | main.py:137-150 | Overwriting twice with the same answers equals once |
| `Editing.AddWordIsIdempotent` | main.py:104-115 | Adding twice with the same answers equals once |
| `Editing.AddedEntryIsClean` | main.py:110-115 | Entries typed into the dialogs have only clean list items |
| `Editing.EditingShownTextKeepsEntry` | main.py:137-150 | Confirming the edit dialogs with the text the panel shows leaves a clean entry and the store unchanged |

## Left out

- The tkinter window, `display_result`, focus and packing, and the dialogs
  themselves (main.py:249-457). The dialogs' answers are parameters.
- `async_search`, `update_label` and the worker thread (main.py:296-312).
  Only the value a search returns and the store it leaves are modelled.
- The HTTP request, status checks and exception handling of `fetch_word`
  (main.py:163-171, 206-208). Their outcome is the `response` parameter: `None`
  for any caught failure, including non-200 status, request exceptions and JSON
  decoding errors, which `requests` raises as request exceptions. The response
  is typed. A JSON shape that would raise `KeyError` or `TypeError` is not
  modelled, nor is a `null` definition field.
- `load_json`, `save_json` and `get_app_dir` (main.py:20-60): file I/O. The store
  each operation returns is what `save_json` would write.
- A failing write. The model assumes `save_json` succeeds. When it raises
  `OSError`, the in-memory dictionary is already updated, but the exception
  escapes: in `fetch_word` (main.py:203) the handler on main.py:206 does not
  catch it, so the lookup ends in an exception where the model replies `Shown`.
- `play_audio` and `pronounce_word` (main.py:220-242, 341-351): speech and audio.
- Entries loaded from a JSON file that lacks a field. Every modelled entry has
  all four fields, so the `KeyError` `output` would raise is not modelled.
- Unicode: `strip`, `lower` and `capitalize` are modelled on ASCII only.
- Fetch.UnionMembers: Python lists a `set` in an unspecified order. The model
  picks first-occurrence order. `UnionMembers` and `AggregateTokens` state only
  membership and absence of duplicates, but `Aggregate`, and through it
  `FetchWord`, `SearchWord` and `Output`, commit to that order, so the order in
  which cached synonyms and antonyms are shown is the model's choice, not
  Python's.
