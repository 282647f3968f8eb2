# autoComplete.js data controller, modelled in Dafny

This project models the data controller of autoComplete.js
(`src/controllers/dataController.js`). The controller has three parts:

- **`listMatchingResults(config, query)`** walks the data store in index
  order. For each record it calls `search(key)` once per configured key, or
  `search()` once when no key list is set. `search` turns the value it looks
  up into a string with `toString`, skips empty strings, and asks the search
  engine. For every truthy answer it pushes `{key?, index, match, value}` onto
  `resList`. At the end it sorts `resList` when `config.sort` is set.
- **`checkTriggerCondition(config, queryValue)`** decides whether a search
  should run. A custom `trigger.condition` decides on its own. Otherwise the
  query must be at least `threshold` long and contain a character other than
  a space.
- **`prepareQueryValue(inputValue, query)`** applies the caller's
  `query.manipulate` when there is one. Otherwise it folds accents: NFD, then
  removal of U+0300..U+036F, then NFC.

Modules:

- `Wrappers`: `Option` and `Result`.
- `ArraySort`: the comparator sort behind `Array.prototype.sort`, as a stable
  insertion sort on values.
- `MatchingResults`: `listMatchingResults`.
- `Trigger`: `checkTriggerCondition`.
- `QueryValue`: `prepareQueryValue`.

### How `listMatchingResults` is modelled

The imperative code is three nested pieces:

- `ListMatchingResults` is the whole call.
- `ScanStore` is the loop over the store.
- `SearchRecord` is the loop over one record's keys.

Each one is proved against a specification function. `Scan.Collect` is a fold
of `search` over the (record, probe) pairs, `Slots`, in the order the loops
visit them. The properties of the call are then proved as lemmas about that
fold.

Two pieces of JavaScript behaviour are written out explicitly:

- **A falsy key.** A key that is the empty string is falsy. `search("")`
  therefore stringifies the whole record and pushes an entry without a `key`
  field (`KeyField`).
- **A throwing `toString`.** `toString` on `undefined` or `null` throws, and
  the exception ends the call. This is the `Err(ToStringOfNullish(index, key))`
  of the first pair whose value is missing.

### Where the code and its description differ

The JSDoc of `checkTriggerCondition` (src/controllers/dataController.js:36)
says it returns a Boolean. The code at line 41 returns the custom condition's own value, `false`, or the number of
non-space characters. The model follows the code: `Verdict` holds any of the
three, and `Truthy` gives its truthiness.

## Model

| member | source | states |
|---|---|---|
| MatchingResults.ListMatchingResults | src/controllers/dataController.js:52-102 | the method's result is `MatchingResults`: the scan's list, stable-sorted when a comparator is set, or the fault thrown by the scan |
| MatchingResults.ScanStore | src/controllers/dataController.js:54-97 | the outer loop over `store` in index order; it returns the fold over all records' pairs, and a thrown fault ends the loop with that fault |
| MatchingResults.SearchRecord | src/controllers/dataController.js:87-96 | the per-record step; given the list after records `0..index-1`, it returns the list after record `index`, calling `search` per key in key-list order, or once with no key |
| MatchingResults.SearchStep | src/controllers/dataController.js:59-86 | one `search` call extends the scan: it throws (and the record's scan fails with that fault), pushes nothing, or appends exactly its entry |
| MatchingResults.Scan.Probe | src/controllers/dataController.js:59-86 | one `search(key)`: it throws exactly when the looked-up value has no string; it pushes an entry exactly when the string is non-empty and the matcher's answer is truthy; that entry has the pair's index, the record itself as `value`, the matcher's answer as `match`, and a `key` exactly when the key is truthy |
| MatchingResults.KeyField | src/controllers/dataController.js:70-84 | an entry carries `key` exactly when the key argument is truthy (set and non-empty), and then it is that key |
| MatchingResults.Probes | src/controllers/dataController.js:88-96 | with a key list, `search` is called once per key, in list order; without one, it is called once with no key |
| MatchingResults.Scan.CollectStep | src/controllers/dataController.js:54-86 | pushing onto a single `resList`: one more `search` call throws, or appends its entry (or nothing) to the list so far |
| MatchingResults.Scan.CollectFault | src/controllers/dataController.js:61 | the scan succeeds exactly when every visited pair's value has a string; when it fails, the fault names the first pair without one |
| MatchingResults.Scan.CollectFaultStays | src/controllers/dataController.js:56-97 | once `search` has thrown, visiting further pairs does not change the outcome: the exception leaves the loops |
| MatchingResults.FaultStaysToEnd | src/controllers/dataController.js:56-97 | a fault thrown within the first `m` records is the fault of the whole call |
| MatchingResults.Scan.CollectEntries | src/controllers/dataController.js:54-97 | a successful scan's list has one entry per hitting pair, in pair order, and each entry is the one `search` builds for its pair |
| MatchingResults.Scan.MatcherSeesOnlyNonEmpty | src/controllers/dataController.js:61-68 | the matcher is never asked about an empty string: two matchers that agree on every non-empty value give the same outcome |
| MatchingResults.Scan.SelectIncreasing | src/controllers/dataController.js:54-97 | the hitting pairs keep the order in which the loops visit them |
| MatchingResults.Scan.PartialEnds | src/controllers/dataController.js:87-96 | before a record's first key the scan is the scan of the earlier records; after its last key it is the scan including that record |
| MatchingResults.SlotsIncreasing | src/controllers/dataController.js:56-96 | the loops visit the pairs in strictly increasing (index, key position) order |
| MatchingResults.SlotsComplete | src/controllers/dataController.js:56-96 | every pair of a record below `n` and a key position below the probe count is visited |
| MatchingResults.SlotsLength | src/controllers/dataController.js:56-96 | exactly `store.length` times the number of probes pairs are visited |
| MatchingResults.PrefixGrows | src/controllers/dataController.js:56 | the pairs of the first `m` records are a prefix of the pairs of the first `n >= m` records |
| MatchingResults.ResultEntries | src/controllers/dataController.js:59-99 | every entry of the result, sorted or not, is the entry `search` builds for some visited pair that hits |
| MatchingResults.EntriesFromStore | src/controllers/dataController.js:56-83 | every entry has `0 <= index < store.length`, and its `value` is the record at that index |
| MatchingResults.EntryKeys | src/controllers/dataController.js:70-96 | an entry has `key` only when a key list is set, and then it is a non-empty configured key; with no key list no entry has a key; with a key list of non-empty keys every entry has one |
| MatchingResults.ScanOrder | src/controllers/dataController.js:54-99 | without a comparator, the entries match the hitting pairs one for one, in visiting order, so `index` never decreases |
| MatchingResults.OnePerRecord | src/controllers/dataController.js:94-99 | without a key list, no two entries share an `index`, with or without a comparator; without a comparator `index` strictly increases |
| MatchingResults.ScanIndexesIncrease | src/controllers/dataController.js:94-96 | without a key list, the list the scan builds has strictly increasing indexes, whatever the comparator |
| MatchingResults.DistinctIndexesPermuted | src/controllers/dataController.js:99 | the sort only permutes the list, so entries with pairwise different indexes keep them pairwise different |
| MatchingResults.ExactlyTheHits | src/controllers/dataController.js:61-84 | a pair yields an entry exactly when its string is non-empty and the search engine's answer is truthy |
| MatchingResults.CountBounds | src/controllers/dataController.js:88-96 | the result has at most `store.length` times the number of keys entries (at most `store.length` without a key list); an empty key list gives an empty result |
| MatchingResults.AlwaysMatchingCount | src/controllers/dataController.js:63-84 | with a search engine that accepts every non-empty string, the count equals the number of pairs with a non-empty string |
| MatchingResults.Throws | src/controllers/dataController.js:61 | the call throws exactly when some visited value is `undefined` or `null`; the fault names the first such pair in visiting order |
| MatchingResults.SortedResults | src/controllers/dataController.js:99 | with a comparator that is consistent on the entries (swapping arguments flips the sign, and "not greater" is a total preorder), the result is a permutation of the scan's list, ordered by the comparator, and entries that compare equal keep their scan order |
| ArraySort.Insert | src/controllers/dataController.js:99 | one insertion step of the sort: it adds exactly one element, as a multiset |
| ArraySort.StableSort | src/controllers/dataController.js:99 | the sort is a permutation of its input |
| ArraySort.InsertSorted | src/controllers/dataController.js:99 | inserting into a sorted list keeps it sorted under a consistent comparator |
| ArraySort.StableSortSorted | src/controllers/dataController.js:99 | the sorted list is ordered by the comparator when the comparator is consistent on the list |
| ArraySort.InsertClass | src/controllers/dataController.js:99 | an insertion places the new element after every element that compares equal to it |
| ArraySort.StableSortStable | src/controllers/dataController.js:99 | stability under a consistent comparator: for every element, the elements equal to it under the comparator come out in input order |
| Trigger.CheckTriggerCondition | src/controllers/dataController.js:38-42 | a custom condition's own value is returned unchanged; without one, the verdict is never a custom value |
| Trigger.WithoutSpaces | src/controllers/dataController.js:41 | after removing U+0020 no space remains, every other character still occurs, and the result is empty exactly when the input was all spaces |
| Trigger.WithoutSpacesCounts | src/controllers/dataController.js:41 | removing U+0020 keeps every other character exactly as many times as it occurs and drops every space |
| Trigger.DefaultCount | src/controllers/dataController.js:41 | without a custom condition, a query that reaches the threshold gets its length minus its number of spaces, and a shorter query gets `false` |
| Trigger.DefaultCondition | src/controllers/dataController.js:41 | without a custom condition, the verdict is truthy exactly when `length >= threshold` and some character is not a space |
| QueryValue.PrepareQueryValue | src/controllers/dataController.js:24-28 | with `manipulate`, its output is returned unchanged; otherwise the value is NFD, then mark removal, then NFC of the input |
| QueryValue.StripMarksKeeps | src/controllers/dataController.js:27 | after mark removal no U+0300..U+036F remains, every other character is kept, and the string does not grow |
| QueryValue.StripMarksAppend | src/controllers/dataController.js:27 | mark removal works piece by piece, so the kept characters stay in input order |
| QueryValue.StripMarksNoMarks | src/controllers/dataController.js:27 | a string without combining marks is left unchanged |
| QueryValue.StripMarksIdempotent | src/controllers/dataController.js:27 | removing marks twice is the same as removing them once |
| QueryValue.StripMarksDropsTrailingMark | src/controllers/dataController.js:27 | a combining mark after a mark-free string is dropped, and the string is kept |
| QueryValue.DefaultNormalizationIdempotent | src/controllers/dataController.js:27 | default folding is idempotent, given three facts of Unicode normalization: NFD undoes NFC, NFC undoes NFD, and NFD of a mark-stripped NFD string brings back no mark of U+0300..U+036F |
| QueryValue.AccentedAndPlainAgree | src/controllers/dataController.js:27 | "café" typed precomposed and "cafe" fold to the same query |

## Left out

- `getInputValue` (src/controllers/dataController.js:10-14) reads a DOM element's value or `innerHTML` and lower-cases it. It is browser I/O and is not modelled.
- The default `searchEngine` comes from `../services/search`, which is not part of this model. It is the parameter `defaultEngine`. The model does not pass it the third argument, `config`.
- `String.prototype.normalize("NFD")` and `normalize("NFC")` are the parameters `Unicode.nfd` and `Unicode.nfc`. `DefaultNormalizationIdempotent` assumes the three normalization facts stated in `Coherent`, which hold for Unicode Standard Annex #15 normalization but are not proved here.
- `toString` and the property lookup `record[key]` are the parameter `str`. It returns `None` exactly where `toString` would throw on `undefined` or `null`. Getters and `toString` overrides with side effects are not modelled.
- Exceptions thrown by a custom `searchEngine`, by the comparator, or by `trigger.condition` are not modelled. Those functions are total.
- JavaScript strings, which are UTF-16 code units, are modelled as sequences of Dafny `char`, which are Unicode scalar values. `length` therefore counts a character outside the Basic Multilingual Plane once, not twice.
- `config.data.key` is modelled as absent or a list of strings. A truthy non-array value, such as a string, which `for...of` would iterate character by character, is not modelled. The same goes for a key list holding non-strings.
- MatchingResults.SortedResults: `resList.sort(config.sort)` sorts the array in place and returns it. The model sorts a value, because `resList` is local and never aliased. The order is proved only for comparators that are consistent on the entries, in the sense ECMAScript gives the word: swapping the arguments flips the sign of the result, and "not greater" is a total preorder. For any other comparator, JavaScript leaves the order implementation-defined; the model still proves a permutation.
- ArraySort.StableSort: the comparator's result is an integer. NaN, fractional and non-numeric results are not modelled.
- Trigger.CheckTriggerCondition: `threshold` is an integer. An `undefined` threshold, which makes the comparison false, is not modelled. A missing `config.trigger` object, on which the code throws, is not modelled either.
- Trigger.DefaultCondition: the truthiness of a custom condition's value is the caller-supplied `truthy` function.
- The store is a sequence that the call only reads. Changes to it during the call, made by callbacks, are not modelled.
