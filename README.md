# CekBurung species list — a Dafny model

CekBurung is a browser front-end for identifying Indonesian bird species. Its
"List Burung" page fetches the species records once and shows them in a
table that the user can sort by clicking a column header, narrow with a
search box, and page through ten rows at a time. This project models that
table controller (`src/components/List.tsx`):

- the record (`Species.Label`) and the text each field sorts by
  (`label[key].toString().toLowerCase()`);
- the comparator handed to `Array.prototype.sort` and the stable sort it
  drives (`Sorting`);
- the case-insensitive substring search over the Indonesian, English and
  Latin names (`Search`, built on `Text.Contains` and `Seqs.Filter`);
- the page arithmetic: `totalPages`, `indexOfFirstItem`, `slice` and the
  printed row numbers (`Paging`);
- the component state (`labels`, `loading`, `searchTerm`, `currentPage`,
  `sortKey`, `sortDirection`) as the class `SpeciesList.ListController`,
  whose methods are the three event handlers and the end of the fetch, and
  whose functions derive `sortedLabels`, `filteredLabels`, `totalPages` and
  `currentItems` from the state. Its invariant `Valid()` says the page is
  at least 1 and never past the last page once there are results, so the
  visible page is never empty while anything matches.

Lower-casing is modelled on ASCII letters; string `<` compares characters
from the left, a proper prefix being smaller.

Sorting descending keeps records with equal sort text in fetch order: the
comparator only flips its non-zero answers, and `sort` is stable. Clicking
a column twice therefore reverses the ascending order when no two records
share that column's lower-cased text
(`Sorting.DescendingReversesAscending`). When the fetched list repeats no
record but holds two different records with the same text, it does not
(`Sorting.TiesBreakReversal`; `Sorting.TiesKeepFetchOrder` is the
two-record case). The model follows the code.

## Model

| member | source | states |
|---|---|---|
| `Text.LowerChar` | src/components/List.tsx:71-72 | a capital ASCII letter becomes the small letter at the same place in the alphabet; every other character is unchanged |
| `Text.Lower` | src/components/List.tsx:71-72 | `toLowerCase` keeps the length and lower-cases each character in place |
| `Text.LowerIgnoresCase` | src/components/List.tsx:71-72 | two strings have the same lower-cased form exactly when they differ only in ASCII case, so sorting and search ignore case |
| `Text.LexLessTrichotomy` | src/components/List.tsx:73-75 | string `<` is a strict total order: exactly one of `a < b`, `a == b`, `b < a` holds, so the comparator's fall-through to 0 means equal texts |
| `Text.LexLessTransitive` | src/components/List.tsx:73-74 | string `<` is transitive, so the comparator is consistent |
| `Text.ContainsIffOccurs` | src/components/List.tsx:79-81 | `includes` holds exactly when the needle occurs at some index of the haystack |
| `Species.NatToString` | src/components/List.tsx:71-72 | the `toString` of a numeric id is non-empty, all decimal digits, without a leading zero (reached only if `burung_id` were a sort key; no header sorts by it) |
| `Species.IntToString` | src/components/List.tsx:71-72 | a negative id prints `-` followed by the digits of its magnitude; a non-negative one prints its digits alone |
| `Species.IntToStringInjective` | src/components/List.tsx:71-72 | two ids with the same printed text are equal |
| `Species.FieldText` | src/components/List.tsx:71-72 | a string field's text is the field itself; the id's is its signed decimal rendering |
| `Sorting.SortText` | src/components/List.tsx:71-72 | the comparator compares the lower-cased field text: same length, each character the field's character up to ASCII case and never a capital |
| `Species.NatToStringRoundTrip` | src/components/List.tsx:71-72 | reading the digits back gives the id, so distinct ids sort by distinct texts |
| `Sorting.Compare` | src/components/List.tsx:69-76 | the comparator is 0 without a key; with a key it is 0 exactly for equal lower-cased texts, and non-positive exactly when `a` may precede `b` in the chosen direction |
| `Sorting.SortedLabels` | src/components/List.tsx:69 | the sorted copy is a permutation of the fetched records |
| `Sorting.SortedOrdered` | src/components/List.tsx:71-75 | along the sorted records the lower-cased key texts never decrease when ascending and never increase when descending |
| `Sorting.SortedStable` | src/components/List.tsx:69-76 | for every key text, the records carrying it keep their fetch order (stable sort) |
| `Sorting.UnsortedKeepsOrder` | src/components/List.tsx:69-70 | with no sort key the order is the fetch order |
| `Sorting.OrderedPermutationUnique` | src/components/List.tsx:69-76 | when key texts identify records, two ordered arrangements of the same records are equal |
| `Sorting.DescendingReversesAscending` | src/components/List.tsx:59-76 | when key texts identify records, the descending order is the ascending order reversed |
| `Sorting.TiesKeepFetchOrder` | src/components/List.tsx:73-75 | for the list of two different records with equal key text, both directions keep fetch order, so descending is not ascending reversed |
| `Sorting.TiesBreakReversal` | src/components/List.tsx:59-76 | for any fetched list without a repeated record that holds two different records with equal key text, the descending order is not the ascending order reversed |
| `Seqs.Filter` | src/components/List.tsx:78 | `filter` keeps exactly the elements satisfying the predicate, and no more of them than there were |
| `Seqs.FilterAppend` | src/components/List.tsx:78 | filtering distributes over concatenation, so kept records keep their relative order |
| `Search.Matches` | src/components/List.tsx:79-81 | the filter callback holds exactly when the lower-cased term occurs at some index of the lower-cased Indonesian, English or Latin name |
| `Search.MatchesIgnoresCase` | src/components/List.tsx:79-81 | two terms that differ only in ASCII case keep the same records |
| `Search.FilteredLabels` | src/components/List.tsx:78-82 | a record is kept exactly when it is in the sorted list and its Indonesian, English or Latin name contains the term, ignoring case |
| `Search.EmptyTermKeepsAll` | src/components/List.tsx:78-82 | an empty term keeps the whole sorted list, in order |
| `Search.FilteredKeepsOrder` | src/components/List.tsx:69-82 | filtering a sorted list leaves it sorted |
| `Paging.TotalPages` | src/components/List.tsx:84 | `totalPages` is the ceiling of count/10: the pages hold every record and one page fewer would not |
| `Paging.SliceIndex` | src/components/List.tsx:87 | `slice` takes an in-range index as it is, clamps an index past the end to the length, and counts a negative one from the end, clamped at 0 |
| `Paging.Slice` | src/components/List.tsx:87 | `slice(start, end)` has `to - from` elements when the clamped end comes after the clamped start and none otherwise, element `i` being `s[from + i]` |
| `Paging.CurrentItems` | src/components/List.tsx:85-87 | a page holds at most 10 records |
| `Paging.CurrentItemsWindow` | src/components/List.tsx:85-87 | from page 1 on, item `i` of the page is filtered record `indexOfFirstItem + i` |
| `Paging.RowNumberIsPosition` | src/components/List.tsx:182 | the printed row number `indexOfFirstItem + index + 1` is the item's 1-based position in the filtered list |
| `Paging.PageSizes` | src/components/List.tsx:84-87 | pages 1..totalPages are non-empty, all but the last full, the last holds the remainder, later pages are empty |
| `Paging.PagesCoverAll` | src/components/List.tsx:84-87 | pages 1..totalPages read in turn give the whole filtered list, each record once, in order |
| `SpeciesList.ShownPage` | src/components/List.tsx:85-87 | for page 1 or an existing page of an ordered list, the slice holds consecutive records from `indexOfFirstItem`, in order, and is non-empty when the list is |
| `SpeciesList.ListController.constructor` | src/components/List.tsx:17-23 | initial state: loading, no records, empty search, page 1, no sort key, ascending |
| `SpeciesList.ListController.FinishLoad` | src/components/List.tsx:36-49 | the fetched array becomes `labels` (empty on failure) and loading ends; nothing else changes |
| `SpeciesList.ListController.SortedLabels` | src/components/List.tsx:69-76 | the current sorted list is a permutation of `labels`, ordered by key and direction, and the fetch order without a key |
| `SpeciesList.ListController.FilteredLabels` | src/components/List.tsx:78-82 | the current filtered list holds exactly the matching records, in sort order, and is the sorted list when the term is empty |
| `SpeciesList.ListController.TotalPages` | src/components/List.tsx:84 | the current `totalPages` is the fewest pages of ten holding every filtered record |
| `SpeciesList.ListController.IndexOfFirstItem` | src/components/List.tsx:85-86 | `indexOfFirstItem` counts the records on the pages before the current one and, under the invariant, is a valid index whenever anything matches |
| `SpeciesList.ListController.CurrentItems` | src/components/List.tsx:84-87 | the visible page has at most 10 records, consecutive from `indexOfFirstItem`, in sort order, and is non-empty whenever anything matches |
| `SpeciesList.ListController.HandleSort` | src/components/List.tsx:59-67 | the key becomes `key`; descending only if `key` was already the ascending key, ascending otherwise; page back to 1; labels and search untouched; the clicked header's marker (line 146) then points down exactly when that column had been the ascending key |
| `SpeciesList.ListController.SetSearch` | src/components/List.tsx:128-131 | the term becomes the typed text and the page resets to 1; sort state and labels untouched |
| `SpeciesList.ListController.Paginate` | src/components/List.tsx:89-93 | moves to `pageNumber` only when `1 <= pageNumber <= totalPages`, otherwise changes nothing (so never with zero results); the invariant is kept |

## Left out

- The network fetch and JSON parsing in `fetchLabels`: `FinishLoad` takes the parsed array, or nothing on failure; the logged error message is not modelled.
- Rendering: the image-preview modal, the image `onError` placeholder swap, the resize listener, the navigation menu, the "Loading" text, the `totalPages > 1` condition for showing the pager and the Prev/Next `disabled` flags.
- `src/utils/cropImage.ts`, `src/components/Scan.tsx`, `src/components/Home.tsx`, `src/components/About.tsx`, `src/App.tsx`: browser calls (canvas, camera, upload) and static markup; the low-confidence test in Scan.tsx is floating point on a re-parsed string.
- `Text.LowerChar`: lower-cases ASCII letters only, not the full Unicode `toLowerCase`.
- `Text.LexLess`: compares Dafny characters (Unicode scalar values), not UTF-16 code units; the two orders differ only for characters outside the Basic Multilingual Plane.
- `Species.IntToString`: `burung_id` is taken to be an integer; the `toString` of fractional or special numbers, and of integers of 10^21 or more in magnitude (printed in exponent form, such as `"1e+21"`), is not modelled.
- `Species.NatToString`: `Field` lists every key of a record, but the headers call `handleSort` only with the Indonesian, English and Latin names, `endemik` and `status_perlindungan`; sorting by `burung_id` or `labels_name` is modelled though no click reaches it.
- `Sorting.SortedLabels`: the engine's sorting algorithm is replaced by a stable insertion sort with the same comparator; only the result is modelled, not the sequence of comparisons.
- React's asynchronous state batching: each handler is one atomic update of the state.
