# Rick & Morty character table: the filter, sort and paginate pipeline

The application loads every character record from the Rick & Morty API and shows
them six at a time in a table. Above the table is a filter panel with three
filters: a name substring, an exact status and a species chosen from a list.
The panel also has a sort select (none, name or status). Below the table is a
pagination bar with Previous and Next buttons.

This project models that pipeline in Dafny and proves what it computes.

- `text.dfy` (module `Text`): ASCII lower-casing, `includes` as substring
  search, and lexicographic order by code point (`Leq`). `Leq` stands in for both
  `localeCompare` and the default `sort()`. It is proved reflexive, total,
  transitive and antisymmetric.
- `collections.dfy` (module `Collections`): `filter`, the
  de-duplication of `[...new Set(xs)]`, and `slice`, including its clamping and
  negative positions.
- `sorting.dfy` (module `Sorting`): `Array.prototype.sort` with a one-field
  string comparator. It is modelled as a stable insertion sort, as ECMAScript
  2019 requires stability. The result is proved sorted, a permutation and
  stable. It is also proved to be the only sequence with those three
  properties, so the model fixes the output of every conforming engine.
- `characters.dfy` (module `Characters`):
  - the records, the filter criteria and the sort key;
  - `Apply`, the reference definition of the filter effect;
  - `FilterAndSort`, the effect's staged body, proved equal to `Apply`;
  - the species options list.
- `fetch.dfy` (module `Fetch`): the `fetchAllData` loop as a method over an
  abstract `server` function from page number to response.
- `pagination.dfy` (module `Pagination`): the page count, the
  Previous/Next handlers and the buttons' disabled conditions.
- `app.dfy` (module `AppState`):
  - the page slice;
  - the `App` component as a class holding the React state. Its methods are
    the load, the filter and sort changes with their page reset, and the two
    navigation handlers. They preserve the invariant `Valid()`: the derived
    list equals `Apply` of the data and criteria once loading is over, and
    from then on `noResults` holds exactly when that list is empty. The current page is a real page, or
    page 1 when there are none.
  - `Render`, which picks the spinner, the error message or the table.

After a failed request, `src/App.jsx:186-188` shows only the error message, so
the data gathered before the failure is stored but never displayed.
`AppState.App.Render` states this.

## Model

| member | source | states |
|---|---|---|
| Text.Lower | src/App.jsx:139 | `toLowerCase` maps each character on its own (ASCII letters to lower case), so the length is kept |
| Text.Contains | src/App.jsx:139 | `includes`: the text is a prefix of the string or of one of its suffixes |
| Text.Leq | src/App.jsx:157 | the comparator: lexicographic order by code point, with a proper prefix first |
| Text.LowerNormalises | src/App.jsx:139 | after `toLowerCase` no upper-case letter remains, and lower-casing again changes nothing |
| Text.ContainsIffOccurs | src/App.jsx:139 | `includes` holds exactly when the text occurs at some position of the name |
| Text.LeqTotal | src/App.jsx:157 | any two strings are comparable under the comparator |
| Text.LeqTransitive | src/App.jsx:157 | the comparator's order is transitive |
| Text.LeqAntisymmetric | src/App.jsx:157 | strings that each sort no later than the other are equal |
| Collections.Filter | src/App.jsx:138-152 | `filter`: the elements that pass, in input order, never more than the input |
| Collections.Dedup | src/App.jsx:60 | `[...new Set(xs)]`: the distinct values of the list, never longer than it |
| Collections.Slice | src/App.jsx:175 | `slice(start, end)`: a contiguous run of the list beginning at the clamped start position |
| Collections.FilterCounts | src/App.jsx:138-152 | each filter stage keeps an element exactly as often as it occurs when it passes, and never otherwise |
| Collections.FilterSubsequence | src/App.jsx:138-152 | a filter stage's output is an order-preserving subsequence of its input |
| Collections.FilterKeepsAll | src/App.jsx:134-153 | filtering returns the input unchanged exactly when every element passes |
| Collections.FilterIdempotent | src/App.jsx:137-153 | filtering the output again with the same predicate returns it unchanged |
| Collections.FilterConjunction | src/App.jsx:137-153 | two successive filter stages equal one filter by the conjunction |
| Collections.FilterCommutes | src/App.jsx:137-153 | the order of two filter stages does not affect the result |
| Collections.DedupKeepsEachOnce | src/App.jsx:60 | de-duplication keeps every value that occurs and repeats none |
| Collections.DistinctIffSingletons | src/App.jsx:60 | a list is free of repeats exactly when no value occurs twice in it |
| Collections.SlicePosition | src/App.jsx:175 | a slice bound is always clamped into 0..length |
| Sorting.SortBy | src/App.jsx:157 | the in-place `sort` with a one-field comparator, as a stable insertion sort that keeps the length |
| Sorting.Insert | src/App.jsx:157 | placing one element adds exactly that element |
| Sorting.InsertSorted | src/App.jsx:157 | placing an element into a sorted list keeps it sorted |
| Sorting.SortByIsSortedPermutation | src/App.jsx:156-158 | the sort's result is non-decreasing by the key and is a permutation of its input |
| Sorting.InsertStable | src/App.jsx:157 | placing an element puts it ahead of the elements with the same key |
| Sorting.SortStable | src/App.jsx:157 | elements with equal keys keep their input order |
| Sorting.SortSortedIsIdentity | src/App.jsx:157 | sorting an already sorted list leaves it unchanged |
| Sorting.SortedAgreeingEqual | src/App.jsx:157 | two sorted lists that agree key by key are equal |
| Sorting.StableSortIsUnique | src/App.jsx:157 | any sorted, stable rearrangement of the input is the sort's result |
| Characters.NameMatches | src/App.jsx:139 | name filter: the lower-cased name includes the lower-cased filter text |
| Characters.StatusMatches | src/App.jsx:145 | status filter: exact, case-sensitive equality |
| Characters.SpeciesMatches | src/App.jsx:151 | species filter: equality after lower-casing both sides |
| Characters.Matches | src/App.jsx:137-153 | a record passes when it passes every filter whose text is non-empty |
| Characters.Apply | src/App.jsx:134-158 | the reference definition of the effect: the records passing all active filters, in data order, then stably sorted by the chosen field; never longer than the data |
| Characters.FilterAndSort | src/App.jsx:131-164 | the staged filters (name, status, species) and the optional sort yield `Apply`, and `noResults` holds exactly when the result is empty |
| Characters.ApplyKeepsExactlyMatches | src/App.jsx:137-153 | soundness and completeness: a record is in the result exactly when it is in the data and passes every active filter, with its multiplicity |
| Characters.ApplyUnsortedKeepsOrder | src/App.jsx:134-158 | with no sort key the result is an order-preserving subsequence of the data |
| Characters.ApplyNothingIsIdentity | src/App.jsx:134-158 | with no filter and no sort key the result is the data itself |
| Characters.ApplySortedIsStablePermutation | src/App.jsx:156-158 | with a sort key the result is non-decreasing by that field, a permutation of the filtered list, and stable |
| Characters.ApplyIdempotent | src/App.jsx:137-158 | rerunning the effect on its own output with the same criteria gives the same list |
| Characters.SpeciesOf | src/App.jsx:60 | the mapped list has one species per record, at the record's position |
| Characters.SpeciesOptions | src/App.jsx:60 | the de-duplicated species, sorted; no more options than records |
| Characters.SpeciesOptionsAreSortedDistinctSpecies | src/App.jsx:60 | the options are exactly the species present in the data, each once, in strictly ascending order |
| Fetch.Gathered | src/App.jsx:112 | the batches of pages 1..n concatenated in page order |
| Fetch.GatheredExtends | src/App.jsx:112 | accumulation only appends: the data from fewer pages is a prefix of the data from more |
| Fetch.FetchAll | src/App.jsx:101-126 | pages are requested from 1 in order. Every request but the last succeeded and reported more pages than its own number. The run fails exactly when the last request failed, and then keeps every earlier page's batch in page order. Otherwise all batches are kept and the last response reported no later page |
| Pagination.TotalPages | src/components/Pagination.jsx:5 | `Math.ceil(totalItems / pageSize)` with real division; never negative, and zero exactly when there are no items |
| Pagination.PreviousDisabled | src/components/Pagination.jsx:21 | Previous is disabled when the current page is 1 |
| Pagination.NextDisabled | src/components/Pagination.jsx:36 | Next is disabled when the current page equals the page count |
| Pagination.Ceil | src/components/Pagination.jsx:5 | `Math.ceil` returns the least integer not below its argument |
| Pagination.CeilingBrackets | src/components/Pagination.jsx:5 | the real ceiling t of n/p satisfies (t-1)*p < n <= t*p |
| Pagination.TotalPagesIsIntegerCeiling | src/components/Pagination.jsx:5 | the page count is (n+p-1)/p. When n > 0, (t-1)*p < n <= t*p; when n = 0 the page count is 0 |
| Pagination.PreviousPage | src/components/Pagination.jsx:7-9 | Previous moves back exactly one page when the current page is above 1, otherwise does nothing, and never goes below 1 |
| Pagination.NextPage | src/components/Pagination.jsx:11-13 | Next moves on exactly one page when the current page is below the count, otherwise does nothing, and never passes the count |
| Pagination.NavigationStaysInRange | src/components/Pagination.jsx:7-13 | both handlers keep 1 <= currentPage <= totalPages |
| Pagination.PreviousDisabledIffInert | src/components/Pagination.jsx:21 | on any page from 1 on, Previous is disabled exactly when clicking it would do nothing |
| Pagination.NextDisabledIffInert | src/components/Pagination.jsx:36 | within 1..totalPages, Next is disabled exactly when clicking it would do nothing |
| Pagination.EmptyListLeavesNextEnabledButInert | src/components/Pagination.jsx:36 | with no items there are 0 pages, and on page 1 Next is enabled although clicking it does nothing |
| Pagination.NextDisabledCorrectedIffInert | src/components/Pagination.jsx:36 | the condition `currentPage >= totalPages` disables Next exactly when it would do nothing, for every page count |
| AppState.PageRows | src/App.jsx:174-175 | `slice((p-1)*6, (p-1)*6+6)`: at most 6 rows |
| AppState.PageRowsAreTheWindow | src/App.jsx:174-175 | the page has max(0, min(6, len-(p-1)*6)) rows, namely the items from (p-1)*6 on, and is empty past the last page |
| AppState.PagesUpToIsPrefix | src/App.jsx:174-175 | pages 1..n shown in turn are the first min(len, 6n) items |
| AppState.PagesCoverFilteredList | src/App.jsx:174-175 | pages 1..totalPages shown in turn are the whole filtered list, each item once and in order |
| AppState.ThirteenItemsScenario | src/App.jsx:174-175 | 13 items make pages of 6, 6 and 1 rows, and page 4 is empty |
| AppState.App.constructor | src/App.jsx:17-53 | the initial state is loading, with no data, no filters, no sort key and page 1 |
| AppState.App.RefreshFilteredData | src/App.jsx:131-164 | while loading the effect does nothing. Otherwise the derived list becomes `Apply` of the data and criteria, and the emptiness flag is set from it |
| AppState.App.Load | src/App.jsx:101-126 | after the fetch, loading is over, `data` is the batches of pages 1 to the last successful one, every page before the last request reported a later page, a successful run ends at a page that reported no later page, the error flag records whether the last request failed, and the derived list is up to date |
| AppState.App.SetFilters | src/App.jsx:169-171 | a filter change recomputes the derived list, resets the page to 1 and keeps the invariant |
| AppState.App.SetSortKey | src/App.jsx:169-171 | a sort change recomputes the derived list, resets the page to 1 and keeps the invariant |
| AppState.App.HandlePrevious | src/components/Pagination.jsx:7-9 | the Previous handler applied to the state keeps the invariant |
| AppState.App.HandleNext | src/components/Pagination.jsx:11-13 | the Next handler applied to the state keeps the current page a real page |
| AppState.App.Valid | src/App.jsx:131-171 | the state invariant: while loading nothing is derived yet; afterwards the derived list is `Apply` of the data and criteria and `noResults` holds exactly when it is empty; the current page is 1 or a real page |
| AppState.App.SpeciesOptionsShown | src/App.jsx:58-62 | the species options the effect keeps for the current data |
| AppState.App.PageCount | src/App.jsx:275 | the page count of the filtered list handed to the pagination bar; never negative |
| AppState.App.CurrentPageData | src/App.jsx:174-175 | the current page's rows: at most 6, all from the filtered list |
| AppState.App.Render | src/App.jsx:178-188 | the spinner shows exactly while loading, and the error message exactly after a failed load. Otherwise the table gets the current page's rows and the emptiness flag, and the pagination bar the current page and the page count |

## Left out

- The network request itself (`axios.get`), the URL and error logging. A response is the abstract `server(p)`, and any exception is the single outcome `Failed`.
- Fetch.FetchAll: requires the server to report page counts below some bound. The source loop does not terminate against a server whose page counts keep growing, and the model excludes that case.
- Text.Leq: `localeCompare` is locale collation. It is modelled as plain lexicographic order by code point. The two can disagree on case and accents, so for sorting by name or status the model fixes one particular total order.
- Characters.SpeciesOptions: the default `sort()` at src/App.jsx:60 compares UTF-16 code units, while `Leq` compares code points. Species containing characters above U+FFFF may therefore be ordered differently from the source (for example "\u{10000}" sorts before "\uFFFF" in JavaScript but after it here).
- Pagination.TotalPages: `Math.ceil(totalItems / pageSize)` divides IEEE doubles; the model divides exact reals. With page size 6 and an item count below 2^53 the rounding error of the quotient is under 1/8, less than its distance 1/6 from the nearest integer when it is not one, so the two ceilings agree; larger counts are not modelled.
- Text.Lower: `toLowerCase` is modelled for ASCII letters only. Other characters pass through unchanged.
- The in-place `updatedData.sort(...)` is modelled on values. It sorts a fresh copy, so no alias of it is observable.
- The `speciesOptions` state is modelled as a function of `data` (`AppState.App.SpeciesOptionsShown`) rather than a stored field. It is exactly what the effect keeps in that field after every change of `data`.
- React's effect scheduling is reduced to running the effects in source order inside each method: the `isLoading` guard, batched state updates, and the render between an update and its effect.
- The mouse tracking, the click animation and `src/components/Eyes.jsx`: timers, events and floating-point geometry.
- The selected-character state and the rendering components (`Table`, `Filters`, `CharacterDetails`, `main`). src/components/Filters.jsx is not part of this model. It is what produces new criteria and sort keys, and any value of those is accepted here.

## Findings

| source | as written | input that shows it | evidently intended | confidence | as-written member | corrected member |
|---|---|---|---|---|---|---|
| src/components/Pagination.jsx:36 | Next is disabled only when `currentPage === totalPages` | a filter that matches nothing: totalItems = 0 gives totalPages = 0 with currentPage = 1, so Next is enabled but clicking it does nothing | Next disabled whenever there is no later page (`currentPage >= totalPages`) | medium, not executed | Pagination.EmptyListLeavesNextEnabledButInert | Pagination.NextDisabledCorrectedIffInert |
