# Country finder: the data table's filter-and-paginate pipeline

This project models the core of the `DataTable` component of the country
finder (`src/components/DataTable.tsx`). The component fetches every country
once, then on each render:

- turns each country into a display row whose currencies are joined with `", "`;
- keeps the rows that match the submitted criteria. In continent mode it tests
  the continent name and the joined currencies with two case-sensitive
  substring tests. In every other mode it tests the country code;
- cuts out the page `[(page-1)*20, page*20)` with JavaScript's `slice`;
- asks, while mapping, for the continent catalog of the selector to be
  extended.

The component's state is `page`, `filter` and `continents`. It is changed by
three steps: submitting the form, moving to another page, and rendering.

Layout:

- `text.dfy` (module `TextOps`): `String.prototype.includes` as `Includes`,
  with an index-based reference definition, and `Array.prototype.join` as `Join`.
- `pipeline.dfy` (module `DataTable`): the records, display rows and criteria;
  row mapping, filtering, JavaScript `slice` with its index clamping, paging,
  and the whole pipeline `Render`.
- `catalog.dfy` (module `ContinentCatalog`): one render's effect on the
  continent catalog, and what repeated renders converge to.
- `component.dfy` (module `DataTableComponent`): the component state as a
  class with `SubmitFilter`, `ChangePage` and `RenderPass`.

Behaviour a reader might not expect (the model follows the code):

- **Catalog order.** One might expect the selector to list continents in
  order of first appearance, all filled in by one render. The code does not
  do that: every
  `setContinents([...continents, name])` builds from the catalog captured at
  the start of the render, and the last call wins. So a render adds at most one
  continent: the one of the LAST record whose continent was missing.
  `CatalogPass` models exactly this. `CatalogOrderExample` shows records on
  Europe then Asia giving `["Asia", "Europe"]`, which is not first-appearance
  order. `PassesReachAllContinents` shows that the catalog still becomes
  complete and duplicate-free after one render per missing continent.
- **Pager total.** The total handed to the pager is the number of fetched
  records, not of filtered rows (`PagerTotal`). This is kept as written.
  `PagerOffersEmptyPages` states what follows: the pager can offer pages that
  show nothing.
- **Currencies.** `Country.currencies` is typed as a list of `{name}` objects,
  but the code only joins it, and the query returns strings. It is modelled as
  a list of strings.

## Model

| member | source | states |
|---|---|---|
| TextOps.Includes | src/components/DataTable.tsx:74-76 | the substring test succeeds for an empty needle, and never for a needle longer than the text |
| TextOps.IncludesIffOccurs | src/components/DataTable.tsx:74-76 | `includes` holds exactly when the needle occurs at some index of the text, compared character by character (case-sensitive), in both directions |
| TextOps.IncludesInContext | src/components/DataTable.tsx:74 | a substring stays a substring when text is added before and after it |
| TextOps.Join | src/components/DataTable.tsx:69 | joining an empty list gives the empty string |
| TextOps.JoinSnoc | src/components/DataTable.tsx:69 | joining one more part appends the separator and then that part |
| TextOps.JoinLength | src/components/DataTable.tsx:69 | the joined string has every character of every part plus one separator per gap |
| TextOps.JoinIncludesEachPart | src/components/DataTable.tsx:69 | every currency of a record can be found in its joined currency string |
| DataTable.ToRow | src/components/DataTable.tsx:67-70 | code, name, capital and continent pass through; no currencies give `""`; every currency of the country can be found in the row's currency string |
| DataTable.MapRows | src/components/DataTable.tsx:62-71 | one display row per record, in the same order, each the mapped row of its record |
| DataTable.RowShowsRecord | src/components/DataTable.tsx:67-70 | code, name, capital and continent pass through unchanged; currencies are the list joined with `", "`, `""` for no currencies; every currency of the record matches the row's currency test |
| DataTable.JoinExample | src/components/DataTable.tsx:69 | `["EUR","USD"]` is shown as `"EUR, USD"`, `[]` as `""`, `["EUR"]` as `"EUR"` |
| DataTable.Keep | src/components/DataTable.tsx:72-78 | empty texts in the selected mode keep every row; in any mode other than "continent" a row is kept exactly when the code filter text occurs at some index of the code; in continent mode exactly when the continent text occurs in the continent and the currency text occurs in the joined currencies |
| DataTable.FilterRows | src/components/DataTable.tsx:72-78 | a row is in the result exactly when it is in the input and passes the mode's test; the result is never longer than the input |
| DataTable.FilterRowsKeepsEveryCopy | src/components/DataTable.tsx:72-78 | every copy of a passing row is kept and no copy of a failing row; with the subsequence property this fixes the result exactly, duplicates included |
| DataTable.FilterRowsIsSubsequence | src/components/DataTable.tsx:72-78 | filtering never adds or reorders rows: the result is a subsequence of the input |
| DataTable.FilterRowsAppend | src/components/DataTable.tsx:72-78 | filtering a concatenation is the concatenation of the filtered parts |
| DataTable.FilterRowsIdempotent | src/components/DataTable.tsx:72-78 | filtering again with the same criteria changes nothing |
| DataTable.PassthroughKeepsAll | src/components/DataTable.tsx:73-76 | empty filter texts in the selected mode keep every row, in order |
| DataTable.InitialFilterShowsAll | src/components/DataTable.tsx:53-58 | the initial criteria (continent mode, empty texts) show every row |
| DataTable.CodeModeExample | src/components/DataTable.tsx:75-76 | for any mode other than "continent", code filter "US" keeps US and USA and drops GB; "us" does not match "US" |
| DataTable.ContinentModeNeedsBoth | src/components/DataTable.tsx:73-74 | in continent mode a row is kept exactly when both the continent test and the currency test pass |
| DataTable.ClampIndex | src/components/DataTable.tsx:79 | a slice index is clamped into `0..len`: an index in range is kept, a larger one becomes `len`, a negative one counts from the end (`len + rel`) and becomes 0 when it reaches before the start |
| DataTable.JsSlice | src/components/DataTable.tsx:79 | `slice` never yields more elements than the list has, and only elements of the list, for any indices |
| DataTable.PageOf | src/components/DataTable.tsx:79 | a page never has more than 20 rows, for any page number; for page >= 1 its i-th row is row `(page-1)*20 + i` of the input |
| DataTable.SliceExamples | src/components/DataTable.tsx:79 | `slice(-2, 5)` of five elements gives the last two; an inverted window gives `[]`; page 0 is empty |
| DataTable.PageWindow | src/components/DataTable.tsx:79 | for page >= 1 the page is `rows[(page-1)*20 .. min(page*20, n)]`; it has at most 20 rows; it is empty exactly when `(page-1)*20 >= n`, with no error |
| DataTable.PagesArePrefix | src/components/DataTable.tsx:79 | pages `1..k` together are the first `min(20k, n)` rows |
| DataTable.PagesCoverAll | src/components/DataTable.tsx:79 | pages `1..ceil(n/20)` together reproduce the rows exactly; the last of them is non-empty and the next one is empty |
| DataTable.Render | src/components/DataTable.tsx:62-79 | the map/filter/slice chain shows at most 20 rows, each passing the criteria |
| DataTable.RenderShowsOnlyMatches | src/components/DataTable.tsx:62-79 | for any page number, every shown row is the display row of a fetched record that passes the criteria, and at most 20 rows are shown |
| DataTable.PassthroughPagesListEveryRow | src/components/DataTable.tsx:62-79 | with empty filter texts each page is that page of the mapped rows, and pages `1..ceil(n/20)` list every mapped row in order |
| DataTable.SecondPageOfTwentyFive | src/components/DataTable.tsx:79 | 25 records, empty filter: page 2 is exactly rows 21-25 (5 rows), and page 3 is empty |
| DataTable.PagerTotal | src/components/DataTable.tsx:196 | the pager's total is the number of fetched records, i.e. of mapped rows, before filtering |
| DataTable.PagerOffersEmptyPages | src/components/DataTable.tsx:193-196 | a page within the pager's range that starts beyond the filtered rows shows nothing |
| ContinentCatalog.CatalogPass | src/components/DataTable.tsx:62-65 | one render keeps the old catalog as a prefix and adds at most one name at its end |
| ContinentCatalog.CatalogPassLastWins | src/components/DataTable.tsx:63-64 | one render leaves the catalog unchanged exactly when every record's continent is already in it; otherwise the catalog gains the continent of the last record that was missing and nothing else; no duplicates are introduced |
| ContinentCatalog.CatalogPassAddsOnlyDataContinents | src/components/DataTable.tsx:63-64 | every name in the catalog after a render was in it before or is the continent of a fetched record |
| ContinentCatalog.Passes | src/components/DataTable.tsx:62-65 | the catalog after `k` re-renders keeps the starting catalog as a prefix and has grown by at most `k` names |
| ContinentCatalog.PassAddsAMissingContinent | src/components/DataTable.tsx:63-64 | a render is a fixed point when no continent is missing, and otherwise adds one of the missing continents |
| ContinentCatalog.AddingShrinksMissing | src/components/DataTable.tsx:64 | adding a missing continent removes exactly that continent from the missing set |
| ContinentCatalog.PassShrinksMissing | src/components/DataTable.tsx:63-64 | while a continent is missing, a render adds exactly one name, keeps the catalog duplicate-free and leaves one continent fewer missing |
| ContinentCatalog.CompleteCatalogIsFixed | src/components/DataTable.tsx:63 | once no continent is missing, a render makes no catalog request, so the catalog stays as it is |
| ContinentCatalog.PassesReachAllContinents | src/components/DataTable.tsx:62-65 | after one render per missing continent the catalog holds every continent of the data, has no duplicates, has grown by exactly that many names, and is a fixed point |
| ContinentCatalog.EmptyCatalogConverges | src/components/DataTable.tsx:47 | starting from the initial empty catalog, after as many renders as there are distinct continents, the catalog lists each continent exactly once and stops changing |
| ContinentCatalog.CatalogOrderExample | src/components/DataTable.tsx:63-64 | records on Europe then Asia: the first render gives `["Asia"]`, the second `["Asia", "Europe"]`, the third changes nothing |
| DataTableComponent.DataTableState.constructor | src/components/DataTable.tsx:46-58 | the component starts on page 1, in continent mode with empty texts, with an empty catalog |
| DataTableComponent.DataTableState.SubmitFilter | src/components/DataTable.tsx:95-97 | submitting replaces the whole criteria with the submitted values; page and catalog are unchanged |
| DataTableComponent.DataTableState.ChangePage | src/components/DataTable.tsx:195 | a page change sets only the page |
| DataTableComponent.DataTableState.RenderPass | src/components/DataTable.tsx:62-79 | a render shows `Render(records, filter, page)`, reports the unfiltered record count to the pager, sets the catalog to `CatalogPass` of the old catalog, and keeps the catalog duplicate-free |

## Left out

- The GraphQL query, the fetch through the Apollo client, and the loading and error screens (`:10-22`, `:60`, `:81-82`). These are network I/O. The model starts from the fetched list of countries.
- The rendering of the table, the pager and the layout grid (`:84-198`), except the pager's `onChangePage` (`ChangePage`) and `total` (`PagerTotal`). This is UI only.
- The form library and its fields, including which fields are disabled in which mode (`:88-161`). Only the effect of a submission is modelled. `SubmitFilter` accepts any criteria, so stale values in disabled fields are passed on as they are.
- React's scheduling of re-renders. Each render is an explicit `RenderPass` call. The re-renders that catalog updates cause are modelled as repeated passes (`Passes`). React gives up with a "Too many re-renders" error when state updates made during render keep triggering renders, after about 25 of them. `PassesReachAllContinents` and `EmptyCatalogConverges` put no bound on the number of distinct continents, so for data with more continents than that limit the component would throw instead of converging; the model does not capture that limit.
- The `continent` object of a record is reduced to its `name`. An absent `capital` is `None`.
- DataTable.PageWindow: states the window only for `page >= 1`. The pager only hands over pages from 1 up. `JsSlice` still models `slice` for every integer, including negative indices counted from the end.
- Strings are sequences of Unicode scalar values, while JavaScript strings are sequences of UTF-16 code units. The `includes` results agree on well-formed strings; lengths and indices of characters outside the Basic Multilingual Plane count differently, and lone surrogates are not modelled.
- DataTable.JsSlice: indices are integers. JavaScript's conversion of non-integer, NaN or infinite arguments is not modelled, because `page` is always an integer.
