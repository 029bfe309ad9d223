# AgenciaCarros catalog core, modelled in Dafny

This is a Dafny model of the client-side catalog of the AgenciaCarros car-dealership web
front end (`AgenciaCarros/app.js`), with proofs about it. It covers:

- **`Catalogo`**: filtering the catalog (`aplicarFiltros`, `limpiarFiltros`), slicing the
  filtered view into pages of `CONFIG.ITEMS_PER_PAGE` = 12 (`renderizarCatalogo`), the
  numbered page buttons with their "..." markers (`renderizarPaginacion`), page navigation
  (`irAPagina`), sorting (`ordenarPor`), and the local filter options used when the option
  requests fail (`cargarFiltros`).
- **`Comparador`**: up to `CONFIG.MAX_COMPARACION` = 4 vehicles, toggled in and out by id
  (`toggleVehiculo`), saved to local storage as an id list (`guardarEnStorage`), rebuilt
  from it (`cargarDesdeStorage`) and cleared (`limpiar`).
- **`Galeria`**: the image index moved by thumbnails and the previous/next arrows.
- **`Validaciones`**: the e-mail and phone checks, the required and length checks, the
  per-field error messages, and whole-form validation.
- **`BusquedaAvanzada.buscar`**: the search-as-you-type suggestions.

Modules:

| file | module | contents |
|---|---|---|
| `wrappers.dfy` | `Wrappers` | `Option` |
| `text.dfy` | `Text` | the JavaScript `\s` whitespace class, ASCII `toLowerCase`, `includes`, integer `toString`, `trim` |
| `vehicles.dfy` | `Vehicles` | the vehicle record and the look-ups by id (`find`, `findIndex`, `map(v => v.id)`) |
| `sequences.dfy` | `Sequences` | `Array.prototype.filter` as `Select`, subsequences, counting |
| `filtering.dfy` | `Filtering` | the filter form, the resolved filter and the filter predicate |
| `paging.dfy` | `Paging` | the page slice and the page-button loop |
| `sorting.dfy` | `Sorting` | the six numeric sort criteria and a stable sort |
| `facets.dfy` | `Facets` | the fallback filter options |
| `suggestions.dfy` | `Suggestions` | `buscar` |
| `comparison.dfy` | `Comparison` | the comparison list as a value: toggle, save, load |
| `validation.dfy` | `Validation` | `Validaciones` |
| `gallery.dfy` | `Gallery` | `Galeria` as a class |
| `state.dfy` | `State` | `AppState` as a class, with the `Catalogo` and `Comparador` operations that update it |

Pure predicates of the source are Dafny functions. Objects whose fields the source updates
in place (`AppState`, `Galeria`) are classes. Their methods state the new value of every
field and the invariants they keep. The two loops of the core are methods with `while`
loops: the `for` loop of `renderizarPaginacion` is `Paging.PageButtons`, and the `forEach`
of `validarFormulario` is `Validation.ValidateForm`.

Modelling choices:

- The filter form's select boxes give strings, and `""` stands for "Todos". `!marca` is
  true exactly for `""` (or for a missing control, which reads the same).
- A price box gives what `parseFloat` returns, with `None` for `NaN`. `parseFloat(max) ||
  Infinity` treats `NaN` and 0 alike, so a maximum price of 0 means "no upper bound"
  (`Filtering.MaxPriceZeroIsUnbounded`).
- A missing `version` is interpolated into the search text as `"undefined"`, as template
  strings do.
- The year filter compares `año.toString()` with the selected text. A year option rendered
  from year `y` selects exactly the vehicles of year `y`.
- Toggling a vehicle twice restores the list exactly when it starts absent
  (`Comparison.ToggleTwiceFromAbsent`). When it starts present, the first toggle takes it
  out and the second pushes the catalog's vehicle with that id at the end
  (`Comparison.ToggleTwiceFromPresent`): the list comes back as it was when that entry was
  already last, and otherwise the vehicle moves to the end.
- On an empty gallery, `anterior` sets the index to -1, as the code does.
- `renderizarCatalogo` returns on an empty page before it calls `renderizarPaginacion`, so
  the page bar is left as it was (`State.AppState.RenderCatalog` reports `None` for the bar).
  After 30 matches on page 3, a filter that matches nothing keeps the old 1-3 bar on screen.

## Model

| member | source | states |
|---|---|---|
| Text.Lower | AgenciaCarros/app.js:457 | the lower-cased text has the same length and no capital left; each capital becomes its small letter, every other character is kept, and text without capitals comes back unchanged |
| Text.LowerChar | AgenciaCarros/app.js:1973 | capitals map to the letter 32 code points on; every other character is kept |
| Text.LowerIdempotent | AgenciaCarros/app.js:467 | lower-casing already lower-cased text changes nothing |
| Text.DigitChar | AgenciaCarros/app.js:464 | the digit character of a digit value is a digit and denotes that value |
| Text.NatText | AgenciaCarros/app.js:464 | the decimal text of a natural number is non-empty and all digits, one digit exactly below 10, and starts with '0' only for 0 (no leading zeros) |
| Text.NatTextValue | AgenciaCarros/app.js:464 | reading the decimal text back gives the number |
| Text.IntText | AgenciaCarros/app.js:464 | the decimal text of an integer is non-empty |
| Text.IntTextSign | AgenciaCarros/app.js:464 | the text starts with '-' exactly for a negative number |
| Text.NatTextInjective | AgenciaCarros/app.js:464 | different natural numbers have different decimal texts |
| Text.IntTextInjective | AgenciaCarros/app.js:464 | different numbers have different decimal texts |
| Text.TrimStart | AgenciaCarros/app.js:1694 | the result is a suffix, starts with a non-space, and only whitespace was dropped |
| Text.TrimEnd | AgenciaCarros/app.js:1694 | the result is a prefix, ends with a non-space, and only whitespace was dropped |
| Text.TrimEmptyIff | AgenciaCarros/app.js:1694 | a text trims to "" exactly when it is all whitespace |
| Text.Trim | AgenciaCarros/app.js:1694 | `trim()`: the start and end whitespace dropped; its meaning is stated by `Text.TrimStart`, `Text.TrimEnd` and `Text.TrimEmptyIff` |
| Text.Contains | AgenciaCarros/app.js:467 | `includes`: the text occurs at some offset; used by `Filtering.SearchIgnoresCase` and the suggestion lemmas |
| Vehicles.Ids | AgenciaCarros/app.js:898 | the id list has one entry per vehicle, in order, and an id is in it exactly when some vehicle of the list has that id |
| Vehicles.IndexOfId | AgenciaCarros/app.js:865 | `findIndex` gives nothing exactly for an absent id, otherwise the first position holding it |
| Vehicles.FindById | AgenciaCarros/app.js:862 | `find` gives nothing exactly for an absent id, otherwise the FIRST catalog vehicle with that id: no earlier vehicle has it |
| Sequences.Select | AgenciaCarros/app.js:461-470 | a filtered array is never longer than the original |
| Sequences.SelectMembers | AgenciaCarros/app.js:461-470 | an element is kept exactly when it is in the array and satisfies the predicate |
| Sequences.SelectAllSatisfy | AgenciaCarros/app.js:461-470 | every kept element satisfies the predicate |
| Sequences.SelectConcat | AgenciaCarros/app.js:461-470 | filtering a concatenation concatenates the filtered parts |
| Sequences.SelectSubsequence | AgenciaCarros/app.js:461-470 | the kept elements keep their relative order |
| Sequences.SelectIdempotent | AgenciaCarros/app.js:461-470 | filtering twice with one predicate is filtering once |
| Sequences.SelectEverything | AgenciaCarros/app.js:461-470 | when every element passes, the array comes back unchanged |
| Sequences.SelectCount | AgenciaCarros/app.js:1974-1976 | the filtered length is the number of elements that pass |
| Sequences.SubsequencePrefix | AgenciaCarros/app.js:1976 | a prefix of an ordered selection is still an ordered selection |
| Sequences.SetSizeAtMost | AgenciaCarros/app.js:903 | a list has no more distinct elements than entries |
| Sequences.DistinctTail | AgenciaCarros/app.js:425-427 | the tail of a list without repeats has none and does not hold the head |
| Sequences.DistinctCons | AgenciaCarros/app.js:425-427 | putting a new element before a list without repeats keeps it without repeats |
| Sequences.DistinctSetSize | AgenciaCarros/app.js:903 | a list without repeats has as many distinct elements as entries |
| Filtering.Resolve | AgenciaCarros/app.js:452-459 | the recorded `filtrosActivos`; its meaning is stated by `Filtering.MaxPriceZeroIsUnbounded`, `Filtering.EmptyFormKeepsAll` and `Filtering.FilterExact` |
| Filtering.SearchText | AgenciaCarros/app.js:467 | the text a search is matched against; its meaning is stated by `Filtering.SearchIgnoresCase` |
| Filtering.Matches | AgenciaCarros/app.js:462-469 | the filter callback; its meaning is stated by `Filtering.FilterExact` |
| Filtering.FilterVehicles | AgenciaCarros/app.js:461-470 | the new `vehiculosFiltrados`; its meaning is stated by `Filtering.FilterExact`, `Filtering.FilterKeepsOrder` and `Filtering.FilterIdempotent` |
| Filtering.FilterExact | AgenciaCarros/app.js:451-470 | a vehicle is shown exactly when it is in the catalog and passes the brand, type, year, price and search tests |
| Filtering.FilterKeepsOrder | AgenciaCarros/app.js:461 | the filtered view keeps the catalog order |
| Filtering.FilterConcat | AgenciaCarros/app.js:461-470 | each vehicle is judged on its own |
| Filtering.FilterIdempotent | AgenciaCarros/app.js:461-470 | applying the same filter to the filtered view changes nothing |
| Filtering.EmptyFormKeepsAll | AgenciaCarros/app.js:476-490 | with every control empty, every vehicle of non-negative price passes, so clearing agrees with applying the empty form |
| Filtering.MaxPriceZeroIsUnbounded | AgenciaCarros/app.js:456 | a maximum price of 0 resolves to no upper bound, like an empty box |
| Filtering.YearFilterSelectsYear | AgenciaCarros/app.js:464 | selecting the text of year `y` selects exactly the vehicles of year `y` |
| Filtering.SearchIgnoresCase | AgenciaCarros/app.js:457 | typing the search term in capitals finds the same vehicles |
| Paging.PageCount | AgenciaCarros/app.js:503 | the page count is the ceiling of the item count over 12 |
| Paging.PageItems | AgenciaCarros/app.js:341-343 | a page is at most 12 consecutive items from `(page-1)*12`; it is empty exactly past the last page; pages before the last are full; the last reaches the end |
| Paging.PageStart | AgenciaCarros/app.js:341-343 | an existing page starts inside the list, and a page before the last is followed by more items |
| Paging.PagesFromAreSuffix | AgenciaCarros/app.js:341-343 | the pages from `p` on, laid end to end, are the items from page `p`'s first item on |
| Paging.PagesCoverAll | AgenciaCarros/app.js:341-343 | the pages, in order, give back the whole view: every item is on exactly one page |
| Paging.TwentyFiveItems | AgenciaCarros/app.js:341-343 | 25 items make three pages, and the third holds only the 25th item |
| Paging.Window | AgenciaCarros/app.js:503-526 | the numbered part of the bar as a value; its meaning is stated by `Paging.PageButtonIff`, `Paging.EllipsisIff`, `Paging.PageButtonsIncrease` and the other `Paging` lemmas below |
| Paging.PageButtons | AgenciaCarros/app.js:503-526 | the loop builds the button row: nothing for one page or fewer, otherwise the window of shown pages and ellipses |
| Paging.PositionsUpTo | AgenciaCarros/app.js:517-526 | each button comes from a page number between 1 and the loop's bound |
| Paging.Positions | AgenciaCarros/app.js:517-526 | there is one page number per entry of the bar |
| Paging.PositionsIncrease | AgenciaCarros/app.js:517 | the loop visits the pages in increasing order |
| Paging.WindowEntries | AgenciaCarros/app.js:518-525 | each entry is a button when its page is shown, an ellipsis at current ± 3 otherwise |
| Paging.PositionsComplete | AgenciaCarros/app.js:517-526 | every shown page and every page at current ± 3 gets an entry |
| Paging.PageButtonIff | AgenciaCarros/app.js:518 | page `i` has a button exactly when it is the first, the last, or within 2 of the current page |
| Paging.PageButtonsIncrease | AgenciaCarros/app.js:517-526 | the numbered buttons appear in increasing page order |
| Paging.EllipsisIff | AgenciaCarros/app.js:523-525 | an entry is an ellipsis exactly when its page is hidden and sits at current ± 3 |
| Paging.EllipsisPresent | AgenciaCarros/app.js:523-525 | each hidden page at current ± 3 in range is shown as an ellipsis |
| Paging.CurrentFirstLastShown | AgenciaCarros/app.js:518 | the current, first and last pages always have buttons |
| Sorting.SortKey | AgenciaCarros/app.js:719-724 | the comparator of each numeric criterion as a key; its meaning is stated by `Sorting.SortVehiclesCorrect` and `Sorting.PriceDescFirstIsDearest` |
| Sorting.SortVehicles | AgenciaCarros/app.js:717-730 | the sorted view; its meaning is stated by `Sorting.SortVehiclesCorrect` |
| Sorting.Insert | AgenciaCarros/app.js:730 | inserting adds exactly one element |
| Sorting.SortByKey | AgenciaCarros/app.js:730 | sorting keeps the length |
| Sorting.InsertPermutes | AgenciaCarros/app.js:730 | inserting adds `x` and loses no element |
| Sorting.SortByKeyPermutes | AgenciaCarros/app.js:730 | sorting is a permutation |
| Sorting.InsertMembers | AgenciaCarros/app.js:730 | the inserted list holds `x` and the old elements, and nothing else |
| Sorting.InsertBound | AgenciaCarros/app.js:730 | a lower bound on all keys before the insertion bounds all keys after it |
| Sorting.InsertSorted | AgenciaCarros/app.js:730 | inserting into a sorted list keeps it sorted |
| Sorting.SortByKeySorted | AgenciaCarros/app.js:730 | the result is ordered by the key |
| Sorting.WithKeyCons | AgenciaCarros/app.js:730 | the elements of a given key in `[a] + t` are `a` (if it has that key) followed by those of `t` |
| Sorting.InsertWithKey | AgenciaCarros/app.js:730 | insertion puts `x` ahead of the elements with its key and keeps their relative order |
| Sorting.SortByKeyStable | AgenciaCarros/app.js:730 | the sort is stable, as `Array.prototype.sort` is |
| Sorting.InsertDistinct | AgenciaCarros/app.js:730 | inserting a new element into a list without repeats keeps it without repeats |
| Sorting.SortByKeyDistinct | AgenciaCarros/app.js:730 | sorting keeps a list without repeats |
| Sorting.SortVehiclesCorrect | AgenciaCarros/app.js:717-733 | sorting by a criterion is a stable permutation in the criterion's order (price, year or mileage, up or down, with missing mileage counted as 0) |
| Sorting.PriceDescFirstIsDearest | AgenciaCarros/app.js:720 | sorting by price descending puts a dearest vehicle first |
| Facets.Unique | AgenciaCarros/app.js:425-427 | `[...new Set(s)]` holds every value of `s`, only values of `s`, and none twice |
| Facets.BrandOptions | AgenciaCarros/app.js:425 | the brand options; its meaning is stated by `Facets.BrandOptionsCorrect` |
| Facets.KindOptions | AgenciaCarros/app.js:426 | the type options; its meaning is stated by `Facets.KindOptionsCorrect` |
| Facets.YearOptions | AgenciaCarros/app.js:427 | the year options; its meaning is stated by `Facets.YearOptionsMembers` and `Facets.YearOptionsDescending` |
| Facets.BrandOptionsCorrect | AgenciaCarros/app.js:425 | the brand options are exactly the catalog's brands, each once |
| Facets.KindOptionsCorrect | AgenciaCarros/app.js:426 | the type options are exactly the catalog's types, each once |
| Facets.YearOptionsMembers | AgenciaCarros/app.js:427 | the year options are exactly the catalog's years |
| Facets.YearOptionsDescending | AgenciaCarros/app.js:427 | the year options are strictly decreasing: newest first, no repeats |
| Suggestions.Suggestions | AgenciaCarros/app.js:1967-1977 | `buscar`'s decision; its meaning is stated by `Suggestions.SuggestionsCorrect`, `Suggestions.SuggestionsFirstMatches` and `Suggestions.SuggestionsNoneSkipped` |
| Suggestions.SuggestionsCorrect | AgenciaCarros/app.js:1967-1979 | a term shorter than 2 hides the box; otherwise at most 5 matching vehicles, in catalog order, as many as there are matches up to 5 |
| Suggestions.SuggestionsFirstMatches | AgenciaCarros/app.js:1974-1976 | the offered vehicles are the first matches: all the matches before some cut of the catalog and none after it, so with `SuggestionsCorrect` the list is fixed |
| Suggestions.SuggestionsNoneSkipped | AgenciaCarros/app.js:1974-1976 | in a catalog without repeated entries, a match ahead of an offered vehicle is offered too |
| Sequences.SelectPrefixCut | AgenciaCarros/app.js:1976 | every prefix of a filtered array is the filter of some prefix of the array |
| Suggestions.FewMatchesAllOffered | AgenciaCarros/app.js:1974-1976 | when fewer than 5 vehicles match, every match is offered |
| Comparison.Toggled | AgenciaCarros/app.js:861-876 | the list after `toggleVehiculo`; its meaning is stated by `Comparison.ToggleRejected`, `Comparison.ToggleRemoves`, `Comparison.ToggleAppends` and `Comparison.ToggleFlipsMembership` |
| Comparison.ToggleRejected | AgenciaCarros/app.js:861-873 | an unknown id, or a new id when the list is full, changes nothing |
| Comparison.RemoveAt | AgenciaCarros/app.js:868 | `splice(k, 1)` takes out exactly entry `k` and shifts the later entries down by one |
| Comparison.WithoutIdAt | AgenciaCarros/app.js:868 | taking out the only entry with an id is leaving out that id |
| Comparison.IdsRemoveAtFrom | AgenciaCarros/app.js:868 | after a splice, every remaining id was there before and is not the removed one |
| Comparison.IdsRemoveAtKeeps | AgenciaCarros/app.js:868 | a splice keeps every id other than the removed one |
| Comparison.IdsRemoveAt | AgenciaCarros/app.js:868 | in a list with unique ids, a splice removes exactly the removed entry's id |
| Comparison.ToggleRemoves | AgenciaCarros/app.js:865-868 | toggling a compared id removes exactly that entry and keeps the rest in order |
| Comparison.ToggleAppends | AgenciaCarros/app.js:869-876 | toggling a new id with room left appends the catalog's vehicle at the end |
| Comparison.RemoveKeepsInvariant | AgenciaCarros/app.js:868 | a splice keeps the list within the limit, one entry per id, all from the catalog |
| Comparison.AppendKeepsInvariant | AgenciaCarros/app.js:871-875 | pushing a catalog vehicle with a new id onto a list with room keeps the invariant |
| Comparison.ToggleKeepsInvariant | AgenciaCarros/app.js:861-882 | toggling keeps the list at most 4 long, one entry per id, all from the catalog |
| Comparison.ToggleFlipsMembership | AgenciaCarros/app.js:861-882 | an accepted toggle flips whether the id is compared and leaves every other id as it was |
| Comparison.ToggleTwiceFromAbsent | AgenciaCarros/app.js:861-882 | adding an id and toggling it again restores the list exactly |
| Comparison.ToggleTwiceFromPresent | AgenciaCarros/app.js:861-882 | removing an id and toggling it again restores the members, with that vehicle moved to the end |
| Comparison.Loaded | AgenciaCarros/app.js:903 | the list `cargarDesdeStorage` rebuilds; its meaning is stated by `Comparison.LoadedExact` and the `Loaded` lemmas below |
| Comparison.LoadedExact | AgenciaCarros/app.js:903 | a vehicle is reloaded exactly when it is in the catalog and its id was saved; catalog order is kept |
| Comparison.LoadedIgnoresUnknownIds | AgenciaCarros/app.js:903 | saved ids that name no vehicle make no difference |
| Comparison.LoadedSameIds | AgenciaCarros/app.js:903 | two saved lists naming the same catalog ids reload the same vehicles |
| Comparison.LoadedUnique | AgenciaCarros/app.js:903 | over a catalog with unique ids, the reloaded list has unique ids |
| Comparison.LoadedBound | AgenciaCarros/app.js:903 | over a catalog with unique ids, the reloaded list is never longer than the saved id list |
| Comparison.SaveLoadRoundTrip | AgenciaCarros/app.js:897-904 | over a catalog with unique ids, saving and reloading gives back the same vehicles, just as many, and keeps the invariant |
| Validation.Email | AgenciaCarros/app.js:1673-1676 | `email`; its meaning is stated by `Validation.EmailMatchesPattern`, `Validation.EmailSound` and `Validation.EmailComplete` |
| Validation.Phone | AgenciaCarros/app.js:1683-1686 | `telefono`; its meaning is stated by `Validation.PhoneIff` and `Validation.PhoneIgnoresSeparators` |
| Validation.Required | AgenciaCarros/app.js:1693-1695 | `requerido`; its meaning is stated by `Validation.RequiredIff` |
| Validation.MinLength | AgenciaCarros/app.js:1703-1705 | `longitudMinima`; its meaning is stated by `Validation.LengthChecks` |
| Validation.MaxLength | AgenciaCarros/app.js:1713-1715 | `longitudMaxima`; its meaning is stated by `Validation.LengthChecks` |
| Validation.Message | AgenciaCarros/app.js:1750-1766 | the error text of each failing check; its meaning is stated by `Validation.MessageInjective` |
| Validation.ValidateField | AgenciaCarros/app.js:1744-1770 | `validarCampo`; its meaning is stated by `Validation.ValidateFieldPasses` and `Validation.ValidateFieldFirstFailing` |
| Validation.IndexOfChar | AgenciaCarros/app.js:1674 | the first position of a character, or nothing exactly when it is absent |
| Validation.AllPlainSlice | AgenciaCarros/app.js:1674 | a slice of an `[^\s@]+` run is such a run |
| Validation.AllPlainConcat | AgenciaCarros/app.js:1674 | two such runs joined make one |
| Validation.EmailSound | AgenciaCarros/app.js:1673-1676 | an accepted address splits as local `@` name `.` suffix, all three non-empty and free of whitespace and `@` |
| Validation.IndexOfCharAt | AgenciaCarros/app.js:1674 | the first '@' is at `i` when `s[i]` is '@' and no earlier character is |
| Validation.DomainShape | AgenciaCarros/app.js:1674 | two `[^\s@]+` runs around a '.' form one run with an inner dot |
| Validation.EmailComplete | AgenciaCarros/app.js:1673-1676 | every address of that shape is accepted |
| Validation.EmailMatchesPattern | AgenciaCarros/app.js:1674 | the check accepts exactly the strings the regular expression `^[^\s@]+@[^\s@]+\.[^\s@]+$` matches |
| Validation.EmailSingleAt | AgenciaCarros/app.js:1674 | an accepted address holds exactly one `@` and no whitespace |
| Validation.EmailAcceptsExample | AgenciaCarros/app.js:1673-1676 | "a@b.co" passes |
| Validation.EmailRejectsExamples | AgenciaCarros/app.js:1673-1676 | "a@b", "a b@c.com" and "@b.com" fail |
| Validation.PhoneIff | AgenciaCarros/app.js:1683-1686 | a phone number is valid exactly when it holds ten digits, whatever else it holds |
| Validation.PhoneIgnoresSeparators | AgenciaCarros/app.js:1685 | a non-digit can be added anywhere without changing the verdict |
| Validation.PhoneDashed | AgenciaCarros/app.js:1683-1686 | digit groups joined by dashes pass exactly when they hold ten digits together |
| Validation.PhoneAcceptsDashes | AgenciaCarros/app.js:1683-1686 | "555-123-4567" passes |
| Validation.PhoneRejectsShort | AgenciaCarros/app.js:1683-1686 | "12345" fails |
| Validation.RequiredIff | AgenciaCarros/app.js:1693-1695 | a value is present exactly when it exists and has a non-whitespace character |
| Validation.LengthChecks | AgenciaCarros/app.js:1703-1715 | an empty value fails both length checks whatever the bound; a non-empty one passes exactly when its length is within the bound |
| Validation.ValidateFieldPasses | AgenciaCarros/app.js:1744-1770 | a field is accepted exactly when none of the five checks fails |
| Validation.ValidateFieldFirstFailing | AgenciaCarros/app.js:1749-1767 | a rejected field reports the error of the first failing check, in the order required, e-mail, phone, minimum, maximum |
| Validation.EmptyOptionalPasses | AgenciaCarros/app.js:1753-1767 | an empty value passes every check unless the field is required |
| Validation.MessageMarks | AgenciaCarros/app.js:1750-1766 | the five kinds of message differ in their leading characters |
| Validation.MessageInjective | AgenciaCarros/app.js:1750-1766 | different errors, including different length bounds, get different messages |
| Validation.ValidateForm | AgenciaCarros/app.js:1722-1737 | every control is checked, and the form passes exactly when every control passes |
| Gallery.PrevIndex | AgenciaCarros/app.js:791-794 | inside the range, the previous index is `(i - 1) mod n` |
| Gallery.NextIndex | AgenciaCarros/app.js:796-799 | inside the range, the next index is `(i + 1) mod n` |
| Gallery.PrevNextInverse | AgenciaCarros/app.js:791-799 | back then forward, or forward then back, returns to the same image |
| Gallery.ArrowsStayInRange | AgenciaCarros/app.js:791-799 | the arrows keep an in-range index in range; forward from the last goes to 0; back on an empty gallery lands on -1 |
| Gallery.NextTimesCompose | AgenciaCarros/app.js:796-799 | pressing forward a + b times is pressing a times and then b times |
| Gallery.NextTimesWalks | AgenciaCarros/app.js:796-799 | before the end, k presses move exactly k images on |
| Gallery.FullCircle | AgenciaCarros/app.js:796-799 | n presses on a gallery of n images return to the start |
| Gallery.FirstImage | AgenciaCarros/app.js:752 | the main picture never gets an empty address: it is the gallery's first image when that is a non-empty address, and the default image otherwise |
| Gallery.Gallery.Shown | AgenciaCarros/app.js:782-784 | the main picture is always one of the gallery's own images, and there is one exactly when the index is in range |
| Gallery.Gallery.constructor | AgenciaCarros/app.js:736-738 | the gallery starts with no images at index 0 |
| Gallery.Gallery.Show | AgenciaCarros/app.js:745-752 | drawing the gallery takes the images and resets the index to 0; the main picture drawn is the one `Shown` reports when the first image has an address, and the default image for an empty gallery |
| Gallery.Gallery.Select | AgenciaCarros/app.js:777-778 | the index becomes the given one, unchecked; the images stay; the main picture is image `index` when it exists and nothing (`undefined`) otherwise |
| Gallery.Gallery.Previous | AgenciaCarros/app.js:791-794 | the index moves back one, round to the last, and stays in range |
| Gallery.Gallery.Next | AgenciaCarros/app.js:796-799 | the index moves on one, round to the first, and stays in range |
| State.AppState.constructor | AgenciaCarros/app.js:10-19 | the state starts empty on page 1 with no active filter, and with the storage as found |
| State.AppState.LoadCatalog | AgenciaCarros/app.js:324-326 | loading sets the catalog and the view to the received list; nothing else changes |
| State.AppState.ApplyFilters | AgenciaCarros/app.js:451-474 | the resolved filter is recorded, the view is the filtered catalog, and the page goes back to 1 |
| State.AppState.ClearFilters | AgenciaCarros/app.js:476-490 | the filter is forgotten, the view is the whole catalog, and the page goes back to 1 |
| State.AppState.GoToPage | AgenciaCarros/app.js:542-549 | the page changes exactly when the target page exists |
| State.AppState.SortBy | AgenciaCarros/app.js:717-733 | a known criterion sorts the view in place (a permutation); an unknown one changes nothing |
| State.AppState.RenderCatalog | AgenciaCarros/app.js:337-358 | the current page's vehicles; an empty page leaves the bar as it was (`None`), a non-empty one redraws it with the window of numbered entries; a page in range of a non-empty view is never empty |
| State.AppState.ToggleComparison | AgenciaCarros/app.js:861-882 | the comparison becomes the toggled list; an accepted toggle is saved, a rejected one changes nothing, storage included |
| State.AppState.SaveComparison | AgenciaCarros/app.js:897-899 | the storage holds the compared vehicles' ids |
| State.AppState.LoadComparison | AgenciaCarros/app.js:901-905 | the comparison is the catalog's vehicles named by the saved ids (none when nothing was saved); over a catalog with unique ids, within the limit when at most 4 ids were saved |
| State.AppState.ClearComparison | AgenciaCarros/app.js:1023-1030 | the comparison is emptied and the empty list is saved |

## Left out

- Network and browser effects: `fetchAPI`, the loader, notifications, the DOM markup, scrolling, the lightbox, the indicator, `cerrarModal` and debouncing. The option requests of `cargarFiltros` are left out too; only the local fallback is modelled (`Facets`).
- `cargarVehiculos`: `respuesta.vehiculos || respuesta` is not modelled. `State.AppState.LoadCatalog` takes the received list directly.
- Prices, years and mileages are integers. Floating-point values, `NaN` arithmetic and the financing calculator are not modelled.
- `ordenarPor`: the `nombre-asc` criterion (`localeCompare`) and the `reciente` criterion (date parsing) are not modelled. An unknown criterion is `None`.
- Text.Lower: only ASCII letters are lower-cased. JavaScript's full Unicode case mapping is not modelled.
- Validation.LengthChecks: lengths are counted in characters, not in UTF-16 code units as JavaScript counts them.
- Suggestions.SuggestionsCorrect: the two-character minimum is likewise counted in characters, not UTF-16 code units.
- State.AppState.LoadComparison: a malformed JSON entry in storage, which makes `JSON.parse` throw, is not modelled. Storage holds an id list or nothing.
- Facets.Unique: the order of first appearance that `new Set` gives is not stated. The contract states membership and no repeats only.
- State.AppState.RenderCatalog: the "Anterior"/"Siguiente" buttons and the `disabled` state are not modelled. Only the numbered part of the bar is. The bar's content on screen is not state of the model: `None` says only that it is not redrawn, so after a filter that matches nothing the previous bar stays visible.
- Gallery.Gallery.Select: the thumbnails' `activa` class is not modelled.
