# Films catalog: filter-and-paginate model

A Dafny model of the core of a small FastAPI film catalog browser. The catalog is a
list of film records (title, description, genre, year). The routes list the distinct
genres, filter films by genre, by a keyword in the title (ignoring case) or by an
inclusive year range, and show the result ten films per page, with previous/next
flags, the page number and the offset. The repository holds two versions of the app,
`main.py` and `app.py`. They share the filters and `paginate` but differ in how they
use the module-level `filtered_films` list. That list is the "result slot" that
carries a search submission over to the page that later displays it.

Modules:

- `Text` (text.dfy): ASCII lowercasing and uppercasing, Python's substring test
  `needle in hay`, and Python's code-point lexicographic `<` on strings.
- `Catalog` (catalog.dfy): `Film`, the three criteria, `Filter` (the list
  comprehensions), and `GenreIndex` (`sorted` of the set of genres).
- `Pagination` (pagination.dfy): Python slice normalisation, `Paginate`, the page
  count, and the fact that the pages put back together give the list.
- `MainRoutes` (main_routes.dfy): main.py's routes as a state machine over the slot.
  The genre page, the keyword submission and the year submission all overwrite the
  slot. The keyword and year result pages paginate whatever the slot holds.
- `AppRoutes` (app_routes.dfy): app.py's routes. Only the year submission writes the
  slot, and only the year result page reads it. The genre page and the keyword POST
  answer directly and leave the slot alone. The keyword GET form shows an empty table.

Modelling choices:

- `Paginate` accepts every page number and page size, as the source does. The slice
  `items[start:end]` follows Python's rules: a negative bound counts from the end,
  and both bounds are clamped to the list. So page 0 is always empty. A negative page
  wraps around: page -1 of 25 films is `items[-20:-10]`, the sixth to the fifteenth
  film, and on an empty list it reports a next page. The properties about page shape
  are stated for page >= 1 and page size >= 1. The routes default `page` to 1
  (main.py:116, 163, 199) but never check that it is positive, and the model follows
  the code.
- The routes that filter read the catalog from the films fixture; the result pages
  read no file and only paginate the stored list (main.py:167, 203; app.py:161). The
  year submission of app.py opens the working-directory path `data/films.json`
  (app.py:151) instead of `FILMS_FILE`; the model assumes both name the same file and
  that it never changes, so each route takes the catalog as a parameter.
- Each route's query or form parameters are fields of its request. A request always
  carries its page number, so the routes' default of page 1 is simply a request for
  page 1.
- In main.py each search submission stores its result in `filtered_films` and
  redirects to the result page, as its docstrings say (main.py:148-151, 186-189). The
  year submission of app.py does the same. The keyword POST of app.py instead answers
  with the paginated result directly and stores nothing, and the model follows that
  code.
- A shared module `Serving` (serving.dfy) runs a sequence of requests against the
  process-wide state; each app's `Run` is it applied to that app's `Handle`.

## Model

| member | source | states |
|---|---|---|
| Text.Lower | main.py:153 | lowering keeps the length and maps each character through the ASCII lowercase mapping |
| Text.LowerIdempotent | main.py:157 | lowering an already lowered string changes nothing |
| Text.LowerOfUpper | app.py:120 | lowering an uppercased keyword gives the same string as lowering the keyword |
| Text.ContainsHasOccurrence | main.py:157 | when `needle in hay` answers yes, there is a position where the needle occurs in the haystack |
| Text.OccurrenceContains | app.py:124 | an occurrence of the needle at any position makes `needle in hay` answer yes |
| Text.ContainsIff | main.py:157 | `needle in hay` holds exactly when the needle occurs at some position of the haystack |
| Text.ContainsEmpty | main.py:157 | the empty keyword occurs in every title |
| Text.LessIrreflexive | main.py:103 | no string sorts before itself |
| Text.LessTransitive | main.py:103 | the string order used by `sorted` is transitive |
| Text.LessTotal | app.py:64 | any two different strings are ordered one way or the other |
| Text.LessAsymmetric | app.py:64 | two strings are never each before the other |
| Catalog.Filter | main.py:127 | the result is no longer than the catalog, is an order-preserving subsequence of it, holds only films meeting the criterion, and holds every catalog film that meets it (same comprehension at app.py:80) |
| Catalog.FilterConcat | main.py:193 | filtering a concatenation is the concatenation of the filtered parts, so the result keeps catalog order film by film |
| Catalog.FilterMultiplicity | app.py:80 | each matching film appears as often as in the catalog, so no duplicate is dropped; a non-matching film does not appear |
| Catalog.FilterKeepsAllMatching | app.py:152-155 | when every film matches, the whole list comes back unchanged |
| Catalog.FilterIdempotent | main.py:127 | filtering a filter result again with the same criterion changes nothing |
| Catalog.KeywordMatchIff | main.py:153-157 | a film is in the keyword result exactly when it is in the catalog and the lowered keyword occurs at some position of its lowered title |
| Catalog.KeywordCaseInsensitive | app.py:120-125 | two keywords with the same lowercase form select the same films |
| Catalog.KeywordUpperSame | main.py:153-157 | searching for the uppercased keyword selects the same films as the keyword |
| Catalog.EmptyKeywordKeepsAll | main.py:157 | the empty keyword returns the whole catalog in order |
| Catalog.EmptyYearRange | main.py:193 | a year range whose start is after its end selects no film (same comprehension at app.py:152-155) |
| Catalog.Insert | main.py:103 | inserting a genre into an ascending duplicate-free list keeps it so and adds exactly that genre |
| Catalog.GenreIndex | main.py:103 | the genre index is strictly ascending, has no duplicates, and contains exactly the genres of the catalog's films |
| Catalog.AscendingUnique | app.py:64 | two strictly ascending lists with the same elements are equal, so a sorted set has only one listing |
| Catalog.GenreIndexIsSortedGenres | app.py:64 | any strictly ascending listing of the catalog's genres is the genre index |
| Pagination.Slice | app.py:37 | never longer than the list; for bounds 0 <= lo <= hi the slice is the list between the bounds clamped to its length; for 0 <= hi <= lo it is empty; for 0 <= lo, hi it is never longer than hi - lo |
| Pagination.SliceNegativeBounds | main.py:68 | a negative bound no further left than the start means that bound plus the length; a lower bound left of the start means the start; an upper bound left of the start gives the empty slice |
| Pagination.SliceClampHigh | app.py:37 | a lower bound past the end gives the empty slice; an upper bound past the end means the end |
| Pagination.Paginate | main.py:65-79 | the page echoes the page number; the offset is (page-1)*perPage even past the end; hasPrev iff page > 1; hasNext iff offset+perPage < length; with a non-negative offset the items are the clamped slice and at most perPage long |
| Pagination.ForwardPage | app.py:34-37 | for page >= 1 the offset is non-negative, the items are the slice from offset to offset+perPage clamped to the list, at most perPage long, and empty once the offset reaches the length |
| Pagination.PageCountBounds | main.py:76 | the last non-empty page, number ceil(length/perPage), starts before the end of the list and ends at or after it |
| Pagination.HasNextIff | main.py:76 | for page, perPage >= 1: hasNext iff page*perPage < length iff the page comes before the last non-empty page |
| Pagination.PageShape | app.py:34-43 | pages before the last non-empty one are full; pages up to it are non-empty; the last one and every later one have no next page; later ones are empty |
| Pagination.PageZeroEmpty | main.py:66-68 | page 0 has no items, no previous page and offset -perPage |
| Pagination.NegativePageWraps | app.py:34-37 | page -1 of 25 films slices `items[-20:-10]` from the end and shows the sixth to the fifteenth film, with offset -20 |
| Pagination.PagesUpToPrefix | main.py:66-68 | pages 1 to k put together are the list's prefix of length k*perPage, clamped |
| Pagination.PagesReconstruct | app.py:31-46 | pages 1 to ceil(length/perPage) put together give back the list exactly, with no gap and no repeat |
| Pagination.ThirdPageOfTwentyFive | main.py:56-79 | of 25 films, page 3 of 10 holds the twenty-first to the twenty-fifth film and has a previous page, no next page and offset 20 |
| Pagination.EmptyFirstPage | app.py:31-46 | the first page of an empty list is empty, with no previous or next page and offset 0 |
| MainRoutes.Handle | main.py:97-203 | the genre page and both submissions set the slot to their filter result; every other request leaves the state alone; the result pages paginate the slot; the genre page paginates its own filter; the submissions redirect; the genre list is the genre index |
| MainRoutes.SlotIsLastWritten | main.py:126-193 | after any sequence of requests the slot holds the result of the last genre page, keyword submission or year submission, or its initial contents if there was none |
| MainRoutes.ViewShowsLastWritten | main.py:167 | from process start, the keyword or year result page paginates the result of the last writing request of any kind |
| MainRoutes.QuietRunKeepsSlot | main.py:203 | result pages and the genre list never change the slot |
| MainRoutes.SubmitThenView | main.py:156-167 | a result page served after a writing request, with only non-writing requests between, paginates that request's filter result |
| MainRoutes.ViewBeforeAnySubmitIsEmpty | main.py:28 | before any writing request the slot is still the initial empty list, so result pages are empty and, for page >= 0, offer no next page |
| MainRoutes.GenrePageReplacesKeywordResults | main.py:126-129 | a genre page served after a keyword submission overwrites it, so the keyword result page then lists that genre |
| AppRoutes.Handle | app.py:60-174 | only the year submission changes the state, setting the slot to the range filter; the year page paginates the slot; the genre page and keyword POST paginate their own filter result; the keyword form shows no items; the genre list is the genre index |
| AppRoutes.SlotIsLastYearSearch | app.py:150-155 | after any sequence of requests the slot holds the result of the last year submission, whatever genre or keyword requests were served |
| AppRoutes.YearViewShowsLastYearSearch | app.py:161 | from process start the year result page paginates the last year search, or the empty list if there was none |
| AppRoutes.YearSubmitThenView | app.py:150-161 | the year page served after a year submission, with no other year submission between, paginates the films of that inclusive range |
| AppRoutes.ReversedRangeViewIsEmpty | app.py:152-155 | a year submission with its start after its end leaves the year result page empty |

## Left out

- Text.Lower: models only ASCII lowercasing, per character. Python's `str.lower()` follows full Unicode case mapping, which can change lengths. Dafny has no Unicode case tables.
- Text.LowerOfUpper: holds only of the ASCII model. For the program it is false on keywords such as "ß", "ı", "ſ" or "µ": Python lowers "ß".upper(), which is "SS", to "ss", not to "ß".
- Catalog.KeywordUpperSame: follows from Text.LowerOfUpper and is an artefact of the ASCII model too. In the program the keyword "ß" matches the title "Straße" but its uppercase "SS" does not. Catalog.KeywordCaseInsensitive depends only on the lowered keyword and stays true of the program.
- File I/O: `load_json` and the fixture paths. The catalog is an input list, and JSON parsing errors and missing keys are not modelled.
- The statistics route and the home route. They pass a file's contents or a fixed title to a template.
- Template rendering, the fixed `columns` list, static file mounting and the 303 status code of the redirects. These are framework plumbing. Only the redirect location is kept.
- FastAPI's binding and validation of form and query parameters, such as a non-numeric year. Requests arrive already typed.
- The debug `print` in app.py's `paginate`.
- Concurrent requests on the shared slot. Requests are served one at a time.
