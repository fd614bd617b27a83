# Book catalog page — list reconciliation and derived views

The catalog is a single-page book manager. Its page component keeps an
in-memory copy of the book list and talks to a REST endpoint for every
change. This project models the logic in `frontend/src/App.jsx`: how each
server reply reshapes the list (create, update, delete, delete-all, and
the initial load), the guard that stops an incomplete create, and the two
views computed on every render: the genre menu and the filtered, sorted
book list.

Modules, one per concern:

- `Library` (`library.dfy`): the `Book` record and the list transforms.
  A create prepends the server's record. An update replaces every record
  with the target id. A delete filters out every record with the target id.
  Lemmas connect these transforms to each other and to id uniqueness.
- `Handlers` (`handlers.dfy`): the page state and the five async handlers.
  Each network round trip is an abstract `Reply(ok, body)` or
  `NetworkError`. A body of `None` stands for a body that does not parse.
  `Step` applies one action with its reply, and `Run` folds a sequence of
  actions. Both take the initial load as the code runs it, without a
  status check. `RunKeepsUniqueIds` proves that ids never repeat in the
  list when the server does three things: it gives created records fresh
  ids, it answers an update with the id it was sent, and every load body
  that parses lists each id once, whatever the reply's status.
- `Views` (`views.dfy`): the search predicate, the filtered list, the
  ordering comparators, the rendered list `View`, and the genre menu.
- `Sorting` (`sorting.dfy`): stable sorting by a comparator that is a
  total preorder. The engine's `sort` is stable, so its result is fixed by
  the comparator alone. `StableSortUnique` proves that any sorted
  arrangement that keeps tied elements in order is the same sequence. So
  modelling the sort as an insertion sort loses nothing.
- `Text` (`text.dfy`): ASCII lower-casing, substring search (`includes`),
  and the default string order used by a comparator-less `sort`.
- `Seqs` (`seqs.dfy`): the array filter, first-occurrence deduplication
  (what `Array.from(new Set(...))` yields), and the subsequence relation.

Two behaviours of the code are easy to misread:

- An update replaces every record carrying the id, not only the first.
- A delete drops every record carrying the id.

When ids are unique, both act on a single record. If the update reply
keeps the id, `ReplaceKeepsIds` shows the updated record then sits at
exactly one position. `RemoveDropsOne` shows that deleting an id the
list holds shrinks the list by exactly one.

## Model

| member | source | states |
|---|---|---|
| Library.Prepend | frontend/src/App.jsx:59 | after a create, the server's record is at index 0, the previous list follows unchanged, and the length grows by one |
| Library.ReplaceById | frontend/src/App.jsx:76 | after an update, the length is kept; every record with the target id becomes the reply's record; every other record stays at its position |
| Library.RemoveById | frontend/src/App.jsx:87 | after a delete, no record has the target id; every other record is kept with its multiplicity; relative order is kept (the result is a subsequence) |
| Library.RemoveUndoesPrepend | frontend/src/App.jsx:87 | deleting the id of a record just created, when that id was new, restores the previous list |
| Library.PrependFresh | frontend/src/App.jsx:59 | a created record with a new id appears exactly once, ids stay unique, and the id set grows by that id |
| Library.ReplaceKeepsIds | frontend/src/App.jsx:76 | an update answered with the same id keeps the id set and uniqueness; when the id was present, the reply's record sits at exactly one position |
| Library.ReplaceAbsentIsNoOp | frontend/src/App.jsx:76 | updating an id the list does not hold leaves the list unchanged |
| Library.RemoveAfterReplace | frontend/src/App.jsx:76 | when the update reply carries the same id, update-then-delete of that id equals delete alone |
| Library.RemoveKeepsUniqueIds | frontend/src/App.jsx:87 | a delete never introduces a repeated id |
| Library.RemoveDropsOne | frontend/src/App.jsx:87 | with unique ids, deleting an id the list holds shrinks it by exactly one |
| Library.SubseqKeepsUniqueIds | frontend/src/App.jsx:87 | any subsequence of a list with unique ids has unique ids |
| Handlers.CreateRequest | frontend/src/App.jsx:50-55 | no request is made exactly when title, author, year or genre is empty; otherwise the form is the body sent |
| Handlers.AddBook | frontend/src/App.jsx:48-63 | an incomplete form, or a reply that is not a parsed success, leaves the page unchanged; a parsed success prepends the record, grows the list by one and clears the form |
| Handlers.UpdateBook | frontend/src/App.jsx:66-81 | a failed reply leaves the page, edit mode included, unchanged; a parsed success replaces by id, keeps the length and ends edit mode |
| Handlers.DeleteBook | frontend/src/App.jsx:84-89 | a failed reply leaves the page unchanged; a success status removes the id and touches nothing else |
| Handlers.ClearLibrary | frontend/src/App.jsx:92-98 | a refused confirmation or a failed reply leaves the page unchanged; a confirmed success empties the list |
| Handlers.LoadAsWritten | frontend/src/App.jsx:34-45 | the load as written: any reply whose body parses replaces the list, whatever its status |
| Handlers.ErrorReplyOverwritesList | frontend/src/App.jsx:37-39 | some reply with an error status changes the list under the load as written |
| Handlers.Load | frontend/src/App.jsx:34-45 | the corrected load: only a parsed success replaces the list; every other reply leaves the page unchanged |
| Handlers.LoadAgreesOnSuccess | frontend/src/App.jsx:37-39 | the corrected and as-written loads agree on every success status |
| Handlers.AddThenDeleteRestoresList | frontend/src/App.jsx:57-88 | a successful create followed by a successful delete of the new id restores the list |
| Handlers.Step | frontend/src/App.jsx:34-98 | one action with its reply, the load taken as written; only a create touches the create form and only an update touches edit mode |
| Handlers.Run | frontend/src/App.jsx:34-98 | a sequence of actions without a create leaves the create form as it was; one without an update leaves edit mode as it was |
| Handlers.StepKeepsUniqueIds | frontend/src/App.jsx:34-98 | every handler, the load as written included, keeps ids unique when the server gives created records fresh ids, answers updates with the same id, and sends load bodies with unique ids whatever the status |
| Handlers.RunKeepsUniqueIds | frontend/src/App.jsx:34-98 | under the same server behaviour, no sequence of actions ever makes two records share an id |
| Views.Matches | frontend/src/App.jsx:116-119 | a book passes the search iff its lower-cased author and title each contain the lower-cased fragment at some position and, when a genre is selected, its genre equals it; empty filters pass every book |
| Views.SearchIgnoresCase | frontend/src/App.jsx:117-118 | lower-casing the typed fragments beforehand changes no search result |
| Views.Filtered | frontend/src/App.jsx:115-120 | a book is shown iff it is in the list and matches the search (author and title contain the fragments ignoring case; the genre is equal when one is selected), with its multiplicity, in list order |
| Views.NoSearchShowsAll | frontend/src/App.jsx:115-120 | with empty author, title and genre filters, every book is shown in list order |
| Views.View | frontend/src/App.jsx:115-125 | the rendered list is a permutation of the filtered books; by year it is non-decreasing in year; by title it follows the collation; tied books keep list order |
| Views.Order | frontend/src/App.jsx:121-125 | the comparator ties every pair when no ordering is chosen, ties books of equal year by year, and ties books whose titles the collation ties by title |
| Views.OrderIsTotalPreorder | frontend/src/App.jsx:121-125 | each of the three comparators is a total preorder when the title collation is one |
| Views.UnsortedViewKeepsOrder | frontend/src/App.jsx:124 | with no ordering chosen, the rendered list is the filtered list in list order |
| Views.SameYearKeepsOrder | frontend/src/App.jsx:123 | by year, the books sharing a year appear in the same relative order as in the filtered list |
| Views.ViewIsTheStableSort | frontend/src/App.jsx:121-125 | every sorted, order-keeping arrangement of the filtered books equals the rendered list |
| Views.GenreSearchExample | frontend/src/App.jsx:119 | a one-book list searched by its own genre shows that book; searched by another genre, it shows nothing |
| Views.Genres | frontend/src/App.jsx:111 | the genre menu holds exactly the genres present in the list, strictly increasing in code order, so it has no duplicates |
| Views.GenreColumn | frontend/src/App.jsx:111 | the mapped genre column holds exactly the genres of the books |
| Sorting.SortBy | frontend/src/App.jsx:121-125 | the stable sort returns a permutation, sorted by the comparator, that keeps every group of tied elements in order |
| Sorting.InsertKeepsTies | frontend/src/App.jsx:121-125 | inserting an element puts it ahead of all elements tied with it |
| Sorting.SortByAllTiedIsIdentity | frontend/src/App.jsx:124 | a comparator that ties every pair leaves the sequence unchanged |
| Sorting.StableSortUnique | frontend/src/App.jsx:121-125 | two sorted sequences whose tied groups agree are equal, so the stable sort's result is unique |
| Seqs.Keep | frontend/src/App.jsx:87 | the array filter: membership iff the predicate holds, multiplicities kept, order kept |
| Seqs.Dedup | frontend/src/App.jsx:111 | building a set from the genres keeps every value and holds each once |
| Seqs.PermutationKeepsDistinct | frontend/src/App.jsx:111 | sorting a list without repeats leaves no two equal positions |
| Text.LowerChar | frontend/src/App.jsx:117-118 | lower-casing maps ASCII capitals to small letters and leaves every other character alone |
| Text.Lower | frontend/src/App.jsx:117-118 | lower-casing keeps the length and leaves no ASCII capital |
| Text.Includes | frontend/src/App.jsx:117-118 | the empty fragment is found in every string, and a found fragment is never longer than the string |
| Text.IncludesIffOccurs | frontend/src/App.jsx:117-118 | `includes` holds exactly when some position of the string starts a copy of the fragment |
| Text.LexLeqIsTotalPreorder | frontend/src/App.jsx:111 | the default string order is total and transitive, so sorting by it is well defined |
| Text.LexLeqAntisymmetric | frontend/src/App.jsx:111 | two strings each at most the other in the default order are equal |

## Left out

- Network I/O is not modelled: `fetch`, request headers, JSON encoding and parsing, HTTP status codes and `console.error`. Each call is an abstract `Reply`.
- React state plumbing is not modelled: `useState`, `useEffect`, rendering, and the loading spinner flag (lines 35 and 43). These hold no logic beyond the list itself.
- The form input handlers (lines 139-142) are left out as UI plumbing. So are entering and cancelling edit mode (lines 147 and 191), `resetFilters` (lines 102-104) and `toggleTheme` (lines 106-108).
- The submit dispatch at line 138 is not modelled. It chooses update or create from the truthiness of the edited id, so a record with id 0 would be submitted as a create.
- The browser's `required` validation on the form inputs is not modelled. Only the explicit guard at line 50 is.
- The `confirm` dialog is interactive. It becomes the boolean `confirmed`.
- Races between overlapping requests are not modelled. Each handler applies its transform to the list as it stands when its reply arrives, as the functional state updates do.
- Views.View: the title ordering uses an abstract `collate` relation, assumed to be a total preorder, in place of the locale-dependent `localeCompare`.
- Text.LowerChar: lower-cases ASCII capitals only; full Unicode `toLowerCase` (multi-character and locale-specific mappings) is not modelled.
- Text.Lower: inherits the ASCII-only mapping. Its "keeps the length" holds for the model, not for `toLowerCase` on characters whose lower case is several characters long.
- Text.LexLeqIsTotalPreorder: compares Unicode scalar values, while the engine compares UTF-16 code units; the two orders differ only between supplementary-plane characters and characters from U+E000 to U+FFFF.
- Views.Genres: the menu is ordered by that scalar-value order. For genres that mix supplementary-plane characters with characters from U+E000 to U+FFFF, the browser's order can differ.
- The numeric coercion of `anno` in `a.anno - b.anno` is not modelled. A record's year is an `int`; the form's year stays text, as typed.
- `BE/main.py` holds a single hello-world route and no catalog logic.

## Findings

| source | as written | input that shows it | evidently intended | confidence | as-written member | corrected member |
|---|---|---|---|---|---|---|
| frontend/src/App.jsx:37-39 | the initial load never checks `res.ok`; any reply whose body parses as JSON replaces the list | an error-status reply whose body is `[]`, arriving while the list is non-empty; the load runs only at mount (line 29) on an empty list (line 9), so this needs a create's reply to land first, which can happen because the form (line 138) stays usable while the spinner (line 174) shows | only a success reply replaces the list, as in the other four handlers | medium, not executed | Handlers.LoadAsWritten, Handlers.ErrorReplyOverwritesList | Handlers.Load |

The model's load body is a list of books. The source would also install
an error body that is not an array, and the page would then fail to
render; that case is outside the model. `Step` and `Run` keep the load
as written, so the invariant `RunKeepsUniqueIds` holds for the page the
code actually runs.
