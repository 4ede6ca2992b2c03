# Bookshelf API — a Dafny model of the request handlers

The Bookshelf API keeps book records in an in-memory array and serves five
handlers: create a book, list books (with optional `name`, `reading` and
`finished` filters), get a book by id, edit a book by id, and delete a book
by id. Each handler checks its input, reads or changes the array, and answers
with a status (`success` / `fail`), an HTTP status code, an optional message
and optional data.

This project models the store as an immutable `seq<Book>` and each handler as
a pure function from the store and the request's inputs to a `Reply`: the
response and the store after the call. The generated id and the current time
stamp are parameters.

Files:

- `optional.dfy` — `Option`, standing for an absent field or a missing match.
- `sequences.dfy` — first-match search (the `find` / `findIndex` /
  `filter(..)[0]` of the handlers), order-preserving filtering and removal of
  one element (`splice(i, 1)`).
- `text.dfy` — ASCII lower-casing and substring search for the name filter.
- `books.dfy` — the data model: `Book`, the request `Payload`, the list
  `Query`, the `Response` envelope and the response messages, kept verbatim
  (they are Indonesian in the source).
- `handlers.dfy` — the five handlers and the per-handler contracts.
- `properties.dfy` — lemmas relating several calls: the unique-id
  invariant, create and delete as inverses, read-back after create and edit,
  duplicate-id behaviour of get-by-id, the list filters, and the lifecycle
  scenario create → get → rejected edit → edit → delete → get.

Two details of the list filters and the responses:

- A non-empty `reading` or `finished` query value other than `"1"` (such as
  `"0"`) still switches its filter on, and selects the records whose flag is
  `false` (`ListReadingOtherThanOne`, `ListFinishedOtherThanOne`).
- The response messages are the program's Indonesian strings, kept verbatim.

Behaviour the code has and the model keeps on purpose:

- `finished` is computed when a book is created and never recomputed by edit,
  so it can go stale (`Revised`, `Lifecycle`).
- Get-by-id does two lookups. The first, by id alone, decides 404 against
  200. The second, by id and `finished`, picks the record returned. With
  duplicate ids a later finished copy wins (`GetPrefersFinishedDuplicate`);
  with unique ids the second lookup changes nothing (`GetWithUniqueIds`).
- Edit runs both 400 checks before the not-found check, so an invalid payload
  for an unknown id answers 400.
- Create's 500 branch is kept as written and proved unreachable.

## Model

| member | source | states |
|---|---|---|
| Handlers.AddBook | src/handler.js:6-69 | The page check wins over the name check and both answer fail/400 with the store unchanged. A valid payload answers success/201 carrying the new id, and appends exactly one record. That record holds the payload's fields, `finished` iff every page is read, and equal insertion and update times. Code 500 is never answered. |
| Handlers.GetAllBooks | src/handler.js:72-113 | List leaves the store unchanged and answers success/200 without a message with a listing no longer than the store. |
| Handlers.ListIsSelection | src/handler.js:77-112 | The listing is the id/name/publisher projection of exactly the records that pass every active filter, in store order. |
| Handlers.SurvivorsAreSelected | src/handler.js:77-96 | Applying the name, reading and finished filters one after another, each only when its query value is non-empty, keeps exactly the records matching the whole query. |
| Handlers.NameMatchIgnoresCase | src/handler.js:80-83 | The name filter gives the same answer whether the query or the record's name is lower-cased first. |
| Handlers.Survivors | src/handler.js:77-96 | The filter chain never lengthens the store, and keeps a record iff it is in the store and passes every active name, reading and finished test. |
| Handlers.NewBook | src/handler.js:14-26 | The record built for a named payload carries the payload's fields and the given id. Its `finished` is set iff every page is read, and both its time stamps are `now`. |
| Handlers.GetBookById | src/handler.js:116-154 | The store is unchanged; the answer is fail/404 exactly when no record has the id. Otherwise it is success/200 with the first finished record having the id, or the first record having the id when no such record is finished. |
| Handlers.EditBookById | src/handler.js:156-214 | Page check, then name check (400 each), then unknown id (404); every failure leaves the store unchanged. On success (200) only the first record with the id changes: id, insertion time and `finished` are kept, the other fields come from the payload, and the update time is refreshed. |
| Handlers.Revise | src/handler.js:185-196 | The replacement record keeps the old id, insertion time and `finished` flag. It takes every other field from the payload and gets `now` as its update time. |
| Handlers.DeleteBookById | src/handler.js:216-241 | With no record having the id: fail/404 and the store unchanged. Otherwise: success/200; exactly the first record with the id is removed, and the rest keep their order. |
| Sequences.FirstIndex | src/handler.js:166 | The search returns the first index whose element matches, or None exactly when no element matches. |
| Sequences.Filter | src/handler.js:82-95 | Filtering keeps an order-preserving subsequence of the input, no longer than the input, holding exactly the matching elements. |
| Sequences.FilterWhen | src/handler.js:80-96 | A filter stage that only runs when switched on never lengthens its input. It keeps an element iff the element is in the input and either the stage is off or the element matches. |
| Sequences.FilterCount | src/handler.js:82-95 | A filter keeps every matching element exactly as often as it occurs in the input and drops every other element. |
| Sequences.FilterFilter | src/handler.js:80-96 | Two filters in a row equal one filter by the conjunction. |
| Sequences.RemoveAt | src/handler.js:225 | Removing at an index shortens the sequence by one and shifts the later elements down by one. |
| Books.Project | src/handler.js:99-103 | The list view has one entry per record, in the same order, holding that record's id, name and publisher. |
| Text.LowerChar | src/handler.js:81-82 | Lower-casing never yields an upper-case ASCII letter. An upper-case letter becomes the lower-case letter at the same alphabet position, and every other character is unchanged. |
| Text.Lower | src/handler.js:81-82 | Lower-casing a string keeps its length and lower-cases each character in place, so the result holds no upper-case ASCII letter. |
| Text.Includes | src/handler.js:82 | The substring test is true iff the query occurs at some position of the name. |
| Properties.AddPreservesUniqueIds | src/handler.js:11-45 | Create keeps ids unique when the id it is handed is fresh. |
| Properties.EditPreservesUniqueIds | src/handler.js:185-196 | Edit keeps every record's id, so unique ids stay unique. |
| Properties.DeletePreservesUniqueIds | src/handler.js:221-225 | Delete keeps unique ids unique. |
| Properties.AddThenGet | src/handler.js:45-58 | After a successful create with a fresh id, get-by-id answers success/200 with the record as created. |
| Properties.AddThenDelete | src/handler.js:221-231 | Deleting the fresh id that create was just handed answers success/200 and restores the store before the create. |
| Properties.GetWithUniqueIds | src/handler.js:122-145 | With unique ids, get-by-id returns the one record having the id. |
| Properties.GetPrefersFinishedDuplicate | src/handler.js:125-134 | With two records sharing an id, an unfinished one first and a finished one second, get-by-id returns the second. |
| Properties.EditThenGet | src/handler.js:183-204 | With unique ids, a valid edit answers 200 and get-by-id then returns the revised record. |
| Properties.DeleteThenGone | src/handler.js:221-239 | With unique ids, deleting an existing id answers 200 and shortens the store by one; afterwards get-by-id and a second delete of that id answer 404. |
| Properties.ListWithoutFilters | src/handler.js:77-103 | With no filter switched on, the listing projects every record in store order. |
| Properties.ListReadingOtherThanOne | src/handler.js:87-90 | A non-empty reading value other than "1" lists exactly the records not being read. |
| Properties.ListFinishedOtherThanOne | src/handler.js:93-96 | A non-empty finished value other than "1" lists exactly the unfinished records. |
| Properties.AddThenList | src/handler.js:99-103 | After a successful create, an unfiltered listing has one more entry, and its last entry is the new record's id, name and publisher. |
| Properties.Lifecycle | src/handler.js:6-241 | Create a fully read book (201) and read it back finished. An edit with more pages read than the book has answers 400 and changes nothing. An edit to 60 pages answers 200, and the record stays finished. Delete answers 200, and get-by-id then answers 404. |

## Left out

- `src/routes.js`, the method/path table for the HTTP framework: wiring
  with no logic of its own.
- The framework's request and response objects: replaced by the `Payload`
  and `Query` inputs and the `Response` datatype.
- Id generation (`nanoid(20)`, a foreign library drawing random bytes): the
  id is a parameter, and the lemmas that need it to be fresh say so.
- Time stamps (`new Date().toISOString()`, a clock read): taken as opaque
  string parameters.
- The re-imports of the `books` module inside get-by-id and edit: the module
  system hands back the same cached array, so they change nothing.
- JavaScript's dynamic typing: payload fields are typed (`int`, `bool`,
  `string`), so comparisons with `undefined` page counts, non-boolean
  `reading` values and falsy names other than an absent or empty string are
  not modelled. Repeated query keys, which the framework turns into arrays,
  are not modelled either.
- Text.LowerChar, Text.Lower, Text.Includes, Handlers.NameMatchIgnoresCase: lower-casing covers ASCII
  letters only, not the full Unicode case mapping of `toLowerCase`.
- Serialisation of the response to JSON and the HTTP transport.
