# Bookshelf store: a Dafny model

The bookshelf API keeps its books in one in-memory, ordered array that five
HTTP handlers share: create (POST /books), list (GET /books), get by id
(GET /books/{id}), update by id (PUT /books/{id}) and delete by id
(DELETE /books/{id}). This project models that store and the logic of those
handlers, and proves what each one does to the array and what it answers.

- `books.dfy`, module `Books`: the records (`Book`), the request payload
  (`Payload`), the listing view (`Summary`), the handler outcome
  (`Response`: `Ok`, `MissingName`, `ReadPageExceedsPageCount`, `NotFound`),
  the payload validation shared by create and update, `findIndex` by id
  (`IndexOf`, returning -1 when absent, like JavaScript), the listing
  projection (`Summaries`) and lemmas about them.
- `store.dfy`, module `Store`: class `BookStore` with the field
  `books: seq<Book>` and one member per handler. Create, update and delete
  change `books` in place and are methods with `modifies this`; list and get
  only read it and are functions. `Valid()` is the store's invariant: ids are
  unique and every record has a non-empty name, `readPage <= pageCount` and
  `finished == (pageCount == readPage)`. Every mutating handler preserves it.
- `scenarios.dfy`, module `Scenarios`: clients that chain handler calls
  (create then get, delete twice, create two then list) and prove the
  outcome from the handlers' contracts alone.

The two external inputs of the handlers are parameters: the id that the
random id generator would return (`freshId`, required not to be in the store
already, which is what that generator is relied on for) and the timestamp the
clock would return (`now`, an opaque string).

Validation follows the code's order. Create checks the name, then the pages.
Update looks the id up first, then checks the name, then the pages. A record
is therefore never reported as invalid when its id is absent. The success of
update keeps `id` and `insertedAt` of the old record (the object spread of the
old record comes first) and replaces everything else.

## Model

| member | source | states |
|---|---|---|
| `Books.Validate` | src/routes.js:20-34 | the name check comes first: a missing (absent or empty) name gives MissingName whatever the pages; otherwise `readPage > pageCount` gives ReadPageExceedsPageCount; otherwise success, carrying the non-empty name of the payload |
| `Books.IndexOf` | src/routes.js:106-108 | the result is -1 exactly when no record has the id, and otherwise the position of the first record holding it |
| `Books.Summaries` | src/routes.js:74 | the listing has one entry per record, in the same order, entry k being the id, name and publisher of record k |
| `Books.SummariesAppend` | src/routes.js:56 | listing after an append lists the old records first, unchanged and in order, then the appended ones |
| `Books.SummariesRemoveAt` | src/routes.js:176 | removing the record at position i removes exactly entry i of the listing; the rest keeps its order |
| `Books.SummariesUpdate` | src/routes.js:142-154 | overwriting the record at position i changes only entry i of the listing |
| `Books.IndexOfUnique` | src/routes.js:84 | with unique ids, the lookup of a record's id finds that very record |
| `Books.AppendFresh` | src/routes.js:36-56 | appending a record with a new id keeps ids unique, and the lookup then finds it at the end |
| `Books.RemoveAtUnique` | src/routes.js:167-176 | removing a record keeps ids unique, and with unique ids its id is then absent |
| `Store.BookStore.constructor` | src/routes.js:2 | the shared array starts empty, which satisfies the store invariant |
| `Store.BookStore.Create` | src/routes.js:8-65 | a missing name gives MissingName, else readPage > pageCount gives ReadPageExceedsPageCount, both with the store unchanged; otherwise it returns the fresh id and appends exactly one record, which holds every payload field, `finished == (pageCount == readPage)` and `insertedAt == updatedAt == now`; the listing grows by its summary at the end; with unique ids, get by the fresh id returns it; the invariant is preserved |
| `Store.BookStore.ListSummaries` | src/routes.js:70-77 | reads the store only; one summary per record, same length and order, entry k is (id, name, publisher) of record k |
| `Store.BookStore.GetById` | src/routes.js:82-99 | reads the store only; NotFound exactly when no record has the id, otherwise the first record holding it |
| `Store.BookStore.UpdateById` | src/routes.js:104-160 | NotFound exactly when the id is absent, checked before the payload; then MissingName, then ReadPageExceedsPageCount; every failure leaves the store unchanged; success changes only the found position and keeps the length, keeps `id` and `insertedAt`, replaces every payload field, recomputes `finished` and sets `updatedAt` to `now`; only that listing entry changes; the invariant is preserved |
| `Store.BookStore.DeleteById` | src/routes.js:165-182 | NotFound with the store unchanged exactly when the id is absent; otherwise it removes exactly the record at the found position, so the rest keeps its relative order, and removes exactly that listing entry; with unique ids, get by that id then gives NotFound; the invariant is preserved |
| `Scenarios.CreateThenGet` | src/routes.js:36-91 | after a successful create, get by the new id returns a record carrying the payload with both timestamps equal to `now`; after a rejected create it gives NotFound |
| `Scenarios.DeleteTwice` | src/routes.js:165-176 | on a valid store, deleting an id twice removes at most one record and the second call answers NotFound |
| `Scenarios.CreateTwoThenList` | src/routes.js:56-74 | two accepted creates are listed after the earlier records, in the order they were made |

## Left out

- The HTTP framework: the request objects, `h.response(...)`, the status
  codes (201, 200, 400, 404), the `status` field of the response bodies and the
  exported `routes` array. Each handler's outcome is a `Response` value
  instead; the failure kind determines the status code.
- The message strings of the failure responses; the outcome kind stands for
  them.
- The random id generator: replaced by the `freshId` parameter and the
  precondition that it is not already in the store.
- The clock: replaced by the opaque `now` parameter.
- src/books.js is not part of this model; it only provides the shared array,
  which is the `books` field.
- JavaScript's loose typing of the payload: `!name` is also true for values
  such as `0` or `false`, and `readPage > pageCount` compares whatever was
  sent. The model types `name` as an optional string (absent or empty means
  missing), the page counts as integers and the other fields as integers,
  strings and a boolean, so those coercions are not modelled.
- Concurrency: the handlers run one at a time, as the event loop runs them.
