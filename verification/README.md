# Task store and task operations, modelled in Dafny

This project models the core of a small task-management service: an in-memory
record store (`Database`) that maps table names to ordered sequences of records,
and the task operations layered on it (create, list/search, update, delete,
toggle completion, bulk import). The HTTP layer is removed. Each handler becomes
a method over the shared store. The method takes the request's fields, the
generated id and the clock readings as parameters and returns a status:
`Created` (201), `Ok` (200), `NoContent` (204), `BadRequest` (400),
`NotFound` (404) or `ServerError` (500).

Files:

- `records.dfy` (module `Records`): field values (`Null` or `Str`), records as
  maps from field name to value, JavaScript truthiness, `item.id === id`, and the
  string operations the search uses (`toLowerCase` and `includes`).
- `seqs.dfy` (module `Seqs`): `Array.prototype.filter` over sequences. The
  lemmas prove that it keeps exactly the passing elements, in their order.
- `store.dfy` (module `Store`): the queries and table transitions as functions,
  and class `Database`. The class's `tables` field is the private `#database`
  map. `Insert`, `Update` and `Delete` reassign that map. `Select` and `FindIn`
  are functions of it. A ghost field `persisted` logs the snapshot that each
  call to `#persist` would write.
- `routes.dfy` (module `Routes`): the task handlers. `ValidTasks` is the
  tasks-table invariant that every handler keeps: each task has exactly the six
  task fields with the right kinds of value, and no two tasks share an id.

Behaviours of the code that are easy to misread:

- A created task's `created_at` and `updated_at` come from two separate clock
  calls. They are two parameters and need not be equal.
- The store's `delete` removes every record with the id, not just one. With the
  unique-id invariant, `DeleteTask` removes exactly one.
- `PATCH` takes `completed_at` from one clock call. The store's update stamps
  `updated_at` from another. They are two parameters.
- The store persists after a `delete` even when nothing was removed. It does not
  persist after an `update` whose id is absent. The `persisted` log records this.

## Model

| member | source | states |
|---|---|---|
| `Records.Includes` | src/middlewares/database.js:46 | `includes` is true exactly when the term occurs at some index of the string |
| `Records.Lower` | src/middlewares/database.js:46 | `toLowerCase` keeps the length, leaves no ASCII capital, turns each capital into its small letter and keeps every other character |
| `Records.FoldedOccurrence` | src/middlewares/database.js:46 | an occurrence that matches up to letter case makes the case-insensitive test true |
| `Records.MatchIsFolded` | src/middlewares/database.js:46 | conversely, the case-insensitive test is true only when the term occurs at some index up to letter case |
| `Records.EmptyTermMatches` | src/middlewares/database.js:46 | every string contains the empty term |
| `Seqs.Filter` | src/middlewares/database.js:44-48 | `filter` yields as many elements as pass the predicate |
| `Seqs.FilterKeepsPassing` | src/middlewares/database.js:44-48 | `filter` yields an in-order subsequence holding exactly the elements that pass |
| `Seqs.FilterRemovesOne` | src/middlewares/database.js:84 | when only the element at index i fails, `filter` removes exactly that element |
| `Store.FindIndex` | src/middlewares/database.js:70 | `findIndex` gives -1 iff no record has the id; otherwise the index of the first record that has it |
| `Store.Find` | src/middlewares/database.js:63-66 | `find` gives nothing iff no record has the id; otherwise the first record that has it |
| `Store.Matches` | src/middlewares/database.js:45-47 | a row matches only when some searched key names a string field of the row; an empty search object matches no row |
| `Store.EmptySearchMatchesNothing` | src/middlewares/database.js:43-48 | an empty search object is truthy and matches no row, so the result is empty |
| `Store.Merge` | src/middlewares/database.js:73-77 | the merged record has the new fields, keeps the old fields not overridden, and has `updated_at` set to the given time |
| `Store.UpdatedRows` | src/middlewares/database.js:69-77 | update keeps the table's length, replaces only the first record with the id by its merge, and changes nothing when the id is absent |
| `Store.WithoutId` | src/middlewares/database.js:83-84 | delete keeps, in order, exactly the records without the id; the length drops by the number of records with it |
| `Store.DeleteRemovesOne` | src/middlewares/database.js:84 | with unique ids, delete removes just the record at the id's index |
| `Store.UpdateKeepsIds` | src/middlewares/database.js:73-77 | a merge without an `id` field changes no record's id, so later lookups find the same index |
| `Store.FindAfterAppend` | src/middlewares/database.js:54-66 | after appending a record under an id the table lacked, `find` returns that record |
| `Store.Database.constructor` | src/middlewares/database.js:10 | the store starts with no tables and nothing persisted |
| `Store.Database.Rows` | src/middlewares/database.js:41 | the table's records, or none when the store has no such table |
| `Store.Database.Select` | src/middlewares/database.js:40-52 | with no search: the table in insertion order, or empty if the table is absent; with a search: an in-order subsequence holding exactly the matching rows, every one of them (its length is the number of matching rows) |
| `Store.Database.FindIn` | src/middlewares/database.js:63-66 | nothing iff the table has no record with the id; otherwise the record at the first index holding it |
| `Store.Database.Insert` | src/middlewares/database.js:54-61 | appends the record to its table (creating the table if absent), leaves other tables alone, persists once, returns the record |
| `Store.Database.Update` | src/middlewares/database.js:68-80 | absent id: nothing changes and nothing is persisted; present id: only that table changes, as `UpdatedRows`, and it persists once |
| `Store.Database.Delete` | src/middlewares/database.js:82-86 | the table becomes `WithoutId` of itself (an absent table becomes empty), other tables are unchanged, and it always persists |
| `Routes.NewTask` | src/middlewares/routes.js:49-56 | a created task is well formed, has the given id, title and description, has `completed_at` null, and has `created_at` and `updated_at` set to the two clock readings |
| `Routes.CreateTask` | src/middlewares/routes.js:42-61 | a falsy title or description gives BadRequest and leaves the store untouched; otherwise Created, the task is appended, `find` returns it, and the invariant holds |
| `Routes.SearchFilter` | src/middlewares/routes.js:71 | a search object exists iff the term is present and non-empty; it then maps exactly `title` and `description` to the term |
| `Routes.SearchFilterMatches` | src/middlewares/routes.js:71 | a task matches that search object iff its title or its description contains the term, ignoring case |
| `Routes.ListTasks` | src/middlewares/routes.js:67-75 | Ok; no term or an empty term gives all tasks in order; otherwise the in-order tasks whose title or description contains the term ignoring case, every one of them (as many as there are such tasks) |
| `Routes.UpdateData` | src/middlewares/routes.js:91-93 | the update holds `title` iff it is truthy and `description` iff it is truthy, and nothing else |
| `Routes.EditedTask` | src/middlewares/routes.js:91-95 | an edit replaces only the truthy fields given, refreshes `updated_at`, keeps the id, `created_at` and `completed_at`, and keeps the task well formed |
| `Routes.UpdateTask` | src/middlewares/routes.js:81-98 | unknown id: NotFound and no change; known id: NoContent and only that task is merged; the invariant holds |
| `Routes.DeleteTask` | src/middlewares/routes.js:104-114 | unknown id: NotFound and no change; known id: NoContent, the task is gone, the others stay in order, and the count drops by one |
| `Routes.Toggled` | src/middlewares/routes.js:128 | the new `completed_at` is truthy iff the old one was not; it is then the current time, otherwise null |
| `Routes.CompletionPatch` | src/middlewares/routes.js:128-129 | the patch holds only `completed_at`, whose truthiness is the opposite of the task's, and which is the current time when truthy and null otherwise |
| `Routes.ToggleThroughUpdate` | src/middlewares/routes.js:128-129 | the store update with the `{ completed_at }` patch is exactly the toggle of that task |
| `Routes.ToggleFlips` | src/middlewares/routes.js:122-129 | a toggle flips the task's completion, refreshes its `updated_at`, keeps its index, and leaves every other task as it was |
| `Routes.ToggleKeepsValid` | src/middlewares/routes.js:128-129 | a toggle keeps the tasks-table invariant |
| `Routes.ToggleTwiceRestores` | src/middlewares/routes.js:128-129 | toggling an incomplete task twice brings `completed_at` back to null; only `updated_at` differs |
| `Routes.ToggleComplete` | src/middlewares/routes.js:120-132 | unknown id: NotFound and no change; known id: NoContent and the table becomes its toggle; the invariant holds |
| `Routes.OrDefault` | src/middlewares/routes.js:150-151 | a row field or its default: the field when truthy, otherwise the default, and never empty |
| `Routes.ImportedTask` | src/middlewares/routes.js:148-155 | an imported task is well formed, is incomplete, has the row's title and description, or the defaults when those are blank, and has `created_at` and `updated_at` set to the drawn clock readings |
| `Routes.ValidAppendImported` | src/middlewares/routes.js:147-160 | appending tasks under freshly drawn, pairwise distinct ids keeps the invariant |
| `Routes.BuildImported` | src/middlewares/routes.js:147-157 | the row loop builds one task per row, in row order |
| `Routes.InsertEach` | src/middlewares/routes.js:160 | the tasks are appended in order after the existing ones, with one persist per task |
| `Routes.ImportTasks` | src/middlewares/routes.js:138-179 | a parser error while the rows are read: ServerError and no change; otherwise Created, the tasks table grows by the imported tasks in row order, other tables are unchanged, and the invariant holds |

## Left out

- `#persist` and the constructor's load of `db.json` (src/middlewares/database.js:12-39) are file I/O, JSON and CSV serialisation, and fire-and-forget promises. Persistence is modelled only as the ghost `persisted` log. The constructor models the store before any load.
- The race between the asynchronous load and the first requests, and all concurrency between requests, are not modelled.
- `getBrasiliaTime` and `new Date().toISOString()` read the wall clock. Timestamps are opaque non-empty strings passed as parameters. The two timestamp formats (fixed -03:00 offset versus UTC) are not distinguished.
- `randomUUID()` is replaced by an id parameter. A precondition says the id is new to the table (and, for the import, that the ids are pairwise distinct). This stands in for the uniqueness that random UUIDs give in practice.
- The CSV reading by `fast-csv` is not modelled. Its rows are an input sequence, or `None` when the parser reports an error while the loop iterates it. The rows are built in a local array before any insert, so a failed parse stores nothing. The shape of each row depends on the parser and its options, which are outside this model.
- The CSV rewrite after the import and its sort by `created_at` (src/middlewares/routes.js:163-172) are not modelled. They write a file and reorder only the local array of imported tasks, not the stored table.
- The HTTP layer is not modelled: `req`/`res`, response bodies, `writeHead` and route matching (`buildRoutePath` is not part of this model). Responses are reduced to `Status`.
- Field values are only JSON strings and null. Numbers, booleans and objects in request bodies or stored records are not modelled, and neither is the falsiness of `0` and `false`.
- `Records.Lower`: `toLowerCase` is modelled on the ASCII letters only. Unicode case mapping is not modelled.
- `Store.Database.Select`: requires every searched field to be a string on every row. The source throws only when `some` actually reaches such a field, and `some` stops at the first match. So this requires clause is stronger than what the source needs.
- `Store.Database.Select` returns the table's sequence as a value. In the source, `select` without a search returns the stored array itself, and a caller could mutate it. That aliasing is not modelled.
- A `db.json` may hold a table that is not an array, and `insert` would replace it. Tables here are always sequences, so that case is not modelled.
- `Routes.CreateTask`, `Routes.UpdateTask`, `Routes.DeleteTask`, `Routes.ToggleComplete`, `Routes.ImportTasks`: each requires the tasks-table invariant `ValidTasks`. Starting from an empty store, the handlers keep it. A `db.json` loaded from disk might not satisfy it, and that case is not modelled.
- A failure of the read stream itself (a missing or unreadable `tasks.csv`) is not modelled: `fileStream.pipe(parser)` (src/middlewares/routes.js:144-145) does not forward the read stream's `error` event to the parser, so such a failure does not reach the `catch` at src/middlewares/routes.js:175-177 and no 500 is sent.
