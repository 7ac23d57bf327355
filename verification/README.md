# Todo service: storage and request handling, in Dafny

This project models the core of a small todo-list web service written in Go.
Items live in one SQLite table. Five HTTP handlers list, add, mark done, mark
not done and delete them. Each handler answers in JSON or in HTML, chosen
from the request's Accept header.

The model is functional:

- **`Common`** (`common.dfy`): Go's `int64` as a subset type, plus `Option`
  and `Result`.
- **`Strconv`** (`parse_int.dfy`): `strconv.ParseInt(param, 10, 64)`, which
  the handlers apply to route segments. It is written digit by digit, the
  way Go scans. It is proved equal to an independent right-to-left decimal
  value, with a range error exactly on `int64` overflow.
- **`Database`** (`database.dfy`): the `items` table is a map from id to
  `Row(text, done)`. AUTOINCREMENT's record of the largest id ever issued is
  `lastId` (SQLite's `sqlite_sequence`). Each storage function is a pure
  transition returning `Step(store after the call, result)`. The table
  invariant `Valid` says that every id lies in `1..lastId` and that `lastId`
  fits in an `int64`. Every transition preserves it. `getTodos` is a method
  that picks rows in an unspecified order, and it is proved to return a
  permutation of the table.
- **`Handlers`** (`handlers.dfy`): each handler maps (table, path segment or
  form, Accept header, the medium's answers to its storage calls) to
  (table after, response). A response is a status code plus a body variant:
  `JsonItem`, `JsonList`, `HtmlItem`, `HtmlPage`, `Empty`, `NoContent` or
  `ErrorText(msg)`.
- **`Lifecycle`** (`lifecycle.dfy`): runs of requests. Ids handed out by
  successful adds strictly increase. An id that was ever in the table,
  deleted or not, is never handed out again. Two lemmas walk through a short
  session on a fresh table.

A storage failure is not modelled as a mechanism. Every storage call takes
an `Io` argument, either `Available` or `Failing(detail)`, and a failing call
leaves the table unchanged. The handlers never copy `detail` into a response.

Four behaviours of the Go code worth knowing:

- Marking an absent id is not an error in `markTodoDone`/`markTodoNotDone`.
  The update matches no row, so nothing changes. The handler's re-read then
  fails, and the client gets a 500 "Unable to retrieve marked entry", not a
  "not found".
- Deleting an absent id yields a 500 "Unable to delete entry", not a 404.
- `getTodos` has no `ORDER BY`, so the listing order is unspecified rather
  than insertion order. The model proves only that the result is a
  permutation of the table.
- On an empty table `getTodos` returns a nil slice, which Go's JSON encoder
  writes as `null`, not `[]` (see "## Left out").

## Model

| member | source | states |
|---|---|---|
| Strconv.ScanDigits | main.go:128 | the base-10 digit loop stays within 0..2^64-1, and it reports a syntax error only if the input holds a non-digit |
| Strconv.ParseUint | main.go:128 | the unsigned step of the parse: an empty string is a syntax error, a syntax error implies a non-digit, and on a digit string the result is its decimal value, or a range error when that exceeds 2^64-1 |
| Strconv.ParseInt | main.go:128 | a successful parse of a digit string is non-negative |
| Strconv.ScanDigitsValue | main.go:128 | on digits, the left-to-right scan equals the accumulator shifted plus the reference decimal value, and it fails with a range error exactly when that exceeds 2^64-1 |
| Strconv.ParseRouteId | main.go:70-72 | a segment matching `^[0-9]+$` parses to its decimal value when that fits in int64, and gives a range error otherwise |
| Strconv.RouteIdFailsIffOverflow | main.go:128-133 | on a route-valid segment the parse fails if and only if the value overflows int64 |
| Database.CreateDatabase | database.go:18-24 | the initial table is empty, has issued no id, and satisfies the invariant |
| Database.GetOneTodo | database.go:48-52 | returns the stored text and flag under the requested id exactly when the medium answers and the id is present; NoRows when it is absent; the driver error when the medium fails |
| Database.AddTodo | database.go:54-62 | on success the new id is above every id ever issued and not held by any row; the new row has the given text and is not done; other rows are unchanged; the record only grows; SQLITE_FULL once the int64 range is used up; on failure nothing changes |
| Database.MarkTodo | database.go:64-72 | sets only the flag of the matching row and keeps its text and all other rows; an absent id is a successful no-op; a failing medium changes nothing |
| Database.MarkTodoDone | database.go:64-67 | after success the matching row is done |
| Database.MarkTodoNotDone | database.go:69-72 | after success the matching row is not done |
| Database.DeleteTodo | database.go:74-87 | succeeds exactly when the medium answers and the id is present, removing that row alone; when zero rows match it reports RowsAffected(0) and the table is unchanged; the id record is untouched |
| Database.GetTodos | database.go:26-46 | with the medium answering, the result is a permutation of the table (every row once, nothing else); an empty table gives an empty list; a failure returns the driver error |
| Database.AddThenGet | database.go:48-62 | a freshly added item reads back as {id, text, false}, and every other id reads back as before |
| Database.MarkThenGet | database.go:48-67 | marking a present row and reading it back gives the requested flag with id and text unchanged |
| Database.MarkIdempotent | database.go:64-72 | marking twice with the same flag equals marking once |
| Database.MarkRoundTrip | database.go:64-72 | marking done and then not done restores a row that was not done, and symmetrically |
| Database.DeleteThenGet | database.go:74-87 | after a delete the id reads as NoRows, and a second delete fails with zero rows affected and changes nothing |
| Handlers.Negotiate | main.go:151-166 | JSON is chosen if and only if the Accept header equals "application/json" verbatim; any other value, including the absent header read as "", selects HTML |
| Handlers.FormValue | main.go:253 | a non-empty form value is the first value submitted under that key |
| Handlers.IndexHandler | main.go:96-122 | a failing read gives 500 "Internal Server Error"; otherwise 200 with a JSON list exactly when Accept is "application/json" and an HTML page otherwise, listing a permutation of the table |
| Handlers.MarkHandler | main.go:125-167 | the error ladder of do/undo: an unparsable id gives 400 with the handler's text and the table untouched; a failing update gives 500 with the handler's text and the table unchanged; an absent id gives 500 "Unable to retrieve marked entry" with the table unchanged; a failing re-read gives that same 500 while the update stays committed (whenever the update succeeds the table is the marked table); 200 exactly when the id parses, is present and both calls succeed, and then the body is the item with the requested id and flag, in JSON exactly for the JSON Accept value; other rows are untouched |
| Handlers.DoHandler | main.go:125-167 | a bad id gives 400 "Markdone expects an integer path element"; a 200 answer carries an item that is done |
| Handlers.UndoHandler | main.go:170-212 | a bad id gives 400 "Markundone expects an integer path element"; a 200 answer carries an item that is not done |
| Handlers.DeleteHandler | main.go:215-240 | a bad id gives 400 with the table untouched; a failing medium or an absent id gives 500 "Unable to delete entry" with the table unchanged; success removes exactly that row and answers 204 with no body for the JSON Accept value, and an empty 200 otherwise |
| Handlers.AddHandler | main.go:243-287 | a malformed form gives 400 "Error parsing add request"; an empty newTodo gives 400 "Empty todo items are not accepted"; in both cases the table is unchanged; with a non-empty text, a failing medium or an exhausted id range (SQLITE_FULL) gives 500 "Unable to write new entry" with the table unchanged; success answers with {fresh id, submitted text, false}, which is also what the table now holds under that id, adds only that key and leaves every other row as it was |
| Handlers.HandlePreservesValid | database.go:19 | every state-changing request keeps the table invariant and never lowers the record of issued ids |
| Handlers.StorageDetailNeverReachesClient | main.go:135-148 | a request's outcome depends only on whether its storage calls failed, never on the driver's error text |
| Handlers.ServerErrorsUseFixedTexts | main.go:224-230 | every 500 from a state-changing handler carries one of the fixed texts |
| Handlers.RouteIdRejectedIffOverflow | main.go:70-72 | for do, undo and delete on a route-valid segment, the answer is 400 exactly when the value overflows int64, and the table is then untouched |
| Handlers.JsonOnlyForExactAccept | main.go:150-166 | on success every handler answers JSON (or the bare 204) exactly when Accept equals "application/json" verbatim |
| Lifecycle.ServeKeepsIdRecord | database.go:19 | one served request keeps the invariant, does not lower the record, and hands out at most one id, above the old record |
| Lifecycle.RunWithIssuesFreshIds | database.go:19 | in a run whose every step keeps the record, the ids handed out strictly increase and lie between the starting and the final record |
| Lifecycle.RunIssuesFreshIds | database.go:54-62 | in any run of requests, ids from successful adds strictly increase and exceed every id issued before the run |
| Lifecycle.NoIdReissued | database.go:19 | an id present in the table at some point, even if later deleted, is below every id handed out afterwards, whether the later calls are served alone or as the tail of the whole run |
| Lifecycle.FreshTableAdds | main.go:243-287 | on a fresh table, adding "buy milk" then "walk dog" answers with ids 1 and 2, texts verbatim, not done |
| Lifecycle.TwoItemsSession | main.go:125-240 | marking 1 done answers with it done; deleting 2 gives 204; afterwards marking or deleting 2 gives the fixed 500 texts and only id 1 remains |

## Left out

- `main()` is left out: argument parsing, router construction, opening and pinging the database, template parsing and the server loop. It is process bootstrap and I/O.
- The router and its `^[0-9]+$` matching are left out. The regex appears only as the precondition `IsDigitString` of the route lemmas. The handlers themselves accept any string, as `ParseInt` does.
- HTML template rendering and JSON encoding are left out. These are foreign libraries, so the model records only which body variant is chosen. A failing encode or template execution gives a 500 in the source: "Internal Server Error" in the index handler, "Unable to render response" in the do, undo and add handlers. That happens after part of the body may already have been written, so the status is not under the handler's control. It is not modelled.
- Handlers.IndexHandler: on an empty table the Go list is a nil slice, which the JSON encoder writes as `null`, not `[]`. The model records the body as `JsonList([])` and does not distinguish the two, since byte-level encoding is out of scope.
- `http.Error`'s trailing newline and its headers are not modelled. `ErrorText` carries the message text alone.
- `log.Printf` calls and logging.go's status-recording middleware are left out. They are operator logging around I/O, with no effect on the response.
- SQLite concurrency and locking are left out, because every request is modelled as one sequential step.
- Driver failures are modelled as one `Io` answer per storage call. A failure midway through `getTodos` (`Scan` or `rows.Err`) is folded into that call's single answer.
- CreateDatabase: models only the fresh, empty table. `create table if not exists` on an existing file and its failure path are bootstrap.
- AddTodo: gives the new row exactly `lastId + 1`. SQLite documents only "larger than any id ever used", so the contract states that weaker freshness, not the exact value. `LastInsertId` cannot fail with this driver, so that error path is not modelled.
