# Todo service and REST routes, modelled in Dafny

This project models the core of a small todo application: the `TodoService`
class, which validates its input and issues SQL statements against one
`todos` table, and the route handlers of `createApp`, which turn each service
outcome into an HTTP status and a JSON body.

- `wrappers.dfy`: `Option`, where `None` stands for `undefined`, and `Result`,
  the settled state of a promise.
- `js_string.dfy`: ECMAScript `String.prototype.trim`, written over the explicit
  WhiteSpace and LineTerminator set. It proves which strings trim to the empty
  string, that trimming is idempotent, and that it strips any blank padding
  around a trimmed core.
- `js_value.dfy`: the JSON values the body parser produces, and JavaScript
  truthiness (used by `completed ? 1 : 0`).
- `todo_service.dfy`: the table as a sequence of rows in rowid order.
  - The statements the service issues (`SELECT ... WHERE`, `INSERT`,
    `UPDATE ... SET ... WHERE`, `DELETE ... WHERE`, `ORDER BY created_at DESC`)
    are functions on that sequence.
  - `TableValid` is the invariant every operation keeps: ids and creation ticks
    strictly increase, every id is below the next one, and every text is
    non-empty and trimmed.
  - The `TodoService` class holds the table, the next AUTOINCREMENT id and a
    tick clock. Its methods follow the source's branches and are proved
    against the specification functions `CreateResult`, `UpdateResult`,
    `ApplyPatch` and `DeleteWhere`.
- `server.dfy`: one function per route, from the settled outcome of the
  service calls it awaits to a `Response`. Lemmas connect the routes with the
  service's specification, such as "PUT with an empty body answers 400 whether
  or not the id exists".
- `scenarios.dfy`: a selection of the service tests, replayed as methods and
  lemmas against the class contracts and the specification functions. Each method starts, as each test does after `DELETE FROM todos`,
  from a service over an empty table whose AUTOINCREMENT counter and clock are
  arbitrary.

Timestamps are ticks of a monotonic clock. `created_at` is the tick of the
INSERT; `updated_at` is the tick of the INSERT or of the latest UPDATE that ran.
Because ticks are distinct, `ORDER BY created_at DESC` is exactly the reverse
of rowid order.

## Model

| member | source | states |
|---|---|---|
| JsString.TrimStart | todo-service.js:35 | the result is the suffix left after a blank prefix, and it does not start with whitespace |
| JsString.TrimEnd | todo-service.js:35 | the result is the prefix left before a blank suffix, and it does not end with whitespace |
| JsString.Trim | todo-service.js:35 | `trim` never lengthens a string, and its result neither starts nor ends with whitespace |
| JsString.TrimEmptyIffBlank | todo-service.js:35 | `s.trim() === ''` holds exactly when `s` is empty or all whitespace |
| JsString.TrimStartDropsPadding | todo-service.js:35 | leading blank padding before a non-whitespace character is removed and nothing else is |
| JsString.TrimEndDropsPadding | todo-service.js:35 | trailing blank padding after a non-whitespace character is removed and nothing else is |
| JsString.TrimDropsPadding | todo-service.js:35 | trimming blank padding on both sides of a trimmed core gives back exactly that core |
| JsString.TrimFixedIffTrimmed | todo-service.js:64-69 | `trim` leaves a string unchanged exactly when it has no leading or trailing whitespace |
| JsString.TrimIdempotent | todo-service.js:64-69 | trimming twice gives the same as trimming once |
| Service.Message | todo-service.js:35-79 | each rejection carries the source's exact message: "Text is required", "Text cannot be empty", "No fields to update", or a storage error's own message |
| Service.PushedFields | todo-service.js:63-75 | the SET list holds `text = ?` with the trimmed text when `text` is supplied, then `completed = ?` with its truthiness when `completed` is supplied |
| Service.DeleteWhere | todo-service.js:100-113 | a DELETE keeps exactly the rows that do not match, in their order |
| Service.AssignAllSnoc | todo-service.js:68-82 | pushing a clause onto the SET list applies it after the clauses already pushed |
| Service.FirstWhere | todo-service.js:22 | the lookup returns a row of the table that matches; it returns none exactly when no row matches |
| Service.CountWhere | todo-service.js:104 | the reported change count never exceeds the number of rows |
| Service.UpdateWhere | todo-service.js:85-88 | the UPDATE keeps the number of rows; each matching row gets the SET list and every other row is unchanged |
| Service.NewestFirst | todo-service.js:9 | the listing has as many rows as the table, the last-created first |
| Service.InsertKeepsValid | todo-service.js:40-44 | appending a row with the next id, a trimmed non-empty text and the current tick keeps the table invariant |
| Service.PushedFieldsApplyPatch | todo-service.js:63-83 | running the pushed SET list and then `updated_at = CURRENT_TIMESTAMP` replaces exactly the supplied fields, trims the text, stores the truthiness of `completed`, and refreshes `updated_at` |
| Service.UpdateNothing | todo-service.js:85-92 | an UPDATE whose WHERE clause matches no row leaves the table unchanged |
| Service.UpdatePatchesMatchingRows | todo-service.js:63-88 | the UPDATE for a patch changes only the rows with that id, and only as `ApplyPatch` says |
| Service.PatchedRowStored | todo-service.js:63-70 | a row patched with a non-blank text at the current tick still satisfies the row invariant after the clock ticks |
| Service.UpdateKeepsOrdered | todo-service.js:85-88 | the UPDATE keeps ids and creation ticks strictly increasing |
| Service.UpdateKeepsStored | todo-service.js:63-88 | after the UPDATE every row still has a valid id, ticks and a trimmed non-empty text |
| Service.UpdateKeepsValid | todo-service.js:56-95 | a successful updateTodo keeps the table invariant |
| Service.DeleteKeepsValid | todo-service.js:98-121 | both DELETE statements keep the table invariant |
| Service.CreateResult | todo-service.js:33-53 | createTodo rejects with "Text is required" exactly when the text is missing, empty or blank; otherwise it resolves with the next id, and the text it stores is non-empty and trimmed |
| Service.InsertText | todo-service.js:35-38 | the check refuses exactly the missing, empty and blank texts, with "Text is required", and otherwise yields the trimmed text |
| Service.UpdateResult | todo-service.js:56-95 | a blank text gives "Text cannot be empty" whatever `completed` holds; an empty patch gives "No fields to update"; any other patch resolves, and the count is 0 exactly when no row has the id |
| Service.UpdateOutcome | todo-service.js:82-92 | for a valid patch on a valid table the UPDATE keeps the invariant, resolves with the number of matching rows, matches at most one row, and changes nothing when it matches none |
| Service.UpdateFields | todo-service.js:58-83 | the blank-text check comes before the empty-patch check; otherwise the SET list holds one clause per supplied field, then `updated_at` |
| Service.CountIdAtMostOne | todo-service.js:100-104 | with ids unique, a `WHERE id = ?` statement changes at most one row |
| Service.CountWhereZero | todo-service.js:104 | the change count is 0 exactly when no row matches the WHERE clause |
| Service.DeleteWhereKeeps | todo-service.js:100 | a row survives a DELETE exactly when it was in the table and does not match |
| Service.DeleteWhereCount | todo-service.js:100-106 | the rows removed by a DELETE are exactly as many as the change count it reports |
| Service.DeleteNothing | todo-service.js:113-117 | a DELETE that matches nothing leaves the table unchanged |
| Service.DeleteWhereConcat | todo-service.js:113 | DELETE distributes over concatenation, so the surviving rows keep their original order |
| Service.DeleteWhereCons | todo-service.js:113 | the DELETE scan drops or keeps the first row according to the WHERE clause, then scans the rest |
| Service.DeleteWhereTwice | todo-service.js:98-107 | a second identical DELETE matches nothing and changes nothing |
| Service.DeleteWhereOrdered | todo-service.js:111-121 | deleting rows keeps ids and creation ticks strictly increasing |
| Service.FirstWhereFindsNewRow | todo-service.js:20-30 | a row appended with an id no other row has is what the lookup by that id returns |
| Service.NewestFirstSorted | todo-service.js:9 | the listing holds every row exactly once, with creation ticks strictly decreasing |
| Service.NewestFirstPermutes | todo-service.js:9 | the listing neither adds nor loses a row |
| Service.TodoService.constructor | todo-service.js:2-4 | a service over any valid database sees exactly its rows, AUTOINCREMENT counter and clock, and it is valid |
| Service.TodoService.GetAllTodos | todo-service.js:7-17 | getAllTodos returns every row exactly once, newest creation first |
| Service.TodoService.GetTodoById | todo-service.js:20-30 | getTodoById returns the row with that id, or none when no row has it |
| Service.TodoService.CreateTodo | todo-service.js:33-53 | the result is `CreateResult`; a rejection leaves the table, the id counter and the clock unchanged; success appends one open row with the trimmed text and a fresh id, returns that id, and getTodoById finds the row |
| Service.TodoService.Insert | todo-service.js:40-50 | the INSERT appends a row with the next id, the given text, `completed` false and the current tick, and returns that id |
| Service.TodoService.UpdateTodo | todo-service.js:56-95 | the result is `UpdateResult`; rejections and a count of 0 leave the table unchanged; success patches exactly the row with that id; the invariant holds and the count is at most 1 |
| Service.TodoService.DeleteTodo | todo-service.js:98-108 | deleteTodo removes exactly the rows with that id and returns 1, or returns 0 when none exists and leaves the table unchanged |
| Service.TodoService.DeleteCompletedTodos | todo-service.js:111-121 | deleteCompletedTodos keeps exactly the open rows, in order, and returns the number removed; it returns 0 exactly when the table is unchanged |
| JsValue.Truthy | todo-service.js:74 | `completed ? 1 : 0` stores 0 for null, false, 0 and "", and 1 for every other JSON value |
| Server.Caught | server.js:45-50 | a catch block answers with the error's message, with 400 when the route lists the message as the client's fault and 500 otherwise |
| Server.ListRoute | server.js:14-21 | 200 with the list on success; 500 with the error message otherwise |
| Server.GetRoute | server.js:24-36 | 200 with the row when found; 404 "Todo not found" exactly when the lookup returns nothing; 500 with the message on an error |
| Server.CreateRoute | server.js:39-52 | 201 exactly when both the create and the re-read resolve, with the re-read row (no body when it finds none); an error from either call gets its message back, with 400 exactly for "Text is required" and 500 otherwise |
| Server.UpdateRoute | server.js:55-75 | 404 exactly when the count is 0; 200 on a non-zero count with a re-read that resolves, with that row (no body when it finds none); an error from updateTodo or from the re-read gets its message back, with 400 exactly for the two validation messages and 500 otherwise |
| Server.DeleteRoute | server.js:78-92 | 404 exactly when the count is 0; 200 with "Todo deleted successfully" for any other count; 500 on an error |
| Server.DeleteCompletedRoute | server.js:95-105 | 200 on every successful bulk delete, with `deletedCount` equal to the count; 500 on an error |
| Server.ForwardedPatch | server.js:58-60 | each member of the body becomes a supplied field of the patch exactly when it is present, with the same value; a non-string `text` is refused |
| Server.DigitChar | server.js:99 | each digit value becomes a decimal digit character |
| Server.DecimalString | server.js:99 | a template literal renders a count as a non-empty run of decimal digits with no leading zero |
| Server.LeadingDigits | server.js:99 | the leading-digit run of a string is a prefix of it and made of digits |
| Server.ParseDecimalString | server.js:99 | reading the rendered digits back gives the count |
| Server.LeadingDigitsOf | server.js:99 | the leading-digit run of digits followed by a non-digit is exactly those digits |
| Server.DeleteCompletedMessageCount | server.js:97-101 | the bulk-delete message is the number it reports in `deletedCount`, in decimal, followed by exactly " completed todos deleted successfully" |
| Server.RoutesFollowErrorTaxonomy | server.js:45-50 | the service's validation errors answer 400 on the route that can raise them; other errors answer 500 on every route |
| Server.CreateRouteRejectsBlank | server.js:39-52 | POST with missing, empty or blank text answers 400 "Text is required" |
| Server.UpdateRouteEmptyBody | server.js:55-75 | PUT with an empty body answers 400 "No fields to update", whatever the table holds |
| Server.UpdateRouteBlankText | server.js:55-75 | PUT with a blank text answers 400 "Text cannot be empty", whatever else the body holds |
| Server.UpdateRouteMissingRow | server.js:55-64 | PUT with an acceptable body on an id no row has answers 404 |
| Server.DeleteRouteThenNotFound | server.js:78-92 | DELETE of an existing id answers 200; afterwards DELETE and GET of that id both answer 404 |
| Scenarios.EmptiedService | test/todo-service.test.js:14-26 | a service over a table emptied by `DELETE FROM todos` has no rows, keeps its counter and clock, and is valid |
| Scenarios.TrimsTo | todo-service.js:35-43 | a blank-padded trimmed core is accepted by createTodo with whatever id is next, and trims to the core |
| Scenarios.Accepted | todo-service.js:35-43 | a non-empty trimmed text passes the check and is stored unchanged |
| Scenarios.TrimmedTextLiteral | test/todo-service.test.js:91-95 | "  Trimmed text  " trims to "Trimmed text" |
| Scenarios.CreatePaddedText | test/todo-service.test.js:91-95 | creating a padded text on an emptied table returns the next id and stores the trimmed text under it, not completed |
| Scenarios.CreateRejectsMissingText | test/todo-service.test.js:79-89 | missing, empty and blank texts are all rejected with "Text is required", and the table stays empty |
| Scenarios.CompletedRoundTrip | test/todo-service.test.js:156-166 | setting `completed` to true then false answers 1 both times and ends not completed, with the text kept |
| Scenarios.MissingIdsAndDoubleDelete | test/todo-service.test.js:133-136 | updating or deleting an absent id answers 0; deleting an existing id twice answers 1 then 0 |
| Scenarios.DeleteCompletedOfThree | todo-service.js:113-117 | on one open row followed by two completed ones, the bulk DELETE counts 2 and keeps the open row |
| Scenarios.ThreeOpen | test/todo-service.test.js:190-197 | three creates on an emptied table give three open rows with those texts, in that order, under the consecutive ids `firstId`, `firstId + 1` and `firstId + 2` |
| Scenarios.OneOpenTwoDone | test/todo-service.test.js:190-197 | the table those tests insert directly (one open row, then two completed ones) is reached through createTodo and updateTodo, and it is valid |
| Scenarios.DeleteCompletedLeavesOpen | test/todo-service.test.js:199-209 | the bulk delete answers 2 and leaves only the open todo; repeating it answers 0 |

## Left out

- Nothing is asynchronous: each promise is modelled by its settled `Result`. Concurrent requests and the race between POST's INSERT and its re-read are not modelled; a re-read that finds nothing gives 201 with no body.
- The table never fails. A SQLite error (a locked database, a constraint, a lost connection) appears only as `Error.Thrown(message)` at the routes, where it is answered 500.
- `CURRENT_TIMESTAMP` is a monotonic tick. Two rows created in the same wall-clock second, which SQLite would order arbitrarily, are not modelled.
- Ids are integers. The routes pass `req.params.id` as a string and SQLite coerces it; that coercion, and ids that are not numbers, are not modelled.
- `completed` is stored as a boolean. SQLite stores 0 or 1 and the JSON bodies show the integer.
- A `text` in a PUT body that is not a string makes `text.trim()` throw a TypeError, which the route answers 500. The model refuses such a body in `ForwardedPatch` and does not build the TypeError's message.
- `createTodo` receives an `Option<string>`. POST bodies whose `text` is a non-string are not modelled: truthy numbers or objects make `trim` throw, and falsy ones are rejected as missing.
- JsValue.Truthy: JSON numbers are exact reals. `JSON.parse` rounds them to doubles, which is not modelled. It matters only to the truthiness of `completed`: `{"completed": 1e-400}` underflows to 0 and the source stores 0, while the model's `Truthy` sees a non-zero real and stores 1.
- Express wiring (`express.json`, static files, the `/` route, `listen`), `database.js` (opening the file and creating the schema), the browser script and the test helpers are not part of this model.
- Server.RoutesFollowErrorTaxonomy: it assumes a thrown error's message is not one of the validation messages. The routes choose 400 by comparing messages, so a storage error with such a message would also get 400.
