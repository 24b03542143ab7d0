/**
 * The service's test scenarios, replayed against the contracts of
 * TodoService alone: each method starts, as each test does after clearing the
 * table, from a service over an empty table whose AUTOINCREMENT counter and clock
 * are wherever earlier statements left them.
 */
module Scenarios {
  import opened Wrappers
  import opened JsString
  import opened JsValue
  import opened Service

  /** A service over a database emptied by `DELETE FROM todos`: no rows, AUTOINCREMENT at `firstId`, the clock at `start`. */
  method EmptiedService(firstId: int, start: nat) returns (service: TodoService)
    requires 1 <= firstId
    ensures fresh(service) && service.Valid()
    ensures service.rows == [] && service.nextId == firstId && service.clock == start
  {
    service := new TodoService([], firstId, start);
  }

  lemma TrimsTo(before: string, core: string, after: string, nextId: int)
    requires IsBlank(before) && IsBlank(after) && core != [] && IsTrimmed(core)
    ensures Trim(before + core + after) == core
    ensures CreateResult(Some(before + core + after), nextId) == Ok(nextId)
  {
    TrimDropsPadding(before, core, after);
    TrimEmptyIffBlank(before + core + after);
  }

  /** A text the table could hold is accepted by createTodo and stored as it is. */
  lemma Accepted(text: string)
    requires IsStoredText(text)
    ensures Trim(text) == text && !IsBlank(text)
  {
    TrimFixedIffTrimmed(text);
    TrimEmptyIffBlank(text);
  }

  /** The padded text of the service's own test trims to "Trimmed text". */
  lemma TrimmedTextLiteral()
    ensures Trim("  Trimmed text  ") == "Trimmed text"
  {
    var core := "Trimmed text";
    assert "  " + core + "  " == "  Trimmed text  ";
    assert core[0] == 'T' && core[|core| - 1] == 't';
    TrimDropsPadding("  ", core, "  ");
  }

  /** Creating a padded text stores it trimmed, not completed, under the returned id. */
  method CreatePaddedText(firstId: int, start: nat, before: string, core: string, after: string) returns (id: Result<int, Error>, stored: Option<Todo>)
    requires 1 <= firstId
    requires IsBlank(before) && IsBlank(after) && IsStoredText(core)
    ensures id == Ok(firstId)
    ensures stored.Some? && stored.value.id == firstId
    ensures stored.value.text == core && !stored.value.completed
  {
    var service := EmptiedService(firstId, start);
    TrimsTo(before, core, after, firstId);
    id := service.CreateTodo(Some(before + core + after));
    stored := service.GetTodoById(id.value);
  }

  /** Missing, empty and blank text are all rejected with "Text is required", leaving the table empty. */
  method CreateRejectsMissingText(firstId: int, start: nat) returns (missing: Result<int, Error>, empty: Result<int, Error>, blank: Result<int, Error>, all: seq<Todo>)
    requires 1 <= firstId
    ensures missing == empty == blank == Err(TextRequired)
    ensures all == []
  {
    var service := EmptiedService(firstId, start);
    missing := service.CreateTodo(None);
    empty := service.CreateTodo(Some(""));
    assert IsBlank("   ");
    blank := service.CreateTodo(Some("   "));
    all := service.GetAllTodos();
  }

  /** Marking a todo completed and then not completed answers 1 both times and ends not completed, text untouched. */
  method CompletedRoundTrip(firstId: int, start: nat, text: string) returns (first: Result<nat, Error>, second: Result<nat, Error>, stored: Option<Todo>)
    requires 1 <= firstId && IsStoredText(text)
    ensures first == Ok(1) && second == Ok(1)
    ensures stored.Some? && !stored.value.completed && stored.value.text == text
  {
    var service := EmptiedService(firstId, start);
    Accepted(text);
    var id := service.CreateTodo(Some(text));
    first := service.UpdateTodo(id.value, Patch(None, Some(JBool(true))));
    second := service.UpdateTodo(id.value, Patch(None, Some(JBool(false))));
    stored := service.GetTodoById(id.value);
  }

  /** Updating or deleting an id no row has answers 0; deleting an existing id twice answers 1 then 0. */
  method MissingIdsAndDoubleDelete(firstId: int, start: nat, text: string, other: int) returns (update: Result<nat, Error>, missing: nat, first: nat, second: nat)
    requires 1 <= firstId && IsStoredText(text) && other != firstId
    ensures update == Ok(0) && missing == 0
    ensures first == 1 && second == 0
  {
    var service := EmptiedService(firstId, start);
    Accepted(text);
    var id := service.CreateTodo(Some(text));
    update := service.UpdateTodo(other, Patch(Some(text), None));
    missing := service.DeleteTodo(other);
    first := service.DeleteTodo(id.value);
    second := service.DeleteTodo(id.value);
  }

  /** On a table of one open row followed by two completed ones, the bulk delete removes the last two. */
  lemma DeleteCompletedOfThree(rows: seq<Todo>)
    requires |rows| == 3 && !rows[0].completed && rows[1].completed && rows[2].completed
    ensures CountWhere(rows, IsCompleted) == 2
    ensures DeleteWhere(rows, IsCompleted) == [rows[0]]
  {
    var last := rows[1..][1..];
    assert last == [rows[2]] && last[1..] == [];
    assert CountWhere(last, IsCompleted) == 1 && DeleteWhere(last, IsCompleted) == [];
    assert CountWhere(rows[1..], IsCompleted) == 2 && DeleteWhere(rows[1..], IsCompleted) == [];
  }

  /** Creates three todos on an emptied table: three open rows with those texts, in that order, under consecutive ids. */
  method ThreeOpen(firstId: int, start: nat, first: string, second: string, third: string) returns (service: TodoService)
    requires 1 <= firstId
    requires IsStoredText(first) && IsStoredText(second) && IsStoredText(third)
    ensures fresh(service) && service.Valid()
    ensures |service.rows| == 3
    ensures service.rows[0].id == firstId && service.rows[1].id == firstId + 1 && service.rows[2].id == firstId + 2
    ensures service.rows[0].text == first && service.rows[1].text == second && service.rows[2].text == third
    ensures !service.rows[0].completed && !service.rows[1].completed && !service.rows[2].completed
  {
    service := EmptiedService(firstId, start);
    Accepted(first);
    Accepted(second);
    Accepted(third);
    var one := service.CreateTodo(Some(first));
    var two := service.CreateTodo(Some(second));
    var three := service.CreateTodo(Some(third));
  }

  /** Builds through the service the table the bulk-delete tests insert directly: one open todo, then two completed ones. */
  method OneOpenTwoDone(firstId: int, start: nat, open: string, done1: string, done2: string) returns (service: TodoService)
    requires 1 <= firstId
    requires IsStoredText(open) && IsStoredText(done1) && IsStoredText(done2)
    ensures fresh(service) && service.Valid()
    ensures |service.rows| == 3 && service.rows[0].text == open
    ensures !service.rows[0].completed && service.rows[1].completed && service.rows[2].completed
  {
    service := ThreeOpen(firstId, start, open, done1, done2);
    var c2 := service.UpdateTodo(firstId + 1, Patch(None, Some(JBool(true))));
    var c3 := service.UpdateTodo(firstId + 2, Patch(None, Some(JBool(true))));
  }

  /** With one open todo and two completed ones, the bulk delete answers 2 and leaves only the open one; a second one answers 0. */
  method DeleteCompletedLeavesOpen(firstId: int, start: nat, open: string, done1: string, done2: string) returns (deleted: nat, again: nat, remaining: seq<Todo>)
    requires 1 <= firstId
    requires IsStoredText(open) && IsStoredText(done1) && IsStoredText(done2)
    ensures deleted == 2 && again == 0
    ensures |remaining| == 1 && remaining[0].text == open && !remaining[0].completed
  {
    var service := OneOpenTwoDone(firstId, start, open, done1, done2);
    DeleteCompletedOfThree(service.rows);
    deleted := service.DeleteCompletedTodos();
    again := service.DeleteCompletedTodos();
    remaining := service.GetAllTodos();
  }
}
