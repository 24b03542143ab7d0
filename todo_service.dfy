/**
 * The todo service: validation of the caller's input and the effect of each
 * SQL statement on the one `todos` table, which is held as a sequence of rows
 * in rowid order instead of a SQLite database.
 */
module Service {
  import opened Wrappers
  import opened JsString
  import opened JsValue

  /** One row of `todos`. The two timestamps are ticks of a monotonic clock. */
  datatype Todo = Todo(id: int, text: string, completed: bool, createdSeq: nat, updatedSeq: nat)

  /** The `updates` argument of updateTodo: each field is absent (`undefined`) or supplied. */
  datatype Patch = Patch(text: Option<string>, completed: Option<Json>)

  /** The errors a service call rejects with; `Thrown` is any other error, a storage failure for one. */
  datatype Error = TextRequired | TextCannotBeEmpty | NoFieldsToUpdate | Thrown(message: string)

  /** `err.message` */
  function Message(e: Error): string {
    match e
    case TextRequired => "Text is required"
    case TextCannotBeEmpty => "Text cannot be empty"
    case NoFieldsToUpdate => "No fields to update"
    case Thrown(m) => m
  }

  // ---------------------------------------------------------------------------
  // The statements the service sends to the store, as functions on the rows.
  // ---------------------------------------------------------------------------

  /** The WHERE clauses the service uses: `id = ?` and `completed = 1`. */
  datatype Condition = IdIs(id: int) | IsCompleted

  predicate Matches(t: Todo, c: Condition) {
    match c
    case IdIs(id) => t.id == id
    case IsCompleted => t.completed
  }

  /** The SET clauses of an UPDATE: `text = ?`, `completed = ?`, `updated_at = CURRENT_TIMESTAMP`. */
  datatype Assignment = SetText(text: string) | SetCompleted(completed: bool) | TouchUpdatedAt

  function Assign(t: Todo, a: Assignment, now: nat): Todo {
    match a
    case SetText(s) => t.(text := s)
    case SetCompleted(b) => t.(completed := b)
    case TouchUpdatedAt => t.(updatedSeq := now)
  }

  /** Applies the SET list in order. */
  function AssignAll(t: Todo, fields: seq<Assignment>, now: nat): Todo {
    if fields == [] then t
    else Assign(AssignAll(t, fields[..|fields| - 1], now), fields[|fields| - 1], now)
  }

  /** Pushing a clause onto the SET list applies it after the earlier ones. */
  lemma AssignAllSnoc(t: Todo, fields: seq<Assignment>, a: Assignment, now: nat)
    ensures AssignAll(t, fields + [a], now) == Assign(AssignAll(t, fields, now), a, now)
  {
    assert (fields + [a])[..|fields|] == fields;
  }

  /** `db.get(SELECT * ... WHERE ...)`: the first matching row, or none. */
  function FirstWhere(rows: seq<Todo>, c: Condition): (r: Option<Todo>)
    ensures r.Some? ==> r.value in rows && Matches(r.value, c)
    ensures r.None? <==> forall t :: t in rows ==> !Matches(t, c)
  {
    if rows == [] then None
    else if Matches(rows[0], c) then Some(rows[0])
    else FirstWhere(rows[1..], c)
  }

  /** How many rows a statement with this WHERE clause touches (`this.changes`). */
  function CountWhere(rows: seq<Todo>, c: Condition): (n: nat)
    ensures n <= |rows|
  {
    if rows == [] then 0
    else (if Matches(rows[0], c) then 1 else 0) + CountWhere(rows[1..], c)
  }

  /** `DELETE FROM todos WHERE ...`: keeps the non-matching rows, in order. */
  function DeleteWhere(rows: seq<Todo>, c: Condition): seq<Todo>
  {
    if rows == [] then []
    else (if Matches(rows[0], c) then [] else [rows[0]]) + DeleteWhere(rows[1..], c)
  }

  /** `UPDATE todos SET fields WHERE ...`: the matching rows get the SET list, the others stay. */
  function UpdateWhere(rows: seq<Todo>, c: Condition, fields: seq<Assignment>, now: nat): (r: seq<Todo>)
    ensures |r| == |rows|
    ensures forall i :: 0 <= i < |rows| ==>
              r[i] == if Matches(rows[i], c) then AssignAll(rows[i], fields, now) else rows[i]
  {
    if rows == [] then []
    else [if Matches(rows[0], c) then AssignAll(rows[0], fields, now) else rows[0]]
         + UpdateWhere(rows[1..], c, fields, now)
  }

  /** `ORDER BY created_at DESC` over rows kept in creation order. */
  function NewestFirst(rows: seq<Todo>): (r: seq<Todo>)
    ensures |r| == |rows|
    ensures forall i :: 0 <= i < |r| ==> r[i] == rows[|rows| - 1 - i]
  {
    if rows == [] then [] else NewestFirst(rows[1..]) + [rows[0]]
  }

  // ---------------------------------------------------------------------------
  // What the service promises, stated on values.
  // ---------------------------------------------------------------------------

  /** Rows in rowid order: ids and creation ticks both strictly increase. */
  ghost predicate Ordered(rows: seq<Todo>) {
    forall i, j :: 0 <= i < j < |rows| ==> rows[i].id < rows[j].id && rows[i].createdSeq < rows[j].createdSeq
  }

  /** The text a row may hold: never empty, never padded. */
  predicate IsStoredText(s: string) {
    s != [] && IsTrimmed(s)
  }

  /** A row the service could have written before `nextId` and `clock` were reached. */
  ghost predicate Stored(t: Todo, nextId: int, clock: nat) {
    1 <= t.id < nextId && t.createdSeq <= t.updatedSeq < clock && IsStoredText(t.text)
  }

  /** The table invariant: rows in rowid order, every row one the service could have written. */
  ghost predicate TableValid(rows: seq<Todo>, nextId: int, clock: nat) {
    1 <= nextId && Ordered(rows) && forall t :: t in rows ==> Stored(t, nextId, clock)
  }

  /** An INSERT of a stored text with the next id at the current tick keeps the invariant. */
  lemma InsertKeepsValid(rows: seq<Todo>, nextId: int, clock: nat, text: string)
    requires TableValid(rows, nextId, clock) && IsStoredText(text)
    ensures TableValid(rows + [Todo(nextId, text, false, clock, clock)], nextId + 1, clock + 1)
  {
    OrderedSnoc(rows, Todo(nextId, text, false, clock, clock));
  }

  /** The SET list updateTodo pushes for a patch: `text = ?` if supplied, `completed = ?` if supplied. */
  function PushedFields(p: Patch): seq<Assignment> {
    var withText := if p.text.Some? then [SetText(Trim(p.text.value))] else [];
    if p.completed.Some? then withText + [SetCompleted(Truthy(p.completed.value))] else withText
  }

  /** Running the pushed SET list, then `updated_at = CURRENT_TIMESTAMP`, is applying the patch. */
  lemma PushedFieldsApplyPatch(t: Todo, p: Patch, now: nat)
    ensures AssignAll(t, PushedFields(p) + [TouchUpdatedAt], now) == ApplyPatch(t, p, now)
  {
    var withText := if p.text.Some? then [SetText(Trim(p.text.value))] else [];
    AssignAllSnoc(t, PushedFields(p), TouchUpdatedAt, now);
    if p.completed.Some? {
      AssignAllSnoc(t, withText, SetCompleted(Truthy(p.completed.value)), now);
    }
    if p.text.Some? {
      AssignAllSnoc(t, [], SetText(Trim(p.text.value)), now);
    }
  }

  /** An UPDATE that matches no row leaves the table as it was. */
  lemma {:induction false} UpdateNothing(rows: seq<Todo>, c: Condition, fields: seq<Assignment>, now: nat)
    requires CountWhere(rows, c) == 0
    ensures UpdateWhere(rows, c, fields, now) == rows
  {
    if rows != [] {
      UpdateNothing(rows[1..], c, fields, now);
    }
  }

  /** The UPDATE updateTodo issues for a patch changes only the rows with that id, and only the supplied fields. */
  lemma UpdatePatchesMatchingRows(rows: seq<Todo>, id: int, p: Patch, now: nat)
    ensures var after := UpdateWhere(rows, IdIs(id), PushedFields(p) + [TouchUpdatedAt], now);
            |after| == |rows| &&
            forall i :: 0 <= i < |rows| ==> after[i] == if rows[i].id == id then ApplyPatch(rows[i], p, now) else rows[i]
  {
    var after := UpdateWhere(rows, IdIs(id), PushedFields(p) + [TouchUpdatedAt], now);
    forall i | 0 <= i < |rows| ensures after[i] == if rows[i].id == id then ApplyPatch(rows[i], p, now) else rows[i] {
      PushedFieldsApplyPatch(rows[i], p, now);
    }
  }

  /** A row patched with a stored text at the current tick is still one the service could have written. */
  lemma PatchedRowStored(t: Todo, p: Patch, nextId: int, clock: nat)
    requires Stored(t, nextId, clock)
    requires p.text.Some? ==> IsStoredText(Trim(p.text.value))
    ensures Stored(ApplyPatch(t, p, clock), nextId, clock + 1) && Stored(t, nextId, clock + 1)
  {
  }

  /** The UPDATE updateTodo issues touches neither ids nor creation ticks, so rowid order survives it. */
  lemma UpdateKeepsOrdered(rows: seq<Todo>, id: int, p: Patch, now: nat)
    requires Ordered(rows)
    ensures Ordered(UpdateWhere(rows, IdIs(id), PushedFields(p) + [TouchUpdatedAt], now))
  {
    var after := UpdateWhere(rows, IdIs(id), PushedFields(p) + [TouchUpdatedAt], now);
    UpdatePatchesMatchingRows(rows, id, p, now);
    forall i, j | 0 <= i < j < |after| ensures after[i].id < after[j].id && after[i].createdSeq < after[j].createdSeq {
      assert after[i].id == rows[i].id && after[i].createdSeq == rows[i].createdSeq;
      assert after[j].id == rows[j].id && after[j].createdSeq == rows[j].createdSeq;
    }
  }

  /** Every row after that UPDATE is still one the service could have written, the clock having ticked. */
  lemma UpdateKeepsStored(rows: seq<Todo>, nextId: int, clock: nat, id: int, p: Patch)
    requires forall t :: t in rows ==> Stored(t, nextId, clock)
    requires p.text.Some? ==> IsStoredText(Trim(p.text.value))
    ensures forall t :: t in UpdateWhere(rows, IdIs(id), PushedFields(p) + [TouchUpdatedAt], clock) ==> Stored(t, nextId, clock + 1)
  {
    var after := UpdateWhere(rows, IdIs(id), PushedFields(p) + [TouchUpdatedAt], clock);
    UpdatePatchesMatchingRows(rows, id, p, clock);
    forall k | 0 <= k < |after| ensures Stored(after[k], nextId, clock + 1) {
      assert rows[k] in rows;
      PatchedRowStored(rows[k], p, nextId, clock);
    }
  }

  /** The UPDATE updateTodo issues keeps the invariant, the clock having ticked. */
  lemma UpdateKeepsValid(rows: seq<Todo>, nextId: int, clock: nat, id: int, p: Patch)
    requires TableValid(rows, nextId, clock)
    requires p.text.Some? ==> IsStoredText(Trim(p.text.value))
    ensures TableValid(UpdateWhere(rows, IdIs(id), PushedFields(p) + [TouchUpdatedAt], clock), nextId, clock + 1)
  {
    UpdateKeepsOrdered(rows, id, p, clock);
    UpdateKeepsStored(rows, nextId, clock, id, p);
  }

  /** A DELETE keeps the invariant. */
  lemma DeleteKeepsValid(rows: seq<Todo>, nextId: int, clock: nat, c: Condition)
    requires TableValid(rows, nextId, clock)
    ensures TableValid(DeleteWhere(rows, c), nextId, clock)
  {
    DeleteWhereOrdered(rows, c);
    DeleteWhereKeeps(rows, c);
  }

  /** What createTodo settles with, given the id the table assigns next. */
  function CreateResult(text: Option<string>, nextId: int): (r: Result<int, Error>)
    ensures r.Err? <==> text.None? || IsBlank(text.value)
    ensures r.Err? ==> r.error == TextRequired
    ensures r.Ok? ==> r.value == nextId && IsStoredText(Trim(text.value))
  {
    if text.None? || text.value == [] then Err(TextRequired)
    else
      TrimEmptyIffBlank(text.value);
      if Trim(text.value) == [] then Err(TextRequired) else Ok(nextId)
  }

  /** The check at the start of createTodo, step by step as the source makes it; `CreateResult` is its specification. */
  method InsertText(text: Option<string>) returns (r: Result<string, Error>)
    ensures r.Err? <==> text.None? || IsBlank(text.value)
    ensures r.Err? ==> r.error == TextRequired
    ensures r.Ok? ==> r.value == Trim(text.value) && IsStoredText(r.value)
  {
    if text.None? || text.value == [] {
      return Err(TextRequired);
    }
    var trimmed := Trim(text.value);
    TrimEmptyIffBlank(text.value);
    if trimmed == [] {
      return Err(TextRequired);
    }
    r := Ok(trimmed);
  }

  /** What updateTodo settles with: a validation error, or the number of rows whose id matched. */
  function UpdateResult(rows: seq<Todo>, id: int, p: Patch): (r: Result<nat, Error>)
    ensures r == Err(TextCannotBeEmpty) <==> p.text.Some? && IsBlank(p.text.value)
    ensures r == Err(NoFieldsToUpdate) <==> p.text.None? && p.completed.None?
    ensures r.Ok? <==> (p.text.Some? || p.completed.Some?) && !(p.text.Some? && IsBlank(p.text.value))
    ensures r.Ok? ==> (r.value == 0 <==> forall t :: t in rows ==> t.id != id)
  {
    if p.text.Some? && (TrimEmptyIffBlank(p.text.value); Trim(p.text.value) == []) then Err(TextCannotBeEmpty)
    else if p.text.None? && p.completed.None? then Err(NoFieldsToUpdate)
    else
      CountWhereZero(rows, IdIs(id));
      Ok(CountWhere(rows, IdIs(id)))
  }

  /** What an update that passes validation does to a valid table: it keeps the invariant, matches at most one row, and reports how many. */
  lemma UpdateOutcome(rows: seq<Todo>, nextId: int, clock: nat, id: int, p: Patch)
    requires TableValid(rows, nextId, clock)
    requires UpdateResult(rows, id, p).Ok?
    ensures var after := UpdateWhere(rows, IdIs(id), PushedFields(p) + [TouchUpdatedAt], clock);
            TableValid(after, nextId, clock + 1) &&
            UpdateResult(rows, id, p) == Ok(CountWhere(rows, IdIs(id))) &&
            CountWhere(rows, IdIs(id)) <= 1 &&
            (CountWhere(rows, IdIs(id)) == 0 ==> after == rows)
  {
    if p.text.Some? {
      TrimEmptyIffBlank(p.text.value);
    }
    UpdateKeepsValid(rows, nextId, clock, id, p);
    CountIdAtMostOne(rows, id);
    if CountWhere(rows, IdIs(id)) == 0 {
      UpdateNothing(rows, IdIs(id), PushedFields(p) + [TouchUpdatedAt], clock);
    }
  }

  /**
   * The validation and SET-list construction at the start of updateTodo: a blank text is refused,
   * each supplied field adds one assignment, an empty list is refused, and `updated_at` closes the list.
   */
  method UpdateFields(p: Patch) returns (r: Result<seq<Assignment>, Error>)
    ensures r == Err(TextCannotBeEmpty) <==> p.text.Some? && IsBlank(p.text.value)
    ensures r == Err(NoFieldsToUpdate) <==> p.text.None? && p.completed.None?
    ensures r.Err? ==> r.error == TextCannotBeEmpty || r.error == NoFieldsToUpdate
    ensures r.Ok? ==> r.value == PushedFields(p) + [TouchUpdatedAt]
    ensures r.Ok? && p.text.Some? ==> IsStoredText(Trim(p.text.value))
  {
    var updateFields: seq<Assignment> := [];
    if p.text.Some? {
      var trimmed := Trim(p.text.value);
      TrimEmptyIffBlank(p.text.value);
      if trimmed == [] {
        return Err(TextCannotBeEmpty);
      }
      updateFields := [SetText(trimmed)];
    }
    if p.completed.Some? {
      updateFields := updateFields + [SetCompleted(Truthy(p.completed.value))];
    }
    if |updateFields| == 0 {
      return Err(NoFieldsToUpdate);
    }
    assert updateFields == PushedFields(p);
    r := Ok(updateFields + [TouchUpdatedAt]);
  }

  /** The row after a successful update: supplied fields replaced, absent fields kept, `updated_at` refreshed. */
  function ApplyPatch(t: Todo, p: Patch, now: nat): Todo {
    Todo(t.id,
         if p.text.Some? then Trim(p.text.value) else t.text,
         if p.completed.Some? then Truthy(p.completed.value) else t.completed,
         t.createdSeq,
         now)
  }

  /** With ids unique, a WHERE id = ? statement touches at most one row. */
  lemma {:induction false} CountIdAtMostOne(rows: seq<Todo>, id: int)
    requires Ordered(rows)
    ensures CountWhere(rows, IdIs(id)) <= 1
  {
    if rows != [] {
      OrderedTail(rows);
      if rows[0].id == id {
        CountWhereZero(rows[1..], IdIs(id));
      } else {
        CountIdAtMostOne(rows[1..], id);
      }
    }
  }

  /** A statement touches no row exactly when no row matches its WHERE clause. */
  lemma {:induction false} CountWhereZero(rows: seq<Todo>, c: Condition)
    ensures CountWhere(rows, c) == 0 <==> forall t :: t in rows ==> !Matches(t, c)
  {
    if rows != [] {
      CountWhereZero(rows[1..], c);
      assert rows == [rows[0]] + rows[1..];
    }
  }

  /** The rows a delete keeps are exactly the rows that do not match. */
  lemma {:induction false} DeleteWhereKeeps(rows: seq<Todo>, c: Condition)
    ensures forall t :: t in DeleteWhere(rows, c) <==> t in rows && !Matches(t, c)
  {
    if rows != [] {
      DeleteWhereKeeps(rows[1..], c);
      assert rows == [rows[0]] + rows[1..];
    }
  }

  /** A DELETE removes exactly as many rows as match: the change count sqlite reports. */
  lemma {:induction false} DeleteWhereCount(rows: seq<Todo>, c: Condition)
    ensures |DeleteWhere(rows, c)| + CountWhere(rows, c) == |rows|
  {
    if rows != [] {
      DeleteWhereCount(rows[1..], c);
    }
  }

  /** A delete that matches nothing leaves the table as it was. */
  lemma {:induction false} DeleteNothing(rows: seq<Todo>, c: Condition)
    requires CountWhere(rows, c) == 0
    ensures DeleteWhere(rows, c) == rows
  {
    if rows != [] {
      assert rows[0] in rows;
      DeleteNothing(rows[1..], c);
    }
  }

  /** Deleting keeps the surviving rows in their original order: it distributes over concatenation. */
  lemma {:induction false} DeleteWhereConcat(a: seq<Todo>, b: seq<Todo>, c: Condition)
    ensures DeleteWhere(a + b, c) == DeleteWhere(a, c) + DeleteWhere(b, c)
  {
    if a == [] {
      assert a + b == b;
    } else {
      var x, rest := a[0], a[1..];
      assert a == [x] + rest && a + b == [x] + (rest + b);
      DeleteWhereConcat(rest, b, c);
      DeleteWhereCons(x, rest, c);
      DeleteWhereCons(x, rest + b, c);
      var head := if Matches(x, c) then [] else [x];
      assert head + (DeleteWhere(rest, c) + DeleteWhere(b, c)) == (head + DeleteWhere(rest, c)) + DeleteWhere(b, c);
    }
  }

  /** One step of the DELETE scan: the first row is dropped or kept, then the rest is scanned. */
  lemma DeleteWhereCons(x: Todo, rest: seq<Todo>, c: Condition)
    ensures DeleteWhere([x] + rest, c) == (if Matches(x, c) then [] else [x]) + DeleteWhere(rest, c)
  {
    assert ([x] + rest)[1..] == rest;
  }

  /** A second identical delete removes nothing and leaves the table unchanged. */
  lemma DeleteWhereTwice(rows: seq<Todo>, c: Condition)
    ensures CountWhere(DeleteWhere(rows, c), c) == 0
    ensures DeleteWhere(DeleteWhere(rows, c), c) == DeleteWhere(rows, c)
  {
    DeleteWhereKeeps(rows, c);
    CountWhereZero(DeleteWhere(rows, c), c);
    DeleteNothing(DeleteWhere(rows, c), c);
  }

  /** Dropping the first row keeps a table in rowid order. */
  lemma OrderedTail(rows: seq<Todo>)
    requires rows != [] && Ordered(rows)
    ensures Ordered(rows[1..])
    ensures forall t :: t in rows[1..] ==> rows[0].id < t.id && rows[0].createdSeq < t.createdSeq
  {
    var tail := rows[1..];
    forall i, j | 0 <= i < j < |tail| ensures tail[i].id < tail[j].id && tail[i].createdSeq < tail[j].createdSeq {
      assert tail[i] == rows[i + 1] && tail[j] == rows[j + 1];
    }
    forall t | t in tail ensures rows[0].id < t.id && rows[0].createdSeq < t.createdSeq {
      var k :| 0 <= k < |tail| && tail[k] == t;
      assert rows[k + 1] == t;
    }
  }

  /** A row placed before a table in rowid order, older and with a smaller id than all of it, keeps the order. */
  lemma OrderedCons(x: Todo, rest: seq<Todo>)
    requires Ordered(rest)
    requires forall t :: t in rest ==> x.id < t.id && x.createdSeq < t.createdSeq
    ensures Ordered([x] + rest)
  {
    var s := [x] + rest;
    forall i, j | 0 <= i < j < |s| ensures s[i].id < s[j].id && s[i].createdSeq < s[j].createdSeq {
      assert s[j] == rest[j - 1] && s[j] in rest;
      if i > 0 {
        assert s[i] == rest[i - 1];
      }
    }
  }

  /** A row appended after a table in rowid order, newer and with a larger id than all of it, keeps the order. */
  lemma OrderedSnoc(rows: seq<Todo>, x: Todo)
    requires Ordered(rows)
    requires forall t :: t in rows ==> t.id < x.id && t.createdSeq < x.createdSeq
    ensures Ordered(rows + [x])
  {
    var s := rows + [x];
    forall i, j | 0 <= i < j < |s| ensures s[i].id < s[j].id && s[i].createdSeq < s[j].createdSeq {
      assert s[i] == rows[i] && s[i] in rows;
      if j < |rows| {
        assert s[j] == rows[j];
      }
    }
  }

  /** Deleting rows keeps the table in rowid order. */
  lemma {:induction false} DeleteWhereOrdered(rows: seq<Todo>, c: Condition)
    requires Ordered(rows)
    ensures Ordered(DeleteWhere(rows, c))
  {
    if rows != [] {
      OrderedTail(rows);
      DeleteWhereOrdered(rows[1..], c);
      var rest := DeleteWhere(rows[1..], c);
      DeleteWhereKeeps(rows[1..], c);
      if !Matches(rows[0], c) {
        OrderedCons(rows[0], rest);
      }
    }
  }

  /** A row whose id no other row has is what a lookup of that id finds. */
  lemma {:induction false} FirstWhereFindsNewRow(rows: seq<Todo>, x: Todo)
    requires forall t :: t in rows ==> t.id != x.id
    ensures FirstWhere(rows + [x], IdIs(x.id)) == Some(x)
  {
    if rows == [] {
      assert rows + [x] == [x];
    } else {
      assert rows[0] in rows;
      assert (rows + [x])[0] == rows[0] && (rows + [x])[1..] == rows[1..] + [x];
      FirstWhereFindsNewRow(rows[1..], x);
    }
  }

  /** Reading the table newest first lists every row once, creation ticks strictly decreasing. */
  lemma {:induction false} NewestFirstSorted(rows: seq<Todo>)
    requires Ordered(rows)
    ensures multiset(NewestFirst(rows)) == multiset(rows)
    ensures forall i, j :: 0 <= i < j < |rows| ==> NewestFirst(rows)[i].createdSeq > NewestFirst(rows)[j].createdSeq
  {
    NewestFirstPermutes(rows);
  }

  /** Reversal neither adds nor loses a row. */
  lemma {:induction false} NewestFirstPermutes(rows: seq<Todo>)
    ensures multiset(NewestFirst(rows)) == multiset(rows)
  {
    if rows != [] {
      NewestFirstPermutes(rows[1..]);
      assert rows == [rows[0]] + rows[1..];
    }
  }

  /**
   * The TodoService object over its table. `rows` is the table in rowid order,
   * `nextId` the id AUTOINCREMENT hands out next, `clock` the next timestamp tick.
   */
  class TodoService {
    var rows: seq<Todo>
    var nextId: int
    var clock: nat

    ghost predicate Valid()
      reads this
    {
      TableValid(rows, nextId, clock)
    }

    /**
     * `new TodoService(database)`: a service over a database as it stands, already
     * holding `rows0`, with AUTOINCREMENT at `nextId0` and the clock at `clock0`.
     */
    constructor (rows0: seq<Todo>, nextId0: int, clock0: nat)
      requires TableValid(rows0, nextId0, clock0)
      ensures Valid()
      ensures rows == rows0 && nextId == nextId0 && clock == clock0
    {
      rows := rows0;
      nextId := nextId0;
      clock := clock0;
    }

    /** getAllTodos: every row, newest creation first. */
    function GetAllTodos(): (r: seq<Todo>)
      reads this
      requires Valid()
      ensures multiset(r) == multiset(rows)
      ensures forall i, j :: 0 <= i < j < |r| ==> r[i].createdSeq > r[j].createdSeq
    {
      NewestFirstSorted(rows);
      NewestFirst(rows)
    }

    /** getTodoById: the row with that id, or none (`undefined`), which is not an error. */
    function GetTodoById(id: int): (r: Option<Todo>)
      reads this
      ensures r.Some? ==> r.value in rows && r.value.id == id
      ensures r.None? <==> forall t :: t in rows ==> t.id != id
    {
      FirstWhere(rows, IdIs(id))
    }

    /** createTodo: rejects missing or blank text, otherwise appends one trimmed, open row with a fresh id. */
    method CreateTodo(text: Option<string>) returns (r: Result<int, Error>)
      requires Valid()
      modifies this
      ensures Valid()
      ensures r == CreateResult(text, old(nextId))
      ensures r.Err? ==> rows == old(rows) && nextId == old(nextId) && clock == old(clock)
      ensures r.Ok? ==> rows == old(rows) + [Todo(r.value, Trim(text.value), false, old(clock), old(clock))]
      ensures r.Ok? ==> forall t :: t in old(rows) ==> t.id != r.value
      ensures r.Ok? ==> GetTodoById(r.value) == Some(rows[|rows| - 1])
      ensures r.Ok? ==> nextId == old(nextId) + 1 && clock == old(clock) + 1
    {
      var checked := InsertText(text);
      if checked.Err? {
        return Err(checked.error);
      }
      var id := Insert(checked.value);
      r := Ok(id);
    }

    /** The INSERT of a checked text: a new row with the next id, not completed, stamped with the current tick; its id is returned. */
    method Insert(text: string) returns (id: int)
      requires Valid() && IsStoredText(text)
      modifies this
      ensures Valid()
      ensures id == old(nextId)
      ensures rows == old(rows) + [Todo(id, text, false, old(clock), old(clock))]
      ensures forall t :: t in old(rows) ==> t.id != id
      ensures GetTodoById(id) == Some(rows[|rows| - 1])
      ensures nextId == old(nextId) + 1 && clock == old(clock) + 1
    {
      var row := Todo(nextId, text, false, clock, clock);
      InsertKeepsValid(rows, nextId, clock, text);
      FirstWhereFindsNewRow(rows, row);
      rows := rows + [row];
      id := nextId;
      nextId := nextId + 1;
      clock := clock + 1;
    }

    /**
     * updateTodo: validates the supplied fields, builds the SET list field by
     * field, and runs `UPDATE ... WHERE id = ?`, answering how many rows changed.
     */
    method UpdateTodo(id: int, patch: Patch) returns (r: Result<nat, Error>)
      requires Valid()
      modifies this
      ensures Valid()
      ensures r == UpdateResult(old(rows), id, patch)
      ensures r.Ok? ==> r.value <= 1
      ensures r.Err? || r == Ok(0) ==> rows == old(rows)
      ensures r.Ok? ==> |rows| == |old(rows)|
      ensures r.Ok? ==> forall i :: 0 <= i < |rows| ==>
                rows[i] == if old(rows)[i].id == id then ApplyPatch(old(rows)[i], patch, old(clock)) else old(rows)[i]
      ensures nextId == old(nextId)
      ensures clock == if r.Ok? then old(clock) + 1 else old(clock)
    {
      var built := UpdateFields(patch);
      if built.Err? {
        return Err(built.error);
      }
      var changes := CountWhere(rows, IdIs(id));
      UpdateOutcome(rows, nextId, clock, id, patch);
      UpdatePatchesMatchingRows(rows, id, patch, clock);
      r := Ok(changes);
      rows := UpdateWhere(rows, IdIs(id), built.value, clock);
      clock := clock + 1;
    }

    /** deleteTodo: removes the row with that id, answering 1, or answers 0 and changes nothing. */
    method DeleteTodo(id: int) returns (changes: nat)
      requires Valid()
      modifies this
      ensures Valid()
      ensures rows == DeleteWhere(old(rows), IdIs(id))
      ensures changes <= 1
      ensures changes == 0 <==> forall t :: t in old(rows) ==> t.id != id
      ensures changes == 0 ==> rows == old(rows)
      ensures forall t :: t in rows <==> t in old(rows) && t.id != id
      ensures nextId == old(nextId) && clock == old(clock)
    {
      var remaining := DeleteWhere(rows, IdIs(id));
      DeleteWhereCount(rows, IdIs(id));
      CountIdAtMostOne(rows, id);
      CountWhereZero(rows, IdIs(id));
      DeleteWhereKeeps(rows, IdIs(id));
      DeleteKeepsValid(rows, nextId, clock, IdIs(id));
      if CountWhere(rows, IdIs(id)) == 0 {
        DeleteNothing(rows, IdIs(id));
      }
      changes := |rows| - |remaining|;
      rows := remaining;
    }

    /** deleteCompletedTodos: removes exactly the completed rows, keeping the others in order, and counts them. */
    method DeleteCompletedTodos() returns (changes: nat)
      requires Valid()
      modifies this
      ensures Valid()
      ensures rows == DeleteWhere(old(rows), IsCompleted)
      ensures changes == CountWhere(old(rows), IsCompleted)
      ensures forall t :: t in rows <==> t in old(rows) && !t.completed
      ensures changes == 0 <==> rows == old(rows)
      ensures nextId == old(nextId) && clock == old(clock)
    {
      var remaining := DeleteWhere(rows, IsCompleted);
      DeleteWhereCount(rows, IsCompleted);
      DeleteKeepsValid(rows, nextId, clock, IsCompleted);
      DeleteWhereKeeps(rows, IsCompleted);
      if CountWhere(rows, IsCompleted) == 0 {
        DeleteNothing(rows, IsCompleted);
      }
      changes := |rows| - |remaining|;
      rows := remaining;
    }
  }
}
