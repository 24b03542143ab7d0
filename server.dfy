/**
 * The decisions inside the route handlers of `createApp`: for each route, the
 * settled outcome of the service calls it awaits becomes a status code and a
 * JSON body. Routing, body parsing and the sockets are not modelled.
 */
module Server {
  import opened Wrappers
  import opened JsString
  import opened JsValue
  import opened Service

  /** The JSON bodies the routes send; `NoBody` is `res.json(undefined)`. */
  datatype Body =
    | TodoJson(todo: Todo)
    | TodoListJson(todos: seq<Todo>)
    | ErrorJson(error: string)
    | MessageJson(message: string)
    | DeletedJson(message: string, deletedCount: nat)
    | NoBody

  datatype Response = Response(status: nat, body: Body)

  const NotFound: Response := Response(404, ErrorJson("Todo not found"))

  /** The messages the POST route treats as the client's fault. */
  const CreateRejections: set<string> := {"Text is required"}

  /** The messages the PUT route treats as the client's fault. */
  const UpdateRejections: set<string> := {"No fields to update", "Text cannot be empty"}

  /** A catch block: the message goes back verbatim, with 400 when the route lists it and 500 otherwise. */
  function Caught(e: Error, clientErrors: set<string>): Response {
    Response(if Message(e) in clientErrors then 400 else 500, ErrorJson(Message(e)))
  }

  /** True when the response is a catch block's answer to `e`. */
  predicate Reports(r: Response, e: Error) {
    r.status in {400, 500} && r.body == ErrorJson(Message(e))
  }

  /** GET /api/todos */
  function ListRoute(all: Result<seq<Todo>, Error>): (r: Response)
    ensures r.status == 200 <==> all.Ok?
    ensures all.Ok? ==> r.body == TodoListJson(all.value)
    ensures all.Err? ==> r.status == 500 && Reports(r, all.error)
  {
    match all
    case Ok(todos) => Response(200, TodoListJson(todos))
    case Err(e) => Caught(e, {})
  }

  /** GET /api/todos/:id: an absent row is a 404, not an error. */
  function GetRoute(found: Result<Option<Todo>, Error>): (r: Response)
    ensures r.status == 200 <==> found.Ok? && found.value.Some?
    ensures r == NotFound <==> found == Ok(None)
    ensures r.status == 200 ==> r.body == TodoJson(found.value.value)
    ensures found.Err? ==> r.status == 500 && Reports(r, found.error)
  {
    match found
    case Ok(None) => NotFound
    case Ok(Some(t)) => Response(200, TodoJson(t))
    case Err(e) => Caught(e, {})
  }

  /** POST /api/todos: `created` is createTodo's outcome, `fetched` the re-read of the new id. */
  function CreateRoute(created: Result<int, Error>, fetched: Result<Option<Todo>, Error>): (r: Response)
    ensures r.status == 201 <==> created.Ok? && fetched.Ok?
    ensures r.status == 201 && fetched.value.Some? ==> r.body == TodoJson(fetched.value.value)
    ensures created.Err? ==> Reports(r, created.error)
    ensures created.Err? ==> (r.status == 400 <==> Message(created.error) == "Text is required")
    ensures created.Ok? && fetched.Err? ==> Reports(r, fetched.error)
    ensures created.Ok? && fetched.Err? ==> (r.status == 400 <==> Message(fetched.error) in CreateRejections)
    ensures created.Ok? && fetched == Ok(None) ==> r.body == NoBody
  {
    match created
    case Err(e) => Caught(e, CreateRejections)
    case Ok(_) =>
      match fetched
      case Err(e) => Caught(e, CreateRejections)
      case Ok(Some(t)) => Response(201, TodoJson(t))
      case Ok(None) => Response(201, NoBody)
  }

  /** PUT /api/todos/:id: `changes` is updateTodo's outcome, `fetched` the re-read after a change. */
  function UpdateRoute(changes: Result<nat, Error>, fetched: Result<Option<Todo>, Error>): (r: Response)
    ensures r == NotFound <==> changes == Ok(0)
    ensures r.status == 200 <==> changes.Ok? && changes.value != 0 && fetched.Ok?
    ensures r.status == 200 && fetched.value.Some? ==> r.body == TodoJson(fetched.value.value)
    ensures changes.Err? ==> Reports(r, changes.error)
    ensures changes.Err? ==> (r.status == 400 <==> Message(changes.error) in UpdateRejections)
    ensures changes.Ok? && changes.value != 0 && fetched.Err? ==>
              Reports(r, fetched.error) && (r.status == 400 <==> Message(fetched.error) in UpdateRejections)
    ensures changes.Ok? && changes.value != 0 && fetched == Ok(None) ==> r.body == NoBody
  {
    match changes
    case Err(e) => Caught(e, UpdateRejections)
    case Ok(n) =>
      if n == 0 then NotFound
      else
        match fetched
        case Err(e) => Caught(e, UpdateRejections)
        case Ok(Some(t)) => Response(200, TodoJson(t))
        case Ok(None) => Response(200, NoBody)
  }

  /** DELETE /api/todos/:id */
  function DeleteRoute(changes: Result<nat, Error>): (r: Response)
    ensures r == NotFound <==> changes == Ok(0)
    ensures r.status == 200 <==> changes.Ok? && changes.value != 0
    ensures r.status == 200 ==> r.body == MessageJson("Todo deleted successfully")
    ensures changes.Err? ==> r.status == 500 && Reports(r, changes.error)
  {
    match changes
    case Err(e) => Caught(e, {})
    case Ok(n) => if n == 0 then NotFound else Response(200, MessageJson("Todo deleted successfully"))
  }

  /** DELETE /api/todos/completed/all: always 200 on success, whatever the count. */
  function DeleteCompletedRoute(deleted: Result<nat, Error>): (r: Response)
    ensures r.status == 200 <==> deleted.Ok?
    ensures deleted.Ok? ==> r.body.DeletedJson? && r.body.deletedCount == deleted.value
    ensures deleted.Err? ==> r.status == 500 && Reports(r, deleted.error)
  {
    match deleted
    case Ok(n) => Response(200, DeletedJson(DecimalString(n) + " completed todos deleted successfully", n))
    case Err(e) => Caught(e, {})
  }

  /**
   * `const { text, completed } = req.body` passed on as `{ text, completed }`:
   * a member missing from the body stays absent in the patch, and other members
   * are dropped. A `text` that is not a string makes `text.trim()` throw inside
   * updateTodo; that case is `None` here.
   */
  function ForwardedPatch(body: map<string, Json>): (p: Option<Patch>)
    ensures p.Some? <==> ("text" in body ==> body["text"].JString?)
    ensures p.Some? ==> (p.value.text.Some? <==> "text" in body)
    ensures p.Some? && "text" in body ==> body["text"] == JString(p.value.text.value)
    ensures p.Some? ==> (p.value.completed.Some? <==> "completed" in body)
    ensures p.Some? && "completed" in body ==> p.value.completed.value == body["completed"]
  {
    if "text" in body && !body["text"].JString? then None
    else
      Some(Patch(if "text" in body then Some(body["text"].s) else None,
                 if "completed" in body then Some(body["completed"]) else None))
  }

  // ---------------------------------------------------------------------------
  // Decimal rendering of the deleted count, as a template literal does it.
  // ---------------------------------------------------------------------------

  predicate IsDigit(c: char) {
    '0' <= c <= '9'
  }

  predicate IsDigits(s: string) {
    forall i :: 0 <= i < |s| ==> IsDigit(s[i])
  }

  function DigitChar(d: nat): (c: char)
    requires d < 10
    ensures IsDigit(c)
  {
    ('0' as int + d) as char
  }

  function DigitValue(c: char): nat
    requires IsDigit(c)
  {
    c as int - '0' as int
  }

  /** `${n}` for a non-negative integer: its decimal digits, without leading zeros. */
  function DecimalString(n: nat): (s: string)
    ensures s != [] && IsDigits(s)
    ensures |s| > 1 ==> s[0] != '0'
  {
    if n < 10 then [DigitChar(n)] else DecimalString(n / 10) + [DigitChar(n % 10)]
  }

  /** The number a string of decimal digits denotes. */
  function ParseDecimal(s: string): nat
    requires IsDigits(s)
  {
    if s == [] then 0 else 10 * ParseDecimal(s[..|s| - 1]) + DigitValue(s[|s| - 1])
  }

  /** The longest run of digits at the start of a string. */
  function LeadingDigits(s: string): (r: string)
    ensures IsDigits(r) && r <= s
  {
    if s != [] && IsDigit(s[0]) then [s[0]] + LeadingDigits(s[1..]) else []
  }

  /** Reading back the decimal rendering gives the number. */
  lemma {:induction false} ParseDecimalString(n: nat)
    ensures ParseDecimal(DecimalString(n)) == n
  {
    if n >= 10 {
      ParseDecimalString(n / 10);
      var s := DecimalString(n);
      assert s[..|s| - 1] == DecimalString(n / 10);
    }
  }

  lemma {:induction false} LeadingDigitsOf(digits: string, rest: string)
    requires IsDigits(digits) && (rest == [] || !IsDigit(rest[0]))
    ensures LeadingDigits(digits + rest) == digits
  {
    if digits != [] {
      assert (digits + rest)[1..] == digits[1..] + rest;
      LeadingDigitsOf(digits[1..], rest);
    } else {
      assert digits + rest == rest;
    }
  }

  /** The bulk-delete message is the count it reports in `deletedCount`, in decimal, followed by " completed todos deleted successfully". */
  lemma DeleteCompletedMessageCount(n: nat)
    ensures var body := DeleteCompletedRoute(Ok(n)).body;
            ParseDecimal(LeadingDigits(body.message)) == body.deletedCount == n
    ensures var body := DeleteCompletedRoute(Ok(n)).body;
            body.message == LeadingDigits(body.message) + " completed todos deleted successfully"
    ensures LeadingDigits(DeleteCompletedRoute(Ok(n)).body.message) == DecimalString(n)
  {
    LeadingDigitsOf(DecimalString(n), " completed todos deleted successfully");
    ParseDecimalString(n);
  }

  // ---------------------------------------------------------------------------
  // The routes against the service's specification.
  // ---------------------------------------------------------------------------

  /** The service's validation errors are the client's (400); other errors are the server's (500), unless their message imitates a validation message. */
  lemma RoutesFollowErrorTaxonomy(e: Error, fetched: Result<Option<Todo>, Error>)
    requires e.Thrown? ==> e.message !in CreateRejections + UpdateRejections
    ensures CreateRoute(Err(e), fetched).status == (if e == TextRequired then 400 else 500)
    ensures UpdateRoute(Err(e), fetched).status == (if e == TextCannotBeEmpty || e == NoFieldsToUpdate then 400 else 500)
    ensures GetRoute(Err(e)).status == ListRoute(Err(e)).status == DeleteRoute(Err(e)).status
            == DeleteCompletedRoute(Err(e)).status == 500
  {
  }

  /** POST with text missing, empty or blank answers 400 "Text is required". */
  lemma CreateRouteRejectsBlank(text: Option<string>, nextId: int, fetched: Result<Option<Todo>, Error>)
    requires text.None? || IsBlank(text.value)
    ensures CreateRoute(CreateResult(text, nextId), fetched) == Response(400, ErrorJson("Text is required"))
  {
  }

  /** PUT with an empty body answers 400 "No fields to update", whether or not the id exists. */
  lemma UpdateRouteEmptyBody(rows: seq<Todo>, id: int, fetched: Result<Option<Todo>, Error>)
    ensures var p := ForwardedPatch(map[]);
            p.Some? && UpdateRoute(UpdateResult(rows, id, p.value), fetched) == Response(400, ErrorJson("No fields to update"))
  {
  }

  /** PUT with blank text answers 400 "Text cannot be empty", whatever else the body holds. */
  lemma UpdateRouteBlankText(rows: seq<Todo>, id: int, body: map<string, Json>, fetched: Result<Option<Todo>, Error>)
    requires "text" in body && body["text"].JString? && IsBlank(body["text"].s)
    ensures var p := ForwardedPatch(body);
            p.Some? && UpdateRoute(UpdateResult(rows, id, p.value), fetched) == Response(400, ErrorJson("Text cannot be empty"))
  {
  }

  /** PUT with an acceptable body on an id no row has answers 404. */
  lemma UpdateRouteMissingRow(rows: seq<Todo>, id: int, body: map<string, Json>, fetched: Result<Option<Todo>, Error>)
    requires forall t :: t in rows ==> t.id != id
    requires "text" in body ==> body["text"].JString? && !IsBlank(body["text"].s)
    requires "text" in body || "completed" in body
    ensures var p := ForwardedPatch(body);
            p.Some? && UpdateRoute(UpdateResult(rows, id, p.value), fetched) == NotFound
  {
  }

  /** DELETE of an existing id answers 200, and after it both DELETE and GET of that id answer 404. */
  lemma DeleteRouteThenNotFound(rows: seq<Todo>, id: int)
    requires exists t :: t in rows && t.id == id
    ensures DeleteRoute(Ok(CountWhere(rows, IdIs(id)))) == Response(200, MessageJson("Todo deleted successfully"))
    ensures var after := DeleteWhere(rows, IdIs(id));
            DeleteRoute(Ok(CountWhere(after, IdIs(id)))) == NotFound
            && GetRoute(Ok(FirstWhere(after, IdIs(id)))) == NotFound
  {
    CountWhereZero(rows, IdIs(id));
    DeleteWhereTwice(rows, IdIs(id));
    DeleteWhereKeeps(rows, IdIs(id));
  }
}
