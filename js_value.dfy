/** The JSON values that Express's body parser hands to the route handlers, and JavaScript truthiness. */
module JsValue {

  /** A parsed JSON value. Numbers are the exact reals the JSON text denotes, before any rounding to a double. */
  datatype Json =
    | JNull
    | JBool(b: bool)
    | JNumber(x: real)
    | JString(s: string)
    | JArray(items: seq<Json>)
    | JObject(fields: map<string, Json>)

  /** What `v ? 1 : 0` tests: null, false, 0 and "" are falsy, every other JSON value is truthy. */
  predicate Truthy(v: Json) {
    match v
    case JNull => false
    case JBool(b) => b
    case JNumber(x) => x != 0.0
    case JString(s) => s != []
    case JArray(_) => true
    case JObject(_) => true
  }
}
