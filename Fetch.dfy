/**
 * What the browser's fetch API hands back to the frontend: a response whose
 * status decides `ok`, or a rejected promise. JSON bodies are JavaScript values.
 */
module Fetch {
  import opened Wrappers

  /** A JavaScript value as produced by JSON.parse, plus `undefined`. */
  datatype JsValue =
    | Undefined
    | Null
    | Bool(b: bool)
    | Num(n: int)
    | Str(s: string)
    | Arr(items: seq<JsValue>)
    | Obj(fields: map<string, JsValue>)

  /** JavaScript truthiness (numbers are integers here, so NaN does not arise). */
  predicate Truthy(v: JsValue) {
    match v
    case Undefined => false
    case Null => false
    case Bool(b) => b
    case Num(n) => n != 0
    case Str(s) => s != ""
    case Arr(_) => true
    case Obj(_) => true
  }

  /** Property access `v.name`; None when the access throws (on null or undefined). */
  function Property(v: JsValue, name: string): (r: Option<JsValue>)
    ensures r.None? <==> v.Null? || v.Undefined?
    ensures v.Obj? && name in v.fields ==> r == Some(v.fields[name])
    ensures r.Some? && !(v.Obj? && name in v.fields) ==> r.value == Undefined
  {
    match v
    case Undefined => None
    case Null => None
    case Obj(fields) => if name in fields then Some(fields[name]) else Some(Undefined)
    case _ => Some(Undefined)
  }

  /** The body as `res.json()` reads it: parsed, or the promise rejects. */
  datatype Body = Json(value: JsValue) | NotJson

  datatype Response = Response(status: int, body: Body)

  /** The outcome of an awaited fetch: a response, or a thrown network error. */
  datatype Outcome = Resolved(response: Response) | Rejected

  /** `Response.ok`: the status is in the range 200-299. */
  predicate Ok(status: int) {
    200 <= status <= 299
  }
}
