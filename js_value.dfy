/**
  The values `JSON.parse` produces, with the two JavaScript operations the program applies
  to them without checking their shape: truthiness (`||`, `!`) and property reads (`x.key`).
 */
module JsValue {

  datatype Option<+T> = None | Some(value: T)

  datatype Result<+T, +E> = Ok(value: T) | Err(error: E)

  /** A JSON value. An object's duplicate keys are already resolved (the last one wins). */
  datatype Json =
    | JNull
    | JBool(b: bool)
    | JNumber(n: real)
    | JString(s: string)
    | JArray(elems: seq<Json>)
    | JObject(fields: map<string, Json>)

  /** JavaScript truthiness of a property's value; `None` is `undefined`.
      `null`, `false`, `0` and `""` are falsy; every array and object is truthy. */
  predicate Truthy(v: Option<Json>) {
    match v
    case None => false
    case Some(JNull) => false
    case Some(JBool(b)) => b
    case Some(JNumber(n)) => n != 0.0
    case Some(JString(s)) => s != ""
    case Some(JArray(_)) => true
    case Some(JObject(_)) => true
  }

  /** `x || d`: the value itself when it is truthy, the default otherwise. */
  function OrDefault(v: Option<Json>, d: Json): (r: Json)
    ensures Truthy(v) ==> Some(r) == v
    ensures !Truthy(v) ==> r == d
  {
    if Truthy(v) then v.value else d
  }

  /** `x.key` on a parsed value: reading a property of `null` throws a TypeError (`Err`);
      an object yields its own field or `undefined`; every other JSON value has none of the
      property names the program reads, so it yields `undefined`. */
  function Property(x: Json, key: string): (r: Result<Option<Json>, ()>)
    ensures r.Err? <==> x == JNull
    ensures r.Ok? && r.value.Some? ==> x.JObject? && key in x.fields && r.value.value == x.fields[key]
    ensures x.JObject? && key in x.fields ==> r == Ok(Some(x.fields[key]))
  {
    match x
    case JNull => Err(())
    case JObject(m) => if key in m then Ok(Some(m[key])) else Ok(None)
    case _ => Ok(None)
  }
}
