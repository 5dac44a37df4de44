/** The JavaScript values the two handlers inspect: decoded JSON request
    bodies, object properties that may be absent, and the `null`/`undefined`
    pair that Supabase replies and `Array.prototype.pop` produce. */
module Js {

  datatype Option<+T> = None | Some(value: T)

  /** A JSON document as `JSON.parse` returns it (numbers kept as integers). */
  datatype Json =
    | JNull
    | JBool(b: bool)
    | JNumber(n: int)
    | JString(s: string)
    | JArray(items: seq<Json>)
    | JObject(fields: map<string, Json>)

  /** The value of a property read from a decoded body: `undefined` when the
      object has no such property. */
  datatype Property = Absent | Present(json: Json)

  /** A value that may be `undefined` or `null`, such as the `data` and
      `error` fields of a Supabase reply. */
  datatype Nullish<+T> = Undefined | Null | Val(value: T)

  /** `p === null` */
  predicate IsNull(p: Property) {
    p == Present(JNull)
  }

  /** `typeof p === 'string'` */
  predicate IsString(p: Property) {
    p.Present? && p.json.JString?
  }
}
