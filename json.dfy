/** The values `JSON.parse` can produce, and the two JavaScript operations the
    reply parser applies to them: property access and truthiness. Parsing
    itself is not modelled; its outcome is an input of the parser. */
module Json {
  import opened Wrappers

  /** A parsed JSON value. A number is held as the exact value of the double
      `JSON.parse` produced; -0 and 0 are the same here, and both are falsy. */
  datatype Json =
    | JNull
    | JBool(b: bool)
    | JNumber(n: real)
    | JString(s: string)
    | JArray(items: seq<Json>)
    | JObject(fields: map<string, Json>)

  /** JavaScript truthiness: `null`, `false`, `0` and `""` are falsy, every
      other JSON value (including `[]` and `{}`) is truthy. */
  predicate Truthy(v: Json) {
    match v
    case JNull => false
    case JBool(b) => b
    case JNumber(n) => n != 0.0
    case JString(s) => s != ""
    case JArray(_) => true
    case JObject(_) => true
  }

  /** `v[key]` on a non-null value: the member of an object, `undefined`
      (None) for a missing member and for every non-object, none of which
      has own or inherited properties named like the reply's fields. */
  function Member(v: Json, key: string): Option<Json>
    requires v != JNull
  {
    if v.JObject? && key in v.fields then Some(v.fields[key]) else None
  }

  /** `x || d`: `x` when it is defined and truthy, otherwise `d`. */
  function OrElse(x: Option<Json>, d: Json): Json {
    if x.Some? && Truthy(x.value) then x.value else d
  }
}
