/**
 * The decoded JSON values the pipeline reads back from the parser model, and
 * the two Python operations applied to them: truthiness and `dict.get`.
 */
module JsonValue {

  /**
   * A decoded JSON value. `JNull` is also what `dict.get` yields for a missing
   * key (Python's `None`). Lists, nested objects and fractional numbers are
   * only ever tested for truthiness here, so `JOther` keeps just that.
   */
  datatype Json =
    | JNull
    | JBool(b: bool)
    | JInt(i: int)
    | JString(s: string)
    | JOther(truthy: bool)

  /** Python truthiness: `None`, `False`, `0` and `""` are false. */
  predicate Truthy(j: Json) {
    match j
    case JNull => false
    case JBool(b) => b
    case JInt(i) => i != 0
    case JString(s) => s != []
    case JOther(t) => t
  }

  /** `obj.get(key, default)`. */
  function Get(obj: map<string, Json>, key: string, default: Json): (v: Json)
    ensures key in obj ==> v == obj[key]
    ensures key !in obj ==> v == default
  {
    if key in obj then obj[key] else default
  }
}
