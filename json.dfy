/** Values produced by `JSON.parse` and passed between the extension's contexts as messages. */
module Json {
  import opened Wrappers
  import opened Text

  datatype Json =
    | JNull
    | JBool(b: bool)
    | JNum(n: real)
    | JStr(s: string)
    | JArr(items: seq<Json>)
    | JObj(fields: map<string, Json>)

  /** JavaScript truthiness of a parsed value (JSON has no NaN, so a number is falsy only when it is zero). */
  predicate Truthy(v: Json) {
    match v
    case JNull => false
    case JBool(b) => b
    case JNum(n) => n != 0.0
    case JStr(s) => s != []
    case JArr(_) => true
    case JObj(_) => true
  }

  /** `v[name]` on a value that is not `null`: the field of an object, `undefined` (`None`) otherwise. */
  function Get(v: Json, name: string): Option<Json> {
    match v
    case JObj(fields) => if name in fields then Some(fields[name]) else None
    case _ => None
  }

  /** `v[name]` is truthy. */
  predicate HasTruthy(v: Json, name: string) {
    Get(v, name).Some? && Truthy(Get(v, name).value)
  }

  /** `String(v)` where the source coerces a value to a string (a property key, an argument of
      `includes` or `split`, a `textContent`), for the values the model renders: strings,
      booleans, and integral numbers below 10^21 in magnitude, which JavaScript writes in plain
      decimal. Other values give `None`. */
  function ToJsString(v: Json): (r: Option<string>)
    ensures Truthy(v) && r.Some? ==> r.value != []
  {
    match v
    case JStr(s) => Some(s)
    case JBool(b) => Some(if b then "true" else "false")
    case JNum(n) =>
      if n.Floor as real == n && -1000000000000000000000.0 < n < 1000000000000000000000.0
      then Some(IntToString(n.Floor)) else None
    case _ => None
  }
}
