/** JSON values as `JSON.parse` produces them and `JSON.stringify` consumes them,
    and the one operation the front end performs on them: reading a property. */
module Json {
  import opened Wrappers
  import opened JsNumber

  /** A JSON value. Objects are maps from member name to value (`JSON.parse` keeps
      the last of duplicated names). `JNum(NonFinite)` never comes out of a parse. */
  datatype Json =
    | JNull
    | JBool(b: bool)
    | JNum(n: Number)
    | JStr(s: string)
    | JArr(items: seq<Json>)
    | JObj(fields: map<string, Json>)

  /** The result of a property read that did not throw. */
  datatype Property = Undefined | Defined(value: Json)

  /** `v[key]` for a key that names no built-in property of strings, arrays or
      objects (true of every key this front end reads). Reading a property of
      `null` throws a TypeError, given here as `None`. */
  function GetProperty(v: Json, key: string): (r: Option<Property>)
    ensures r.None? <==> v.JNull?
    ensures r == Some(Undefined) <==> !v.JNull? && !(v.JObj? && key in v.fields)
    ensures v.JObj? && key in v.fields ==> r == Some(Defined(v.fields[key]))
  {
    match v
    case JNull => None
    case JObj(fields) => Some(if key in fields then Defined(fields[key]) else Undefined)
    case _ => Some(Undefined)
  }
}
