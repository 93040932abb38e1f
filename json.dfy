/** Parsed JSON values as the front end receives them from `response.json()`
    or `JSON.parse`, and the record fields it reads from a student entry. */
module Json {
  import opened Wrappers

  /** Numbers are integers here; objects map each key to its value. */
  datatype JsonValue =
    | JNull
    | JBool(b: bool)
    | JNumber(n: int)
    | JString(s: string)
    | JArray(items: seq<JsonValue>)
    | JObject(fields: map<string, JsonValue>)

  /** JavaScript truthiness: null, false, 0 and the empty string are falsy. */
  predicate Truthy(v: JsonValue)
  {
    match v
    case JNull => false
    case JBool(b) => b
    case JNumber(n) => n != 0
    case JString(s) => s != ""
    case _ => true
  }

  /** `v[key]` for an object; `undefined` (None) for every other value and for a
      key the object lacks. */
  function Field(v: JsonValue, key: string): (r: Option<JsonValue>)
    ensures r.Some? <==> v.JObject? && key in v.fields
    ensures r.Some? ==> r.value == v.fields[key]
  {
    if v.JObject? && key in v.fields then Some(v.fields[key]) else None
  }

  /** `Array.isArray(v[key])`, giving the array's items when it holds. */
  function ArrayField(v: JsonValue, key: string): (r: Option<seq<JsonValue>>)
    ensures r.Some? <==> v.JObject? && key in v.fields && v.fields[key].JArray?
    ensures r.Some? ==> JArray(r.value) == v.fields[key]
  {
    match Field(v, key)
    case Some(JArray(items)) => Some(items)
    case _ => None
  }

  /** A string-valued field of a record; a missing, null or non-string field
      reads as absent. */
  function TextField(v: JsonValue, key: string): (r: Option<string>)
    ensures r.Some? <==> v.JObject? && key in v.fields && v.fields[key].JString?
    ensures r.Some? ==> JString(r.value) == v.fields[key]
  {
    match Field(v, key)
    case Some(JString(s)) => Some(s)
    case _ => None
  }
}
