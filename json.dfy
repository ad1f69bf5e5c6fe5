/** JSON values as the API handlers receive them in request bodies and from `JSON.parse`,
    with JavaScript's notion of truthiness. */
module Json {
  import opened Seqs

  datatype Json =
    | JNull
    | JBool(b: bool)
    | JNumber(n: real)
    | JString(s: string)
    | JArray(items: seq<Json>)
    | JObject(fields: map<string, Json>)

  /** Whether a value counts as true in a JavaScript condition; `undefined` is `None`. */
  predicate Truthy(v: Option<Json>)
  {
    match v
    case None => false
    case Some(JNull) => false
    case Some(JBool(b)) => b
    case Some(JNumber(n)) => n != 0.0
    case Some(JString(s)) => s != ""
    case Some(_) => true
  }

  /** `v[name]` for a property name: defined only on objects that have that property. */
  function Property(v: Json, name: string): (r: Option<Json>)
    ensures r.Some? <==> v.JObject? && name in v.fields
  {
    if v.JObject? && name in v.fields then Some(v.fields[name]) else None
  }

  /** `typeof v === 'string'`, giving the string. */
  function AsString(v: Option<Json>): (r: Option<string>)
    ensures r.Some? <==> v.Some? && v.value.JString?
  {
    if v.Some? && v.value.JString? then Some(v.value.s) else None
  }
}
