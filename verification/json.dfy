/** Untyped JSON as an HTTP client hands it over (`response.data`). Numbers
    are integers here: every number the pages inspect is an id or an order. */
module Json {
  import opened Optional

  datatype Value =
    | Null
    | Bool(b: bool)
    | Number(n: int)
    | Str(s: string)
    | Array(items: seq<Value>)
    | Object(fields: map<string, Value>)

  /** `value.key`: `None` for a missing member, and for anything that is not
      an object (where JavaScript also yields `undefined`). */
  function Member(v: Value, key: string): (r: Option<Value>)
    ensures r.Some? <==> v.Object? && key in v.fields
    ensures r.Some? ==> r.value == v.fields[key]
  {
    if v.Object? && key in v.fields then Some(v.fields[key]) else None
  }

  predicate IsString(o: Option<Value>) {
    o.Some? && o.value.Str?
  }
}
