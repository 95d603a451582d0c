/** The parsed JSON value of a network's data file, as far as the resolver
    looks into it (serde_json's `Value`, its `Index` and `as_*` accessors). */
module Json {
  import opened Wrappers

  datatype Json =
    | Null
    | Bool(b: bool)
    | Number(n: int)
    | Str(s: string)
    | Arr(items: seq<Json>)
    | Obj(fields: map<string, Json>)

  /** `value[key]`: the member `key` of an object, and `Null` when the key is
      missing or the value is not an object at all. */
  function Index(v: Json, key: string): Json
  {
    if v.Obj? && key in v.fields then v.fields[key] else Null
  }

  /** `as_str`. */
  function AsStr(v: Json): Option<string>
  {
    if v.Str? then Some(v.s) else None
  }

  /** `as_array`. */
  function AsArray(v: Json): Option<seq<Json>>
  {
    if v.Arr? then Some(v.items) else None
  }
}
