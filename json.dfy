/**
 * The dynamically typed JSON value that flows through the whole backend
 * (`serde_json::Value`), and the accessors the backend calls on it.
 * Numbers are integers; `as_i64` is an explicit range check.
 */
module Json {
  import opened Wrappers

  datatype Value =
    | Null
    | Bool(b: bool)
    | Num(n: int)
    | Str(s: string)
    | Arr(items: seq<Value>)
    | Obj(fields: map<string, Value>)

  const I64Min: int := -0x8000_0000_0000_0000
  const I64Max: int := 0x7FFF_FFFF_FFFF_FFFF

  predicate InI64(n: int) {
    I64Min <= n <= I64Max
  }

  /** `Value::get(key)`: the field of an object, nothing for any other value. */
  function Get(v: Value, key: string): (r: Option<Value>)
    ensures r.Some? <==> v.Obj? && key in v.fields
    ensures r.Some? ==> r.value == v.fields[key]
  {
    if v.Obj? && key in v.fields then Some(v.fields[key]) else None
  }

  /** `Value::as_str`. */
  function AsStr(v: Option<Value>): (r: Option<string>)
    ensures r.Some? <==> v.Some? && v.value.Str?
    ensures r.Some? ==> r.value == v.value.s
  {
    if v.Some? && v.value.Str? then Some(v.value.s) else None
  }

  /** `Value::as_i64`: integers that fit in 64 signed bits. */
  function AsI64(v: Option<Value>): (r: Option<int>)
    ensures r.Some? <==> v.Some? && v.value.Num? && InI64(v.value.n)
    ensures r.Some? ==> r.value == v.value.n
  {
    if v.Some? && v.value.Num? && InI64(v.value.n) then Some(v.value.n) else None
  }

  /** `Value::as_bool`. */
  function AsBool(v: Option<Value>): (r: Option<bool>)
    ensures r.Some? <==> v.Some? && v.value.Bool?
    ensures r.Some? ==> r.value == v.value.b
  {
    if v.Some? && v.value.Bool? then Some(v.value.b) else None
  }

  /** A string field of an object, as `row.get(k).and_then(as_str)` reads it. */
  function StrField(v: Value, key: string): (r: Option<string>)
    ensures r.Some? <==> v.Obj? && key in v.fields && v.fields[key].Str?
    ensures r.Some? ==> r.value == v.fields[key].s
  {
    AsStr(Get(v, key))
  }
}
