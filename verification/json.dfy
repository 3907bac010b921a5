/** A small stand-in for `serde_json::Value` and the lenient accessors the
    configuration loader uses (`value["key"]`, `as_u64`, `as_str`, `as_array`). */
module Json {
  import opened Wrappers

  /** A JSON value. Integer literals keep their value; non-integral numbers are
      all `JFloat`, since nothing in the linter reads them. Object keys are unique,
      as in `serde_json::Map`. */
  datatype JsonValue =
    | JNull
    | JBool(b: bool)
    | JInt(i: int)
    | JFloat
    | JStr(s: string)
    | JArr(items: seq<JsonValue>)
    | JObj(fields: map<string, JsonValue>)

  /** One more than the largest `u64`. */
  const U64_LIMIT: int := 0x1_0000_0000_0000_0000

  /** `value[key]`: the field when `v` is an object that has it, `Null` otherwise (never a panic). */
  function Get(v: JsonValue, key: string): (r: JsonValue)
    ensures r != JNull ==> v.JObj? && key in v.fields
  {
    if v.JObj? && key in v.fields then v.fields[key] else JNull
  }

  /** `Value::as_u64`: only a non-negative integer that fits in 64 bits. */
  function AsU64(v: JsonValue): (r: Option<nat>)
    ensures r.Some? <==> v.JInt? && 0 <= v.i < U64_LIMIT
    ensures r.Some? ==> r.value == v.i
  {
    if v.JInt? && 0 <= v.i < U64_LIMIT then Some(v.i) else None
  }

  /** `Value::as_str`. */
  function AsStr(v: JsonValue): (r: Option<string>)
    ensures r.Some? <==> v.JStr?
  {
    if v.JStr? then Some(v.s) else None
  }

  /** `Value::as_array`. */
  function AsArray(v: JsonValue): (r: Option<seq<JsonValue>>)
    ensures r.Some? <==> v.JArr?
  {
    if v.JArr? then Some(v.items) else None
  }
}
