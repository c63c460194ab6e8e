/** serde_json's `Value`, with the accessors the cache subsystem uses, and an
    abstract text codec standing for `serde_json::to_string` / `from_str`. */
module JsonValue {
  import opened Wrappers
  import opened Decimal

  /** A JSON number: an integer (serde_json's `PosInt`/`NegInt`), or any other
      number, kept as its text. */
  datatype Number = Int(i: int) | Float(text: string)

  /** `serde_json::Value`. Objects are maps: serde_json's default `Map` is a
      `BTreeMap`, so the member order of an object is always its key order
      and carries no information of its own. */
  datatype Json =
    | Null
    | Bool(b: bool)
    | Num(n: Number)
    | Str(s: string)
    | Arr(items: seq<Json>)
    | Obj(members: map<string, Json>)

  /** `Value::get(key)`: the member of an object, `None` for a missing key or
      a value that is not an object. */
  function Get(v: Json, key: string): (r: Option<Json>)
    ensures r.Some? <==> v.Obj? && key in v.members
    ensures r.Some? ==> r.value == v.members[key]
  {
    if v.Obj? && key in v.members then Some(v.members[key]) else None
  }

  /** `value[key]` (the `Index` impl): like `Get`, but `Null` when absent. */
  function Index(v: Json, key: string): (r: Json)
    ensures Get(v, key).Some? ==> r == Get(v, key).value
    ensures Get(v, key).None? ==> r == Null
  {
    Get(v, key).GetOr(Null)
  }

  /** `Value::as_str`. */
  function AsStr(v: Json): (r: Option<string>)
    ensures r.Some? <==> v.Str?
    ensures r.Some? ==> r.value == v.s
  {
    if v.Str? then Some(v.s) else None
  }

  /** `Value::as_u64`: an integer in `0 ..= u64::MAX`. */
  function AsU64(v: Json): (r: Option<int>)
    ensures r.Some? <==> v.Num? && v.n.Int? && 0 <= v.n.i <= U64Max
    ensures r.Some? ==> r.value == v.n.i
  {
    if v.Num? && v.n.Int? && 0 <= v.n.i <= U64Max then Some(v.n.i) else None
  }

  /** `Value::as_i64`: an integer in the `i64` range. */
  function AsI64(v: Json): (r: Option<int>)
    ensures r.Some? <==> v.Num? && v.n.Int? && I64Min <= v.n.i <= I64Max
    ensures r.Some? ==> r.value == v.n.i
  {
    if v.Num? && v.n.Int? && I64Min <= v.n.i <= I64Max then Some(v.n.i) else None
  }

  /** A JSON integer value. */
  function IntValue(i: int): Json {
    Num(Int(i))
  }

  /** Text serialisation and parsing of JSON values (`serde_json::to_string`
      and `serde_json::from_str::<Value>`); parsing fails with `None`. */
  datatype Codec = Codec(serialize: Json -> string, parse: string -> Option<Json>)

  /** Parsing the text of a serialised value gives the value back: the
      property serde_json's printer and parser are built to have. */
  ghost predicate RoundTrips(c: Codec) {
    forall v :: c.parse(c.serialize(v)) == Some(v)
  }
}
