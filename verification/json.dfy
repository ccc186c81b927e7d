/** A small model of `serde_json::Value` and of the serde conversions the
    server relies on.

    Numbers are integers only (floating point is not modelled). Converting
    a value to and from text is left uninterpreted: `Text` bundles the two
    directions, and `Faithful` states the one law the properties need. The
    typed conversions of the few Rust types whose serde behaviour matters
    here (`()`, `String`, `u32`) are written out. */
module Json {
  import opened Base

  datatype Value =
    | Null
    | Bool(b: bool)
    | Number(n: int)
    | String(str: string)
    | Array(items: seq<Value>)
    | Object(fields: map<string, Value>)

  /** `value[key]` on a shared value: the field of an object, or `Null`
      when the key is absent or the value is not an object. */
  function Index(v: Value, key: string): (r: Value)
    ensures v.Object? && key in v.fields ==> r == v.fields[key]
    ensures !(v.Object? && key in v.fields) ==> r == Null
  {
    match v
    case Object(fields) => if key in fields then fields[key] else Null
    case _ => Null
  }

  /** `Value::as_str`. */
  function AsStr(v: Value): (r: Option<string>)
    ensures r.Some? <==> v.String?
    ensures r.Some? ==> r.value == v.str
  {
    match v
    case String(s) => Some(s)
    case _ => None
  }

  /** `serde_json::to_string` on a `Value` (total: map keys are strings)
      and `serde_json::from_str::<Value>` (partial). */
  datatype Text = Text(render: Value -> string, parse: string -> Option<Value>)

  /** Parsing printed text gives the value back. */
  ghost predicate Faithful(t: Text) {
    forall v :: t.parse(t.render(v)) == Some(v)
  }

  /** serde for `()`: serialises to `null` and deserialises only from `null`. */
  function EncodeUnit(u: Unit): (v: Value)
    ensures v == Null
  {
    Null
  }

  function DecodeUnit(v: Value): (r: Option<Unit>)
    ensures r.Some? <==> v == Null
  {
    if v == Null then Some(Unit) else None
  }

  /** serde for `String`: a JSON string and nothing else. */
  function EncodeString(s: string): (v: Value)
    ensures v.String? && v.str == s
  {
    String(s)
  }

  function DecodeString(v: Value): (r: Option<string>)
    ensures r == AsStr(v)
  {
    AsStr(v)
  }

  /** serde for `u32`: an integer in range; anything else fails. */
  function EncodeU32(n: U32): (v: Value)
    ensures v.Number? && v.n == n
  {
    Number(n)
  }

  function DecodeU32(v: Value): (r: Option<U32>)
    ensures r.Some? <==> v.Number? && 0 <= v.n < U32_LIMIT
    ensures r.Some? ==> r.value == v.n
  {
    if v.Number? && 0 <= v.n < U32_LIMIT then Some(v.n) else None
  }

  /** The three typed conversions invert one another. */
  lemma PrimitiveRoundTrips(u: Unit, s: string, n: U32)
    ensures DecodeUnit(EncodeUnit(u)) == Some(u)
    ensures DecodeString(EncodeString(s)) == Some(s)
    ensures DecodeU32(EncodeU32(n)) == Some(n)
  {
  }
}
