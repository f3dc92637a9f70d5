/** The values `json.loads` produces, and Python's `str()` of them. Parsing
    and serialising themselves are not modelled: they are passed in where
    needed. */
module Json {

  /** A JSON number without a fraction or exponent loads as a Python
      `int`, any other as a `float`; the two print differently (`4` and
      `4.0`), so they are kept apart. A float is a finite real: NaN, the
      infinities and -0.0 are not represented. An object's keys are a
      map: the insertion order a Python dict keeps is not represented. */
  datatype Json =
    | JNull
    | JBool(b: bool)
    | JInt(i: int)
    | JFloat(f: real)
    | JString(s: string)
    | JArray(items: seq<Json>)
    | JObject(fields: map<string, Json>)

  /** A parsed JSON object, Python's `dict` with string keys. */
  type JsonObject = map<string, Json>

  /** `str(v)`: a string is itself; `true`, `false` and `null` print as
      `True`, `False` and `None`; numbers, lists and dicts print through
      Python's repr, which `repr` stands for. */
  function PyStr(v: Json, repr: Json -> string): string {
    match v
    case JString(s) => s
    case JBool(b) => if b then "True" else "False"
    case JNull => "None"
    case _ => repr(v)
  }
}
