/** The values Python's `json.loads` produces, as far as the analysis task
    looks at them. */
module Json {

  /** A decoded JSON document. Objects decode to a Python `dict`, in which a
      repeated key keeps its last value, so a map is an exact model; integers
      and non-integral numbers decode to different Python types (`int` and
      `float`), so they are kept apart. */
  datatype JsonValue =
    | JNull
    | JBool(b: bool)
    | JInt(i: int)
    | JFloat(literal: string)
    | JString(s: string)
    | JArray(items: seq<JsonValue>)
    | JObject(fields: map<string, JsonValue>)

  /** The name of the Python type a decoded value has, as it appears in the
      message of an `AttributeError` raised on that value. */
  function PythonTypeName(v: JsonValue): (name: string)
    ensures name == "dict" <==> v.JObject?
  {
    match v
    case JNull => "NoneType"
    case JBool(_) => "bool"
    case JInt(_) => "int"
    case JFloat(_) => "float"
    case JString(_) => "str"
    case JArray(_) => "list"
    case JObject(_) => "dict"
  }

  /** Python's `dict.get(key, default)`: the stored value when the key is
      present, even when that value is `null`; the default otherwise. */
  function Get(fields: map<string, JsonValue>, key: string, default: JsonValue): (v: JsonValue)
    ensures key in fields ==> v == fields[key]
    ensures key !in fields ==> v == default
  {
    if key in fields then fields[key] else default
  }
}
