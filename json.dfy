/**
 * The JSON values that travel through the proxy, together with the two
 * pieces of Python semantics the source applies to them: truthiness
 * (`if value:`) and `str()` (used by f-strings).
 */
module Json {
  import Strings

  /** A value produced by `json.loads`: `null`, booleans, integers, strings, lists and objects. */
  datatype Value =
    | Null
    | Bool(b: bool)
    | Int(i: int)
    | Str(s: string)
    | List(items: seq<Value>)
    | Object(fields: Record)

  /** A JSON object, i.e. a Python `dict` with string keys: the shape of every log record. */
  type Record = map<string, Value>

  /** Python's `bool(value)`: `None`, `False`, `0`, `""`, `[]` and `{}` are false. */
  predicate Truthy(v: Value) {
    match v
    case Null => false
    case Bool(b) => b
    case Int(i) => i != 0
    case Str(s) => s != ""
    case List(items) => items != []
    case Object(fields) => fields != map[]
  }

  /** Python's `str(value)` for the scalar kinds; lists and dicts are only abbreviated. */
  function Show(v: Value): string {
    match v
    case Null => "None"
    case Bool(b) => if b then "True" else "False"
    case Int(i) => Strings.IntToString(i)
    case Str(s) => s
    case List(_) => "[...]"
    case Object(_) => "{...}"
  }

  /** `dict.get(key, default)` on a record. */
  function Get(r: Record, key: string, default: Value): Value {
    if key in r then r[key] else default
  }
}
