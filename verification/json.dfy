/**
 * JSON values as the Python code sees them after `json.load` or an HTTP
 * response's `.json()`, together with the three dictionary idioms the code
 * leans on: `d.get(k)`, `d.get(k, default)` and the short-circuit `a or b`.
 * Floating-point numbers are not modelled.
 */
module Json {

  datatype Value =
    | Null
    | Bool(b: bool)
    | Int(i: int)
    | Str(s: string)
    | Arr(items: seq<Value>)
    | Obj(fields: map<string, Value>)

  /** A JSON object, i.e. a Python `dict` with string keys. */
  type Object = map<string, Value>

  /** Python truthiness: `None`, `False`, `0`, `""`, `[]` and `{}` are false. */
  predicate Truthy(v: Value) {
    match v
    case Null => false
    case Bool(b) => b
    case Int(i) => i != 0
    case Str(s) => s != ""
    case Arr(items) => items != []
    case Obj(fields) => fields != map[]
  }

  /** `d.get(k)`: the value under `k`, or `None`. */
  function Get(d: Object, k: string): Value {
    if k in d then d[k] else Null
  }

  /** `d.get(k, default)`. */
  function GetOr(d: Object, k: string, default: Value): Value {
    if k in d then d[k] else default
  }

  /** Python's `a or b`: the first operand when it is truthy, else the second. */
  function Or(a: Value, b: Value): Value {
    if Truthy(a) then a else b
  }

  /** `v or {}` where `v` is known to be an object or falsy. */
  function AsObject(v: Value): Object {
    if v.Obj? then v.fields else map[]
  }

  /** The text of a string value; other values have no text of their own here. */
  function AsText(v: Value): string {
    if v.Str? then v.s else ""
  }

  /** What `v or {}` may be dereferenced with `.get`: an object, or a falsy value. */
  predicate ObjectOrFalsy(v: Value) {
    !Truthy(v) || v.Obj?
  }

  /** What may be formatted and measured as text: a string, or a falsy value. */
  predicate TextOrFalsy(v: Value) {
    !Truthy(v) || v.Str?
  }
}
