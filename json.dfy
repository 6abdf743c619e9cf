/**
  Decoded JSON values (RFC 8259), the dynamic values the viewer handles:
  card metadata and the entries of the index cache are JSON objects.
  Numbers are modelled as integers.
 */
module Json {

  datatype Json =
    | JNull
    | JBool(b: bool)
    | JNum(n: int)
    | JStr(s: string)
    | JArr(items: seq<Json>)
    | JObj(fields: map<string, Json>)

  /** A JSON object, as a Python dict from string keys. */
  type Object = map<string, Json>

  /** Python truthiness of a decoded value: null, false, 0, "", [] and {} are false. */
  predicate Truthy(v: Json)
  {
    match v
    case JNull => false
    case JBool(b) => b
    case JNum(n) => n != 0
    case JStr(s) => |s| > 0
    case JArr(a) => |a| > 0
    case JObj(m) => |m| > 0
  }

  /** Python's `d.get(k, default)`. */
  function Get(m: Object, k: string, default: Json): Json
  {
    if k in m then m[k] else default
  }

  /**
    Python's `v == n` for a decoded value `v` and an int `n`: numbers compare by
    value, and `True == 1`, `False == 0`; every other value differs from an int.
   */
  predicate EqualsInt(v: Json, n: int)
  {
    match v
    case JNum(x) => x == n
    case JBool(b) => if b then n == 1 else n == 0
    case _ => false
  }
}
