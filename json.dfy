/**
 * The data that PHP's `json_decode($line, true)` produces and `json_encode` consumes,
 * and the codec itself, kept abstract: the library never looks inside a JSON text,
 * it only relies on an encoding being one line and on decoding either succeeding or failing.
 */
module Json {
  import opened Wrappers

  /** A decoded JSON value; objects decode to string-keyed arrays (`assoc = true`). */
  datatype Value =
    | VNull
    | VBool(b: bool)
    | VInt(i: int)
    | VStr(s: string)
    | VList(items: seq<Value>)
    | VDict(entries: map<string, Value>)

  /** PHP's `empty($v)` on a present value: the falsy values of each type */
  predicate Empty(v: Value) {
    match v
    case VNull => true
    case VBool(b) => !b
    case VInt(i) => i == 0
    case VStr(s) => s == "" || s == "0"
    case VList(items) => items == []
    case VDict(entries) => entries == map[]
  }

  /**
   * `json_encode(..., JSON_THROW_ON_ERROR)` (None: it threw) and
   * `json_decode(..., true, 512, JSON_THROW_ON_ERROR)` (None: it threw a JsonException).
   */
  datatype Codec = Codec(encode: Value -> Option<string>, decode: string -> Option<Value>)
}
