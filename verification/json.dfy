/** Values produced by decoding a redemption reply body as JSON, and the two
    Python operations the reconciliation loop applies to them: truthiness
    (`if result:`) and comparison against an integer result code
    (`result.get("resultCode") == 0`). */
module Json {

  /** A decoded JSON document. Numbers are integers only. */
  datatype Json =
    | JNull
    | JBool(b: bool)
    | JNum(n: int)
    | JStr(s: string)
    | JArr(items: seq<Json>)
    | JObj(fields: map<string, Json>)

  /** Python truthiness of the decoded value: `None`, `False`, `0`, `""`,
      `[]` and `{}` are falsy, everything else is truthy. */
  predicate Truthy(j: Json)
  {
    match j
    case JNull => false
    case JBool(b) => b
    case JNum(n) => n != 0
    case JStr(s) => s != ""
    case JArr(items) => items != []
    case JObj(fields) => fields != map[]
  }

  /** Python `v == k` for a decoded value `v` and an integer literal `k`.
      `bool` is a subclass of `int`, so `False == 0` and `True == 1`;
      strings, lists, objects and `None` never equal an integer. */
  predicate EqualsInt(j: Json, k: int)
  {
    match j
    case JNum(n) => n == k
    case JBool(b) => (if b then 1 else 0) == k
    case _ => false
  }

  /** Python `obj.get(key) == k`: a missing key yields `None`, which equals
      no integer. */
  predicate FieldEquals(fields: map<string, Json>, key: string, k: int)
  {
    key in fields && EqualsInt(fields[key], k)
  }
}
