/** Loosely shaped values, as Python's json module decodes them, and the few
    Python operations on them that the scraper relies on: `dict.get`,
    truthiness, `a or b`, and what makes two values the same dict key. */
module JsonValues {

  datatype Option<+T> = None | Some(value: T)

  /** A decoded JSON value. Integer literals decode to `JInt`, other numbers
      to `JReal` (a Python float, kept exact here); an object is a map from
      its keys to its values. */
  datatype Json =
    | JNull
    | JBool(b: bool)
    | JInt(i: int)
    | JReal(r: real)
    | JStr(s: string)
    | JArr(items: seq<Json>)
    | JObj(fields: map<string, Json>)

  /** `d.get(key)`: a missing key reads as None. */
  function Get(fields: map<string, Json>, key: string): (v: Json)
    ensures key !in fields ==> v == JNull
    ensures key in fields ==> v == fields[key]
  {
    if key in fields then fields[key] else JNull
  }

  /** Python truthiness: None, False, zero and empty containers are false. */
  predicate Truthy(v: Json)
  {
    match v
    case JNull => false
    case JBool(b) => b
    case JInt(i) => i != 0
    case JReal(r) => r != 0.0
    case JStr(s) => s != []
    case JArr(items) => items != []
    case JObj(fields) => fields != map[]
  }

  /** Python's `a or b`: the first operand when it is truthy, else the second. */
  function Or(a: Json, b: Json): (r: Json)
    ensures Truthy(r) <==> Truthy(a) || Truthy(b)
    ensures Truthy(a) ==> r == a
    ensures !Truthy(a) ==> r == b
  {
    if Truthy(a) then a else b
  }

  /** The identity of a value used as a dict key: equal numbers are one key
      (1, 1.0 and True collide), a string is a key of its own, and None is
      one more key. */
  datatype Key = KNone | KText(text: string) | KNumber(n: real)

  /** The key a value stands for, or None when the value is unhashable
      (a list or a dict). */
  function KeyOf(v: Json): (k: Option<Key>)
    ensures k.None? <==> v.JArr? || v.JObj?
    ensures v.JStr? ==> k == Some(KText(v.s))
  {
    match v
    case JNull => Some(KNone)
    case JBool(b) => Some(KNumber(if b then 1.0 else 0.0))
    case JInt(i) => Some(KNumber(i as real))
    case JReal(r) => Some(KNumber(r))
    case JStr(s) => Some(KText(s))
    case JArr(_) => None
    case JObj(_) => None
  }
}
