/**
 * Decoded JSON values as the exporter sees them. Every JSON object is
 * decoded into a `DictX`: indexing it with a key it does not hold gives a
 * fresh empty `DictX` instead of failing, and an empty `DictX` prints as
 * the empty string.
 */
module DictX {
  import opened Wrappers
  import opened Text

  datatype Json =
    | JNull
    | JBool(b: bool)
    | JNumber(n: int)
    | JString(s: string)
    | JArray(items: seq<Json>)
    | JObject(fields: map<string, Json>)

  /** The empty `DictX`. */
  const Empty: Json := JObject(map[])

  /**
   * `obj[key]` on a `DictX`: a key that is not held gives an empty `DictX`,
   * which is falsy and prints as the empty string, so reading a missing key
   * neither fails nor shows up in a label.
   */
  function Index(obj: map<string, Json>, key: string): (r: Json)
    ensures key in obj ==> r == obj[key]
    ensures key !in obj ==> r == Empty && !Truthy(r) && Str(r) == Some("")
  {
    if key in obj then obj[key] else Empty
  }

  /**
   * Python truthiness of a decoded value: the falsy values are exactly
   * `None`, `False`, zero, and the empty string, list and dictionary.
   */
  predicate Truthy(j: Json)
    ensures !Truthy(j) <==> j in {JNull, JBool(false), JNumber(0), JString(""), JArray([]), Empty}
  {
    match j
    case JNull => false
    case JBool(b) => b
    case JNumber(n) => n != 0
    case JString(s) => s != ""
    case JArray(items) => items != []
    case JObject(fields) => fields != map[]
  }

  /**
   * `str(j)` of a decoded value, where this model gives one: text as it is,
   * `None`, `True`/`False`, integers in decimal, and the empty string for an
   * empty `DictX`. Python's representation of lists and non-empty
   * dictionaries is not modelled (`None` here).
   */
  function Str(j: Json): (r: Option<string>)
    ensures j.JString? ==> r == Some(j.s)
    ensures j.JObject? ==> (r == Some("") <==> j.fields == map[])
    ensures j.JObject? && j.fields != map[] ==> r == None
    ensures j.JNull? ==> r == Some("None")
    ensures j.JBool? ==> r == Some(if j.b then "True" else "False")
    ensures j.JNumber? ==> r == Some(IntToString(j.n)) && ReadDecimal(r.value) == Some(j.n)
    ensures j.JArray? ==> r == None
  {
    match j
    case JNull => Some("None")
    case JBool(b) => Some(if b then "True" else "False")
    case JNumber(n) => Some(IntToString(n))
    case JString(s) => Some(s)
    case JArray(_) => None
    case JObject(fields) => if fields == map[] then Some("") else None
  }
}
