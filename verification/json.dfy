/**
 * A decoded JSON value as Python's `json.loads` returns it, and the two Python
 * operations the SDK applies to such values without checking their type:
 * truthiness and the membership test `key in value`.
 */
module Json {
  import opened Wrappers
  import PyText

  /** A JSON number is kept as a decimal `mantissa * 10^exponent`. */
  datatype Value =
    | Null
    | Bool(b: bool)
    | Num(mantissa: int, exponent: int)
    | Str(s: string)
    | Arr(items: seq<Value>)
    | Obj(fields: map<string, Value>)

  /** Python truthiness of the value: `None`, `False`, zero and empty containers are false. */
  predicate Truthy(v: Value)
  {
    match v
    case Null => false
    case Bool(b) => b
    case Num(m, _) => m != 0
    case Str(s) => s != []
    case Arr(xs) => xs != []
    case Obj(fs) => fs != map[]
  }

  /**
   * Python's `key in v` for a string `key`: a key test on a dict, an element
   * test on a list, a substring test on a string. Any other operand raises
   * `TypeError`, returned here as `None`.
   */
  function In(key: string, v: Value): (r: Option<bool>)
    ensures r.None? <==> v.Null? || v.Bool? || v.Num?
    ensures v.Obj? ==> r == Some(key in v.fields)
    ensures v.Arr? ==> r == Some(Str(key) in v.items)
    ensures v.Str? ==> (r == Some(true) <==> exists k :: PyText.OccursAt(v.s, key, k))
  {
    match v
    case Obj(fs) => Some(key in fs)
    case Arr(xs) => Some(Str(key) in xs)
    case Str(s) => Some(PyText.Contains(s, key))
    case _ => None
  }

  /**
   * Python's `v[key]` for a string `key`: only a dict holding the key yields a
   * value; every other case raises (`KeyError` or `TypeError`).
   */
  function Get(v: Value, key: string): (r: Option<Value>)
    ensures r.Some? <==> v.Obj? && key in v.fields
    ensures r.Some? ==> r.value == v.fields[key]
  {
    if v.Obj? && key in v.fields then Some(v.fields[key]) else None
  }
}
