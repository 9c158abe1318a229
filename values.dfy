/** Values shared by the two applications: an optional value, and the
    three ways a key of a decoded JSON object can stand (absent, null,
    or holding a value), which the Python code tells apart through
    `d.get(k)`, `d.get(k, default)`, `d[k]` and truthiness. */
module Values {

  datatype Option<+T> = None | Some(value: T)

  /** One key of a JSON object: `Missing` (key absent), `Null` (JSON null,
      Python `None`) or `Present(v)`. */
  datatype Field<+T> = Missing | Null | Present(value: T)

  /** `d.get(k, default)` for a string-valued key, rendered by an f-string:
      an absent key gives the default, a null gives Python's "None". */
  function ShowStr(f: Field<string>, default: string): (r: string)
    ensures f.Missing? ==> r == default
    ensures f.Null? ==> r == "None"
    ensures f.Present? ==> r == f.value
  {
    match f
    case Missing => default
    case Null => "None"
    case Present(s) => s
  }

  /** Python truthiness of a string-valued key read by `d.get(k)`: only a
      present, non-empty string is truthy. */
  predicate Truthy(f: Field<string>)
  {
    f.Present? && f.value != ""
  }

  /** `d.get(k) or 0` for an integer key. */
  function IntOrZero(f: Field<int>): (r: int)
    ensures f.Present? ==> r == f.value
    ensures !f.Present? ==> r == 0
  {
    if f.Present? then f.value else 0
  }

  /** `d.get(k) or []` for a list-valued key. */
  function ListOrEmpty<T>(f: Field<seq<T>>): (r: seq<T>)
    ensures f.Present? ==> r == f.value
    ensures !f.Present? ==> r == []
  {
    if f.Present? then f.value else []
  }

}
