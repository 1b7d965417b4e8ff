/**
 * The loosely-typed values a JSON request body hands to the backend
 * (backend/app.py reads them with `data.get(...)`), and Python's truthiness.
 */
module PyValues {

  /** A decoded JSON value: a boolean, a string, a number, null, or a list or
      object, of which only the number of entries matters here. */
  datatype Value =
    | Bool(b: bool)
    | Str(s: string)
    | Num(x: real)
    | Null
    | Container(size: nat)

  /** Python's `bool(value)`: false exactly for False, "", 0, None and empty
      containers. */
  predicate Truthy(v: Value) {
    match v
    case Bool(b) => b
    case Str(s) => s != ""
    case Num(x) => x != 0.0
    case Null => false
    case Container(n) => n > 0
  }

  /** Python's `int(x)` on a float: truncation toward zero. */
  function Trunc(x: real): (r: int)
    ensures 0.0 <= x ==> r as real <= x < r as real + 1.0
    ensures x < 0.0 ==> r as real - 1.0 < x <= r as real
  {
    if x >= 0.0 then x.Floor else -((-x).Floor)
  }
}
