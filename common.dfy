/** Small shared vocabulary: optional values, results of operations that can fail, and
    the minimum and maximum of two numbers as JavaScript's Math.min and Math.max compute
    them on ordinary (non-NaN) numbers. */
module Common {

  /** A JavaScript value that may be null or undefined. */
  datatype Option<+T> = None | Some(value: T) {
    function GetOr(default: T): T {
      match this
      case Some(v) => v
      case None => default
    }
  }

  /** The result of an operation that either returns a value or throws. */
  datatype Result<+T, +E> = Success(value: T) | Failure(error: E)

  /** The completion of an operation that returns nothing or throws. */
  datatype Outcome<+E> = Pass | Fail(error: E)

  function Min(a: real, b: real): (r: real)
    ensures r <= a && r <= b && (r == a || r == b)
  {
    if a <= b then a else b
  }

  function Max(a: real, b: real): (r: real)
    ensures r >= a && r >= b && (r == a || r == b)
  {
    if a >= b then a else b
  }
}
