/** Values shared by every module of the model: optional values, results that
    carry the exceptions the Python code raises, bytes, and the two conversions
    from floats to integers that the code uses (`int(...)` and `math.ceil`). */
module Common {

  datatype Option<+T> = None | Some(value: T)

  /** A computation that either returns a value or raises one of `Error`. */
  datatype Result<+T, +E> = Success(value: T) | Failure(error: E) {
    predicate IsFailure() { Failure? }

    function PropagateFailure<U>(): Result<U, E>
      requires Failure?
    {
      Failure(error)
    }

    function Extract(): T
      requires Success?
    {
      value
    }
  }

  /** The exceptions the modelled code can raise, named after what raises them. */
  datatype Error =
    | UnknownTool              // `Pen.create` on a tool id it does not list
    | UnknownColor             // the palette assertion in `Pen.__post_init__`
    | KeyError(key: string)    // a missing dictionary key
    | AttributeError(name: string)
    | IndexError               // a page index outside the PDF
    | ZeroDivision
    | OutOfCanvas              // the two assertions in `draw_stroke`
    | TypeError                // comparing None with an int, or `str + None`
    | ValueError               // `datetime.fromtimestamp` on a year outside 1..9999

  type Byte = b: int | 0 <= b < 256

  /** An `(r, g, b, a)` colour tuple. */
  type Rgba = (Byte, Byte, Byte, Byte)

  /** Python's `int(x)` on a float: truncation toward zero. */
  function Int(x: real): (n: int)
    ensures x >= 0.0 ==> n as real <= x < n as real + 1.0
    ensures x < 0.0 ==> n as real - 1.0 < x <= n as real
  {
    if x >= 0.0 then x.Floor else -((-x).Floor)
  }

  /** Python's `math.ceil(x)`: the least integer not below `x`. */
  function Ceil(x: real): (n: int)
    ensures x <= n as real < x + 1.0
  {
    -((-x).Floor)
  }

  /** Python's `max(a, b)` and `min(a, b)` on two numbers. */
  function Max(a: real, b: real): (m: real)
    ensures m >= a && m >= b && (m == a || m == b)
  {
    if a >= b then a else b
  }

  function Min(a: real, b: real): (m: real)
    ensures m <= a && m <= b && (m == a || m == b)
  {
    if a <= b then a else b
  }
}
