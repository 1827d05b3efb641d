/** Python 2 numeric semantics the lookup-table generator relies on:
    the exceptions it can raise, `None`, integer floor division,
    `int()` of a float (truncation toward zero) and `round()`
    (half away from zero). Floats are modelled as exact reals. */
module PyNum {

  /** The exceptions the generator's arithmetic can raise. */
  datatype Error =
    | ZeroDivisionError   // `x / 0` on ints or floats
    | MathDomainError     // `math.log` of a non-positive number (ValueError)
    | RangeStepZero       // `range(a, b, 0)` (ValueError)
    | NameError           // a reference to an unbound name

  datatype Result<+T> = Ok(value: T) | Err(error: Error)

  datatype Option<+T> = None | Some(value: T)

  /** Python 2 `a / b` on two ints: the quotient rounded toward minus infinity. */
  function FloorDiv(a: int, b: int): (r: Result<int>)
    ensures r.Err? <==> b == 0
    ensures r.Err? ==> r.error == ZeroDivisionError
    ensures r.Ok? && b > 0 ==> b * r.value <= a < b * r.value + b
    ensures r.Ok? && b < 0 ==> b * r.value >= a > b * r.value + b
  {
    if b == 0 then Err(ZeroDivisionError)
    else if b > 0 then Ok(a / b)
    else Ok((-a) / (-b))
  }

  /** Python `int(x)` of a float: truncation toward zero. */
  function Trunc(x: real): (r: int)
    ensures x >= 0.0 ==> 0 <= r && r as real <= x < r as real + 1.0
    ensures x < 0.0 ==> r <= 0 && r as real - 1.0 < x <= r as real
  {
    if x >= 0.0 then x.Floor else -((-x).Floor)
  }

  /** Python 2 `round(x)`: nearest integer, ties away from zero. */
  function Round(x: real): (r: int)
    ensures x - 0.5 <= r as real <= x + 0.5
    ensures r as real - x == 0.5 ==> x > 0.0
    ensures x - r as real == 0.5 ==> x < 0.0
  {
    if x >= 0.0 then (x + 0.5).Floor else -((-x + 0.5).Floor)
  }

  // Facts about Euclidean division by a positive divisor.

  lemma MulAtLeast(b: int, k: int)
    requires b > 0 && k >= 1
    ensures b * k >= b
  {
  }

  lemma MulMonotone(b: int, x: int, y: int)
    requires b > 0 && x <= y
    ensures b * x <= b * y
  {
  }

  /** Quotient and remainder are the unique q, r with a == b * q + r, 0 <= r < b. */
  lemma DivModUnique(a: int, b: int, q: int, r: int)
    requires b > 0 && a == b * q + r && 0 <= r < b
    ensures a / b == q && a % b == r
  {
    var q', r' := a / b, a % b;
    assert a == b * q' + r' && 0 <= r' < b;
    if q > q' {
      MulAtLeast(b, q - q');
    } else if q < q' {
      MulAtLeast(b, q' - q);
    }
  }

  lemma DivShift(a: int, b: int)
    requires b > 0
    ensures (a + b) / b == a / b + 1
    ensures (a + b) % b == a % b
  {
    DivModUnique(a + b, b, a / b + 1, a % b);
  }

  /** n >= b * q gives n / b >= q. */
  lemma DivLowerBound(n: int, b: int, q: int)
    requires b > 0 && n >= b * q
    ensures n / b >= q
  {
    if n / b < q {
      MulMonotone(b, n / b, q - 1);
    }
  }
}
