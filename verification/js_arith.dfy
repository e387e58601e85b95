/** JavaScript integer arithmetic that differs from Dafny's. */
module JsArith {

  /** The remainder of JavaScript's `%` on integral numbers with a positive
      divisor: division truncates toward zero, so the result takes the sign
      of the dividend (Dafny's own `%` is Euclidean and never negative). */
  function Rem(a: int, b: int): (r: int)
    requires b > 0
    ensures a >= 0 ==> 0 <= r < b
    ensures a < 0 ==> -b < r <= 0
    ensures exists q: int :: a == q * b + r
  {
    if a >= 0 then
      assert a == (a / b) * b + a % b;
      a % b
    else
      assert -a == ((-a) / b) * b + (-a) % b;
      assert a == (-((-a) / b)) * b + -((-a) % b);
      -((-a) % b)
  }
}
