/** Java's integer arithmetic where it differs from Dafny's unbounded, Euclidean one. */
module JavaInt {

  const IntMin: int := -0x8000_0000
  const IntMax: int := 0x7fff_ffff

  /** Java's `a / b` for a positive divisor: the quotient truncated toward zero. */
  function Quot(a: int, b: int): (q: int)
    requires b > 0
    ensures a >= 0 ==> 0 <= q && 0 <= a - q * b < b
    ensures a < 0 ==> q <= 0 && -b < a - q * b <= 0
  {
    if a >= 0 then a / b else -((-a) / b)
  }

  /** Java's narrowing cast of an integral `double` to `int`: it saturates at the int range. */
  function SaturateToInt(x: int): (r: int)
    ensures IntMin <= r <= IntMax
    ensures IntMin <= x <= IntMax ==> r == x
    ensures x > IntMax ==> r == IntMax
    ensures x < IntMin ==> r == IntMin
  {
    if x > IntMax then IntMax else if x < IntMin then IntMin else x
  }

  /** Two's-complement wrap-around of an `int` result into 32 bits. */
  function WrapInt(x: int): (r: int)
    ensures IntMin <= r <= IntMax
    ensures (r - x) % 0x1_0000_0000 == 0
    ensures IntMin <= x <= IntMax ==> r == x
  {
    (x - IntMin) % 0x1_0000_0000 + IntMin
  }
}
