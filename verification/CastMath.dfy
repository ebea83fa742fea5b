// C's truncating conversions and divisions.
module CastMath {

  /** The cast from double to an integer type. */
  function Trunc(x: real): int {
    if x >= 0.0 then x.Floor else -((-x).Floor)
  }

  lemma TruncWhole(n: int)
    ensures Trunc(n as real) == n
  {
  }

  /** C's a / b and a % b for b > 0: truncation toward zero. */
  function DivC(a: int, b: int): int
    requires b > 0
  {
    if a >= 0 then a / b else -((-a) / b)
  }

  function ModC(a: int, b: int): (r: int)
    requires b > 0
    ensures -b < r < b && (a >= 0 ==> 0 <= r)
  {
    if a >= 0 then a % b else -((-a) % b)
  }
}
