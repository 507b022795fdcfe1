/**
 Java's integer `/` and `%` on `long`, which truncate toward zero. Dafny's own `/` and
 `%` are Euclidean; for a positive divisor they coincide with Math.floorDiv and
 Math.floorMod, which is what java.time uses for its epoch-second splits.
 */
module JavaMath {

  /** `a / b` in Java for a positive divisor: the quotient rounded toward zero. */
  function TruncDiv(a: int, b: int): (q: int)
    requires b > 0
    ensures a >= 0 ==> q >= 0 && b * q <= a < b * q + b
    ensures a <= 0 ==> q <= 0 && b * q - b < a <= b * q
  {
    if a >= 0 then a / b else -((-a) / b)
  }

  /** `a % b` in Java for a positive divisor: the remainder takes the sign of `a`. */
  function TruncRem(a: int, b: int): (r: int)
    requires b > 0
    ensures a == b * TruncDiv(a, b) + r
    ensures a >= 0 ==> 0 <= r < b
    ensures a <= 0 ==> -b < r <= 0
  {
    a - b * TruncDiv(a, b)
  }

  /** Truncating division is zero exactly on the open interval (-b, b). */
  lemma TruncDivZero(a: int, b: int)
    requires b > 0
    ensures TruncDiv(a, b) == 0 <==> -b < a < b
  {
  }
}
