/** The pieces of Java's integer semantics that the model needs written out. */
module JavaArith {

  /** The unchecked exceptions the modelled code can let escape. */
  datatype Exception =
    | ArrayIndexOutOfBounds   // an array index outside [0, length)
    | StringIndexOutOfBounds  // String.substring with a bad range
    | UnsupportedOperation    // UUID.timestamp() on a UUID that is not version 1

  const TWO_31 := 0x8000_0000
  const TWO_32 := 0x1_0000_0000

  /** The values of a Java `int`. */
  predicate IsInt32(x: int) {
    -TWO_31 <= x < TWO_31
  }

  /** Java `int` arithmetic: the exact result wrapped into the 32-bit two's-complement range. */
  function Wrap32(x: int): (r: int)
    ensures IsInt32(r)
    ensures (x - r) % TWO_32 == 0
    ensures IsInt32(x) ==> r == x
  {
    (x + TWO_31) % TWO_32 - TWO_31
  }

  function Abs(x: int): nat {
    if x < 0 then -x else x
  }

  /** Java `long` division by a positive divisor: the quotient rounded toward zero. */
  function TruncDiv(a: int, d: int): (q: int)
    requires d > 0
    ensures 0 <= a ==> 0 <= a - q * d < d
    ensures a < 0 ==> -d < a - q * d <= 0
  {
    if a >= 0 then a / d else -((-a) / d)
  }
}
