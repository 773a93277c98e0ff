/** Octets as the Go code sees them: `byte` is an unsigned 8-bit value. */
module Octets {

  type byte = x: int | 0 <= x < 256

  /** Go's conversion `byte(x)` of a non-negative `int`: keeps the low 8 bits. */
  function Byte(x: nat): (b: byte)
    ensures x < 256 ==> b == x
    ensures (x - b) % 256 == 0
  {
    x % 256
  }
}
