/** The C++ `unsigned int` counter of a piece list, taken to be 32 bits wide:
    increment and decrement wrap around modulo 2^32. */
module Unsigned {

  const Modulus: int := 0x1_0000_0000

  type uint32 = x: int | 0 <= x < 0x1_0000_0000

  /** `x++` on an unsigned int. */
  function Inc(x: uint32): (r: uint32)
    ensures x < Modulus - 1 ==> r == x + 1
    ensures x == Modulus - 1 ==> r == 0
  {
    (x + 1) % Modulus
  }

  /** `x--` on an unsigned int: decrementing zero yields the largest value. */
  function Dec(x: uint32): (r: uint32)
    ensures x > 0 ==> r == x - 1
    ensures x == 0 ==> r == Modulus - 1
  {
    (x - 1) % Modulus
  }

  /** Incrementing and decrementing undo each other, also across the wrap. */
  lemma IncDecInverse(x: uint32)
    ensures Dec(Inc(x)) == x
    ensures Inc(Dec(x)) == x
  {
  }
}
