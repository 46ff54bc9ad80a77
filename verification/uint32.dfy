/** Unsigned 32-bit arithmetic as C++ `unsigned` performs it: every result is
    reduced modulo 2^32. The grid reader declares its row and column counts,
    cursors and offsets `unsigned`, so each place where a value could leave
    the 32-bit range goes through one of these functions. */
module UInt32 {

  const MODULUS: int := 0x1_0000_0000
  const MAX: int := MODULUS - 1

  type u32 = x: int | 0 <= x < MODULUS

  /** The value a mathematical result takes once it is stored in 32 bits. */
  function Wrap(x: int): (r: u32)
    ensures (x - r) % MODULUS == 0
    ensures 0 <= x < MODULUS ==> r == x
    ensures MODULUS <= x < 2 * MODULUS ==> r == x - MODULUS
    ensures -MODULUS <= x < 0 ==> r == x + MODULUS
  {
    x % MODULUS
  }

  /** `a - b` on unsigned operands: below zero it wraps to the top of the range. */
  function Sub(a: u32, b: u32): (r: u32)
    ensures b <= a ==> r == a - b
    ensures a < b ==> r == a - b + MODULUS
  {
    Wrap(a - b)
  }

  /** `a * b` on unsigned operands. */
  function Mul(a: u32, b: u32): (r: u32)
    ensures (a * b - r) % MODULUS == 0
    ensures a * b < MODULUS ==> r == a * b
  {
    Wrap(a * b)
  }
}
