/** The modulus of 32-bit serial numbers, and the smaller and larger of two numbers. */
module Numbers {

  const SERIAL := 0x1_0000_0000

  /** DMIN32 */
  function Min(a: int, b: int): int {
    if a > b then b else a
  }

  function Max(a: int, b: int): int {
    if a > b then a else b
  }
}
