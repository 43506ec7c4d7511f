/** The unsigned machine word of the 32-bit ARM target, with C's wrap-around arithmetic. */
module MachineWord {
  const WORD_MODULUS := 0x1_0000_0000

  type byte = x: int | 0 <= x < 256

  type uintn = x: int | 0 <= x < WORD_MODULUS

  /** The word that `-1` is converted to. */
  const MINUS_ONE: uintn := WORD_MODULUS - 1

  function Plus(a: uintn, b: uintn): uintn
  {
    if a + b < WORD_MODULUS then a + b else a + b - WORD_MODULUS
  }

  function Minus(a: uintn, b: uintn): uintn
  {
    if b <= a then a - b else a - b + WORD_MODULUS
  }

  function Max(a: uintn, b: uintn): uintn
  {
    if a > b then a else b
  }

  /** Both operations are exact modulo the word size. */
  lemma WordArithmeticIsModular(a: uintn, b: uintn)
    ensures Plus(a, b) == (a + b) % WORD_MODULUS
    ensures Minus(a, b) == (a - b) % WORD_MODULUS
  {
  }
}
