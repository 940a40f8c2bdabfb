/** 32-bit machine words, as numbers. */
module Words {

  const WRAP := 0x1_0000_0000
  const SIGN_BIT := 0x8000_0000
  const INT_MAX := SIGN_BIT - 1

  type Word = w: nat | w < WRAP

  // A 32-bit result read as signed.
  function Signed32(x: int): int { (x + SIGN_BIT) % WRAP - SIGN_BIT }

  function Min(a: int, b: int): int { if a < b then a else b }
}
