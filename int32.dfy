/** Signed 32-bit integers as C# `int` has them, with the unchecked
    wrap-around that `*` and `-` perform on overflow. */
module Int32Arith {

  type Int32 = x: int | -0x8000_0000 <= x < 0x8000_0000

  predicate InRange(x: int) {
    -0x8000_0000 <= x < 0x8000_0000
  }

  /** The Int32 that C# produces for the mathematical value `x`
      (two's-complement truncation to 32 bits). */
  function Wrap(x: int): (r: Int32)
    ensures InRange(x) ==> r == x
    ensures (r - x) % 0x1_0000_0000 == 0
  {
    (x + 0x8000_0000) % 0x1_0000_0000 - 0x8000_0000
  }

  /** `a - b` in unchecked C# arithmetic. */
  function Sub(a: Int32, b: Int32): Int32 {
    Wrap(a - b)
  }

  /** The unchecked difference is the exact one when that fits, and
      otherwise agrees with it modulo 2^32. */
  lemma SubWraps(a: Int32, b: Int32)
    ensures InRange(a - b) ==> Sub(a, b) == a - b
    ensures (Sub(a, b) - (a - b)) % 0x1_0000_0000 == 0
  {
  }

  /** `a * b` in unchecked C# arithmetic. */
  function Mul(a: Int32, b: Int32): Int32 {
    Wrap(a * b)
  }

  /** The unchecked product is the exact one when that fits, and otherwise
      agrees with it modulo 2^32. */
  lemma MulWraps(a: Int32, b: Int32)
    ensures InRange(a * b) ==> Mul(a, b) == a * b
    ensures (Mul(a, b) - a * b) % 0x1_0000_0000 == 0
  {
  }
}
