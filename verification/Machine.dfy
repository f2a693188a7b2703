/** The i386 integer arithmetic that the modelled C code relies on. */
module Machine {
  const MOD32 := 0x1_0000_0000
  const HALF32 := 0x8000_0000
  /** The size of a page and of a frame. */
  const PAGE := 4096

  /** Conversion to `unsigned int`: reduction modulo 2^32. */
  function U32(x: int): (r: int)
    ensures 0 <= r < MOD32
    ensures 0 <= x < MOD32 ==> r == x
  {
    x % MOD32
  }

  /** The `(int)` cast of an `unsigned int`. */
  function Signed32(x: int): (r: int)
    requires 0 <= x < MOD32
    ensures -HALF32 <= r < HALF32 && U32(r) == x
  {
    if x < HALF32 then x else x - MOD32
  }
}
