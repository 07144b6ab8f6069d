/** Fixed-width integers and bytes of the Rust program, as ranges of `int`. */
module Machine {

  const U64_MODULUS: int := 0x1_0000_0000_0000_0000
  const I64_MIN: int := -0x8000_0000_0000_0000
  const I64_MAX: int := 0x7FFF_FFFF_FFFF_FFFF

  type byte = b: int | 0 <= b < 256
  type u64 = n: int | 0 <= n < U64_MODULUS
  type i64 = n: int | I64_MIN <= n <= I64_MAX

  /** Rust's `x as u64` applied to an integer computed with two's-complement wrap-around:
      the result is the value modulo 2^64. */
  function AsU64(x: int): (r: u64)
    ensures 0 <= x < U64_MODULUS ==> r == x
    ensures (r - x) % U64_MODULUS == 0
  {
    x % U64_MODULUS
  }
}
