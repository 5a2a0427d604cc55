// Small shared vocabulary: an optional value (a nullable pointer) and the
// fixed-width unsigned arithmetic the C++ code relies on.
module Common {

  /** A value that may be absent; stands for a pointer that may be null. */
  datatype Option<T> = None | Some(value: T)

  /** 2^n. */
  function Pow2(n: nat): (r: nat)
    ensures r >= 1
  {
    if n == 0 then 1 else 2 * Pow2(n - 1)
  }

  /** 2^64, the modulus of every uint64_t operation. */
  const TWO64: int := 0x1_0000_0000_0000_0000

  /** The value of the integer x converted to uint64_t (reduction modulo 2^64). */
  function U64(x: int): (r: nat)
    ensures r < TWO64
    ensures (x - r) % TWO64 == 0
  {
    x % TWO64
  }
}
