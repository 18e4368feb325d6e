/**
 * The fixed-width C++ arithmetic the program relies on: `size_t` and
 * `uintptr_t` are 64-bit unsigned integers, so subtraction wraps modulo 2^64,
 * and `std::string::npos` is the largest of them.
 */
module Machine {
  /** 2^64. */
  const Modulus: nat := 0x1_0000_0000_0000_0000

  /** `std::string::npos`, the largest `size_t`. */
  const NPos: nat := Modulus - 1

  /** A `size_t` or `uintptr_t` value. */
  type Word = x: nat | x < Modulus

  /** Unsigned 64-bit arithmetic: the value modulo 2^64. */
  function Wrap(x: int): (r: Word) {
    x % Modulus
  }

  /** Wrapping a value at most one modulus out of range adds or removes one modulus. */
  lemma WrapNear(x: int)
    ensures -(Modulus as int) <= x < 0 ==> Wrap(x) == x + Modulus
    ensures 0 <= x < Modulus ==> Wrap(x) == x
    ensures Modulus <= x < 2 * Modulus ==> Wrap(x) == x - Modulus
  {
  }

  function Min(a: nat, b: nat): nat {
    if a < b then a else b
  }

  /** `std::string::substr(pos, count)`: the count is clipped at the end of the string. */
  function Substr(s: string, pos: nat, count: nat): string
    requires pos <= |s|
  {
    s[pos..pos + Min(count, |s| - pos)]
  }
}
