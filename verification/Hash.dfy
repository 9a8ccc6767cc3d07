/** hash_u32 of src/hash.c: a multiplication modulo 2^32, and a bijection on 32-bit words. */
module Hash {
  import opened Bytes

  const Modulus := 0x1_0000_0000
  const Factor := 2654435761
  const Inverse := 244002641

  function HashU32(value: u32): u32 {
    var v: int := value;
    v * Factor % Modulus
  }

  function UnhashU32(h: u32): u32 {
    var v: int := h;
    v * Inverse % Modulus
  }

  /** Modulo 2^32 the two factors cancel. */
  lemma {:induction false} Cancel(x: u32, a: int, b: int, q: int)
    requires a * b == 1 + q * Modulus
    ensures x * a % Modulus * b % Modulus == x
  {
    var v: int := x;
    var q1, r := v * a / Modulus, v * a % Modulus;
    assert v * a == Modulus * q1 + r;
    calc {
      r * b;
      (v * a - Modulus * q1) * b;
      v * a * b - Modulus * q1 * b;
      v * (a * b) - Modulus * (q1 * b);
      v * (1 + q * Modulus) - Modulus * (q1 * b);
      v + Modulus * (v * q - q1 * b);
    }
    Remainder(r * b, v, v * q - q1 * b);
  }

  lemma {:induction false} Remainder(n: int, x: int, k: int)
    requires n == x + Modulus * k && 0 <= x < Modulus
    ensures n % Modulus == x
  {
  }

  /** Hashing loses nothing: every word is the hash of exactly one word. */
  lemma {:induction false} HashIsBijective(x: u32)
    ensures UnhashU32(HashU32(x)) == x && HashU32(UnhashU32(x)) == x
  {
    Cancel(x, Factor, Inverse, 150801925);
    Cancel(x, Inverse, Factor, 150801925);
  }

  lemma {:induction false} HashIsInjective(x: u32, y: u32)
    ensures HashU32(x) == HashU32(y) ==> x == y
  {
    HashIsBijective(x);
    HashIsBijective(y);
  }
}
