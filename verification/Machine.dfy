/** Unsigned 64-bit machine arithmetic, as the kernel's C code performs it on addresses and lengths. */
module Machine {
  type Byte = x: int | 0 <= x < 256
  const TWO_TO_64: int := 0x1_0000_0000_0000_0000
  const NULL: int := 0

  type U64 = x: int | 0 <= x < TWO_TO_64

  /** Addition modulo 2^64. */
  function Add64(a: U64, b: U64): U64 {
    if a + b < TWO_TO_64 then a + b else a + b - TWO_TO_64
  }

  /** Subtraction modulo 2^64. */
  function Sub64(a: U64, b: U64): U64 {
    if a < b then a - b + TWO_TO_64 else a - b
  }

  lemma Times(w: nat, a: int, b: int)
    requires a <= b
    ensures a * w <= b * w
  {
  }

  /** What division makes of a number put together from a quotient and a remainder. */
  lemma QuotientRemainder(n: nat, q: nat, r: nat)
    requires r < n
    ensures q * n + r >= 0 && (q * n + r) / n == q && (q * n + r) % n == r
  {
    Times(n, 0, q);
    var x := q * n + r;
    if x / n < q {
      Times(n, x / n + 1, q);
    } else if x / n > q {
      Times(n, q + 1, x / n);
    }
  }
}
