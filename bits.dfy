/**
 * Python's integer bit operations, stated on unbounded integers.
 *
 * Python shifts and masks behave as if integers had infinitely many
 * two's-complement bits: `x >> k` is floor division by 2^k and `x & 0xFF`
 * is the non-negative remainder modulo 256, for negative `x` too. Dafny's
 * `/` and `%` with a positive divisor floor in the same way, so no case
 * split on the sign is needed.
 */
module Bits {

  function Pow2(k: nat): (p: nat)
    ensures p >= 1
  {
    if k == 0 then 1 else 2 * Pow2(k - 1)
  }

  /**
   * Python's `x >> k`: one floor halving per shifted bit, which is floor
   * division by 2^k for every integer, negative ones included.
   */
  function Shr(x: int, k: nat): (r: int)
    ensures r == x / Pow2(k)
    decreases k
  {
    if k == 0 then x
    else
      DivDiv(x, 2, Pow2(k - 1));
      Shr(x / 2, k - 1)
  }

  /** Python's `x & 0xFF`: the byte congruent to x modulo 256. */
  function Low8(x: int): (b: int)
    ensures 0 <= b < 256
    ensures (x - b) % 256 == 0
  {
    x % 256
  }

  /** The big-endian value of a high and a low byte. */
  function Word(hi: int, lo: int): int
  {
    hi * 256 + lo
  }

  /** Division by a positive number is determined by quotient and remainder. */
  lemma DivModUnique(x: int, d: int, q: int, r: int)
    requires d > 0 && 0 <= r < d && x == q * d + r
    ensures x / d == q && x % d == r
  {
    var q', r' := x / d, x % d;
    assert (q' - q) * d == r - r';
    MulBound(q' - q, d, r - r');
  }

  /** A multiple of d strictly between -d and d is zero. */
  lemma MulBound(k: int, d: int, e: int)
    requires d > 0 && k * d == e && -d < e < d
    ensures k == 0
  {
  }

  /** Dividing by a and then by b is dividing by a * b. */
  lemma DivDiv(x: int, a: int, b: int)
    requires a > 0 && b > 0
    ensures a * b > 0
    ensures x / (a * b) == (x / a) / b
    ensures x % (a * b) == x % a + a * ((x / a) % b)
  {
    var q, r := x / a, x % a;
    var q2, r2 := q / b, q % b;
    assert x == q * a + r;
    assert q == q2 * b + r2;
    assert q * a == q2 * (a * b) + a * r2 by {
      assert q * a == (q2 * b + r2) * a;
    }
    assert 0 <= a * r2 <= a * (b - 1) by {
      MulMono(a, r2, b - 1);
    }
    DivModUnique(x, a * b, q2, a * r2 + r);
  }

  lemma MulMono(a: int, m: int, n: int)
    requires a > 0 && 0 <= m <= n
    ensures 0 <= a * m <= a * n
  {
    assert a * n - a * m == a * (n - m);
  }

  /** Splitting a value into `(x >> 8) & 0xFF` and `x & 0xFF` keeps it modulo 2^16. */
  lemma WordOfSplit(x: int)
    ensures Word(Low8(Shr(x, 8)), Low8(x)) == x % 65536
  {
    DivDiv(x, 256, 256);
  }

  /** For 0 <= x < 2^16 the unmasked high byte `x >> 8` is already a byte. */
  lemma SplitInRange(x: int)
    requires 0 <= x < 65536
    ensures 0 <= Shr(x, 8) < 256
    ensures Word(Shr(x, 8), Low8(x)) == x
  {
    DivDiv(x, 256, 256);
  }

  /** `x >> 8` is a byte exactly when x is in 0 .. 2^16 - 1. */
  lemma HighByteRange(x: int)
    ensures (0 <= Shr(x, 8) < 256) <==> (0 <= x < 65536)
  {
    assert Pow2(8) == 256;
  }
}
