/**
 * The bucket index of HashMap.hpp: `hash_func` masks the key's hash with
 * `capacity - 1`, which selects the right bucket only because the capacity
 * is always a power of two.
 */
module Bits {

  /** n is a positive power of two: 1, 2, 4, 8, ... */
  predicate IsPow2(n: nat)
    decreases n
  {
    n == 1 || (n > 1 && n % 2 == 0 && IsPow2(n / 2))
  }

  /**
   * Bitwise AND of a two's-complement integer x with a non-negative mask m.
   * Dividing by 2 with Dafny's Euclidean `/` is an arithmetic right shift and
   * `x % 2` is the lowest bit, also for negative x.
   */
  function BitAnd(x: int, m: nat): nat
    decreases m
  {
    if m == 0 then 0
    else 2 * BitAnd(x / 2, m / 2) + (if x % 2 == 1 && m % 2 == 1 then 1 else 0)
  }

  /** A non-zero multiple of m is at least m away from zero. */
  lemma MulAway(m: int, e: int)
    requires m > 0
    ensures e == 0 || m * e >= m || m * e <= -m
  {
    if e > 0 {
      MulNonNeg(m, e - 1);
      assert m * e == m * (e - 1) + m;
    } else if e < 0 {
      MulNonNeg(m, -e - 1);
      assert m * e == -(m * (-e - 1)) - m;
    }
  }

  lemma {:induction false} MulNonNeg(m: nat, e: nat)
    ensures m * e >= 0
    decreases e
  {
    if e > 0 {
      MulNonNeg(m, e - 1);
      assert m * e == m * (e - 1) + m;
    }
  }

  /** Euclidean division has a unique quotient and remainder. */
  lemma ModUnique(x: int, m: int, t: int, r: int)
    requires m > 0 && x == m * t + r && 0 <= r < m
    ensures x % m == r
  {
    var q := x / m;
    assert x == m * q + x % m;
    assert m * (q - t) == r - x % m;
    MulAway(m, q - t);
  }

  /** Peeling the lowest bit off a remainder by an even modulus. */
  lemma ModDouble(x: int, d: nat)
    requires d > 0
    ensures x % (2 * d) == 2 * ((x / 2) % d) + x % 2
  {
    var q, b := x / 2, x % 2;
    var t, r := q / d, q % d;
    assert q == d * t + r;
    assert x == (2 * d) * t + (2 * r + b);
    ModUnique(x, 2 * d, t, 2 * r + b);
  }

  /** Masking with cap - 1 is reduction modulo cap when cap is a power of two. */
  lemma {:induction false} MaskIsMod(x: int, cap: nat)
    requires IsPow2(cap)
    ensures BitAnd(x, cap - 1) == x % cap
    decreases cap
  {
    if cap > 1 {
      var half := cap / 2;
      assert (cap - 1) / 2 == half - 1 && (cap - 1) % 2 == 1;
      MaskIsMod(x / 2, half);
      ModDouble(x, half);
    }
  }

  /**
   * hash_func: the bucket of a key whose (int-converted) hash is h, in a table
   * of `cap` buckets: `h & (cap - 1)`. It always names one of the cap buckets.
   */
  function Index(h: int, cap: nat): (i: nat)
    requires IsPow2(cap)
    ensures i < cap
  {
    MaskIsMod(h, cap);
    BitAnd(h, cap - 1)
  }

  /** The mask agrees with the mathematical remainder, also for negative hashes. */
  lemma IndexIsMod(h: int, cap: nat)
    requires IsPow2(cap)
    ensures Index(h, cap) == h % cap
  {
    MaskIsMod(h, cap);
  }

  /** Doubling a power of two gives a power of two. */
  lemma DoublePow2(n: nat)
    requires IsPow2(n)
    ensures IsPow2(2 * n)
  {
    assert (2 * n) / 2 == n;
  }

  /** Halving a power of two above 1 gives a power of two. */
  lemma HalvePow2(n: nat)
    requires IsPow2(n) && n > 1
    ensures IsPow2(n / 2) && 2 * (n / 2) == n
  {
  }
}
