/**
  Rounding an image dimension up to a power of two.

  The program computes `2 ** ceil(log2(value))`. This module states the
  integer meaning of that expression: `CeilLog2(n)` is the least exponent
  `k` with `n <= 2^k`, and `NearestPowerOfTwo(n)` is the smallest power of
  two that is at least `n`.
 */
module PowerOfTwo {

  /** 2 raised to the power k. */
  function Pow2(k: nat): (r: nat)
    ensures r >= 1
  {
    if k == 0 then 1 else 2 * Pow2(k - 1)
  }

  /** m is 2^k for some exponent k. */
  ghost predicate IsPowerOfTwo(m: nat) {
    exists k: nat :: Pow2(k) == m
  }

  /** The exponent ceil(log2(n)): the least k with n <= 2^k. */
  function CeilLog2(n: nat): (k: nat)
    requires n >= 1
    ensures n <= Pow2(k)
    ensures k == 0 || Pow2(k - 1) < n
    decreases n
  {
    if n == 1 then 0 else 1 + CeilLog2((n + 1) / 2)
  }

  /** The smallest power of two greater than or equal to n. */
  function NearestPowerOfTwo(n: nat): (r: nat)
    requires n >= 1
    ensures IsPowerOfTwo(r)
    ensures n <= r < 2 * n
  {
    var k := CeilLog2(n);
    assert k > 0 ==> Pow2(k) == 2 * Pow2(k - 1);
    Pow2(k)
  }

  /** Powers of two grow with their exponent. */
  lemma {:induction false} Pow2Monotone(i: nat, j: nat)
    requires i <= j
    ensures Pow2(i) <= Pow2(j)
    decreases j - i
  {
    if i < j {
      Pow2Monotone(i + 1, j);
    }
  }

  /** Two different powers of two differ at least by a factor of two. */
  lemma Pow2Gap(a: nat, b: nat)
    requires IsPowerOfTwo(a) && IsPowerOfTwo(b)
    requires a < b
    ensures 2 * a <= b
  {
    var i: nat :| Pow2(i) == a;
    var j: nat :| Pow2(j) == b;
    if j <= i {
      Pow2Monotone(j, i);
    } else {
      assert Pow2(i + 1) == 2 * a;
      Pow2Monotone(i + 1, j);
    }
  }

  /** No power of two below the result reaches n: the result is the least one. */
  lemma NearestIsLeast(n: nat, m: nat)
    requires n >= 1
    requires IsPowerOfTwo(m) && n <= m
    ensures NearestPowerOfTwo(n) <= m
  {
    var r := NearestPowerOfTwo(n);
    if m < r {
      Pow2Gap(m, r);
    }
  }

  /** A power of two in [n, 2n) is exactly the rounded value, and only it is. */
  lemma NearestCharacterization(n: nat, m: nat)
    requires n >= 1
    ensures m == NearestPowerOfTwo(n) <==> IsPowerOfTwo(m) && n <= m < 2 * n
  {
    var r := NearestPowerOfTwo(n);
    if IsPowerOfTwo(m) && n <= m < 2 * n {
      NearestIsLeast(n, m);
      if r < m {
        Pow2Gap(r, m);
      }
    }
  }

  /** A value that is already a power of two is left as it is, and only such a value. */
  lemma NearestFixedPoint(n: nat)
    requires n >= 1
    ensures NearestPowerOfTwo(n) == n <==> IsPowerOfTwo(n)
  {
    NearestCharacterization(n, n);
  }

  /** Rounding 2^k gives 2^k back (1 -> 1, 256 -> 256). */
  lemma NearestOfPow2(k: nat)
    ensures NearestPowerOfTwo(Pow2(k)) == Pow2(k)
  {
    NearestFixedPoint(Pow2(k));
  }

  /** Rounding twice is rounding once. */
  lemma NearestIdempotent(n: nat)
    requires n >= 1
    ensures NearestPowerOfTwo(NearestPowerOfTwo(n)) == NearestPowerOfTwo(n)
  {
    NearestFixedPoint(NearestPowerOfTwo(n));
  }

  /** A larger dimension never rounds to a smaller power of two. */
  lemma NearestMonotone(n: nat, m: nat)
    requires 1 <= n <= m
    ensures NearestPowerOfTwo(n) <= NearestPowerOfTwo(m)
  {
    NearestIsLeast(n, NearestPowerOfTwo(m));
  }

  /** The dimensions of the 300x200 example and of an image that is already square. */
  lemma NearestExamples()
    ensures NearestPowerOfTwo(300) == 512
    ensures NearestPowerOfTwo(200) == 256
    ensures NearestPowerOfTwo(256) == 256
    ensures NearestPowerOfTwo(1) == 1
  {
    assert Pow2(8) == 256;
    assert Pow2(9) == 512;
    NearestCharacterization(300, 512);
    NearestCharacterization(200, 256);
    NearestCharacterization(256, 256);
    NearestCharacterization(1, 1);
  }
}
