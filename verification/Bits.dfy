/** Powers of two and the split point of RFC 6962 section 2.1, on unbounded naturals. */
module Bits {

  predicate IsPow2(n: nat) {
    n == 1 || (n > 1 && n % 2 == 0 && IsPow2(n / 2))
  }

  function Pow2(e: nat): (p: nat)
    ensures p > 0
  {
    if e == 0 then 1 else 2 * Pow2(e - 1)
  }

  // Bitwise "and", one bit at a time.
  function BitAnd(a: nat, b: nat): nat {
    if a == 0 then 0 else (a % 2) * (b % 2) + 2 * BitAnd(a / 2, b / 2)
  }

  // The test the verifier runs: n > 0 && n&(n-1) == 0.
  predicate IsPowerOfTwo(n: int) {
    n > 0 && BitAnd(n, n - 1) == 0
  }

  lemma {:induction false} BitAndSelf(a: nat)
    ensures BitAnd(a, a) == a
  {
    if a > 0 {
      BitAndSelf(a / 2);
    }
  }

  // The bit trick decides exactly the powers of two.
  lemma {:induction false} IsPowerOfTwoExact(n: int)
    ensures IsPowerOfTwo(n) <==> n > 0 && IsPow2(n)
  {
    if n > 1 {
      if n % 2 == 0 {
        IsPowerOfTwoExact(n / 2);
        assert (n - 1) / 2 == n / 2 - 1;
      } else {
        BitAndSelf(n / 2);
        assert (n - 1) / 2 == n / 2;
      }
    }
  }

  // The split point: the largest power of two strictly below n, by doubling from 1.
  function Split(n: nat): (k: nat)
    requires n >= 2
    ensures 0 < k < n <= 2 * k
  {
    Doubled(1, n)
  }

  function Doubled(k: nat, n: nat): (r: nat)
    requires 0 < k < n
    ensures k <= r < n <= 2 * r
    decreases n - k
  {
    if k * 2 < n then Doubled(k * 2, n) else k
  }

  lemma {:induction false} DoubledIsPow2(k: nat, n: nat)
    requires 0 < k < n && IsPow2(k)
    ensures IsPow2(Doubled(k, n))
    decreases n - k
  {
    if k * 2 < n {
      DoubledIsPow2(k * 2, n);
    }
  }

  lemma SplitIsPow2(n: nat)
    requires n >= 2
    ensures IsPow2(Split(n))
  {
    DoubledIsPow2(1, n);
  }

  lemma {:induction false} Pow2Gap(k: nat, m: nat)
    requires IsPow2(k) && IsPow2(m) && k <= m < 2 * k
    ensures k == m
  {
    if k > 1 {
      Pow2Gap(k / 2, m / 2);
    }
  }

  lemma SplitUnique(n: nat, k: nat)
    requires n >= 2 && IsPow2(k) && k < n <= 2 * k
    ensures k == Split(n)
  {
    SplitIsPow2(n);
    if k <= Split(n) {
      Pow2Gap(k, Split(n));
    } else {
      Pow2Gap(Split(n), k);
    }
  }

  // Sizes that share a split point: every m above the split of n, up to n.
  lemma SplitShared(m: nat, n: nat)
    requires n >= 2 && Split(n) < m <= n
    ensures Split(m) == Split(n)
  {
    SplitIsPow2(n);
    SplitUnique(m, Split(n));
  }

  // Halving a size, rounding up, halves its split point.
  lemma SplitHalves(n: nat)
    requires n > 2
    ensures Split(n) == 2 * Split((n + 1) / 2)
  {
    var k := Split((n + 1) / 2);
    SplitIsPow2((n + 1) / 2);
    assert 2 * k / 2 == k;
    SplitUnique(n, 2 * k);
  }

  method LargestPowerOfTwoLessThan(n: int) returns (k: nat)
    ensures n < 2 ==> k == 0
    ensures n >= 2 ==> k == Split(n)
    ensures n >= 2 ==> IsPow2(k) && k < n && forall j: nat | IsPow2(j) && j < n :: j <= k
  {
    if n < 2 {
      return 0;
    }
    k := 1;
    while k * 2 < n
      invariant IsPow2(k) && k < n
    {
      k := k * 2;
    }
    SplitUnique(n, k);
    forall j: nat | IsPow2(j) && j < n
      ensures j <= k
    {
      if j > k {
        Pow2Gap(k, j);
      }
    }
  }
}
