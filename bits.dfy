/**
 * The `usize` bit arithmetic the buffer relies on: `&`, the power-of-two
 * test `n & (n - 1) == 0`, and wrap-around by `& mask`.
 */
module Bits {
  /** Bitwise AND of two naturals, bit by bit from the least significant. */
  function And(a: nat, b: nat): nat
    decreases a
  {
    if a == 0 || b == 0 then 0
    else 2 * And(a / 2, b / 2) + (if a % 2 == 1 && b % 2 == 1 then 1 else 0)
  }

  /** n is 2^k for some k >= 0. */
  predicate IsPowerOfTwo(n: nat)
    decreases n
  {
    n == 1 || (n >= 2 && n % 2 == 0 && IsPowerOfTwo(n / 2))
  }

  lemma {:induction false} AndSelf(a: nat)
    ensures And(a, a) == a
    decreases a
  {
    if a != 0 {
      AndSelf(a / 2);
    }
  }

  /** The test `n & (n - 1) == 0` accepts exactly the powers of two. */
  lemma {:induction false} MaskTestIsPowerOfTwo(n: nat)
    requires n > 0
    ensures And(n, n - 1) == 0 <==> IsPowerOfTwo(n)
    decreases n
  {
    if n == 1 {
    } else if n % 2 == 0 {
      assert (n - 1) / 2 == n / 2 - 1;
      assert And(n, n - 1) == 2 * And(n / 2, n / 2 - 1);
      MaskTestIsPowerOfTwo(n / 2);
    } else {
      assert (n - 1) / 2 == n / 2;
      AndSelf(n / 2);
      assert And(n, n - 1) == 2 * (n / 2);
    }
  }

  /** With a power-of-two n, `x & (n - 1)` is `x % n`. */
  lemma {:induction false} MaskIsMod(x: nat, n: nat)
    requires IsPowerOfTwo(n)
    ensures And(x, n - 1) == x % n
    decreases n
  {
    if n == 1 {
    } else if x == 0 {
    } else {
      assert (n - 1) / 2 == n / 2 - 1;
      MaskIsMod(x / 2, n / 2);
      assert And(x, n - 1) == 2 * ((x / 2) % (n / 2)) + x % 2;
      HalvingMod(x, n);
    }
  }

  /** No multiple of three is a power of two. */
  lemma {:induction false} ThreeTimesIsNotPowerOfTwo(p: nat)
    requires p > 0
    ensures !IsPowerOfTwo(3 * p)
    decreases p
  {
    if p % 2 == 0 {
      assert (3 * p) / 2 == 3 * (p / 2);
      ThreeTimesIsNotPowerOfTwo(p / 2);
    } else {
      assert (3 * p) % 2 == 1;
    }
  }

  lemma HalvingMod(x: nat, n: nat)
    requires n >= 2 && n % 2 == 0
    ensures x % n == 2 * ((x / 2) % (n / 2)) + x % 2
  {
    var h := n / 2;
    var q := x / 2;
    assert q == h * (q / h) + q % h;
    assert x == n * (q / h) + (2 * (q % h) + x % 2);
    ModUnique(x, n, q / h, 2 * (q % h) + x % 2);
  }

  /** Euclidean remainders are unique. */
  lemma ModUnique(x: int, n: int, a: int, s: int)
    requires n > 0 && 0 <= s < n && x == n * a + s
    ensures x % n == s && x / n == a
  {
    var d, r := x / n, x % n;
    assert n * (a - d) == r - s;
    MulOutsideUnit(n, a - d);
  }

  /** A non-zero multiple of n is at least n away from zero. */
  lemma MulOutsideUnit(n: int, k: int)
    requires n > 0
    ensures k >= 1 ==> n * k >= n
    ensures k <= -1 ==> n * k <= -n
  {
    if k >= 1 {
      assert n * k == n + n * (k - 1);
    } else if k <= -1 {
      assert n * k == -n + n * (k + 1);
    }
  }

  /** Below 2n, the remainder by n takes off n at most once. */
  lemma ModBelowTwice(x: int, n: int)
    requires n > 0 && 0 <= x < 2 * n
    ensures x % n == if x < n then x else x - n
  {
    if x < n {
      ModUnique(x, n, 0, x);
    } else {
      ModUnique(x, n, 1, x - n);
    }
  }
}
