/** Bitwise operations on unbounded naturals. */
module Bits {

  function And(x: nat, y: nat): nat {
    if x == 0 || y == 0 then 0 else (if x % 2 == 1 && y % 2 == 1 then 1 else 0) + 2 * And(x / 2, y / 2)
  }

  function Xor(x: nat, y: nat): nat
    decreases x + y
  {
    if x == 0 then y else if y == 0 then x else (if x % 2 != y % 2 then 1 else 0) + 2 * Xor(x / 2, y / 2)
  }

  predicate IsPow2(n: nat) {
    n == 1 || (n > 0 && n % 2 == 0 && IsPow2(n / 2))
  }

  function Pow2(k: nat): (p: nat)
    ensures p > 0
  {
    if k == 0 then 1 else 2 * Pow2(k - 1)
  }

  /** The remainder, by repeated subtraction. */
  ghost function Mod(x: nat, n: nat): nat
    requires n > 0
  {
    if x < n then x else Mod(x - n, n)
  }

  lemma {:induction false} ModDouble(x: nat, n: nat)
    requires n > 0
    ensures Mod(x, 2 * n) == x % 2 + 2 * Mod(x / 2, n)
  {
    if x >= 2 * n {
      ModDouble(x - 2 * n, n);
      assert (x - 2 * n) / 2 == x / 2 - n && (x - 2 * n) % 2 == x % 2;
    }
  }

  /** Masking with a power of two less one is taking the remainder. */
  lemma {:induction false} AndMask(x: nat, n: nat)
    requires IsPow2(n)
    ensures And(x, n - 1) == Mod(x, n)
  {
    if n == 1 {
      ModOne(x);
    } else {
      AndMask(x / 2, n / 2);
      ModDouble(x, n / 2);
      assert (n - 1) / 2 == n / 2 - 1 && (n - 1) % 2 == 1;
    }
  }

  lemma {:induction false} ModOne(x: nat)
    ensures Mod(x, 1) == 0
  {
    if x > 0 { ModOne(x - 1); }
  }

  lemma {:induction false} ModRange(x: nat, n: nat)
    requires n > 0
    ensures Mod(x, n) < n
  {
    if x >= n { ModRange(x - n, n); }
  }

  lemma {:induction false} ModNext(x: nat, n: nat)
    requires n > 1
    ensures Mod(x + 1, n) == if Mod(x, n) + 1 == n then 0 else Mod(x, n) + 1
  {
    if x >= n { ModNext(x - n, n); }
  }

  /** Numbers with one remainder are at least `n` apart. */
  lemma {:induction false} ModApart(a: nat, b: nat, n: nat)
    requires n > 0 && a < b && Mod(a, n) == Mod(b, n)
    ensures a + n <= b
  {
    if b >= n {
      if a >= n {
        ModApart(a - n, b - n, n);
      }
    }
  }

  /** The position of the highest set bit. */
  function Log2(n: nat): nat
    requires n > 0
  {
    if n == 1 then 0 else 1 + Log2(n / 2)
  }

  lemma {:induction false} Log2Bounds(n: nat)
    requires n > 0
    ensures Pow2(Log2(n)) <= n < 2 * Pow2(Log2(n))
  {
    if n > 1 { Log2Bounds(n / 2); }
  }

  lemma {:induction false} Pow2Grows(a: nat, b: nat)
    requires a < b
    ensures 2 * Pow2(a) <= Pow2(b)
  {
    if a < b - 1 { Pow2Grows(a, b - 1); }
  }

  /** Between two powers of two the logarithm is that of the lower. */
  lemma Log2Unique(n: nat, k: nat)
    requires Pow2(k) <= n < 2 * Pow2(k)
    ensures Log2(n) == k
  {
    Log2Bounds(n);
    if Log2(n) < k { Pow2Grows(Log2(n), k); }
    if k < Log2(n) { Pow2Grows(k, Log2(n)); }
  }

  /** Clearing the highest bit subtracts it. */
  lemma {:induction false} XorTop(n: nat)
    requires n > 0
    ensures Xor(n, Pow2(Log2(n))) == n - Pow2(Log2(n))
  {
    if n > 1 {
      XorTop(n / 2);
      XorDouble(n, Pow2(Log2(n / 2)));
    }
  }

  lemma {:induction false} XorDouble(n: nat, q: nat)
    requires n > 0 && q > 0
    ensures Xor(n, 2 * q) == n % 2 + 2 * Xor(n / 2, q)
  {
    assert 2 * q / 2 == q && 2 * q % 2 == 0;
  }

  /** The test for a power of two: the highest bit is the only one. */
  lemma {:induction false} AndLess(n: nat)
    requires n > 0
    ensures And(n, n - 1) == 0 <==> n == Pow2(Log2(n))
  {
    if n > 1 {
      if n % 2 == 0 {
        AndLess(n / 2);
        assert (n - 1) / 2 == n / 2 - 1 && (n - 1) % 2 == 1;
      } else {
        AndSelf(n / 2);
        assert (n - 1) / 2 == n / 2 && (n - 1) % 2 == 0;
      }
    }
  }

  lemma {:induction false} AndSelf(n: nat)
    ensures And(n, n) == n
  {
    if n > 0 { AndSelf(n / 2); }
  }

  lemma {:induction false} AndCommutes(x: nat, y: nat)
    ensures And(x, y) == And(y, x)
  {
    if x > 0 && y > 0 { AndCommutes(x / 2, y / 2); }
  }
}
