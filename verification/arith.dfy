/** Facts about Euclidean division that the index arithmetic relies on. */
module Arith {

  /** A positive multiple of `d` is at least `d`. */
  lemma {:induction false} MulAtLeast(a: int, d: int)
    requires 1 <= a && 0 <= d
    ensures a * d >= d
    decreases a
  {
    if a > 1 {
      MulAtLeast(a - 1, d);
      assert a * d == (a - 1) * d + d;
    }
  }

  /** Quotient and remainder are determined by any decomposition `n == q * d + r`. */
  lemma DivModUnique(n: int, d: int, q: int, r: int)
    requires 0 < d && 0 <= r < d && n == q * d + r
    ensures n / d == q && n % d == r
  {
    var q0, r0 := n / d, n % d;
    assert n == q0 * d + r0;
    if q > q0 {
      var x := q - q0;
      assert x * d == r0 - r;
      MulAtLeast(x, d);
    } else if q < q0 {
      var x := q0 - q;
      assert x * d == r - r0;
      MulAtLeast(x, d);
    }
  }

  /** Stepping the dividend by one either bumps the remainder or wraps it to zero. */
  lemma DivModSucc(n: nat, d: nat)
    requires 0 < d
    ensures n % d + 1 < d ==> (n + 1) / d == n / d && (n + 1) % d == n % d + 1
    ensures n % d + 1 == d ==> (n + 1) / d == n / d + 1 && (n + 1) % d == 0
  {
    if n % d + 1 < d {
      DivModUnique(n + 1, d, n / d, n % d + 1);
    } else {
      DivModUnique(n + 1, d, n / d + 1, 0);
    }
  }

  /** A smaller dividend has a smaller quotient, or the same quotient and a smaller remainder. */
  lemma DivModOrder(i: nat, n: nat, d: nat)
    requires 0 < d && i < n
    ensures i / d < n / d || (i / d == n / d && i % d < n % d)
  {
    var qi, qn := i / d, n / d;
    assert i == qi * d + i % d && n == qn * d + n % d;
    if qi > qn {
      var x := qi - qn;
      assert i - n == x * d + i % d - n % d;
      MulAtLeast(x, d);
    }
  }
}
