/**
 * Circular index arithmetic over a fixed ring of `n` slots, the rule shared by
 * the gallery lightbox, the team carousel and the testimonial carousel:
 * stepping forward is `(a + 1) % n`, stepping back is `(a - 1 + n) % n`, and a
 * visible window of `w` entries starting at `a` holds `(a + k) % n` for
 * `k < w`. Every operand is non-negative, so Dafny's Euclidean `%` agrees with
 * JavaScript's truncating `%` here.
 */
module Ring {
  import Arith

  /** One step forward, wrapping from the last slot to the first. */
  function Next(a: nat, n: nat): (r: nat)
    requires 0 < n
    ensures r < n
    ensures a < n ==> r == (if a == n - 1 then 0 else a + 1)
  {
    Arith.DivModSucc(a, n);
    if a < n then Arith.DivModUnique(a, n, 0, a); (a + 1) % n else (a + 1) % n
  }

  /** One step back, wrapping from the first slot to the last. */
  function Prev(a: nat, n: nat): (r: nat)
    requires 0 < n
    ensures r < n
    ensures a < n ==> r == (if a == 0 then n - 1 else a - 1)
  {
    if a == 0 then
      Arith.DivModUnique(n - 1, n, 0, n - 1); (a - 1 + n) % n
    else if a < n then
      Arith.DivModUnique(a - 1 + n, n, 1, a - 1); (a - 1 + n) % n
    else
      (a - 1 + n) % n
  }

  /** The slot reached from `a` after `k` forward steps. */
  function Advance(a: nat, k: nat, n: nat): nat
    requires 0 < n
    decreases k
  {
    if k == 0 then a else Next(Advance(a, k - 1, n), n)
  }

  /** The slot reached from `a` after `k` backward steps. */
  function Retreat(a: nat, k: nat, n: nat): nat
    requires 0 < n
    decreases k
  {
    if k == 0 then a else Retreat(Prev(a, n), k - 1, n)
  }

  /** A step back undoes a step forward and vice versa. */
  lemma PrevNext(a: nat, n: nat)
    requires a < n
    ensures Prev(Next(a, n), n) == a
    ensures Next(Prev(a, n), n) == a
  {
  }

  /** `k` forward steps land on `(a + k) % n`: repeated stepping is modular addition. */
  lemma {:induction false} AdvanceIsOffset(a: nat, k: nat, n: nat)
    requires a < n
    ensures Advance(a, k, n) == (a + k) % n
    decreases k
  {
    if k == 0 {
      Arith.DivModUnique(a, n, 0, a);
    } else {
      AdvanceIsOffset(a, k - 1, n);
      Arith.DivModSucc(a + k - 1, n);
    }
  }

  /** Every slot reached by stepping forward is on the ring. */
  lemma AdvanceInRange(a: nat, k: nat, n: nat)
    requires a < n
    ensures Advance(a, k, n) < n
  {
    AdvanceIsOffset(a, k, n);
  }

  /** Stepping `k + 1` times is one step followed by `k` more. */
  lemma {:induction false} AdvanceFirst(a: nat, k: nat, n: nat)
    requires 0 < n
    ensures Advance(a, k + 1, n) == Advance(Next(a, n), k, n)
    decreases k
  {
    if k > 0 {
      AdvanceFirst(a, k - 1, n);
    }
  }

  /** `k` backward steps undo `k` forward steps. */
  lemma {:induction false} RetreatAdvance(a: nat, k: nat, n: nat)
    requires a < n
    ensures Retreat(Advance(a, k, n), k, n) == a
    decreases k
  {
    if k > 0 {
      var y := Advance(a, k - 1, n);
      AdvanceInRange(a, k - 1, n);
      PrevNext(y, n);
      RetreatAdvance(a, k - 1, n);
    }
  }

  /** Going `n` steps in either direction around a ring of `n` slots returns to the start. */
  lemma FullCycle(a: nat, n: nat)
    requires a < n
    ensures Advance(a, n, n) == a
    ensures Retreat(a, n, n) == a
  {
    AdvanceIsOffset(a, n, n);
    Arith.DivModUnique(a + n, n, 1, a);
    RetreatAdvance(a, n, n);
  }

  /** Two positions less than `n` apart never share a slot. */
  lemma ModInjective(x: nat, y: nat, n: nat)
    requires 0 < n && x < y < x + n
    ensures x % n != y % n
  {
    Arith.DivModOrder(x, y, n);
    if x / n < y / n {
      var d := y / n - x / n;
      assert y - x == d * n + y % n - x % n;
      Arith.MulAtLeast(d, n);
    }
  }

  /** The `w` slots shown by a carousel window whose first entry is `a`. */
  function Window(a: nat, w: nat, n: nat): (r: seq<nat>)
    requires a < n
    ensures |r| == w
    ensures forall k :: 0 <= k < w ==> r[k] == Advance(a, k, n) && r[k] < n
    ensures w <= n ==> forall k, k' :: 0 <= k < k' < w ==> r[k] != r[k']
  {
    var r := seq(w, k requires 0 <= k < w => (a + k) % n);
    assert forall k :: 0 <= k < w ==> r[k] == Advance(a, k, n) && r[k] < n by {
      forall k | 0 <= k < w ensures r[k] == Advance(a, k, n) && r[k] < n {
        AdvanceIsOffset(a, k, n);
      }
    }
    assert w <= n ==> forall k, k' :: 0 <= k < k' < w ==> r[k] != r[k'] by {
      if w <= n {
        forall k, k' | 0 <= k < k' < w ensures r[k] != r[k'] {
          ModInjective(a + k, a + k', n);
        }
      }
    }
    r
  }
}
