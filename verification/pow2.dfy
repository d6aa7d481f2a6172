/**
 Powers of two on natural numbers: the arithmetic meaning of the profiler's
 message-size classification, stated without any bit manipulation.
 */
module Pow2Math {

  /** 2 to the power k. */
  function Pow2(k: nat): (r: nat)
    ensures r >= 1
  {
    if k == 0 then 1 else 2 * Pow2(k - 1)
  }

  /** r is some power of two. */
  ghost predicate IsPow2(r: nat) {
    exists k: nat :: Pow2(k) == r
  }

  lemma {:induction false} Pow2Monotonic(j: nat, k: nat)
    requires j <= k
    ensures Pow2(j) <= Pow2(k)
    decreases k
  {
    if j < k {
      Pow2Monotonic(j, k - 1);
    }
  }

  /** The exponent of the greatest power of two not above x (floor of log2). */
  function Log2(x: nat): (k: nat)
    requires x >= 1
    ensures Pow2(k) <= x < Pow2(k + 1)
  {
    if x == 1 then 0 else 1 + Log2(x / 2)
  }

  /** Log2 is the only exponent that brackets x. */
  lemma Log2Unique(x: nat, k: nat)
    requires x >= 1
    ensures Log2(x) == k <==> Pow2(k) <= x < Pow2(k + 1)
  {
    var l := Log2(x);
    if Pow2(k) <= x < Pow2(k + 1) {
      if l < k {
        Pow2Monotonic(l + 1, k);
      } else if k < l {
        Pow2Monotonic(k + 1, l);
      }
    }
  }

  /** The greatest power of two that is at most x; 0 for x = 0. */
  function FloorPow2(x: nat): (r: nat)
    ensures x == 0 ==> r == 0
    ensures x >= 1 ==> IsPow2(r) && r <= x < 2 * r
  {
    if x == 0 then 0 else Pow2(Log2(x))
  }

  /** No power of two at most x exceeds FloorPow2(x). */
  lemma FloorPow2Greatest(x: nat, k: nat)
    requires Pow2(k) <= x
    ensures Pow2(k) <= FloorPow2(x)
  {
    var l := Log2(x);
    if l < k {
      Pow2Monotonic(l + 1, k);
    } else {
      Pow2Monotonic(k, l);
    }
  }

  /** FloorPow2(x) is 2^k exactly when x lies in [2^k, 2^(k+1)). */
  lemma FloorPow2Bracket(x: nat, k: nat)
    ensures FloorPow2(x) == Pow2(k) <==> Pow2(k) <= x < Pow2(k + 1)
  {
    if x >= 1 {
      Log2Unique(x, k);
      if FloorPow2(x) == Pow2(k) {
        Pow2Injective(Log2(x), k);
      }
    }
  }

  lemma Pow2Injective(j: nat, k: nat)
    requires Pow2(j) == Pow2(k)
    ensures j == k
  {
    Log2Unique(Pow2(j), j);
    Log2Unique(Pow2(k), k);
  }

  /** Rounding a power of two, or an already rounded value, changes nothing. */
  lemma FloorPow2Idempotent(x: nat, k: nat)
    ensures FloorPow2(Pow2(k)) == Pow2(k)
    ensures FloorPow2(FloorPow2(x)) == FloorPow2(x)
  {
    FloorPow2Bracket(Pow2(k), k);
    if x >= 1 {
      var l := Log2(x);
      FloorPow2Bracket(Pow2(l), l);
    }
  }

  /** Halving steps down one power: the recursion the bit trick follows. */
  lemma FloorPow2Half(x: nat)
    requires x >= 2
    ensures FloorPow2(x) == 2 * FloorPow2(x / 2)
  {
  }
}
