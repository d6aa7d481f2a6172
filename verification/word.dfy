/**
 The 32-bit `int` the counting code works on, as a bit pattern (`bv32`), and
 its value as a natural number. Only non-negative values below 2^31 occur in
 the model, where the signed and unsigned readings of the pattern agree.
 */
module Word {
  import opened Pow2Math

  /** The lowest bit of w is set. */
  predicate Odd(w: bv32) {
    w & 1 == 1
  }

  /** The unsigned value of a bit pattern, read one bit at a time from the low end. */
  function Val(w: bv32): nat
    decreases w
  {
    if w == 0 then 0 else 2 * Val(w >> 1) + (if Odd(w) then 1 else 0)
  }

  /** Bit i of w is set: the test `1<<i & buffer_size` makes, read one shift at a time. */
  predicate BitSet(w: bv32, i: nat)
    decreases i
  {
    if i == 0 then Odd(w) else BitSet(w >> 1, i - 1)
  }

  /** The pattern with bit k alone set: `1 << k`. */
  function Bit(k: nat): bv32
    requires k < 32
  {
    (1 as bv32) << (k as bv6)
  }

  lemma ValUnfold(w: bv32)
    ensures Val(w) == 2 * Val(w >> 1) + (if Odd(w) then 1 else 0)
  {
  }

  /** Doubling a pattern whose top bit is clear doubles its value. */
  lemma ValShiftLeft(v: bv32)
    requires v < 0x8000_0000
    ensures Val(v << 1) == 2 * Val(v)
  {
    assert (v << 1) >> 1 == v && !Odd(v << 1) && (v == 0 <==> v << 1 == 0);
  }

  /** Only the all-zero pattern has value 0. */
  lemma {:induction false} ValZero(w: bv32)
    ensures Val(w) == 0 <==> w == 0
    decreases w
  {
    if w != 0 && w >> 1 != 0 {
      ValZero(w >> 1);
    }
  }

  /** Dropping the lowest bit halves the value. */
  lemma ValHalf(w: bv32)
    ensures Val(w >> 1) == Val(w) / 2
  {
    ValUnfold(w);
  }

  /** The only pattern of value 1 is 1. */
  lemma ValOne(r: bv32)
    requires Val(r) == 1
    ensures r == 1
  {
    ValUnfold(r);
    ValZero(r >> 1);
    assert r >> 1 == 0 && Odd(r);
  }

  /** A pattern of value 2^n, n at least 1, is even and its half has value 2^(n-1). */
  lemma HalfOfPow2Val(c: bv32, n: nat)
    requires n >= 1 && Val(c) == Pow2(n)
    ensures !Odd(c) && Val(c >> 1) == Pow2(n - 1)
  {
    ValUnfold(c);
  }

  lemma BelowEven(w: bv32, c: bv32)
    requires w >> 1 < c >> 1 && !Odd(c)
    ensures w < c
  {
  }

  /** Order of values carries over to patterns: below a pattern of value 2^n means below the pattern. */
  lemma {:induction false} ValBelow(w: bv32, c: bv32, n: nat)
    requires Val(c) == Pow2(n) && Val(w) < Pow2(n)
    ensures w < c
    decreases n
  {
    if n == 0 {
      ValZero(c);
      ValZero(w);
      assert 0 < c;
    } else {
      var wh, ch := w >> 1, c >> 1;
      HalfOfPow2Val(c, n);
      ValHalf(w);
      ValBelow(wh, ch, n - 1);
      BelowEven(w, c);
    }
  }

  lemma Bv6RoundTrip(k: nat)
    requires k < 32
    ensures (k as bv6) as int == k
  {
  }

  /** Shift amounts: k - 1 converts to one less than k. */
  lemma Bv6Pred(k: nat)
    requires 1 <= k < 32
    ensures ((k - 1) as bv6) == (k as bv6) - 1
  {
    Bv6RoundTrip(k);
    Bv6RoundTrip(k - 1);
  }

  lemma Bv6Range(k: nat)
    requires k < 32
    ensures (k as bv6) < 32 && (k < 31 ==> (k as bv6) < 31) && (k >= 1 ==> (k as bv6) >= 1)
  {
  }

  lemma ShiftStep(a: bv6)
    requires 1 <= a < 32
    ensures (1 as bv32) << a == ((1 as bv32) << (a - 1)) << 1
  {
  }

  lemma ShiftBelowTop(a: bv6)
    requires a < 31
    ensures (1 as bv32) << a < 0x8000_0000
  {
  }

  /** Each pattern `1 << k` is the previous one shifted left by one. */
  lemma BitStep(k: nat)
    requires 1 <= k < 32
    ensures Bit(k) == Bit(k - 1) << 1
  {
    Bv6Pred(k);
    Bv6Range(k);
    ShiftStep(k as bv6);
  }

  lemma BitBelowTop(k: nat)
    requires k < 31
    ensures Bit(k) < 0x8000_0000
  {
    Bv6Range(k);
    ShiftBelowTop(k as bv6);
  }

  /** The pattern `1 << k` has value 2^k. */
  lemma {:induction false} ValPow2(k: nat)
    requires k < 31
    ensures Val(Bit(k)) == Pow2(k)
  {
    if k == 0 {
      assert Val(1) == 2 * Val(0) + 1;
    } else {
      var p := Bit(k - 1);
      BitStep(k);
      BitBelowTop(k - 1);
      ValPow2(k - 1);
      ValShiftLeft(p);
    }
  }

  lemma MaskShift(a: bv6, w: bv32, h: bv32)
    requires 1 <= a < 32 && h == w >> 1
    ensures ((1 as bv32) << a) & w != 0 <==> ((1 as bv32) << (a - 1)) & h != 0
  {
  }

  lemma MaskStep(w: bv32, h: bv32, i: nat)
    requires 1 <= i < 32 && h == w >> 1
    ensures Bit(i) & w != 0 <==> Bit(i - 1) & h != 0
  {
    Bv6Pred(i);
    Bv6Range(i);
    MaskShift(i as bv6, w, h);
  }

  /** The bit test agrees with the source's mask `1 << i`. */
  lemma {:induction false} BitSetIsMask(w: bv32, i: nat)
    requires i < 32
    ensures BitSet(w, i) <==> Bit(i) & w != 0
    decreases i
  {
    if i == 0 {
      BitZero();
    } else {
      var h := w >> 1;
      BitSetIsMask(h, i - 1);
      MaskStep(w, h, i);
      BitSetUnfold(w, h, i);
    }
  }

  lemma BitZero()
    ensures Bit(0) == 1
  {
    Bv6RoundTrip(0);
  }

  lemma BitSetUnfold(w: bv32, h: bv32, i: nat)
    requires i >= 1 && h == w >> 1
    ensures BitSet(w, i) == BitSet(h, i - 1)
  {
  }

  /** No bit of the zero pattern is set. */
  lemma {:induction false} BitSetOfZero(i: nat)
    ensures !BitSet(0, i)
    decreases i
  {
    if i > 0 {
      BitSetOfZero(i - 1);
    }
  }

  /** A pattern of value 2^k has bit k set and no other. */
  lemma {:induction false} BitSetOfPow2Val(r: bv32, k: nat, j: nat)
    requires Val(r) == Pow2(k)
    ensures BitSet(r, j) <==> j == k
    decreases k
  {
    if k == 0 {
      ValOne(r);
      if j > 0 {
        assert (1 as bv32) >> 1 == 0;
        BitSetOfZero(j - 1);
      }
    } else {
      HalfOfPow2Val(r, k);
      if j > 0 {
        BitSetOfPow2Val(r >> 1, k - 1, j - 1);
      }
    }
  }

  /** h with one more bit appended at the low end. */
  function Append(h: bv32, odd: bool): bv32 {
    (h << 1) | (if odd then 1 else 0)
  }

  lemma AppendShift(h: bv32, odd: bool)
    requires h < 0x8000_0000
    ensures Append(h, odd) >> 1 == h
  {
  }

  lemma AppendOdd(h: bv32, odd: bool)
    ensures Odd(Append(h, odd)) <==> odd
  {
  }

  /** Appending a bit doubles the value and adds the bit. */
  lemma AppendVal(h: bv32, odd: bool)
    requires h < 0x8000_0000
    ensures Val(Append(h, odd)) == 2 * Val(h) + (if odd then 1 else 0)
  {
    var w := Append(h, odd);
    AppendShift(h, odd);
    AppendOdd(h, odd);
    ValUnfold(w);
  }

  /** The pattern 0x4000_0000, `1 << 30`, has value 2^30. */
  lemma ValOfTop30()
    ensures Val(0x4000_0000) == Pow2(30)
  {
    ValPow2(30);
  }

  /** A pattern of value below 2^30 is below 0x4000_0000. */
  lemma ValBelowTop30(w: bv32)
    requires Val(w) < Pow2(30)
    ensures w < 0x4000_0000
  {
    ValOfTop30();
    ValBelow(w, 0x4000_0000, 30);
  }

  /**
   The pattern an `int` holds after being assigned the non-negative value x
   (x below 2^31, so the sign bit stays clear).
   */
  function FromNat(x: nat): (w: bv32)
    requires x < Pow2(31)
    ensures Val(w) == x
  {
    if x == 0 then 0
    else
      var h := FromNat(x / 2);
      var odd := x % 2 == 1;
      ValBelowTop30(h);
      assert h < 0x8000_0000;
      AppendVal(h, odd);
      assert x == 2 * Val(h) + (if odd then 1 else 0);
      Append(h, odd)
  }
}
