/**
 The bit trick `count_metric_ar` and `count_metric_bc` use to round a message
 size down to a power of two: smear the highest set bit into every lower
 position with five OR-shift steps, add one, shift right by one.
 */
module BitSmear {
  import opened Pow2Math
  import opened Word

  /** Sizes handled without signed overflow are those below 2^30. */
  const SizeLimit: bv32 := 0x4000_0000

  /**
   The five OR-shift steps: every bit below the highest set bit becomes set,
   so the result is at least w, one less than a power of two (or all ones),
   and its half is below w: 2^n - 1 for the bit length n of w, and 0 for 0.
   */
  function Smear(w: bv32): (r: bv32)
    ensures w <= r && r & (r + 1) == 0
    ensures w == 0 ==> r == 0
    ensures w != 0 ==> r >> 1 < w
  {
    var a := w | (w >> 1);
    var b := a | (a >> 2);
    var c := b | (b >> 4);
    var d := c | (c >> 8);
    d | (d >> 16)
  }

  /** At and above 2^30 (and below 2^31) the smeared value is INT_MAX, so the increment overflows. */
  lemma SmearSaturates(w: bv32)
    requires SizeLimit <= w < 0x8000_0000
    ensures Smear(w) == 0x7FFF_FFFF
  {
  }

  /** Smear, increment, shift right: the highest set bit of w alone, or 0 for 0. */
  function RoundDown(w: bv32): (r: bv32)
    requires w < SizeLimit
    ensures w == 0 ==> r == 0
    ensures w != 0 ==> r != 0 && r & (r - 1) == 0 && r <= w < r * 2
  {
    (Smear(w) + 1) >> 1
  }

  /** Rounding an already rounded pattern leaves it alone. */
  lemma RoundDownIdempotent(w: bv32)
    requires w < SizeLimit
    ensures RoundDown(RoundDown(w)) == RoundDown(w)
  {
  }

  /** Above 1 the trick commutes with halving: round the half, then double. */
  lemma RoundDownOfHalf(w: bv32)
    requires w < SizeLimit && w >> 1 != 0
    ensures w >> 1 < w && RoundDown(w >> 1) < 0x8000_0000
    ensures RoundDown(w) == RoundDown(w >> 1) << 1
  {
  }

  lemma RoundDownOfOne(w: bv32)
    requires w != 0 && w >> 1 == 0
    ensures w == 1 && RoundDown(w) == 1
  {
  }

  lemma HalfAtLeastOne(w: bv32)
    requires w >> 1 != 0
    ensures Val(w) >= 2
  {
    ValUnfold(w);
    ValZero(w >> 1);
  }

  /** The value of the rounded pattern is the greatest power of two not above the value of w. */
  lemma {:induction false} RoundDownIsFloorPow2(w: bv32)
    requires w < SizeLimit
    ensures Val(RoundDown(w)) == FloorPow2(Val(w))
    decreases w
  {
    if w == 0 {
      assert Val(0) == 0;
    } else if w >> 1 == 0 {
      RoundDownOfOne(w);
      assert Val(1) == 2 * Val(0) + 1;
    } else {
      var h := w >> 1;
      RoundDownOfHalf(w);
      var r := RoundDown(h);
      RoundDownIsFloorPow2(h);
      ValShiftLeft(r);
      ValHalf(w);
      HalfAtLeastOne(w);
      FloorPow2Half(Val(w));
    }
  }

  /** The pattern a size below 2^30 is stored in, ready for the bit trick. */
  function SizeWord(size: nat): (w: bv32)
    requires size < Pow2(30)
    ensures w < SizeLimit && Val(w) == size
    ensures w == 0 <==> size == 0
  {
    Pow2Monotonic(30, 31);
    var w := FromNat(size);
    ValBelowTop30(w);
    ValZero(w);
    w
  }

  /**
   The rounding step of `count_metric_ar` and `count_metric_bc` on a message
   size: store it in an `int`, round it with the bit trick, read the result. For 0 <= size < 2^30 this is the greatest power
   of two not above size (and 0 for 0).
   */
  function RoundedSize(size: nat): (r: nat)
    requires size < Pow2(30)
    ensures r == FloorPow2(size)
  {
    RoundDownIsFloorPow2(SizeWord(size));
    Val(RoundDown(SizeWord(size)))
  }

  /** A power of two comes back unchanged, and rounding twice is rounding once. */
  lemma RoundedSizeIdempotent(x: nat, k: nat)
    requires x < Pow2(30) && k < 30
    ensures Pow2(k) < Pow2(30) && RoundedSize(Pow2(k)) == Pow2(k)
    ensures RoundedSize(x) < Pow2(30) && RoundedSize(RoundedSize(x)) == RoundedSize(x)
  {
    Pow2Monotonic(k + 1, 30);
    FloorPow2Idempotent(x, k);
  }
}
