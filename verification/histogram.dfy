/**
 One message-size histogram (`ar_arr` or `bc_arr`): COLL_COUNT_MAX integer
 counters, and the update one counting call makes to it.
 */
module Histogram {
  import opened Pow2Math
  import opened Word
  import opened BitSmear

  /** Number of counters per histogram. */
  const CollCountMax: nat := 32

  datatype Option<T> = None | Some(value: T)

  /**
   The counter the counting code increments for a message of x bytes, stated
   without bits: 0 for an empty message, nothing at all for a one-byte message,
   and otherwise the exponent of the greatest power of two not above x.
   */
  function Bucket(x: nat): Option<nat> {
    if x == 0 then Some(0)
    else if x == 1 then None
    else Some(Log2(x))
  }

  /** 1 at the bucket b selects, 0 elsewhere. */
  function Hit(b: Option<nat>, j: nat): int {
    if b == Some(j) then 1 else 0
  }

  /** Sizes 2 and above land in bucket k exactly when they lie in [2^k, 2^(k+1)). */
  lemma BucketCharacterization(x: nat, k: nat)
    ensures Bucket(x) == Some(0) <==> x == 0
    ensures Bucket(x) == None <==> x == 1
    ensures k >= 1 ==> (Bucket(x) == Some(k) <==> Pow2(k) <= x < Pow2(k + 1))
  {
    if x >= 1 {
      Log2Unique(x, k);
      Log2Unique(x, 0);
    }
  }

  /** Below 2^30 every selected bucket is below 30, so inside the histogram. */
  lemma BucketBound(x: nat)
    requires x < Pow2(30)
    ensures Bucket(x).Some? ==> Bucket(x).value < 30
  {
    if x >= 2 && Log2(x) >= 30 {
      Pow2Monotonic(30, Log2(x));
    }
  }

  /**
   The bucket loop of `count_metric_ar` and `count_metric_bc`: for i from
   `first` to COLL_COUNT_MAX - 1, increment counter i
   when bit i of the rounded size is set.
   */
  function ScanBits(hist: seq<int>, rounded: bv32, first: nat): (r: seq<int>)
    requires |hist| == CollCountMax && 1 <= first <= CollCountMax
    ensures |r| == CollCountMax
    decreases CollCountMax - first
  {
    if first == CollCountMax then hist
    else
      var next := if BitSet(rounded, first) then hist[first := hist[first] + 1] else hist;
      ScanBits(next, rounded, first + 1)
  }

  /** The scan adds one to counter j when j is at or after `first` and bit j is set, and leaves it otherwise. */
  lemma {:induction false} ScanBitsAt(hist: seq<int>, rounded: bv32, first: nat, j: nat)
    requires |hist| == CollCountMax && 1 <= first <= CollCountMax && j < CollCountMax
    ensures ScanBits(hist, rounded, first)[j] == hist[j] + (if first <= j && BitSet(rounded, j) then 1 else 0)
    decreases CollCountMax - first
  {
    if first < CollCountMax {
      var next := if BitSet(rounded, first) then hist[first := hist[first] + 1] else hist;
      ScanBitsAt(next, rounded, first + 1, j);
    }
  }

  /** For sizes 1 and above the scan hits exactly the counter of the size's bucket. */
  lemma ScanOfSize(hist: seq<int>, size: nat, j: nat)
    requires |hist| == CollCountMax && 1 <= size < Pow2(30) && j < CollCountMax
    ensures ScanBits(hist, RoundDown(SizeWord(size)), 1)[j] == hist[j] + Hit(Bucket(size), j)
  {
    var w := SizeWord(size);
    var rounded := RoundDown(w);
    RoundDownIsFloorPow2(w);
    ScanBitsAt(hist, rounded, 1, j);
    BitSetOfPow2Val(rounded, Log2(size), j);
  }

  /**
   The counting step of `count_metric_ar` and `count_metric_bc`: one call. A size of 0 increments counter 0; any
   other size increments the counter of its power of two, except that a
   one-byte size (power 2^0) is dropped because the loop starts at 1.
   Nothing else changes.
   */
  function Count(hist: seq<int>, size: nat): (r: seq<int>)
    requires |hist| == CollCountMax && size < Pow2(30)
    ensures |r| == CollCountMax
    ensures forall j :: 0 <= j < CollCountMax ==> r[j] == hist[j] + Hit(Bucket(size), j)
  {
    var rounded := RoundDown(SizeWord(size));
    if rounded == 0 then
      hist[0 := hist[0] + 1]
    else
      var r := ScanBits(hist, rounded, 1);
      assert forall j :: 0 <= j < CollCountMax ==> r[j] == hist[j] + Hit(Bucket(size), j) by {
        forall j | 0 <= j < CollCountMax
          ensures r[j] == hist[j] + Hit(Bucket(size), j)
        {
          ScanOfSize(hist, size, j);
        }
      }
      r
  }

  /** An empty message increments counter 0; a one-byte message changes nothing. */
  lemma CountEdgeSizes(hist: seq<int>)
    requires |hist| == CollCountMax
    ensures Count(hist, 0) == hist[0 := hist[0] + 1]
    ensures Count(hist, 1) == hist
  {
    assert Bucket(0) == Some(0) && Bucket(1) == None;
    assert Count(hist, 0) == hist[0 := hist[0] + 1];
    assert Count(hist, 1) == hist;
  }

  /** For sizes 2 and above the counter index is the exponent of the rounded size. */
  lemma BucketOfRoundedSize(size: nat)
    requires 2 <= size < Pow2(30)
    ensures Bucket(size).Some? && Pow2(Bucket(size).value) == RoundedSize(size)
  {
  }

  /** Sum of all counters. */
  function Sum(s: seq<int>): int {
    if |s| == 0 then 0 else s[0] + Sum(s[1..])
  }

  lemma {:induction false} SumIncrement(s: seq<int>, j: nat)
    requires j < |s|
    ensures Sum(s[j := s[j] + 1]) == Sum(s) + 1
  {
    if j > 0 {
      assert s[j := s[j] + 1][1..] == s[1..][j - 1 := s[j] + 1];
      SumIncrement(s[1..], j - 1);
    } else {
      assert s[j := s[j] + 1][1..] == s[1..];
    }
  }

  /** The histogram with one more at the counter b selects, if any. */
  function Bump(hist: seq<int>, b: Option<nat>): seq<int> {
    if b.Some? && b.value < |hist| then hist[b.value := hist[b.value] + 1] else hist
  }

  /** A bump adds one to the total exactly when it selects a counter. */
  lemma BumpTotal(hist: seq<int>, b: Option<nat>)
    ensures Sum(Bump(hist, b)) == Sum(hist) + (if b.Some? && b.value < |hist| then 1 else 0)
  {
    if b.Some? && b.value < |hist| {
      SumIncrement(hist, b.value);
    }
  }

  /** A counting call is a bump of the size's bucket, for every size the code handles. */
  lemma CountIsBump(hist: seq<int>, size: nat)
    requires |hist| == CollCountMax && size < Pow2(30)
    ensures Bucket(size).Some? ==> Bucket(size).value < CollCountMax
    ensures Count(hist, size) == Bump(hist, Bucket(size))
  {
    BucketBound(size);
    var r, e := Count(hist, size), Bump(hist, Bucket(size));
    assert |r| == |e|;
    forall j | 0 <= j < |r|
      ensures r[j] == e[j]
    {
    }
  }

  /** Every call adds exactly one to the total count, except a one-byte call, which adds nothing. */
  lemma CountTotal(hist: seq<int>, size: nat)
    requires |hist| == CollCountMax && size < Pow2(30)
    ensures Sum(Count(hist, size)) == Sum(hist) + (if size == 1 then 0 else 1)
  {
    var bucket := Bucket(size);
    CountIsBump(hist, size);
    BumpTotal(hist, bucket);
    BucketCharacterization(size, 0);
  }

  /** At most one counter changes, and only by one. */
  lemma CountTouchesOneCounter(hist: seq<int>, size: nat, i: nat, j: nat)
    requires |hist| == CollCountMax && size < Pow2(30)
    requires i < CollCountMax && j < CollCountMax
    requires Count(hist, size)[i] != hist[i] && Count(hist, size)[j] != hist[j]
    ensures i == j && Count(hist, size)[i] == hist[i] + 1
  {
  }

  /** Which counter changes depends on the size alone, not on the histogram's contents. */
  lemma CountIndexIndependentOfContents(h1: seq<int>, h2: seq<int>, size: nat, j: nat)
    requires |h1| == CollCountMax && |h2| == CollCountMax && size < Pow2(30) && j < CollCountMax
    ensures Count(h1, size)[j] - h1[j] == Count(h2, size)[j] - h2[j]
  {
  }

  /** The all-zero histogram. */
  function Zeroes(): (h: seq<int>)
    ensures |h| == CollCountMax && Sum(h) == 0
    ensures forall i :: 0 <= i < |h| ==> h[i] == 0
  {
    var h := seq(CollCountMax, _ => 0);
    SumOfZeroes(h);
    h
  }

  lemma {:induction false} SumOfZeroes(s: seq<int>)
    requires forall i :: 0 <= i < |s| ==> s[i] == 0
    ensures Sum(s) == 0
  {
    if |s| > 0 {
      SumOfZeroes(s[1..]);
    }
  }
}
