/**
 The profiler's process-wide counters: one histogram for Allreduce
 (`ar_arr`) and one for Broadcast (`bc_arr`), zeroed by `init_metrics` and
 updated by `count_metric_ar` and `count_metric_bc`.
 */
module Metrics {
  import opened Pow2Math
  import opened BitSmear
  import opened Histogram

  /** The two profiled collectives, each with its own histogram. */
  datatype Collective = Allreduce | Broadcast

  function Other(c: Collective): Collective {
    match c
    case Allreduce => Broadcast
    case Broadcast => Allreduce
  }

  /** `ar_arr` and `bc_arr`. */
  datatype State = State(arArr: seq<int>, bcArr: seq<int>) {
    predicate Valid() {
      |arArr| == CollCountMax && |bcArr| == CollCountMax
    }

    /** The histogram a collective is counted in. */
    function Counters(c: Collective): seq<int> {
      match c
      case Allreduce => arArr
      case Broadcast => bcArr
    }
  }

  /** `init_metrics`: both histograms hold COLL_COUNT_MAX zeroes. */
  function InitMetrics(): (m: State)
    ensures m.Valid()
    ensures forall i :: 0 <= i < CollCountMax ==> m.arArr[i] == 0 && m.bcArr[i] == 0
    ensures Sum(m.arArr) == 0 && Sum(m.bcArr) == 0
  {
    State(Zeroes(), Zeroes())
  }

  /**
   `count_metric_ar` (c = Allreduce) and `count_metric_bc` (c = Broadcast):
   the selected histogram gains one at the size's bucket, if it has one; the
   other histogram is untouched.
   */
  function CountMetric(m: State, c: Collective, size: nat): (m': State)
    requires m.Valid() && size < Pow2(30)
    ensures m'.Valid()
    ensures m'.Counters(Other(c)) == m.Counters(Other(c))
    ensures forall j :: 0 <= j < CollCountMax ==>
      m'.Counters(c)[j] == m.Counters(c)[j] + Hit(Bucket(size), j)
  {
    match c
    case Allreduce => m.(arArr := Count(m.arArr, size))
    case Broadcast => m.(bcArr := Count(m.bcArr, size))
  }

  /** Both counting functions pick the same counter for the same size. */
  lemma SameBucketForBothCollectives(m: State, size: nat, j: nat)
    requires m.Valid() && size < Pow2(30) && j < CollCountMax
    ensures CountMetric(m, Allreduce, size).arArr[j] - m.arArr[j]
         == CountMetric(m, Broadcast, size).bcArr[j] - m.bcArr[j]
  {
  }

  /** Every size of a run is one the counting code handles. */
  predicate AllBelowLimit(sizes: seq<nat>) {
    forall i :: 0 <= i < |sizes| ==> sizes[i] < Pow2(30)
  }

  /** A run of calls to one collective, in order. */
  function CountAll(m: State, c: Collective, sizes: seq<nat>): (m': State)
    requires m.Valid() && AllBelowLimit(sizes)
    ensures m'.Valid()
    ensures m'.Counters(Other(c)) == m.Counters(Other(c))
    decreases |sizes|
  {
    if |sizes| == 0 then m
    else CountAll(CountMetric(m, c, sizes[0]), c, sizes[1..])
  }

  /** How many sizes of a run fall into bucket j. */
  function Occurrences(sizes: seq<nat>, j: nat): nat {
    if |sizes| == 0 then 0
    else (if Bucket(sizes[0]) == Some(j) then 1 else 0) + Occurrences(sizes[1..], j)
  }

  /** How many sizes of a run are counted at all (all but the one-byte ones). */
  function Counted(sizes: seq<nat>): nat {
    if |sizes| == 0 then 0
    else (if sizes[0] == 1 then 0 else 1) + Counted(sizes[1..])
  }

  /** After a run, counter j has grown by the number of sizes in bucket j. */
  lemma {:induction false} CountAllBuckets(m: State, c: Collective, sizes: seq<nat>, j: nat)
    requires m.Valid() && AllBelowLimit(sizes) && j < CollCountMax
    ensures CountAll(m, c, sizes).Counters(c)[j] == m.Counters(c)[j] + Occurrences(sizes, j)
    decreases |sizes|
  {
    if |sizes| > 0 {
      var m1 := CountMetric(m, c, sizes[0]);
      CountAllBuckets(m1, c, sizes[1..], j);
    }
  }

  /** After a run, the histogram's total has grown by the number of sizes other than 1. */
  lemma {:induction false} CountAllTotal(m: State, c: Collective, sizes: seq<nat>)
    requires m.Valid() && AllBelowLimit(sizes)
    ensures Sum(CountAll(m, c, sizes).Counters(c)) == Sum(m.Counters(c)) + Counted(sizes)
    decreases |sizes|
  {
    if |sizes| > 0 {
      var m1 := CountMetric(m, c, sizes[0]);
      assert m1.Counters(c) == Count(m.Counters(c), sizes[0]);
      CountTotal(m.Counters(c), sizes[0]);
      CountAllTotal(m1, c, sizes[1..]);
    }
  }

  /** From `init_metrics`, counter j of the counted collective ends at the number of sizes in bucket j; the other stays 0. */
  lemma CountAllFromInit(m: State, c: Collective, sizes: seq<nat>, j: nat)
    requires m == InitMetrics() && AllBelowLimit(sizes) && j < CollCountMax
    ensures CountAll(m, c, sizes).Counters(c)[j] == Occurrences(sizes, j)
    ensures CountAll(m, c, sizes).Counters(Other(c))[j] == 0
  {
    CountAllBuckets(m, c, sizes, j);
    InitCounters(m, c, j);
  }

  /** After `init_metrics` every counter of both histograms is 0. */
  lemma InitCounters(m: State, c: Collective, j: nat)
    requires m == InitMetrics() && j < CollCountMax
    ensures m.Counters(c)[j] == 0 && m.Counters(Other(c))[j] == 0
  {
  }

  /** The powers of two that bracket the scenario's sizes 100 and 100000. */
  lemma Pow2Values()
    ensures Pow2(6) == 64 && Pow2(7) == 128 && Pow2(16) == 65536 && Pow2(17) == 131072
  {
    assert Pow2(3) == 8;
    assert Pow2(6) == 64;
    assert Pow2(9) == 512;
    assert Pow2(12) == 4096;
    assert Pow2(15) == 32768;
  }

  lemma ScenarioBuckets()
    ensures AllBelowLimit([100, 100000, 0])
    ensures Bucket(100) == Some(6) && Bucket(100000) == Some(16) && Bucket(0) == Some(0)
  {
    Pow2Values();
    Pow2Monotonic(17, 30);
    Log2Unique(100, 6);
    Log2Unique(100000, 16);
  }

  lemma ScenarioOccurrences(j: nat)
    ensures Occurrences([100, 100000, 0], j) == (if j == 0 || j == 6 || j == 16 then 1 else 0)
  {
    var sizes: seq<nat> := [100, 100000, 0];
    ScenarioBuckets();
    assert sizes[1..] == [100000, 0] && sizes[1..][1..] == [0] && sizes[1..][1..][1..] == [];
    assert Occurrences([0], j) == (if j == 0 then 1 else 0);
    assert Occurrences([100000, 0], j) == (if j == 0 || j == 16 then 1 else 0);
  }

  /**
   Three Allreduce calls of 100, 100000 and 0 bytes after `init_metrics`:
   counters 6 (64 <= 100 < 128), 16 (65536 <= 100000 < 131072) and 0 hold
   one each, every other counter and the whole Broadcast histogram stay 0.
   */
  lemma ThreeCallScenario(m: State, sizes: seq<nat>, j: nat)
    requires m == InitMetrics() && sizes == [100, 100000, 0] && j < CollCountMax
    ensures AllBelowLimit(sizes)
    ensures CountAll(m, Allreduce, sizes).arArr[j] == (if j == 0 || j == 6 || j == 16 then 1 else 0)
    ensures CountAll(m, Allreduce, sizes).bcArr[j] == 0
  {
    ScenarioBuckets();
    ScenarioOccurrences(j);
    CountAllFromInit(m, Allreduce, sizes, j);
  }
}
