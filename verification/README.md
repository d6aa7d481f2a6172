# Message-size histograms of the lightweight CUDA/MPI profiler

The profiler intercepts `MPI_Allreduce` and `MPI_Bcast` and, for every call,
counts the message size in a histogram of 32 integer counters: `ar_arr` for
Allreduce, `bc_arr` for Broadcast. `init_metrics` zeroes both. Each of
`count_metric_ar` and `count_metric_bc` takes an element count and a
datatype and gets the byte size from `get_MPI_message_size` as an `int`. It
then rounds that size down to a power of two with a bit-smearing trick: five
OR-shift steps, an increment, and a shift right. Finally it increments at
most one counter (none for a one-byte message). Counter 0 is for an empty
message. Otherwise it is the counter whose mask `1 << i` (for i from 1 to 31)
matches the rounded value.

The model has four layers:

- `Pow2Math` (pow2.dfy) is the arithmetic meaning, without bits: `Pow2`,
  `Log2` and `FloorPow2`, the greatest power of two not above x.
- `Word` (word.dfy) is the 32-bit `int` as a `bv32` bit pattern. It defines the
  pattern's value `Val`, the bit test `BitSet`, and `FromNat`, which stores a
  natural number in an `int`.
- `BitSmear` (round_down.dfy) is the rounding trick on bit patterns, proved
  equal to `FloorPow2`.
- `Histogram` (histogram.dfy) and `Metrics` (metrics.dfy) are one counting
  call on one histogram, and the pair of global histograms with
  `init_metrics`, `count_metric_ar` and `count_metric_bc`.

Every counting result is stated against the bit-free classification
`Histogram.Bucket`:

- size 0 goes to counter 0;
- size 1 goes nowhere;
- a size x with 2^k <= x < 2^(k+1) and k >= 1 goes to counter k.

### Classification: the code, not the labels

The counters' intended meaning differs from what the code does. `print_metrics`
labels counter i with `1 << (i-1)`, which reads as "counter i holds sizes in
[2^(i-1), 2^i)". Under that reading, a one-byte message would be counted in
counter 1. The counting code does something else: it puts [2^k, 2^(k+1)) into
counter k. Its loop starts at i = 1, so a one-byte message (rounded value
2^0) is never counted. This model follows the counting code.
`Histogram.CountEdgeSizes` and `Histogram.CountTotal` state this behaviour
explicitly.

## Model

| member | source | states |
|---|---|---|
| Pow2Math.Log2Unique | include/main.h:69-73 | the exponent k with 2^k <= x < 2^(k+1) is unique, so a size's counter index is well defined |
| Pow2Math.FloorPow2 | include/main.h:58-67 | the intended meaning of the rounding: 0 for 0, otherwise a power of two r with r <= x < 2r |
| Pow2Math.FloorPow2Greatest | include/main.h:58-67 | no power of two at most x exceeds the rounded value, so it is the greatest one |
| Pow2Math.FloorPow2Bracket | include/main.h:61-73 | x rounds to 2^k exactly when x lies in [2^k, 2^(k+1)), both directions |
| Pow2Math.FloorPow2Idempotent | include/main.h:61-67 | a power of two rounds to itself, and rounding twice is rounding once |
| Pow2Math.FloorPow2Half | include/main.h:61-67 | for x >= 2, rounding x is twice rounding x/2 (the recursion the bit trick is proved against) |
| Word.FromNat | include/main.h:56 | the `int` pattern that stores a size below 2^31 has exactly that value |
| Word.ValPow2 | include/main.h:73 | the mask `1 << k` has value 2^k |
| Word.ValBelow | include/main.h:61-67 | order of values carries over to bit patterns below a power of two |
| Word.BitSetIsMask | include/main.h:73 | bit i is set exactly when `1 << i & w` is non-zero |
| Word.BitSetOfPow2Val | include/main.h:72-73 | a pattern of value 2^k has bit k set and no other bit |
| BitSmear.Smear | include/main.h:61-65 | the five OR-shifts give a result at least w, one less than a power of two (every bit below w's highest set bit is set), whose half is below w; 0 exactly for 0 |
| BitSmear.SmearSaturates | include/main.h:61-66 | for sizes from 2^30 to 2^31-1 the five OR-shifts give INT_MAX, so the increment at line 66 overflows |
| BitSmear.RoundDown | include/main.h:61-67 | below 2^30, 0 stays 0 and any other pattern becomes a single set bit r with r <= w < 2r |
| BitSmear.RoundDownIdempotent | include/main.h:61-67 | applying the trick to its own result changes nothing |
| BitSmear.RoundDownOfHalf | include/main.h:61-67 | above 1, rounding w is rounding w >> 1 and shifting the result left by one |
| BitSmear.RoundDownIsFloorPow2 | include/main.h:61-67 | the rounded pattern's value is the greatest power of two not above the size |
| BitSmear.SizeWord | include/main.h:56 | a size below 2^30 is stored as a pattern below 2^30 with the same value, zero exactly for size 0 |
| BitSmear.RoundedSize | include/main.h:56-67 | storing, rounding and reading back a size gives FloorPow2 of the size |
| BitSmear.RoundedSizeIdempotent | include/main.h:61-67 | on sizes, powers of two are fixed points and rounding twice is rounding once |
| Histogram.BucketCharacterization | include/main.h:69-73 | counter 0 exactly for size 0, no counter exactly for size 1, counter k >= 1 exactly for sizes in [2^k, 2^(k+1)) |
| Histogram.BucketBound | include/main.h:40-42 | below 2^30 every chosen counter index is below 30, inside the 32 counters |
| Histogram.ScanBits | include/main.h:72-73 | the loop keeps 32 counters; what it does to each counter is stated by `Histogram.ScanBitsAt` |
| Histogram.ScanBitsAt | include/main.h:72-73 | the loop adds one to counter j exactly when j >= 1 and bit j of the rounded size is set, and leaves other counters alone |
| Histogram.ScanOfSize | include/main.h:56-73 | for sizes of 1 and above, the loop hits exactly the counter of the size's bucket |
| Histogram.Count | include/main.h:54-77 | one counting call leaves 32 counters, adds one at the size's bucket, and changes nothing else |
| Histogram.CountEdgeSizes | include/main.h:69-73 | size 0 increments counter 0, and size 1 leaves the histogram unchanged |
| Histogram.BucketOfRoundedSize | include/main.h:61-73 | for sizes of 2 and above, the counter index is the exponent of the rounded size |
| Histogram.BumpTotal | include/main.h:70 | incrementing one counter adds one to the total, and not selecting a counter adds nothing |
| Histogram.CountIsBump | include/main.h:54-77 | a counting call is a single increment of the size's bucket, and that bucket is inside the histogram |
| Histogram.CountTotal | include/main.h:54-77 | every call adds exactly one to the histogram's total, except a one-byte call, which adds nothing |
| Histogram.CountTouchesOneCounter | include/main.h:69-73 | at most one counter changes, and it grows by exactly one |
| Histogram.CountIndexIndependentOfContents | include/main.h:56-73 | which counter changes depends only on the size, not on the histogram's current contents |
| Histogram.Zeroes | include/main.h:46-48 | the zeroed histogram has 32 counters, all 0, with total 0 |
| Metrics.InitMetrics | include/main.h:45-49 | `init_metrics` leaves both histograms with 32 counters, all zero |
| Metrics.CountMetric | include/main.h:54-102 | `count_metric_ar` and `count_metric_bc` add one at the size's bucket in their own histogram and leave the other histogram untouched |
| Metrics.SameBucketForBothCollectives | include/main.h:54-102 | the Allreduce and Broadcast counting functions change the same counter by the same amount for the same size |
| Metrics.CountAll | include/main.h:54-102 | a run of calls to one collective never touches the other collective's histogram |
| Metrics.CountAllBuckets | include/main.h:54-102 | after a run of calls, counter j has grown by the number of sizes in bucket j |
| Metrics.CountAllTotal | include/main.h:54-102 | after a run of calls, the total has grown by the number of calls whose size is not 1 |
| Metrics.CountAllFromInit | include/main.h:45-102 | starting from `init_metrics`, counter j holds the number of sizes in bucket j, and the other histogram stays zero |
| Metrics.ThreeCallScenario | include/main.h:45-102 | Allreduce calls of 100, 100000 and 0 bytes after `init_metrics` leave one count each in counters 6, 16 and 0, and zeros everywhere else |

## Left out

- `get_MPI_message_size` comes from mpi_helpers.h, which is not part of this
  model. It is a foreign call, made at include/main.h:56 and 81. The byte
  size it returns is therefore a parameter of `Histogram.Count` and
  `Metrics.CountMetric`, and the element count and datatype do not appear.
- src/main.c holds only the PMPI wrappers that call the counting functions.
  It is not part of this model.
- `print_metrics` (include/main.h:104-115) only prints. It evaluates
  `1 << (i-1)` at i = 0, a negative shift that C leaves undefined. It labels
  counter i with 2^(i-1), although the counter holds sizes from 2^i.
- The `printf` in `init_metrics` is left out, as output only.
- Histogram.Count: sizes must be below 2^30. From 2^30 up, the smear gives
  INT_MAX and the increment at line 66 overflows a signed `int`
  (`BitSmear.SmearSaturates`). Negative sizes are also left out: shifting a
  negative `int` right is implementation-defined in C. Both cases are
  undefined or platform-dependent in the source, not handled by it.
- Metrics.CountMetric: same restriction to sizes below 2^30, for the same
  reason.
- Counter overflow: counters are unbounded integers. A C `int` counter would
  overflow after 2^31 - 1 increments, which is undefined behaviour.
- `1 << 31`, evaluated by the loop at i = 31, overflows a signed `int`. It is
  modelled as the pattern 0x8000_0000. A rounded size below 2^30 never
  matches it, so the choice does not affect any result.
- Concurrency: the histograms are unsynchronised process globals. The model
  treats calls as a sequence.
