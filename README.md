# Distributed bucket sort, modelled in Dafny

This project models `bucketsort.cpp`, an MPI program that sorts N
pseudo-random 32-bit integers over P ranks. Rank 0 generates the input with a
linear congruential generator (`initializeList`, seed 12345). The program
then runs these phases:

- All ranks compute the same chunk plan: `N / P` values each, plus one for
  the first `N mod P` ranks. The offsets of the plan are its exclusive
  prefix sums.
- `Scatterv` sends each rank its chunk.
- Each rank sorts its chunk into P value pools of width
  `rangeUnit = ceil(2^31 / P)`. Pool `q` holds `[q * rangeUnit, (q + 1) * rangeUnit)`.
  A value of pool `q` is written at `sendOffsets[q] + sendCount[q]` in
  `segBucket`, reusing the scatter offsets as segment starts.
- `Alltoall` exchanges the per-pool counts.
- Each rank turns the counts it received into receive offsets and a bucket size.
- `Alltoallv` delivers the segments.
- Each rank sorts its bucket with `qsort` and the subtraction comparator.

How the SPMD program becomes sequential Dafny:

- A collective becomes a pure function over per-rank sequences:
  - `Scatterv` is slicing;
  - `Alltoall` is a transpose;
  - `Alltoallv` places each sender's piece at its receive offset in a zero-filled buffer.
- Each rank's local loop stays a method with loop invariants, proved against
  a specification function:
  - the chunk-size loop against `ChunkSizes`;
  - the offset loop against exclusive prefix sums;
  - the bucketing loop against `Segmented` and `Counts`;
  - the receive-offset loop against `Sum`.
- `BucketSort.Run` runs every rank's loop, one rank after another, and
  chains the phases together.

## The capacity condition

The bucketing loop reuses the scatter offsets as the bases of the send
segments. So segment `q` on every rank has room for only `dropsInBucket[q]`
values before it runs into segment `q + 1`, or past the end of `segBucket`.

- `BucketSort.Capacity` is the condition "every pool of every chunk fits the
  plan's share for that pool". It is sufficient, not necessary. A weaker
  condition, that the send regions a rank actually uses are disjoint, would
  also give an exact exchange. Take N = 4 and P = 3: the plan is [2, 1, 1]
  and the offsets are [0, 2, 3]. A first chunk of two pool-1 values is written
  at indices 2 and 3. Index 3 is in segment 2 but still inside `segBucket`,
  and that rank sends nothing from segment 2, so the exchange is exact even
  though `Capacity` fails.
- Under that condition the outcome is exact: every rank receives exactly its
  pool, and the ranks in order hold the sorted input.
- Without it the layout can break. `Bucketing.OverflowExample` exhibits an
  input whose write lands past the end of `segBucket`. Such a write is
  undefined behaviour in C++.
- `BucketSort.Run` therefore requires `WritesFit` (no write leaves its
  buffer), which is the least the program needs to be defined.
- `Run` promises sortedness and bucket lengths unconditionally. It promises
  the exact partition under `Capacity`, and says nothing about it for inputs
  that meet only the weaker condition.
- `BucketSort.DivisibleIsSafe` proves both conditions whenever P divides N.

`Bucketing.Segmented` is total because it skips a write whose index falls
outside the buffer. No input that meets `WritesInBounds` reaches that path,
and every lemma about a run assumes `WritesInBounds`.

## Where the design description and the code differ

In each case the model follows the code.

- **No clamp on the pool.** The design description asks for the pool index
  to be clamped to `P - 1`. The code (`bucketsort.cpp:145`) has no clamp.
  `Bucketing.PoolInRange` shows none is needed: every value in `[0, 2^31)`
  already lands in `[0, P)`.
- **Pool boundaries.** The design description calls each pool's span
  exclusive at its lower bound and inclusive at its upper one. It also says
  that ties go to the higher-indexed pool. The code's truncating division
  makes pool `q` the half-open span `[q * rangeUnit, (q + 1) * rangeUnit)`,
  as `Bucketing.PoolSpan` states. So a boundary value `q * rangeUnit` goes
  to the higher pool `q`, which agrees with the tie rule.
- **Appending to a pool.** The design description says the bucketing step
  appends each value to its pool's segment. The code writes at the scatter
  offsets, with the overflow described above.
- **N below 1.** `initializeList` pushes the seed unconditionally, so for
  N = 0 rank 0's list holds one value (`Generators.InitializeList`,
  `BucketSort.GeneratedInput`). Only the first N of them are scattered.

## Model

| member | source | states |
|---|---|---|
| Powers.Power | bucketsort.cpp:24-31 | `power(b, e)` is `b^e` for `e >= 0` and 1 for `e <= 0` |
| Powers.PowerMod | bucketsort.cpp:34-41 | for `e >= 1` (and `m != 0`) the result is C's `b^e % m`; reducing after every multiplication gives the same residue; for `e <= 0` the result is 1, not `1 % m`, and `m` may be 0 because it is never used |
| Powers.PowerOfTwo31 | bucketsort.cpp:101 | the value range `power(2, 31)` is `0x8000_0000` |
| Powers.Pow2To31 | bucketsort.cpp:51 | `2^31 == 0x8000_0000`, the LCG modulus |
| Generators.NextRandom | bucketsort.cpp:44-48 | the result is a 32-bit int; it equals C's truncating remainder whenever the modulus fits in 2^31; it lies in `[0, m)` for a non-negative operand and modulus |
| Generators.InitializeList | bucketsort.cpp:50-57 | the vector becomes its old contents, then `starter`, then `size - 1` values, value `i` being `generateRandomNumber` of element `i - 1` of the whole vector (the previous element exactly when the vector started empty); it grows by `size`, or by one value when `size < 1` |
| Generators.FromEmptyIsLcg | bucketsort.cpp:50-57 | on an empty vector, element `i` is the `i`-th LCG value from the seed |
| Generators.LcgInRange | bucketsort.cpp:44-56 | a seed in `[0, 2^31)` keeps every generated value in `[0, 2^31)` |
| Generators.SeededStart | bucketsort.cpp:114 | the program's list starts 12345, 87628868 |
| Generators.InitializeTestList | bucketsort.cpp:59-65 | the vector gains exactly `TestValues(starter, size)` at its end, nothing else changes |
| Generators.TestValuesAt | bucketsort.cpp:59-65 | test value `i` is C's `(starter + 50 + i) % 99`, in `[0, 99)` when `starter >= -50` (every sum non-negative) |
| Vectors.Vector.constructor | bucketsort.cpp:106 | a declared vector is empty |
| Vectors.Vector.PushBack | bucketsort.cpp:55 | `push_back` appends one value and leaves the rest unchanged |
| LocalSort.Compare | bucketsort.cpp:89-91 | the difference is negative, zero or positive exactly as `a < b`, `a == b` or `a > b`, when it does not overflow |
| LocalSort.CompareNoOverflow | bucketsort.cpp:89-91 | two non-negative ints never make the comparator overflow |
| LocalSort.Qsort | bucketsort.cpp:166 | the buffer ends sorted and a permutation of its old contents |
| LocalSort.SortBucket | bucketsort.cpp:161-166 | a rank's sorted bucket is sorted and has the received bucket's multiset |
| LocalSort.GenerateRecvSizeBuffer | bucketsort.cpp:80-87 | a fresh array of `n_proc` entries, `size` first and zeros after |
| ChunkPlan.DropsInBucket | bucketsort.cpp:110-123 | the loop yields exactly the plan `ChunkSizes(N, P)` |
| ChunkPlan.ChunkSizeShape | bucketsort.cpp:110-123 | every share is `N / P` or `N / P + 1`, the larger exactly for the first `N mod P` ranks; for `N < P` exactly ranks `>= N` get nothing |
| ChunkPlan.ChunkSizesPrefixSum | bucketsort.cpp:118-123 | the first `k` shares add up to `k * (N / P) + min(k, N mod P)` |
| ChunkPlan.ChunkSizesSum | bucketsort.cpp:118-123 | the shares add up to N: nothing is lost or duplicated |
| ChunkPlan.SendOffsets | bucketsort.cpp:126-129 | offset `i` is the sum of the shares before `i`; the trailing pushed entry is 0 |
| ChunkPlan.OffsetsTile | bucketsort.cpp:126-129 | offsets start at 0, each chunk ends where the next starts, and the last ends at N |
| ChunkPlan.PlanFits | bucketsort.cpp:132-133 | every scatter count and displacement stays inside a send buffer of N values |
| ChunkPlan.Scatterv | bucketsort.cpp:131-133 | rank `r` receives `dropsInBucket[r]` values, its `i`-th being `numbers[sendOffsets[r] + i]` |
| ChunkPlan.ScatterConcat | bucketsort.cpp:131-133 | the scattered chunks, in rank order, are exactly the first N values |
| BucketSort.ChunksTile | bucketsort.cpp:131-133 | the chunks of the run, in rank order, concatenate to the first N values of the input |
| Bucketing.RangeUnit | bucketsort.cpp:141 | `rangeUnit` is the least `u` with `u * P >= 2^31`, i.e. the ceiling of `2^31 / P` |
| Bucketing.Pool | bucketsort.cpp:145 | the pool `q` of `v` is the number of whole units below it: `q * rangeUnit <= v < (q + 1) * rangeUnit`, and non-negative for a non-negative value |
| Bucketing.PoolInRange | bucketsort.cpp:145 | every value in `[0, 2^31)` has a pool in `[0, P)` |
| Bucketing.PoolSpan | bucketsort.cpp:145 | pool `q` is exactly the value span `[q * unit, (q + 1) * unit)` |
| Bucketing.PoolMonotone | bucketsort.cpp:145 | a larger value never has a smaller pool |
| Bucketing.PoolOrder | bucketsort.cpp:145 | a value of a lower pool is below every value of a higher pool |
| Bucketing.Bucketize | bucketsort.cpp:137-148 | the loop leaves `segBucket` equal to `Segmented` of the chunk and `sendCount` equal to its per-pool counts |
| Bucketing.CountsSum | bucketsort.cpp:144-148 | the per-pool counts add up to the chunk length |
| Bucketing.FitsImpliesInBounds | bucketsort.cpp:146 | when every pool fits its segment, every write index of the loop lies in `[0, N)` |
| Bucketing.SegmentLayout | bucketsort.cpp:146 | when every pool fits its segment, segment `q` of `segBucket` holds exactly pool `q`'s values in chunk order |
| Bucketing.OverflowExample | bucketsort.cpp:146 | for N = 3, P = 2 and a chunk of two pool-1 values, a write leaves `segBucket` |
| Bucketing.DivisibleFits | bucketsort.cpp:146 | when P divides N, every pool of a chunk fits its segment |
| Bucketing.PoolsPartition | bucketsort.cpp:144-148 | the pools of a sequence together are a permutation of it |
| BucketSort.DivisibleIsSafe | bucketsort.cpp:110-148 | when P divides N, no write leaves `segBucket` and the capacity condition holds |
| Exchange.Alltoall | bucketsort.cpp:151 | rank `r` receives from rank `s` exactly `s`'s count for `r` |
| Exchange.AlltoallInvolutive | bucketsort.cpp:151 | exchanging the counts twice gives back what was sent |
| Exchange.ReceiveLayout | bucketsort.cpp:154-158 | receive offset `i` is the sum of the counts before `i`; the bucket size is the sum of all counts |
| Exchange.ReceiveRegionsFit | bucketsort.cpp:154-161 | every receive region, at its offset, lies inside `sortBucket` |
| Exchange.Alltoallv | bucketsort.cpp:161-164 | rank `r`'s `sortBucket` has `recvSizes[r]` entries; it starts as zeros and gets every sender's segment `r` at its receive offset, which `AlltoallvConcat` proves is the senders' segments in sender order |
| Exchange.DeliverConcat | bucketsort.cpp:163-164 | into a buffer exactly as long as the counts together, delivery at the prefix-sum offsets is concatenation in sender order |
| Exchange.AlltoallvConcat | bucketsort.cpp:163-164 | rank `r`'s `sortBucket` is the pieces of all senders for `r`, concatenated in sender order |
| Exchange.AlltoallvNonneg | bucketsort.cpp:161-164 | non-negative send buffers give non-negative receive buffers |
| BucketSort.ExchangeArgs | bucketsort.cpp:163-164 | every count and displacement passed to `Alltoallv` stays inside its send and receive buffers |
| BucketSort.ReceivedIsPool | bucketsort.cpp:144-164 | under the capacity condition, rank `r` receives exactly input pool `r`, in chunk order |
| BucketSort.SortedBucketsAssemble | bucketsort.cpp:144-166 | sorted buckets holding the pools lie on their own ranks, are ordered across ranks, and concatenate to a sorted permutation of the input |
| BucketSort.Run | bucketsort.cpp:101-166 | every rank's result is sorted and as long as its pool; under the capacity condition it holds exactly its pool, and the ranks in order hold a sorted permutation of the input |
| BucketSort.GeneratedInput | bucketsort.cpp:113-115 | rank 0's list holds `max(N, 1)` values, value `i` being the `i`-th LCG value from 12345 |
| BucketSort.SortGenerated | bucketsort.cpp:104-166 | the program on its own generated input: P sorted results of the pools' lengths; under the capacity condition rank `r` holds exactly pool `r` of the input, every value sits on the rank of its pool, and the results concatenate to a sorted permutation of the input |

## Left out

- MPI start-up and shutdown are not modelled, nor is MPI timing. These are `Init`, `Get_size`, `Get_rank`, `Wtime` and `Finalize`.
- P and the rank are parameters. Every rank's local step runs in a loop over the ranks.
- Collectives are modelled as pure functions. Their blocking, their ordering and their failure modes (job abort) are not modelled.
- `debug` and `printVector` are left out: they only print output.
- `initializeListRand` is left out: it reads the clock and `rand()`.
- `atoi(argv[1])` is not modelled: N is a natural-number parameter. A malformed argument would give N = 0.
- Scatterv's receive capacity argument (N) is not modelled. Every rank receives exactly its planned share.
- Rank 0's `numbers` is the only send buffer the scatter reads. The empty vectors on the other ranks are not modelled.
- The trailing `sendOffsets` entry added by `push_back(0)` is modelled (`SendOffsets`), but nothing reads it.
- Bucketing.RangeUnit: the `double` division and `ceil` at line 141 are taken as exact integer ceiling division, which is exact at this magnitude. For P = 1 the C conversion of 2^31 to `int` is out of range. The model uses 2^31 there, and every value still falls in pool 0.
- Bucketing.Pool: uses Dafny's floor division instead of C's truncating division. The two agree on the non-negative values that reach the loop, and `Run` requires those.
- LocalSort.Qsort: the C library's algorithm is not visible. An insertion sort using the same comparator stands in for it, and the library's promise (sorted, and a permutation) is its contract.
- Powers.Power: `long` overflow is not modelled. The program's two calls (lines 51 and 101), both `power(2, 31)`, fit.
- Powers.PowerMod: the `long` overflow of `retVal * base` at line 38 is not modelled. For large operands (base 2^40, modulus 2^50, exponent 2) that product overflows, which is undefined in C. The program never calls `powerMod`.
- Generators.NextRandom: the 64-bit width of `aConst * previousVal + cConst` is not modelled. For the program's constants and values below 2^31 the product stays far below 2^63.
- Generators.InitializeTestList: the `int` overflow of `starter + count` for a starter near the 32-bit limit is not modelled.
- BucketSort.Run: the exact-partition and sorted-concatenation promises are stated only under `Capacity`, a sufficient condition; inputs that break `Capacity` but keep the used send regions disjoint also sort exactly, and that is not proved. Without any such condition the program's bucket layout can fail (see `Bucketing.OverflowExample`). `WritesFit` is required because a write outside `segBucket` is undefined behaviour.
- BucketSort.SortGenerated: the same conditions as `Run` apply, on the generated input.
