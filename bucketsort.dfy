/**
 The body of `main` without its MPI plumbing, for all P ranks at once. The
 ranks run the same code on their own state; the model runs each per-rank
 loop once per rank index and passes the per-rank results through the
 collectives of `Exchange` and `ChunkPlan`, which are functions of the
 per-rank states. The lemmas describe each stage's per-rank state and what
 the exchange delivers, and from those the properties of the whole run.
 */
module BucketSort {
  import opened CArith
  import opened Sequences
  import opened ChunkPlan
  import opened Bucketing
  import opened Exchange
  import opened LocalSort
  import opened Vectors
  import opened Generators

  /** The scatter offsets every rank computes: the plan's exclusive prefix sums, then the trailing 0. */
  function PlanOffsets(n: nat, p: nat): (offs: seq<int>)
    requires p >= 1
    ensures |offs| == p + 1 && offs[p] == 0
    ensures ExclusivePrefixSums(offs, ChunkSizes(n, p))
  {
    seq(p + 1, i requires 0 <= i <= p => if i < p then Sum(ChunkSizes(n, p)[..i]) else 0)
  }

  /** The offset loop leaves no choice: its result is the plan's offsets. */
  lemma OffsetsDetermined(offs: seq<int>, n: nat, p: nat)
    requires p >= 1 && |offs| == p + 1 && offs[p] == 0
    requires ExclusivePrefixSums(offs, ChunkSizes(n, p))
    ensures offs == PlanOffsets(n, p)
  {
  }

  /** The chunk of every rank after the scatter. */
  ghost function Chunks(numbers: seq<int>, n: nat, p: nat): (cs: seq<seq<int>>)
    requires p >= 1 && n <= |numbers|
    ensures |cs| == p
  {
    PlanFits(numbers, n, p, PlanOffsets(n, p));
    Scatterv(numbers, ChunkSizes(n, p), PlanOffsets(n, p), p)
  }

  /** In rank order the chunks are the first N values. */
  lemma ChunksTile(numbers: seq<int>, n: nat, p: nat)
    requires p >= 1 && n <= |numbers|
    ensures Concat(Chunks(numbers, n, p)) == numbers[..n]
  {
    ScatterConcat(numbers, n, p, PlanOffsets(n, p));
  }

  /** A chunk holds values of the first N only. */
  lemma ChunksNonneg(numbers: seq<int>, n: nat, p: nat)
    requires p >= 1 && n <= |numbers| && NonnegInts(numbers[..n])
    ensures forall s :: 0 <= s < p ==> NonnegInts(Chunks(numbers, n, p)[s])
  {
    var drops, offs := ChunkSizes(n, p), PlanOffsets(n, p);
    forall s | 0 <= s < p ensures NonnegInts(Chunks(numbers, n, p)[s]) {
      SumPrefixStep(drops, s);
      PlanPrefixBound(n, p, s);
      PlanPrefixBound(n, p, s + 1);
      assert Chunks(numbers, n, p)[s] == numbers[..n][offs[s]..offs[s] + drops[s]];
    }
  }

  /**
   No rank's bucketing loop writes outside its `segBucket`: the demand the
   program makes of its input, since such a write is undefined behaviour.
   */
  ghost predicate WritesFit(numbers: seq<int>, n: nat, p: nat)
    requires p >= 1 && n <= |numbers|
  {
    forall s :: 0 <= s < p ==>
      WritesInBounds(Chunks(numbers, n, p)[s], PlanOffsets(n, p), RangeUnit(p), p, n)
  }

  /**
   The capacity condition of the buffer reuse: on every rank, every pool has
   at most as many values as the plan gives the chunk of the same index.
   */
  ghost predicate Capacity(numbers: seq<int>, n: nat, p: nat)
    requires p >= 1 && n <= |numbers|
  {
    forall s, q :: 0 <= s < p && 0 <= q < p ==>
      |InPool(Chunks(numbers, n, p)[s], q, RangeUnit(p))| <= ChunkSizes(n, p)[q]
  }

  /** The running totals `Sum(c[..i])` of a count vector. */
  function Scan(c: seq<int>): (offs: seq<int>)
    ensures |offs| == |c| && ExclusivePrefixSums(offs, c)
  {
    seq(|c|, i requires 0 <= i < |c| => Sum(c[..i]))
  }

  /** The receive-offset loop leaves no choice either. */
  lemma ScanDetermined(offs: seq<int>, c: seq<int>)
    requires |offs| == |c| && ExclusivePrefixSums(offs, c)
    ensures offs == Scan(c)
  {
  }

  /** The plan's offsets lie in `[0, N]`. */
  lemma PlanOffsetsBound(n: nat, p: nat)
    requires p >= 1
    ensures forall q :: 0 <= q < p ==> 0 <= PlanOffsets(n, p)[q] <= n
  {
    forall q | 0 <= q < p ensures 0 <= PlanOffsets(n, p)[q] <= n {
      PlanPrefixBound(n, p, q);
    }
  }

  /** The plan's chunks, at their offsets, are disjoint segments of `[0, N)`. */
  lemma PlanDisjoint(n: nat, p: nat)
    requires p >= 1
    ensures DisjointSegments(PlanOffsets(n, p), ChunkSizes(n, p), p, n)
  {
    ChunkSizesSum(n, p);
    PrefixSumsDisjoint(PlanOffsets(n, p), ChunkSizes(n, p), p, n);
  }

  /** The state of all ranks after their bucketing loops over `chunks`. */
  ghost predicate Bucketed(chunks: seq<seq<int>>, offs: seq<int>, unit: int, p: nat, n: nat,
                           segs: seq<seq<int>>, send: seq<seq<int>>) {
    |chunks| == p && |segs| == p && |send| == p && unit > 0 &&
    (forall s :: 0 <= s < p ==> WritesInBounds(chunks[s], offs, unit, p, n)) &&
    (forall s :: 0 <= s < p ==> segs[s] == Segmented(chunks[s], offs, unit, n)) &&
    (forall s :: 0 <= s < p ==> send[s] == Counts(chunks[s], unit, p))
  }

  /** The state of all ranks after the count exchange and their receive-offset loops. */
  ghost predicate Laid(send: seq<seq<int>>, recv: seq<seq<int>>, recvOffs: seq<seq<int>>, sizes: seq<int>, p: nat) {
    Square(send, p) && recv == Alltoall(send, p) && |recvOffs| == p && |sizes| == p &&
    (forall r :: 0 <= r < p ==> recvOffs[r] == Scan(recv[r])) &&
    (forall r :: 0 <= r < p ==> sizes[r] == Sum(recv[r]))
  }

  /** The arguments every rank passes to `Alltoallv` lie within its buffers. */
  lemma ExchangeArgs(chunks: seq<seq<int>>, offs: seq<int>, unit: int, p: nat, n: nat, segs: seq<seq<int>>,
                     send: seq<seq<int>>, recv: seq<seq<int>>, recvOffs: seq<seq<int>>, sizes: seq<int>)
    requires Bucketed(chunks, offs, unit, p, n, segs, send) && Laid(send, recv, recvOffs, sizes, p)
    requires |offs| >= p && forall q :: 0 <= q < p ==> 0 <= offs[q] <= n
    ensures AlltoallvArgs(segs, send, offs, recv, recvOffs, sizes, p)
  {
    forall s | 0 <= s < p
      ensures forall r :: 0 <= r < p ==> 0 <= send[s][r] && offs[r] + send[s][r] <= |segs[s]|
    {
      InBoundsSegmentsEnd(chunks[s], offs, unit, p, n);
    }
    forall r | 0 <= r < p
      ensures sizes[r] >= 0
      ensures forall s :: 0 <= s < p ==> 0 <= recvOffs[r][s] && recvOffs[r][s] + recv[r][s] <= sizes[r]
    {
      SumNonneg(recv[r]);
      ReceiveRegionsFit(recvOffs[r], recv[r]);
    }
  }

  /**
   Whatever the layout, rank r receives as many values as the chunks hold
   in pool r, and only values of the chunks or zeros.
   */
  lemma ReceivedShape(chunks: seq<seq<int>>, offs: seq<int>, unit: int, p: nat, n: nat, segs: seq<seq<int>>,
                      send: seq<seq<int>>, recv: seq<seq<int>>, recvOffs: seq<seq<int>>, sizes: seq<int>, r: nat)
    requires Bucketed(chunks, offs, unit, p, n, segs, send) && Laid(send, recv, recvOffs, sizes, p)
    requires AlltoallvArgs(segs, send, offs, recv, recvOffs, sizes, p) && r < p
    requires forall s :: 0 <= s < p ==> NonnegInts(chunks[s])
    ensures |Alltoallv(segs, send, offs, recv, recvOffs, sizes, p)[r]| == |InPool(Concat(chunks), r, unit)|
    ensures NonnegInts(Alltoallv(segs, send, offs, recv, recvOffs, sizes, p)[r])
  {
    ConcatLength(PoolOfEach(chunks, r, unit), recv[r]);
    InPoolConcat(chunks, r, unit);
    forall s | 0 <= s < p ensures NonnegInts(segs[s]) {
      SegmentedNonneg(chunks[s], offs, unit, n);
    }
    AlltoallvNonneg(segs, send, offs, recv, recvOffs, sizes, p);
  }

  /** When every sender's segment r holds its pool-r values, what rank r receives from them is those pools. */
  lemma PiecesArePools(segs: seq<seq<int>>, send: seq<seq<int>>, offs: seq<int>, cs: seq<seq<int>>, unit: int, r: nat, p: nat)
    requires |segs| == p && |cs| == p && Square(send, p) && |offs| >= p && r < p && unit > 0
    requires 0 <= offs[r]
    requires forall s :: 0 <= s < p ==> 0 <= send[s][r] && offs[r] + send[s][r] <= |segs[s]|
    requires forall s :: 0 <= s < p ==> segs[s][offs[r]..offs[r] + send[s][r]] == InPool(cs[s], r, unit)
    ensures Pieces(segs, send, offs, r, p) == PoolOfEach(cs, r, unit)
  {
  }

  /**
   When every pool of every chunk fits its segment, the exchange is exact:
   rank r receives the pool-r values of the chunks, in chunk order.
   */
  lemma ReceivedIsPool(chunks: seq<seq<int>>, offs: seq<int>, cap: seq<int>, unit: int, p: nat, n: nat, segs: seq<seq<int>>,
                       send: seq<seq<int>>, recv: seq<seq<int>>, recvOffs: seq<seq<int>>, sizes: seq<int>, r: nat)
    requires Bucketed(chunks, offs, unit, p, n, segs, send) && Laid(send, recv, recvOffs, sizes, p)
    requires AlltoallvArgs(segs, send, offs, recv, recvOffs, sizes, p) && r < p
    requires DisjointSegments(offs, cap, p, n)
    requires forall s :: 0 <= s < p ==> FitsSegments(chunks[s], cap, unit, p)
    ensures Alltoallv(segs, send, offs, recv, recvOffs, sizes, p)[r] == InPool(Concat(chunks), r, unit)
  {
    forall s | 0 <= s < p
      ensures segs[s][offs[r]..offs[r] + send[s][r]] == InPool(chunks[s], r, unit)
    {
      SegmentLayoutAt(chunks[s], offs, cap, unit, p, n, r);
    }
    PiecesArePools(segs, send, offs, chunks, unit, r, p);
    AlltoallvConcat(segs, send, offs, recv, recvOffs, sizes, p, r);
    InPoolConcat(chunks, r, unit);
  }

  /** A bucket with the multiset of pool r holds values of pool r only. */
  lemma BucketsOnTheirRanks(xs: seq<int>, unit: int, p: nat, buckets: seq<seq<int>>)
    requires unit > 0 && |buckets| == p
    requires forall r :: 0 <= r < p ==> multiset(buckets[r]) == multiset(InPool(xs, r, unit))
    ensures forall r, a :: 0 <= r < p && a in buckets[r] ==> Pool(a, unit) == r
  {
    forall r, a | 0 <= r < p && a in buckets[r]
      ensures Pool(a, unit) == r
    {
      assert a in multiset(InPool(xs, r, unit));
      InPoolMembers(xs, r, unit);
    }
  }

  /** Buckets whose values sit in their own pools are ordered across ranks. */
  lemma BucketsOrdered(unit: int, buckets: seq<seq<int>>)
    requires unit > 0
    requires forall r, a :: 0 <= r < |buckets| && a in buckets[r] ==> Pool(a, unit) == r
    ensures forall r, r', a, b :: 0 <= r < r' < |buckets| && a in buckets[r] && b in buckets[r'] ==> a < b
  {
    forall r, r', a, b | 0 <= r < r' < |buckets| && a in buckets[r] && b in buckets[r']
      ensures a < b
    {
      PoolOrder(a, b, unit);
    }
  }

  /**
   Sorted buckets holding the pools of `xs` assemble to the sorted input:
   every value sits on the rank of its pool, every value of a lower rank is
   below every value of a higher one, and rank order concatenation is a
   sorted permutation of `xs`.
   */
  lemma SortedBucketsAssemble(xs: seq<int>, unit: int, p: nat, buckets: seq<seq<int>>)
    requires PoolsBelow(xs, unit, p) && |buckets| == p
    requires forall r :: 0 <= r < p ==> Sorted(buckets[r]) && multiset(buckets[r]) == multiset(InPool(xs, r, unit))
    ensures forall r, a :: 0 <= r < p && a in buckets[r] ==> Pool(a, unit) == r
    ensures forall r, r', a, b :: 0 <= r < r' < p && a in buckets[r] && b in buckets[r'] ==> a < b
    ensures Sorted(Concat(buckets))
    ensures multiset(Concat(buckets)) == multiset(xs)
  {
    BucketsOnTheirRanks(xs, unit, p, buckets);
    BucketsOrdered(unit, buckets);
    SortedConcat(buckets);
    ConcatMultisets(buckets, Pools(xs, unit, p));
    PoolsPartition(xs, unit, p);
  }

  /**
   The whole run over P ranks: plan and offsets, scatter, each rank's
   bucketing loop, the count exchange, each rank's receive offsets, the data
   exchange and each rank's sort. Every rank's result is sorted and as long
   as the input's pool for that rank; under the capacity condition it holds
   exactly that pool, and the ranks in order hold the sorted input.
   */
  method Run(numbers: seq<int>, n: nat, p: nat) returns (sortBuckets: seq<seq<int>>)
    requires p >= 1 && n <= |numbers| && NonnegInts(numbers[..n])
    requires WritesFit(numbers, n, p)
    ensures |sortBuckets| == p
    ensures forall r :: 0 <= r < p ==>
      Sorted(sortBuckets[r]) && |sortBuckets[r]| == |InPool(numbers[..n], r, RangeUnit(p))|
    ensures Capacity(numbers, n, p) ==> forall r :: 0 <= r < p ==>
      multiset(sortBuckets[r]) == multiset(InPool(numbers[..n], r, RangeUnit(p)))
    ensures Capacity(numbers, n, p) ==> forall r, a :: 0 <= r < p && a in sortBuckets[r] ==> Pool(a, RangeUnit(p)) == r
    ensures Capacity(numbers, n, p) ==>
      Sorted(Concat(sortBuckets)) && multiset(Concat(sortBuckets)) == multiset(numbers[..n])
  {
    var unit := RangeUnit(p);
    var dropsInBucket := DropsInBucket(n, p);
    var sendOffsets := SendOffsets(dropsInBucket);
    OffsetsDetermined(sendOffsets, n, p);
    PlanFits(numbers, n, p, sendOffsets);
    var chunks := Scatterv(numbers, dropsInBucket, sendOffsets, p);
    assert chunks == Chunks(numbers, n, p);

    var segBuckets, sendCounts := BucketizeAll(chunks, sendOffsets, unit, p, n);
    var recvCounts := Alltoall(sendCounts, p);
    var recvOffsets, recvSizes := ReceiveLayoutAll(recvCounts, p);
    PlanOffsetsBound(n, p);
    ExchangeArgs(chunks, sendOffsets, unit, p, n, segBuckets, sendCounts, recvCounts, recvOffsets, recvSizes);
    var received := Alltoallv(segBuckets, sendCounts, sendOffsets, recvCounts, recvOffsets, recvSizes, p);
    ExchangeResults(numbers, n, p, chunks, segBuckets, sendCounts, recvCounts, recvOffsets, recvSizes);

    sortBuckets := SortAll(received);
    Conclude(numbers, n, p, received, sortBuckets);
  }

  /** What the exchange delivers in `Run`, rank by rank. */
  lemma ExchangeResults(numbers: seq<int>, n: nat, p: nat, chunks: seq<seq<int>>, segs: seq<seq<int>>,
                        send: seq<seq<int>>, recv: seq<seq<int>>, recvOffs: seq<seq<int>>, sizes: seq<int>)
    requires p >= 1 && n <= |numbers| && NonnegInts(numbers[..n]) && chunks == Chunks(numbers, n, p)
    requires Bucketed(chunks, PlanOffsets(n, p), RangeUnit(p), p, n, segs, send) && Laid(send, recv, recvOffs, sizes, p)
    requires AlltoallvArgs(segs, send, PlanOffsets(n, p), recv, recvOffs, sizes, p)
    ensures forall r :: 0 <= r < p ==>
      |Alltoallv(segs, send, PlanOffsets(n, p), recv, recvOffs, sizes, p)[r]| == |InPool(numbers[..n], r, RangeUnit(p))|
    ensures forall r :: 0 <= r < p ==> NonnegInts(Alltoallv(segs, send, PlanOffsets(n, p), recv, recvOffs, sizes, p)[r])
    ensures Capacity(numbers, n, p) ==> forall r :: 0 <= r < p ==>
      Alltoallv(segs, send, PlanOffsets(n, p), recv, recvOffs, sizes, p)[r] == InPool(numbers[..n], r, RangeUnit(p))
  {
    var offs, unit := PlanOffsets(n, p), RangeUnit(p);
    ChunksTile(numbers, n, p);
    ChunksNonneg(numbers, n, p);
    forall r | 0 <= r < p
      ensures |Alltoallv(segs, send, offs, recv, recvOffs, sizes, p)[r]| == |InPool(numbers[..n], r, unit)|
      ensures NonnegInts(Alltoallv(segs, send, offs, recv, recvOffs, sizes, p)[r])
    {
      ReceivedShape(chunks, offs, unit, p, n, segs, send, recv, recvOffs, sizes, r);
    }
    if Capacity(numbers, n, p) {
      PlanDisjoint(n, p);
      forall s | 0 <= s < p ensures FitsSegments(chunks[s], ChunkSizes(n, p), unit, p) {
        assert WritesInBounds(chunks[s], offs, unit, p, n);
      }
      forall r | 0 <= r < p
        ensures Alltoallv(segs, send, offs, recv, recvOffs, sizes, p)[r] == InPool(numbers[..n], r, unit)
      {
        ReceivedIsPool(chunks, offs, ChunkSizes(n, p), unit, p, n, segs, send, recv, recvOffs, sizes, r);
      }
    }
  }

  /** The properties `Run` promises, from the sorted received buckets. */
  lemma Conclude(numbers: seq<int>, n: nat, p: nat, received: seq<seq<int>>, sortBuckets: seq<seq<int>>)
    requires p >= 1 && n <= |numbers| && NonnegInts(numbers[..n])
    requires |received| == p && |sortBuckets| == p
    requires forall r :: 0 <= r < p ==> |received[r]| == |InPool(numbers[..n], r, RangeUnit(p))|
    requires Capacity(numbers, n, p) ==> forall r :: 0 <= r < p ==> received[r] == InPool(numbers[..n], r, RangeUnit(p))
    requires forall r :: 0 <= r < p ==> Sorted(sortBuckets[r]) && multiset(sortBuckets[r]) == multiset(received[r])
    ensures forall r :: 0 <= r < p ==> |sortBuckets[r]| == |InPool(numbers[..n], r, RangeUnit(p))|
    ensures Capacity(numbers, n, p) ==> forall r :: 0 <= r < p ==>
      multiset(sortBuckets[r]) == multiset(InPool(numbers[..n], r, RangeUnit(p)))
    ensures Capacity(numbers, n, p) ==> forall r, a :: 0 <= r < p && a in sortBuckets[r] ==> Pool(a, RangeUnit(p)) == r
    ensures Capacity(numbers, n, p) ==>
      Sorted(Concat(sortBuckets)) && multiset(Concat(sortBuckets)) == multiset(numbers[..n])
  {
    var xs, unit := numbers[..n], RangeUnit(p);
    forall r | 0 <= r < p ensures |sortBuckets[r]| == |InPool(xs, r, unit)| {
      assert |multiset(sortBuckets[r])| == |multiset(received[r])|;
    }
    if Capacity(numbers, n, p) {
      forall i | 0 <= i < |xs| ensures 0 <= Pool(xs[i], unit) < p {
        PoolInRange(xs[i], p);
      }
      SortedBucketsAssemble(xs, unit, p, sortBuckets);
    }
  }

  /** Every rank runs its bucketing loop on its own chunk. */
  method BucketizeAll(chunks: seq<seq<int>>, sendOffsets: seq<int>, unit: int, p: nat, n: nat)
    returns (segBuckets: seq<seq<int>>, sendCounts: seq<seq<int>>)
    requires |chunks| == p && unit > 0
    requires forall s :: 0 <= s < p ==> WritesInBounds(chunks[s], sendOffsets, unit, p, n)
    ensures Bucketed(chunks, sendOffsets, unit, p, n, segBuckets, sendCounts)
  {
    segBuckets, sendCounts := [], [];
    for s := 0 to p
      invariant |segBuckets| == s && |sendCounts| == s
      invariant forall t :: 0 <= t < s ==> segBuckets[t] == Segmented(chunks[t], sendOffsets, unit, n)
      invariant forall t :: 0 <= t < s ==> sendCounts[t] == Counts(chunks[t], unit, p)
    {
      var segBucket, sendCount := Bucketize(chunks[s], sendOffsets, unit, p, n);
      segBuckets := segBuckets + [segBucket];
      sendCounts := sendCounts + [sendCount];
    }
  }

  /** Every rank turns its received counts into receive offsets and a buffer size. */
  method ReceiveLayoutAll(recvCounts: seq<seq<int>>, p: nat) returns (recvOffsets: seq<seq<int>>, recvSizes: seq<int>)
    requires |recvCounts| == p
    ensures |recvOffsets| == p && |recvSizes| == p
    ensures forall r :: 0 <= r < p ==> recvOffsets[r] == Scan(recvCounts[r])
    ensures forall r :: 0 <= r < p ==> recvSizes[r] == Sum(recvCounts[r])
  {
    recvOffsets, recvSizes := [], [];
    for r := 0 to p
      invariant |recvOffsets| == r && |recvSizes| == r
      invariant forall t :: 0 <= t < r ==> recvOffsets[t] == Scan(recvCounts[t])
      invariant forall t :: 0 <= t < r ==> recvSizes[t] == Sum(recvCounts[t])
    {
      var offs, finalBucketSize := ReceiveLayout(recvCounts[r]);
      ScanDetermined(offs, recvCounts[r]);
      recvOffsets := recvOffsets + [offs];
      recvSizes := recvSizes + [finalBucketSize];
    }
  }

  /** Every rank sorts its received bucket. */
  method SortAll(received: seq<seq<int>>) returns (sortBuckets: seq<seq<int>>)
    requires forall r :: 0 <= r < |received| ==> NonnegInts(received[r])
    ensures |sortBuckets| == |received|
    ensures forall r :: 0 <= r < |received| ==>
      Sorted(sortBuckets[r]) && multiset(sortBuckets[r]) == multiset(received[r])
  {
    sortBuckets := [];
    for r := 0 to |received|
      invariant |sortBuckets| == r
      invariant forall t :: 0 <= t < r ==>
        Sorted(sortBuckets[t]) && multiset(sortBuckets[t]) == multiset(received[t])
    {
      var sorted := SortBucket(received[r]);
      sortBuckets := sortBuckets + [sorted];
    }
  }

  /** When P divides N every chunk has N / P values, so no write leaves its buffer and every pool fits. */
  lemma DivisibleIsSafe(numbers: seq<int>, n: nat, p: nat)
    requires p >= 1 && n <= |numbers| && NonnegInts(numbers[..n]) && n % p == 0
    ensures WritesFit(numbers, n, p)
    ensures Capacity(numbers, n, p)
  {
    var cs, offs, drops, unit := Chunks(numbers, n, p), PlanOffsets(n, p), ChunkSizes(n, p), RangeUnit(p);
    ChunksNonneg(numbers, n, p);
    ChunkSizesSum(n, p);
    PrefixSumsDisjoint(offs, drops, p, n);
    forall s | 0 <= s < p
      ensures WritesInBounds(cs[s], offs, unit, p, n)
      ensures forall q :: 0 <= q < p ==> |InPool(cs[s], q, unit)| <= drops[q]
    {
      forall i | 0 <= i < |cs[s]| ensures 0 <= Pool(cs[s][i], unit) < p {
        PoolInRange(cs[s][i], p);
      }
      ChunkSizeShape(n, p, s);
      DivisibleFits(cs[s], n, p, drops);
      FitsImpliesInBounds(cs[s], offs, drops, unit, p, n);
    }
  }

  /** The list rank 0 generates for N: `initializeList(&numbers, 12345, N)` on an empty vector. */
  function GeneratedInput(n: nat): (xs: seq<int>)
    ensures |xs| == if n >= 1 then n else 1
    ensures forall i :: 0 <= i < |xs| ==> xs[i] == Lcg(SEED, i)
  {
    FromEmptyIsLcg(SEED, ExtraDraws(n));
    InitializedList([], SEED, ExtraDraws(n))
  }

  /** The generated values all lie in `[0, 2^31)`. */
  lemma GeneratedNonneg(n: nat)
    ensures NonnegInts(GeneratedInput(n)[..n])
  {
    forall i | 0 <= i < n ensures 0 <= GeneratedInput(n)[i] <= INT32_MAX {
      LcgInRange(SEED, i);
    }
  }

  /**
   The program for N values on P ranks: rank 0 generates the input, then
   the run sorts it. Its results are those of `Run` on the generated list.
   */
  method SortGenerated(n: nat, p: nat) returns (sortBuckets: seq<seq<int>>)
    requires p >= 1 && WritesFit(GeneratedInput(n), n, p)
    ensures |sortBuckets| == p
    ensures forall r :: 0 <= r < p ==>
      Sorted(sortBuckets[r]) && |sortBuckets[r]| == |InPool(GeneratedInput(n)[..n], r, RangeUnit(p))|
    ensures Capacity(GeneratedInput(n), n, p) ==> forall r :: 0 <= r < p ==>
      multiset(sortBuckets[r]) == multiset(InPool(GeneratedInput(n)[..n], r, RangeUnit(p)))
    ensures Capacity(GeneratedInput(n), n, p) ==>
      forall r, a :: 0 <= r < p && a in sortBuckets[r] ==> Pool(a, RangeUnit(p)) == r
    ensures Capacity(GeneratedInput(n), n, p) ==>
      Sorted(Concat(sortBuckets)) && multiset(Concat(sortBuckets)) == multiset(GeneratedInput(n)[..n])
  {
    var numbers := new Vector();
    InitializeList(numbers, SEED, n);
    assert numbers.elems == GeneratedInput(n);
    GeneratedNonneg(n);
    sortBuckets := Run(numbers.elems, n, p);
  }
}
