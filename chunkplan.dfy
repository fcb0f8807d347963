/**
 The initial distribution: how many of the N values each of the P ranks
 receives (`dropsInBucket`), where each rank's chunk starts (`sendOffsets`),
 and the uneven scatter that hands every rank its chunk.
 */
module ChunkPlan {
  import opened Sequences

  /** Rank `i`'s share: `N / P`, plus one for the first `N mod P` ranks. */
  function ChunkSize(n: nat, p: nat, i: int): nat
    requires p >= 1
  {
    n / p + (if i < n % p then 1 else 0)
  }

  /** The whole chunk-size plan, one entry per rank. */
  function ChunkSizes(n: nat, p: nat): (s: seq<int>)
    requires p >= 1
    ensures |s| == p
  {
    seq(p, i => ChunkSize(n, p, i))
  }

  /** The loop that fills `dropsInBucket`. */
  method DropsInBucket(n: nat, p: nat) returns (drops: seq<int>)
    requires p >= 1
    ensures drops == ChunkSizes(n, p)
  {
    var remainder := n % p;
    var d := n / p;
    var a := new int[p];
    for i := 0 to p
      invariant forall k :: 0 <= k < i ==> a[k] == ChunkSize(n, p, k)
    {
      a[i] := d;
      if remainder != 0 && i < remainder {
        a[i] := a[i] + 1;
      }
    }
    drops := a[..];
  }

  /**
   Every entry is `N / P` or `N / P + 1`, the extra one exactly for ranks below
   `N mod P`; when `N < P` the ranks from N on get nothing.
   */
  lemma ChunkSizeShape(n: nat, p: nat, i: nat)
    requires p >= 1 && i < p
    ensures ChunkSizes(n, p)[i] == n / p || ChunkSizes(n, p)[i] == n / p + 1
    ensures ChunkSizes(n, p)[i] == n / p + 1 <==> i < n % p
    ensures n < p ==> (ChunkSizes(n, p)[i] == 0 <==> i >= n)
  {
    assert ChunkSizes(n, p)[i] == ChunkSize(n, p, i);
    if n < p {
      SmallQuotient(n, p);
    }
  }

  /** A dividend below the divisor has quotient 0 and is its own remainder. */
  lemma SmallQuotient(n: nat, p: nat)
    requires n < p
    ensures n / p == 0 && n % p == n
  {
  }

  /** The plan's first `k` entries add up to `k * (N / P)` plus the extras among them. */
  lemma {:induction false} ChunkSizesPrefixSum(n: nat, p: nat, k: nat)
    requires p >= 1 && k <= p
    ensures Sum(ChunkSizes(n, p)[..k]) == k * (n / p) + (if k < n % p then k else n % p)
  {
    if k > 0 {
      var drops := ChunkSizes(n, p);
      ChunkSizesPrefixSum(n, p, k - 1);
      SumPrefixStep(drops, k - 1);
      PrefixSumStep(k, n / p, n % p, Sum(drops[..k - 1]), drops[k - 1]);
    }
  }

  /** The arithmetic of one step of `ChunkSizesPrefixSum`, over plain integers. */
  lemma PrefixSumStep(k: nat, d: int, m: int, prev: int, c: int)
    requires k > 0
    requires prev == (k - 1) * d + (if k - 1 < m then k - 1 else m)
    requires c == d + (if k - 1 < m then 1 else 0)
    ensures prev + c == k * d + (if k < m then k else m)
  {
    assert k * d == (k - 1) * d + d;
  }

  /** The chunk sizes add up to N. */
  lemma ChunkSizesSum(n: nat, p: nat)
    requires p >= 1
    ensures Sum(ChunkSizes(n, p)) == n
  {
    ChunkSizesPrefixSum(n, p, p);
    assert ChunkSizes(n, p)[..p] == ChunkSizes(n, p);
  }

  /**
   The offset loop. `sendOffsets` is built as a vector of P zeros and then
   gets `push_back(0)`, so it has P + 1 entries, the last one 0; nothing
   downstream reads that entry.
   */
  method SendOffsets(drops: seq<int>) returns (offsets: seq<int>)
    ensures |offsets| == |drops| + 1
    ensures ExclusivePrefixSums(offsets, drops)
    ensures offsets[|drops|] == 0
  {
    var a := new int[|drops| + 1](_ => 0);
    var i := 1;
    while i < |drops|
      invariant 1 <= i <= |drops| || (|drops| == 0 && i == 1)
      invariant a[0] == 0 && a[|drops|] == 0
      invariant forall k :: 0 <= k < i && k < |drops| ==> a[k] == Sum(drops[..k])
    {
      SumPrefixStep(drops, i - 1);
      a[i] := a[i - 1] + drops[i - 1];
      i := i + 1;
    }
    offsets := a[..];
  }

  /** The offsets tile `[0, N)`: chunk `i` ends where chunk `i + 1` starts, and the last ends at N. */
  lemma OffsetsTile(n: nat, p: nat, offsets: seq<int>)
    requires p >= 1
    requires ExclusivePrefixSums(offsets, ChunkSizes(n, p))
    ensures offsets[0] == 0
    ensures forall i :: 0 <= i < p - 1 ==> offsets[i + 1] == offsets[i] + ChunkSizes(n, p)[i]
    ensures offsets[p - 1] + ChunkSizes(n, p)[p - 1] == n
  {
    var drops := ChunkSizes(n, p);
    PrefixSumsRecurrence(offsets, drops);
    assert forall i :: 0 <= i < p - 1 ==> offsets[i + 1] == offsets[i] + drops[i];
    SumPrefixStep(drops, p - 1);
    assert drops[..p] == drops;
    ChunkSizesSum(n, p);
  }

  /** Every displacement and count of a scatter stays inside the send buffer. */
  ghost predicate ScatterFits(numbers: seq<int>, counts: seq<int>, displs: seq<int>, p: nat) {
    |counts| >= p && |displs| >= p &&
    forall r :: 0 <= r < p ==> 0 <= counts[r] && 0 <= displs[r] && displs[r] + counts[r] <= |numbers|
  }

  /** `Scatterv` from rank 0: rank `r` receives `counts[r]` values of `numbers` from `displs[r]` on. */
  function Scatterv(numbers: seq<int>, counts: seq<int>, displs: seq<int>, p: nat): (chunks: seq<seq<int>>)
    requires ScatterFits(numbers, counts, displs, p)
    ensures |chunks| == p
    ensures forall r :: 0 <= r < p ==> |chunks[r]| == counts[r]
    ensures forall r, i :: 0 <= r < p && 0 <= i < counts[r] ==> chunks[r][i] == numbers[displs[r] + i]
  {
    seq(p, r requires 0 <= r < p => numbers[displs[r]..displs[r] + counts[r]])
  }

  /** Every prefix of the plan stays within N. */
  lemma PlanPrefixBound(n: nat, p: nat, k: nat)
    requires p >= 1 && k <= p
    ensures 0 <= Sum(ChunkSizes(n, p)[..k]) <= n
  {
    var drops := ChunkSizes(n, p);
    SumPrefixMonotone(drops, k, p);
    SumNonneg(drops[..k]);
    assert drops[..p] == drops;
    ChunkSizesSum(n, p);
  }

  /** The chunks of the plan fit in any buffer of at least N values. */
  lemma PlanFits(numbers: seq<int>, n: nat, p: nat, offsets: seq<int>)
    requires p >= 1 && n <= |numbers|
    requires ExclusivePrefixSums(offsets, ChunkSizes(n, p))
    ensures ScatterFits(numbers, ChunkSizes(n, p), offsets, p)
  {
    var drops := ChunkSizes(n, p);
    forall r | 0 <= r < p
      ensures 0 <= offsets[r] && offsets[r] + drops[r] <= |numbers|
    {
      SumPrefixStep(drops, r);
      PlanPrefixBound(n, p, r);
      PlanPrefixBound(n, p, r + 1);
    }
  }

  /** Scattering by the plan loses and duplicates nothing: the chunks, in rank order, are the first N values. */
  lemma ScatterTiles(numbers: seq<int>, n: nat, p: nat, offsets: seq<int>, k: nat)
    requires p >= 1 && n <= |numbers| && k <= p
    requires ExclusivePrefixSums(offsets, ChunkSizes(n, p))
    ensures ScatterFits(numbers, ChunkSizes(n, p), offsets, p)
    ensures 0 <= Sum(ChunkSizes(n, p)[..k]) <= n
    ensures Concat(Scatterv(numbers, ChunkSizes(n, p), offsets, p)[..k]) == numbers[..Sum(ChunkSizes(n, p)[..k])]
  {
    PlanFits(numbers, n, p, offsets);
    PlanPrefixBound(n, p, k);
    TilesPrefix(numbers, Scatterv(numbers, ChunkSizes(n, p), offsets, p), ChunkSizes(n, p), offsets, k);
  }

  /**
   Chunks cut from `numbers` at the exclusive prefix sums of their lengths
   concatenate, in order, to the front of `numbers`.
   */
  lemma {:induction false} TilesPrefix(numbers: seq<int>, chunks: seq<seq<int>>, counts: seq<int>, offsets: seq<int>, k: nat)
    requires k <= |chunks| && k <= |counts| && ExclusivePrefixSums(offsets, counts)
    requires forall r :: 0 <= r < k ==>
      0 <= counts[r] && 0 <= offsets[r] && offsets[r] + counts[r] <= |numbers| &&
      chunks[r] == numbers[offsets[r]..offsets[r] + counts[r]]
    ensures 0 <= Sum(counts[..k]) <= |numbers|
    ensures Concat(chunks[..k]) == numbers[..Sum(counts[..k])]
  {
    if k > 0 {
      TilesPrefix(numbers, chunks, counts, offsets, k - 1);
      assert chunks[..k][..k - 1] == chunks[..k - 1];
      SumPrefixStep(counts, k - 1);
      TileStep(numbers, chunks[..k], offsets[k - 1], offsets[k - 1] + counts[k - 1]);
    } else {
      assert chunks[..0] == [] && counts[..0] == [];
    }
  }

  /** One more chunk, the values right after the earlier ones, extends the tiled prefix. */
  lemma TileStep(numbers: seq<int>, chunks: seq<seq<int>>, lo: int, hi: int)
    requires chunks != [] && 0 <= lo <= hi <= |numbers|
    requires Concat(chunks[..|chunks| - 1]) == numbers[..lo]
    requires chunks[|chunks| - 1] == numbers[lo..hi]
    ensures Concat(chunks) == numbers[..hi]
  {
    assert numbers[..hi] == numbers[..lo] + numbers[lo..hi];
  }

  /** The whole scatter, in rank order, is the first N values. */
  lemma ScatterConcat(numbers: seq<int>, n: nat, p: nat, offsets: seq<int>)
    requires p >= 1 && n <= |numbers|
    requires ExclusivePrefixSums(offsets, ChunkSizes(n, p))
    ensures ScatterFits(numbers, ChunkSizes(n, p), offsets, p)
    ensures Concat(Scatterv(numbers, ChunkSizes(n, p), offsets, p)) == numbers[..n]
  {
    var drops := ChunkSizes(n, p);
    ScatterTiles(numbers, n, p, offsets, p);
    assert Scatterv(numbers, drops, offsets, p)[..p] == Scatterv(numbers, drops, offsets, p);
    assert drops[..p] == drops;
    ChunkSizesSum(n, p);
  }
}
