/**
 The range bucketing on one rank: each value `v` of the rank's chunk goes to
 pool `v / rangeUnit`, the rank that owns its value range. The loop counts
 the values per pool (`sendCount`) and writes each into `segBucket` at
 `sendOffsets[pool] + sendCount[pool]`, reusing the scatter's offsets as the
 segment layout.
 */
module Bucketing {
  import opened CArith
  import opened Sequences

  /** The value domain `[0, 2^31)` of the sorted numbers (`range = power(2, 31)`). */
  const RANGE: int := 0x8000_0000

  /** `rangeUnit = ceil(range / P)`, the width of one rank's value range. */
  function RangeUnit(p: nat): (u: int)
    requires p >= 1
    ensures u >= 1
    ensures u * p >= RANGE && (u - 1) * p < RANGE
  {
    var u := (RANGE + p - 1) / p;
    assert u * p + (RANGE + p - 1) % p == RANGE + p - 1;
    assert (u - 1) * p == u * p - p;
    u
  }

  /** The destination rank of a value: the number of whole units below it. */
  function Pool(v: int, unit: int): (q: int)
    requires unit > 0
    ensures q * unit <= v < (q + 1) * unit
    ensures v >= 0 ==> q >= 0
  {
    v / unit
  }

  /** Values of the domain always land in a rank `0 <= pool < P`; no clamp is needed. */
  lemma PoolInRange(v: int, p: nat)
    requires p >= 1 && 0 <= v < RANGE
    ensures 0 <= Pool(v, RangeUnit(p)) < p
  {
    var u := RangeUnit(p);
    var q := v / u;
    DivSpan(v, u, q);
    MulCancelLess(q, p, u);
  }

  /** Pool `q` is the value span `[q * unit, (q + 1) * unit)`. */
  lemma PoolSpan(v: int, unit: int, q: int)
    requires unit > 0
    ensures Pool(v, unit) == q <==> q * unit <= v < (q + 1) * unit
  {
    DivSpan(v, unit, q);
  }

  /** Pool assignment is monotone in the value. */
  lemma PoolMonotone(v: int, w: int, unit: int)
    requires unit > 0 && v <= w
    ensures Pool(v, unit) <= Pool(w, unit)
  {
    var qv, qw := Pool(v, unit), Pool(w, unit);
    DivSpan(v, unit, qv);
    DivSpan(w, unit, qw);
    MulCancelLess(qv, qw + 1, unit);
  }

  /** The values of `xs` in pool `q`, in their order in `xs`. */
  function InPool(xs: seq<int>, q: int, unit: int): seq<int>
    requires unit > 0
  {
    if xs == [] then []
    else InPool(xs[..|xs| - 1], q, unit) + (if Pool(xs[|xs| - 1], unit) == q then [xs[|xs| - 1]] else [])
  }

  /** `InPool` keeps exactly the values of pool `q`, each as often as it occurs. */
  lemma {:induction false} InPoolMembers(xs: seq<int>, q: int, unit: int)
    requires unit > 0
    ensures |InPool(xs, q, unit)| <= |xs|
    ensures forall x :: x in InPool(xs, q, unit) ==> x in xs && Pool(x, unit) == q
    ensures forall x :: x in xs && Pool(x, unit) == q ==> multiset(InPool(xs, q, unit))[x] == multiset(xs)[x]
  {
    if xs != [] {
      var ys := xs[..|xs| - 1];
      InPoolMembers(ys, q, unit);
      assert xs == ys + [xs[|xs| - 1]];
    }
  }

  /** Filtering by pool distributes over concatenation. */
  lemma {:induction false} InPoolAppend(a: seq<int>, b: seq<int>, q: int, unit: int)
    requires unit > 0
    ensures InPool(a + b, q, unit) == InPool(a, q, unit) + InPool(b, q, unit)
    decreases |b|
  {
    if b != [] {
      var b' := b[..|b| - 1];
      assert (a + b)[..|a + b| - 1] == a + b';
      InPoolAppend(a, b', q, unit);
    } else {
      assert a + b == a;
    }
  }

  /** Every value of `xs` has a pool in `[0, P)`. */
  ghost predicate PoolsBelow(xs: seq<int>, unit: int, p: nat) {
    unit > 0 && forall i :: 0 <= i < |xs| ==> 0 <= Pool(xs[i], unit) < p
  }

  /** The per-pool counts of `xs`: what `sendCount` holds after the loop. */
  function Counts(xs: seq<int>, unit: int, p: nat): (c: seq<int>)
    requires unit > 0
    ensures |c| == p
  {
    seq(p, q => |InPool(xs, q, unit)|)
  }

  /** The counts add up to the number of values bucketed. */
  lemma {:induction false} CountsSum(xs: seq<int>, unit: int, p: nat)
    requires PoolsBelow(xs, unit, p)
    ensures Sum(Counts(xs, unit, p)) == |xs|
  {
    if xs != [] {
      var ys, v := xs[..|xs| - 1], xs[|xs| - 1];
      var q := Pool(v, unit);
      assert PoolsBelow(ys, unit, p);
      CountsSum(ys, unit, p);
      CountsStep(xs, unit, p);
      SumUpdate(Counts(ys, unit, p), q, 1);
    } else {
      assert forall q :: 0 <= q < p ==> Counts(xs, unit, p)[q] == 0;
      ZeroSum(Counts(xs, unit, p));
    }
  }

  /** One more value adds one to its own pool's count and leaves the others alone. */
  lemma CountsStep(xs: seq<int>, unit: int, p: nat)
    requires unit > 0 && xs != [] && 0 <= Pool(xs[|xs| - 1], unit) < p
    ensures Counts(xs, unit, p) ==
      Counts(xs[..|xs| - 1], unit, p)[Pool(xs[|xs| - 1], unit) := Counts(xs[..|xs| - 1], unit, p)[Pool(xs[|xs| - 1], unit)] + 1]
  {
    var ys, q' := xs[..|xs| - 1], Pool(xs[|xs| - 1], unit);
    forall q | 0 <= q < p
      ensures Counts(xs, unit, p)[q] == Counts(ys, unit, p)[q'  := Counts(ys, unit, p)[q'] + 1][q]
    {
    }
  }

  /** A sequence of zeros sums to zero. */
  lemma {:induction false} ZeroSum(s: seq<int>)
    requires forall i :: 0 <= i < |s| ==> s[i] == 0
    ensures Sum(s) == 0
  {
    if s != [] {
      ZeroSum(s[..|s| - 1]);
    }
  }

  /** Where the loop writes `xs[i]`: its pool's offset plus the pool's count so far. */
  function WriteIndex(xs: seq<int>, i: nat, offsets: seq<int>, unit: int): int
    requires unit > 0 && i < |xs|
    requires 0 <= Pool(xs[i], unit) < |offsets|
  {
    offsets[Pool(xs[i], unit)] + |InPool(xs[..i], Pool(xs[i], unit), unit)|
  }

  /** No write of the loop leaves `segBucket`, a buffer of N entries. */
  ghost predicate WritesInBounds(xs: seq<int>, offsets: seq<int>, unit: int, p: nat, n: nat) {
    PoolsBelow(xs, unit, p) && |offsets| >= p &&
    forall i :: 0 <= i < |xs| ==> 0 <= WriteIndex(xs, i, offsets, unit) < n
  }

  /** A prefix of the chunk writes where the whole chunk writes. */
  lemma WritesInBoundsPrefix(xs: seq<int>, k: nat, offsets: seq<int>, unit: int, p: nat, n: nat)
    requires WritesInBounds(xs, offsets, unit, p, n) && k <= |xs|
    ensures WritesInBounds(xs[..k], offsets, unit, p, n)
  {
    forall i | 0 <= i < k
      ensures WriteIndex(xs[..k], i, offsets, unit) == WriteIndex(xs, i, offsets, unit)
    {
      assert xs[..k][..i] == xs[..i];
    }
  }

  /**
   The contents of `segBucket` after the loop has bucketed `xs`, as written:
   N zeros, then each value stored at its write index, a later write
   overwriting an earlier one at the same index. A write outside the buffer
   is undefined in the program; here it leaves the buffer as it was, and
   every lemma about the program's runs excludes it (`WritesInBounds`).
   */
  function Segmented(xs: seq<int>, offsets: seq<int>, unit: int, n: nat): (seg: seq<int>)
    requires unit > 0
    ensures |seg| == n
  {
    if xs == [] then seq(n, _ => 0)
    else
      var ys, v := xs[..|xs| - 1], xs[|xs| - 1];
      var q := Pool(v, unit);
      var seg := Segmented(ys, offsets, unit, n);
      if 0 <= q < |offsets| && 0 <= offsets[q] + |InPool(ys, q, unit)| < n
      then seg[offsets[q] + |InPool(ys, q, unit)| := v]
      else seg
  }

  /** One more value in bounds is stored at its pool's offset plus the pool's count so far. */
  lemma SegmentedStep(xs: seq<int>, offsets: seq<int>, unit: int, n: nat)
    requires unit > 0 && xs != [] && 0 <= Pool(xs[|xs| - 1], unit) < |offsets|
    requires 0 <= offsets[Pool(xs[|xs| - 1], unit)] + |InPool(xs[..|xs| - 1], Pool(xs[|xs| - 1], unit), unit)| < n
    ensures Segmented(xs, offsets, unit, n) == Segmented(xs[..|xs| - 1], offsets, unit, n)[
      offsets[Pool(xs[|xs| - 1], unit)] + |InPool(xs[..|xs| - 1], Pool(xs[|xs| - 1], unit), unit)| := xs[|xs| - 1]]
  {
  }

  /** Value `v` after `ys` is stored at its pool's offset plus its pool's count before it. */
  lemma SegmentedSnoc(ys: seq<int>, v: int, offsets: seq<int>, unit: int, n: nat)
    requires unit > 0 && 0 <= Pool(v, unit) < |offsets|
    requires 0 <= offsets[Pool(v, unit)] + |InPool(ys, Pool(v, unit), unit)| < n
    ensures Segmented(ys + [v], offsets, unit, n) ==
      Segmented(ys, offsets, unit, n)[offsets[Pool(v, unit)] + |InPool(ys, Pool(v, unit), unit)| := v]
  {
    var xs := ys + [v];
    assert xs[..|xs| - 1] == ys && xs[|xs| - 1] == v;
  }

  /** Value `v` after `ys` adds one to the count of its own pool. */
  lemma CountsSnoc(ys: seq<int>, v: int, unit: int, p: nat)
    requires unit > 0 && 0 <= Pool(v, unit) < p
    ensures Counts(ys + [v], unit, p) == Counts(ys, unit, p)[Pool(v, unit) := Counts(ys, unit, p)[Pool(v, unit)] + 1]
  {
    var xs := ys + [v];
    assert xs[..|xs| - 1] == ys && xs[|xs| - 1] == v;
    CountsStep(xs, unit, p);
  }

  /** The bucketing loop of the rank holding `initialBucket`. */
  method Bucketize(initialBucket: seq<int>, sendOffsets: seq<int>, unit: int, p: nat, n: nat)
    returns (segBucket: seq<int>, sendCount: seq<int>)
    requires WritesInBounds(initialBucket, sendOffsets, unit, p, n)
    ensures segBucket == Segmented(initialBucket, sendOffsets, unit, n)
    ensures sendCount == Counts(initialBucket, unit, p)
  {
    var seg := new int[n](_ => 0);
    var cnt := new int[p](_ => 0);
    assert initialBucket[..0] == [];
    for i := 0 to |initialBucket|
      invariant seg[..] == Segmented(initialBucket[..i], sendOffsets, unit, n)
      invariant cnt[..] == Counts(initialBucket[..i], unit, p)
    {
      assert initialBucket[..i + 1] == initialBucket[..i] + [initialBucket[i]];
      assert 0 <= WriteIndex(initialBucket, i, sendOffsets, unit) < n;
      var pool := initialBucket[i] / unit;
      SegmentedSnoc(initialBucket[..i], initialBucket[i], sendOffsets, unit, n);
      CountsSnoc(initialBucket[..i], initialBucket[i], unit, p);
      seg[sendOffsets[pool] + cnt[pool]] := initialBucket[i];
      cnt[pool] := cnt[pool] + 1;
    }
    assert initialBucket[..|initialBucket|] == initialBucket;
    segBucket, sendCount := seg[..], cnt[..];
  }

  /**
   The segments `[offsets[q], offsets[q] + cap[q])` lie inside `[0, N)` and do
   not overlap one another.
   */
  ghost predicate DisjointSegments(offsets: seq<int>, cap: seq<int>, p: nat, n: nat) {
    |offsets| >= p && |cap| >= p &&
    (forall q :: 0 <= q < p ==> 0 <= cap[q] && 0 <= offsets[q] && offsets[q] + cap[q] <= n) &&
    (forall q, q' :: 0 <= q < q' < p ==> offsets[q] + cap[q] <= offsets[q'])
  }

  /** Exclusive prefix sums of non-negative sizes totalling at most N lay out disjoint segments. */
  lemma PrefixSumsDisjoint(offsets: seq<int>, cap: seq<int>, p: nat, n: nat)
    requires |cap| == p && ExclusivePrefixSums(offsets, cap) && Sum(cap) <= n
    requires forall q :: 0 <= q < p ==> cap[q] >= 0
    ensures DisjointSegments(offsets, cap, p, n)
  {
    forall q | 0 <= q < p
      ensures 0 <= offsets[q] && offsets[q] + cap[q] <= n
    {
      SumPrefixStep(cap, q);
      SumPrefixMonotone(cap, q, q + 1);
      SumNonneg(cap[..q]);
    }
    forall q, q' | 0 <= q < q' < p
      ensures offsets[q] + cap[q] <= offsets[q']
    {
      SumPrefixStep(cap, q);
      SumPrefixMonotone(cap, q + 1, q');
    }
  }

  /** Every pool of `xs` fits in its segment: the capacity condition of the buffer reuse. */
  ghost predicate FitsSegments(xs: seq<int>, cap: seq<int>, unit: int, p: nat) {
    PoolsBelow(xs, unit, p) && |cap| >= p &&
    forall q :: 0 <= q < p ==> |InPool(xs, q, unit)| <= cap[q]
  }

  /** The count of a pool never shrinks as more values are bucketed. */
  lemma {:induction false} InPoolPrefixLength(xs: seq<int>, k: nat, q: int, unit: int)
    requires unit > 0 && k <= |xs|
    ensures |InPool(xs[..k], q, unit)| <= |InPool(xs, q, unit)|
    decreases |xs| - k
  {
    if k < |xs| {
      var k1 := k + 1;
      assert xs[..k1][..k] == xs[..k];
      InPoolPrefixLength(xs, k1, q, unit);
    } else {
      assert xs[..k] == xs;
    }
  }

  /** A chunk that fits its segments still fits without its last value. */
  lemma FitsPrefix(xs: seq<int>, cap: seq<int>, unit: int, p: nat)
    requires xs != [] && FitsSegments(xs, cap, unit, p)
    ensures FitsSegments(xs[..|xs| - 1], cap, unit, p)
  {
    forall q | 0 <= q < p ensures |InPool(xs[..|xs| - 1], q, unit)| <= cap[q] {
      InPoolPrefixLength(xs, |xs| - 1, q, unit);
    }
  }

  /** Under the capacity condition no write of the loop leaves `segBucket`. */
  lemma FitsImpliesInBounds(xs: seq<int>, offsets: seq<int>, cap: seq<int>, unit: int, p: nat, n: nat)
    requires FitsSegments(xs, cap, unit, p) && DisjointSegments(offsets, cap, p, n)
    ensures WritesInBounds(xs, offsets, unit, p, n)
  {
    forall i | 0 <= i < |xs|
      ensures 0 <= WriteIndex(xs, i, offsets, unit) < n
    {
      var q := Pool(xs[i], unit);
      assert xs[..i + 1][..i] == xs[..i];
      InPoolPrefixLength(xs, i + 1, q, unit);
    }
  }

  /**
   One write into the buffer, seen from the segment starting at `lo` that held
   `before`: the written pool's segment grows by the value, any other segment
   keeps its contents.
   */
  lemma LayoutUpdate(s: seq<int>, s': seq<int>, idx: int, v: int, lo: int, before: seq<int>, after: seq<int>,
                     same: bool, cap: int, lo': int, cap': int)
    requires 0 <= lo && lo + |before| <= |s| && 0 <= idx < |s| && s[lo..lo + |before|] == before
    requires s' == s[idx := v]
    requires same ==> idx == lo + |before| && after == before + [v]
    requires !same ==> after == before && |before| <= cap && lo' <= idx < lo' + cap'
    requires !same ==> lo + cap <= lo' || lo' + cap' <= lo
    ensures lo + |after| <= |s'|
    ensures s'[lo..lo + |after|] == after
  {
    if same {
      assert s[idx := v][lo..idx + 1] == s[lo..idx] + [v];
    } else {
      assert s[idx := v][lo..lo + |after|] == s[lo..lo + |after|];
    }
  }

  /** Two segments of a disjoint layout, as plain bounds. */
  lemma SegmentBounds(offsets: seq<int>, cap: seq<int>, p: nat, n: nat, q: int, q': int)
    requires DisjointSegments(offsets, cap, p, n) && 0 <= q < p && 0 <= q' < p
    ensures 0 <= offsets[q] && 0 <= cap[q] && offsets[q] + cap[q] <= n
    ensures q != q' ==> offsets[q] + cap[q] <= offsets[q'] || offsets[q'] + cap[q'] <= offsets[q]
  {
  }

  /** The pool of the last value grows by it; every other pool stays as it was. */
  lemma InPoolLast(xs: seq<int>, q: int, unit: int)
    requires unit > 0 && xs != []
    ensures Pool(xs[|xs| - 1], unit) == q ==> InPool(xs, q, unit) == InPool(xs[..|xs| - 1], q, unit) + [xs[|xs| - 1]]
    ensures Pool(xs[|xs| - 1], unit) != q ==> InPool(xs, q, unit) == InPool(xs[..|xs| - 1], q, unit)
  {
  }

  /** The layout of one pool's segment, by induction over the values bucketed. */
  lemma {:induction false} SegmentLayoutAt(xs: seq<int>, offsets: seq<int>, cap: seq<int>, unit: int, p: nat, n: nat, q: int)
    requires 0 <= q < p
    requires FitsSegments(xs, cap, unit, p) && DisjointSegments(offsets, cap, p, n)
    ensures Segmented(xs, offsets, unit, n)[offsets[q]..offsets[q] + |InPool(xs, q, unit)|] == InPool(xs, q, unit)
  {
    if xs == [] {
      SegmentBounds(offsets, cap, p, n, q, q);
    } else {
      var ys, v := xs[..|xs| - 1], xs[|xs| - 1];
      FitsPrefix(xs, cap, unit, p);
      SegmentLayoutAt(ys, offsets, cap, unit, p, n, q);
      var q' := Pool(v, unit);
      assert 0 <= q' < p;
      SegmentBounds(offsets, cap, p, n, q, q');
      SegmentBounds(offsets, cap, p, n, q', q');
      var before, after, beforeQ' := InPool(ys, q, unit), InPool(xs, q, unit), InPool(ys, q', unit);
      InPoolLast(xs, q, unit);
      InPoolLast(xs, q', unit);
      assert |after| <= cap[q] && |beforeQ'| < cap[q'];
      SegmentedStep(xs, offsets, unit, n);
      LayoutUpdate(Segmented(ys, offsets, unit, n), Segmented(xs, offsets, unit, n), offsets[q'] + |beforeQ'|, v,
                   offsets[q], before, after, q == q', cap[q], offsets[q'], cap[q']);
    }
  }

  /**
   Under the capacity condition, segment `q` of `segBucket` holds exactly the
   values of pool `q`, in their original order.
   */
  lemma SegmentLayout(xs: seq<int>, offsets: seq<int>, cap: seq<int>, unit: int, p: nat, n: nat)
    requires FitsSegments(xs, cap, unit, p) && DisjointSegments(offsets, cap, p, n)
    ensures WritesInBounds(xs, offsets, unit, p, n)
    ensures forall q :: 0 <= q < p ==>
      Segmented(xs, offsets, unit, n)[offsets[q]..offsets[q] + |InPool(xs, q, unit)|] == InPool(xs, q, unit)
  {
    FitsImpliesInBounds(xs, offsets, cap, unit, p, n);
    forall q | 0 <= q < p
      ensures Segmented(xs, offsets, unit, n)[offsets[q]..offsets[q] + |InPool(xs, q, unit)|] == InPool(xs, q, unit)
    {
      SegmentLayoutAt(xs, offsets, cap, unit, p, n, q);
    }
  }

  /**
   When every write is in bounds, every pool's run of values ends within N,
   so the segments that `Alltoallv` reads stay inside `segBucket`.
   */
  lemma {:induction false} InBoundsSegmentsEnd(xs: seq<int>, offsets: seq<int>, unit: int, p: nat, n: nat)
    requires WritesInBounds(xs, offsets, unit, p, n)
    requires forall q :: 0 <= q < p ==> 0 <= offsets[q] <= n
    ensures forall q :: 0 <= q < p ==> offsets[q] + |InPool(xs, q, unit)| <= n
  {
    if xs != [] {
      var k := |xs| - 1;
      var ys := xs[..k];
      WritesInBoundsPrefix(xs, k, offsets, unit, p, n);
      InBoundsSegmentsEnd(ys, offsets, unit, p, n);
      assert ys == xs[..k];
      assert 0 <= WriteIndex(xs, k, offsets, unit) < n;
    }
  }

  /** The loop writes only values of the chunk over zeros, so non-negative chunks give non-negative buffers. */
  lemma {:induction false} SegmentedNonneg(xs: seq<int>, offsets: seq<int>, unit: int, n: nat)
    requires unit > 0 && NonnegInts(xs)
    ensures NonnegInts(Segmented(xs, offsets, unit, n))
  {
    if xs != [] {
      var k := |xs| - 1;
      assert NonnegInts(xs[..k]);
      SegmentedNonneg(xs[..k], offsets, unit, n);
    }
  }

  /** Pool `q` of each chunk of `cs`, chunk by chunk. */
  function PoolOfEach(cs: seq<seq<int>>, q: int, unit: int): (ps: seq<seq<int>>)
    requires unit > 0
    ensures |ps| == |cs|
    ensures forall s :: 0 <= s < |cs| ==> ps[s] == InPool(cs[s], q, unit)
  {
    seq(|cs|, s requires 0 <= s < |cs| => InPool(cs[s], q, unit))
  }

  /** Taking pool `q` of every chunk and concatenating is pool `q` of the concatenated chunks. */
  lemma {:induction false} InPoolConcat(cs: seq<seq<int>>, q: int, unit: int)
    requires unit > 0
    ensures InPool(Concat(cs), q, unit) == Concat(PoolOfEach(cs, q, unit))
  {
    if cs != [] {
      var k := |cs| - 1;
      InPoolConcat(cs[..k], q, unit);
      InPoolAppend(Concat(cs[..k]), cs[k], q, unit);
      assert PoolOfEach(cs, q, unit)[..k] == PoolOfEach(cs[..k], q, unit);
    }
  }

  /** All P pools of `xs`, in rank order. */
  function Pools(xs: seq<int>, unit: int, p: nat): (ps: seq<seq<int>>)
    requires unit > 0
    ensures |ps| == p
    ensures forall q :: 0 <= q < p ==> ps[q] == InPool(xs, q, unit)
  {
    seq(p, q => InPool(xs, q, unit))
  }

  /** The pools partition the values: together they hold each value exactly as often as `xs` does. */
  lemma {:induction false} PoolsPartition(xs: seq<int>, unit: int, p: nat)
    requires PoolsBelow(xs, unit, p)
    ensures multiset(Concat(Pools(xs, unit, p))) == multiset(xs)
  {
    if xs == [] {
      ConcatEmpties(Pools(xs, unit, p));
    } else {
      var k := |xs| - 1;
      var ys, x := xs[..k], xs[k];
      assert PoolsBelow(ys, unit, p);
      PoolsPartition(ys, unit, p);
      assert xs == ys + [x];
      PoolsStep(ys, x, unit, p);
      ConcatExtendOne(Pools(ys, unit, p), Pool(x, unit), x);
    }
  }

  /** Bucketing one more value extends exactly its own pool. */
  lemma PoolsStep(ys: seq<int>, x: int, unit: int, p: nat)
    requires unit > 0 && 0 <= Pool(x, unit) < p
    ensures Pools(ys + [x], unit, p) == Pools(ys, unit, p)[Pool(x, unit) := InPool(ys, Pool(x, unit), unit) + [x]]
  {
    var xs := ys + [x];
    assert xs[..|xs| - 1] == ys;
    var lhs := Pools(xs, unit, p);
    var rhs := Pools(ys, unit, p)[Pool(x, unit) := InPool(ys, Pool(x, unit), unit) + [x]];
    forall q | 0 <= q < p ensures lhs[q] == rhs[q] {
      assert lhs[q] == InPool(ys, q, unit) + (if Pool(x, unit) == q then [x] else []);
    }
  }

  /** A value of a lower pool is below every value of a higher pool. */
  lemma PoolOrder(v: int, w: int, unit: int)
    requires unit > 0 && Pool(v, unit) < Pool(w, unit)
    ensures v < w
  {
    if w <= v {
      PoolMonotone(w, v, unit);
    }
  }

  /** When N is a multiple of P every chunk has N / P values, so every pool fits. */
  lemma DivisibleFits(xs: seq<int>, n: nat, p: nat, cap: seq<int>)
    requires p >= 1 && n % p == 0 && |xs| <= n / p
    requires |cap| >= p && forall q :: 0 <= q < p ==> cap[q] == n / p
    requires PoolsBelow(xs, RangeUnit(p), p)
    ensures FitsSegments(xs, cap, RangeUnit(p), p)
  {
    forall q | 0 <= q < p ensures |InPool(xs, q, RangeUnit(p))| <= cap[q] {
      InPoolMembers(xs, q, RangeUnit(p));
    }
  }

  /**
   Without the capacity condition the reuse breaks: with N = 3 and P = 2 the
   plan is [2, 1] and the offsets [0, 2]; a first chunk whose two values both
   belong to rank 1 has its second value written at index 3, past the end of
   the three-entry `segBucket`.
   */
  lemma OverflowExample()
    ensures !WritesInBounds([0x4000_0000, 0x4000_0001], [0, 2], RangeUnit(2), 2, 3)
  {
    var xs := [0x4000_0000, 0x4000_0001];
    assert RangeUnit(2) == 0x4000_0000;
    assert xs[..1] == [0x4000_0000];
    assert InPool(xs[..1], 1, RangeUnit(2)) == [0x4000_0000];
    assert WriteIndex(xs, 1, [0, 2], RangeUnit(2)) == 3;
  }
}
