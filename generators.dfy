/**
 The deterministic input generators: a linear-congruential generator
 (`initializeList` with `generateRandomNumber`) and a test generator of
 values modulo 99 (`initializeTestList`). Both append to a vector.
 */
module Generators {
  import opened CArith
  import opened Powers
  import opened Vectors

  /** The LCG multiplier, increment and modulus used by `initializeList`. */
  const LCG_A: int := 1664525
  const LCG_C: int := 1013904223
  const LCG_M: int := 0x8000_0000

  /** The seed that the sorting program passes to `initializeList`. */
  const SEED: int := 12345

  /**
   `generateRandomNumber`: `(aConst * previousVal + cConst) % modulo` in C's
   64-bit arithmetic (truncating remainder), converted to a 32-bit `int`.
   */
  function NextRandom(aConst: int, previousVal: int, cConst: int, modulo: int): (r: int)
    requires modulo != 0
    ensures InInt32(r)
    ensures Abs(modulo) <= LCG_M ==> r == CRem(aConst * previousVal + cConst, modulo)
    ensures 0 < modulo <= LCG_M && aConst * previousVal + cConst >= 0 ==> 0 <= r < modulo
  {
    Int32Cast(CRem(aConst * previousVal + cConst, modulo))
  }

  /** Element `i` of the LCG sequence that starts at `starter`. */
  function Lcg(starter: int, i: nat): int {
    if i == 0 then starter else NextRandom(LCG_A, Lcg(starter, i - 1), LCG_C, LCG_M)
  }

  /**
   The vector `initializeList` leaves when called on a vector holding `v0`:
   `starter` is pushed, then `k` more values, each computed from the element
   at index `i - 1` of the whole vector (so from `v0` itself when `v0` is not empty).
   */
  function InitializedList(v0: seq<int>, starter: int, k: nat): (w: seq<int>)
    ensures |w| == |v0| + 1 + k
    ensures w[..|v0| + 1] == v0 + [starter]
  {
    if k == 0 then v0 + [starter]
    else
      var w := InitializedList(v0, starter, k - 1);
      w + [NextRandom(LCG_A, w[k - 1], LCG_C, LCG_M)]
  }

  /** The number of values `initializeList` pushes after `starter`. */
  function ExtraDraws(size: int): nat {
    if size >= 1 then size - 1 else 0
  }

  /**
   `initializeList(list, starter, size)`. The first value, `starter`, is pushed
   unconditionally, so the vector grows by `size` values when `size >= 1`
   and by one value otherwise.
   */
  method InitializeList(list: Vector, starter: int, size: int)
    modifies list
    ensures list.elems == InitializedList(old(list.elems), starter, ExtraDraws(size))
    ensures |list.elems| == |old(list.elems)| + (if size >= 1 then size else 1)
  {
    var modulo := PowerOfTwo31();
    var a, c := 1664525, 1013904223;
    ghost var v0 := list.elems;
    list.PushBack(starter);
    var i := 1;
    while i < size
      invariant size >= 1 ==> 1 <= i <= size
      invariant size < 1 ==> i == 1
      invariant list.elems == InitializedList(v0, starter, i - 1)
    {
      var num := NextRandom(a, list.elems[i - 1], c, modulo);
      assert list.elems + [num] == InitializedList(v0, starter, i);
      list.PushBack(num);
      i := i + 1;
    }
  }

  /** Starting from an empty vector, `initializeList` yields the LCG sequence itself. */
  lemma {:induction false} FromEmptyIsLcg(starter: int, k: nat)
    ensures forall i :: 0 <= i <= k ==> InitializedList([], starter, k)[i] == Lcg(starter, i)
  {
    if k > 0 {
      FromEmptyIsLcg(starter, k - 1);
      var w := InitializedList([], starter, k - 1);
      assert InitializedList([], starter, k) == w + [NextRandom(LCG_A, w[k - 1], LCG_C, LCG_M)];
    } else {
      assert InitializedList([], starter, 0) == [starter];
    }
  }

  /** A seed in `[0, 2^31)` keeps every generated value in `[0, 2^31)`. */
  lemma {:induction false} LcgInRange(starter: int, i: nat)
    requires 0 <= starter < LCG_M
    ensures 0 <= Lcg(starter, i) < LCG_M
  {
    if i > 0 {
      LcgInRange(starter, i - 1);
      MulNonneg(LCG_A, Lcg(starter, i - 1));
    }
  }

  /** The first two values the sorting program generates. */
  lemma SeededStart()
    ensures Lcg(SEED, 0) == 12345
    ensures Lcg(SEED, 1) == 87628868
  {
  }

  /** The values `initializeTestList` appends: `(starter + 50 + i) % 99` for `i` in `[0, size)`. */
  function TestValues(starter: int, size: int): (t: seq<int>)
    ensures |t| == if size > 0 then size else 0
    decreases size
  {
    if size <= 0 then [] else TestValues(starter, size - 1) + [CRem(starter + 50 + size - 1, 99)]
  }

  /** Element `i` of the test list, and its range for the starters that keep the sum non-negative. */
  lemma {:induction false} TestValuesAt(starter: int, size: int, i: nat)
    requires i < size
    ensures TestValues(starter, size)[i] == CRem(starter + 50 + i, 99)
    ensures starter >= -50 ==> 0 <= TestValues(starter, size)[i] < 99
    decreases size
  {
    if i < size - 1 {
      TestValuesAt(starter, size - 1, i);
    }
  }

  /** `initializeTestList(list, starter, size)`: pushes `(starter + count) % 99` with `count` running up from 50. */
  method InitializeTestList(list: Vector, starter: int, size: int)
    modifies list
    ensures list.elems == old(list.elems) + TestValues(starter, size)
  {
    var count := 50;
    var i := 0;
    while i < size
      invariant size >= 0 ==> 0 <= i <= size
      invariant size < 0 ==> i == 0
      invariant count == 50 + i
      invariant list.elems == old(list.elems) + TestValues(starter, i)
    {
      list.PushBack(CRem(starter + count, 99));
      count := count + 1;
      i := i + 1;
    }
  }
}
