/**
 The last step on every rank: `qsort` over `sortBucket` with the subtraction
 comparator `compare`, and the small `generateRecvSizeBuffer` helper.
 */
module LocalSort {
  import opened CArith
  import opened Sequences

  /**
   `compare`: the difference of the two ints. It is a consistent three-way
   comparator exactly when the subtraction does not leave the 32-bit range.
   */
  function Compare(a: int, b: int): (r: int)
    requires InInt32(a - b)
    ensures InInt32(r)
    ensures r < 0 <==> a < b
    ensures r == 0 <==> a == b
    ensures r > 0 <==> a > b
  {
    a - b
  }

  /** Non-negative ints never make the comparator overflow. */
  lemma CompareNoOverflow(a: int, b: int)
    requires 0 <= a <= INT32_MAX && 0 <= b <= INT32_MAX
    ensures InInt32(a - b)
  {
  }

  /**
   `qsort(&a[0], a.Length, sizeof(int), compare)`: sorts the buffer in place.
   The library's algorithm is not visible; an insertion sort driven by the
   same comparator stands in for it, with the library's promise as contract.
   */
  method Qsort(a: array<int>)
    requires NonnegInts(a[..])
    modifies a
    ensures Sorted(a[..])
    ensures multiset(a[..]) == multiset(old(a[..]))
  {
    for i := 0 to a.Length
      invariant NonnegInts(a[..])
      invariant forall k, l :: 0 <= k < l < i ==> a[k] <= a[l]
      invariant multiset(a[..]) == multiset(old(a[..]))
    {
      Insert(a, i);
    }
  }

  /** One pass of the insertion sort: `a[i]` sinks into the sorted prefix `a[..i]`. */
  method Insert(a: array<int>, i: nat)
    requires i < a.Length && NonnegInts(a[..])
    requires forall k, l :: 0 <= k < l < i ==> a[k] <= a[l]
    modifies a
    ensures NonnegInts(a[..])
    ensures forall k, l :: 0 <= k < l <= i ==> a[k] <= a[l]
    ensures multiset(a[..]) == multiset(old(a[..]))
  {
    var j := i;
    while j > 0 && Compare(a[j - 1], a[j]) > 0
      invariant 0 <= j <= i
      invariant NonnegInts(a[..])
      invariant forall k, l :: 0 <= k < l <= i && k != j && l != j ==> a[k] <= a[l]
      invariant forall l :: j < l <= i ==> a[j] < a[l]
      invariant multiset(a[..]) == multiset(old(a[..]))
    {
      Swap(a, j);
      j := j - 1;
    }
  }

  /** Exchanges `a[j - 1]` and `a[j]`. */
  method Swap(a: array<int>, j: nat)
    requires 0 < j < a.Length
    modifies a
    ensures a[..] == old(a[..])[j - 1 := old(a[j])][j := old(a[j - 1])]
    ensures multiset(a[..]) == multiset(old(a[..]))
  {
    a[j - 1], a[j] := a[j], a[j - 1];
  }

  /** Copies a bucket into a buffer, sorts it and hands the sorted contents back. */
  method SortBucket(bucket: seq<int>) returns (sorted: seq<int>)
    requires NonnegInts(bucket)
    ensures Sorted(sorted)
    ensures multiset(sorted) == multiset(bucket)
  {
    var a := new int[|bucket|](i requires 0 <= i < |bucket| => bucket[i]);
    assert a[..] == bucket;
    Qsort(a);
    sorted := a[..];
  }

  /** `generateRecvSizeBuffer(n_proc, size)`: a fresh array of `n_proc` entries, `size` first and 0 after. */
  method GenerateRecvSizeBuffer(nProc: nat, size: int) returns (arr: array<int>)
    requires nProc >= 1
    ensures fresh(arr)
    ensures arr.Length == nProc
    ensures arr[0] == size
    ensures forall i :: 1 <= i < nProc ==> arr[i] == 0
  {
    arr := new int[nProc];
    arr[0] := size;
    for i := 1 to nProc
      invariant arr[0] == size
      invariant forall k :: 1 <= k < i ==> arr[k] == 0
    {
      arr[i] := 0;
    }
  }
}
