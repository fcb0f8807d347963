/** Sums, exclusive prefix sums, concatenation and sortedness of integer sequences. */
module Sequences {

  /** The sum of a sequence, accumulated from the left as the program's loops do. */
  function Sum(s: seq<int>): int {
    if s == [] then 0 else Sum(s[..|s| - 1]) + s[|s| - 1]
  }

  /** Sums split over concatenation. */
  lemma {:induction false} SumAppend(a: seq<int>, b: seq<int>)
    ensures Sum(a + b) == Sum(a) + Sum(b)
    decreases |b|
  {
    if b != [] {
      var b' := b[..|b| - 1];
      assert (a + b)[..|a + b| - 1] == a + b';
      SumAppend(a, b');
    } else {
      assert a + b == a;
    }
  }

  /** A sum of non-negative entries is non-negative and bounds every entry. */
  lemma {:induction false} SumNonneg(s: seq<int>)
    requires forall i :: 0 <= i < |s| ==> s[i] >= 0
    ensures Sum(s) >= 0
    ensures forall i :: 0 <= i < |s| ==> s[i] <= Sum(s)
  {
    if s != [] {
      SumNonneg(s[..|s| - 1]);
    }
  }

  /** Adding `d` to one entry adds `d` to the sum. */
  lemma {:induction false} SumUpdate(s: seq<int>, i: nat, d: int)
    requires i < |s|
    ensures Sum(s[i := s[i] + d]) == Sum(s) + d
  {
    var t := s[i := s[i] + d];
    var k := |s| - 1;
    assert t[..k] == if i == k then s[..k] else s[..k][i := s[i] + d];
    if i < k {
      SumUpdate(s[..k], i, d);
    }
  }

  /** The prefix sums grow by one entry at a time: `Sum(s[..i + 1]) == Sum(s[..i]) + s[i]`. */
  lemma SumPrefixStep(s: seq<int>, i: nat)
    requires i < |s|
    ensures Sum(s[..i + 1]) == Sum(s[..i]) + s[i]
  {
    assert s[..i + 1][..i] == s[..i];
  }

  /** Prefix sums of non-negative entries are monotone and bounded by the total. */
  lemma SumPrefixMonotone(s: seq<int>, i: nat, j: nat)
    requires i <= j <= |s|
    requires forall k :: 0 <= k < |s| ==> s[k] >= 0
    ensures Sum(s[..i]) + Sum(s[i..j]) == Sum(s[..j])
    ensures Sum(s[..i]) <= Sum(s[..j]) <= Sum(s)
  {
    assert s[..j] == s[..i] + s[i..j];
    SumAppend(s[..i], s[i..j]);
    assert s == s[..j] + s[j..];
    SumAppend(s[..j], s[j..]);
    SumNonneg(s[i..j]);
    SumNonneg(s[j..]);
  }

  /** `offsets[i]` is the exclusive prefix sum of `counts` at every index of `counts`. */
  ghost predicate ExclusivePrefixSums(offsets: seq<int>, counts: seq<int>) {
    |offsets| >= |counts| &&
    forall i :: 0 <= i < |counts| ==> offsets[i] == Sum(counts[..i])
  }

  /** The recurrence form of exclusive prefix sums: the first offset is 0, each next one adds a count. */
  lemma PrefixSumsRecurrence(offsets: seq<int>, counts: seq<int>)
    requires ExclusivePrefixSums(offsets, counts)
    ensures |counts| > 0 ==> offsets[0] == 0
    ensures forall i :: 0 < i < |counts| ==> offsets[i] == offsets[i - 1] + counts[i - 1]
  {
    forall i | 0 < i < |counts|
      ensures offsets[i] == offsets[i - 1] + counts[i - 1]
    {
      SumPrefixStep(counts, i - 1);
    }
  }

  /** The concatenation of a sequence of sequences, in order. */
  function Concat(ss: seq<seq<int>>): seq<int> {
    if ss == [] then [] else Concat(ss[..|ss| - 1]) + ss[|ss| - 1]
  }

  /** Concatenation splits over `+`. */
  lemma {:induction false} ConcatAppend(a: seq<seq<int>>, b: seq<seq<int>>)
    ensures Concat(a + b) == Concat(a) + Concat(b)
    decreases |b|
  {
    if b != [] {
      var b' := b[..|b| - 1];
      assert (a + b)[..|a + b| - 1] == a + b';
      ConcatAppend(a, b');
    } else {
      assert a + b == a;
    }
  }

  /** Appending `x` to one component adds `x` to the multiset of the concatenation. */
  lemma {:induction false} ConcatExtendOne(ss: seq<seq<int>>, q: nat, x: int)
    requires q < |ss|
    ensures multiset(Concat(ss[q := ss[q] + [x]])) == multiset(Concat(ss)) + multiset{x}
  {
    var k := |ss| - 1;
    var tt := ss[q := ss[q] + [x]];
    assert Concat(ss) == Concat(ss[..k]) + ss[k];
    if q == k {
      assert tt[..k] == ss[..k];
      assert Concat(tt) == Concat(ss[..k]) + (ss[k] + [x]);
    } else {
      assert tt[..k] == ss[..k][q := ss[q] + [x]];
      ConcatExtendOne(ss[..k], q, x);
      assert Concat(tt) == Concat(tt[..k]) + ss[k];
    }
  }

  /** A sequence of empty sequences concatenates to nothing. */
  lemma {:induction false} ConcatEmpties(ss: seq<seq<int>>)
    requires forall r :: 0 <= r < |ss| ==> ss[r] == []
    ensures Concat(ss) == []
  {
    if ss != [] {
      ConcatEmpties(ss[..|ss| - 1]);
    }
  }

  /** Every value of a concatenation comes from one of its parts. */
  lemma {:induction false} ConcatMember(ss: seq<seq<int>>, x: int)
    requires x in Concat(ss)
    ensures exists r :: 0 <= r < |ss| && x in ss[r]
  {
    var k := |ss| - 1;
    if x !in ss[k] {
      ConcatMember(ss[..k], x);
      var r :| 0 <= r < k && x in ss[..k][r];
      assert x in ss[r];
    }
  }

  /** Parts with the same multisets concatenate to the same multiset. */
  lemma {:induction false} ConcatMultisets(ss: seq<seq<int>>, tt: seq<seq<int>>)
    requires |ss| == |tt|
    requires forall r :: 0 <= r < |ss| ==> multiset(ss[r]) == multiset(tt[r])
    ensures multiset(Concat(ss)) == multiset(Concat(tt))
  {
    if ss != [] {
      ConcatMultisets(ss[..|ss| - 1], tt[..|tt| - 1]);
    }
  }

  /** Sorted parts, each below all later ones, concatenate to a sorted sequence. */
  lemma {:induction false} SortedConcat(ss: seq<seq<int>>)
    requires forall r :: 0 <= r < |ss| ==> Sorted(ss[r])
    requires forall r, r', a, b :: 0 <= r < r' < |ss| && a in ss[r] && b in ss[r'] ==> a <= b
    ensures Sorted(Concat(ss))
  {
    if ss != [] {
      var k := |ss| - 1;
      var front := Concat(ss[..k]);
      SortedConcat(ss[..k]);
      forall a | a in front
        ensures forall b :: b in ss[k] ==> a <= b
      {
        ConcatMember(ss[..k], a);
      }
      SortedAppend(front, ss[k]);
    }
  }

  /** Two sorted sequences, the first below the second, append to a sorted sequence. */
  lemma SortedAppend(a: seq<int>, b: seq<int>)
    requires Sorted(a) && Sorted(b)
    requires forall x, y :: x in a && y in b ==> x <= y
    ensures Sorted(a + b)
  {
    forall i, j | 0 <= i < j < |a + b|
      ensures (a + b)[i] <= (a + b)[j]
    {
      if i < |a| && j >= |a| {
        assert (a + b)[i] in a && (a + b)[j] in b;
      }
    }
  }

  /** Non-decreasing order, as `qsort` with the subtraction comparator leaves a buffer. */
  predicate Sorted(s: seq<int>) {
    forall i, j :: 0 <= i < j < |s| ==> s[i] <= s[j]
  }
}
