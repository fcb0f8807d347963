/**
 The two-phase exchange between the ranks. The collectives are functions
 over the per-rank buffers, indexed by rank: `Alltoall` delivers to rank r
 entry r of every rank's `sendCount`, and `Alltoallv` delivers to rank r
 segment r of every rank's `segBucket`, each placed in the receive buffer at
 that sender's receive offset. Between the two, every rank turns its
 receive counts into receive offsets and a total size.
 */
module Exchange {
  import opened CArith
  import opened Sequences

  /** One row of P entries per rank. */
  ghost predicate Square(m: seq<seq<int>>, p: nat) {
    |m| == p && forall r :: 0 <= r < p ==> |m[r]| == p
  }

  /** `Alltoall` of one count per destination: rank r receives, from every rank s, s's count for r. */
  function Alltoall(sendCounts: seq<seq<int>>, p: nat): (recvCounts: seq<seq<int>>)
    requires Square(sendCounts, p)
    ensures Square(recvCounts, p)
    ensures forall r, s :: 0 <= r < p && 0 <= s < p ==> recvCounts[r][s] == sendCounts[s][r]
  {
    seq(p, r requires 0 <= r < p => seq(p, s requires 0 <= s < p => sendCounts[s][r]))
  }

  /** The count exchange is a transpose: running it twice gives back what was sent. */
  lemma AlltoallInvolutive(sendCounts: seq<seq<int>>, p: nat)
    requires Square(sendCounts, p)
    ensures Alltoall(Alltoall(sendCounts, p), p) == sendCounts
  {
    var back := Alltoall(Alltoall(sendCounts, p), p);
    forall s | 0 <= s < p ensures back[s] == sendCounts[s] {
      assert forall r :: 0 <= r < p ==> back[s][r] == sendCounts[s][r];
    }
  }

  /** The receive-offset loop: each offset is the running total before it, and the total is the buffer size. */
  method ReceiveLayout(recvCount: seq<int>) returns (recvOffsets: seq<int>, finalBucketSize: int)
    ensures |recvOffsets| == |recvCount|
    ensures ExclusivePrefixSums(recvOffsets, recvCount)
    ensures finalBucketSize == Sum(recvCount)
  {
    var offs := new int[|recvCount|](_ => 0);
    finalBucketSize := 0;
    for i := 0 to |recvCount|
      invariant finalBucketSize == Sum(recvCount[..i])
      invariant forall k :: 0 <= k < i ==> offs[k] == Sum(recvCount[..k])
    {
      offs[i] := finalBucketSize;
      SumPrefixStep(recvCount, i);
      finalBucketSize := finalBucketSize + recvCount[i];
    }
    assert recvCount[..|recvCount|] == recvCount;
    recvOffsets := offs[..];
  }

  /** Each receive region, at its offset, ends within the total of the counts. */
  lemma ReceiveRegionsFit(recvOffsets: seq<int>, recvCount: seq<int>)
    requires ExclusivePrefixSums(recvOffsets, recvCount)
    requires forall s :: 0 <= s < |recvCount| ==> recvCount[s] >= 0
    ensures forall s :: 0 <= s < |recvCount| ==>
      0 <= recvOffsets[s] && recvOffsets[s] + recvCount[s] <= Sum(recvCount)
  {
    forall s | 0 <= s < |recvCount|
      ensures 0 <= recvOffsets[s] && recvOffsets[s] + recvCount[s] <= Sum(recvCount)
    {
      SumPrefixStep(recvCount, s);
      SumPrefixMonotone(recvCount, s, s + 1);
      SumNonneg(recvCount[..s]);
    }
  }

  /** `piece` written into `buf` from index `off` on, the rest of `buf` unchanged. */
  function Place(buf: seq<int>, piece: seq<int>, off: int): (r: seq<int>)
    requires 0 <= off && off + |piece| <= |buf|
    ensures |r| == |buf|
  {
    buf[..off] + piece + buf[off + |piece|..]
  }

  /** Every piece fits in the buffer at its offset. */
  ghost predicate PiecesFit(buf: seq<int>, pieces: seq<seq<int>>, offs: seq<int>) {
    |offs| >= |pieces| &&
    forall s :: 0 <= s < |pieces| ==> 0 <= offs[s] && offs[s] + |pieces[s]| <= |buf|
  }

  /** The receive buffer after the pieces from senders 0, 1, ... have landed at their offsets. */
  function Deliver(buf: seq<int>, pieces: seq<seq<int>>, offs: seq<int>): (r: seq<int>)
    requires PiecesFit(buf, pieces, offs)
    ensures |r| == |buf|
  {
    if pieces == [] then buf
    else
      var k := |pieces| - 1;
      Place(Deliver(buf, pieces[..k], offs), pieces[k], offs[k])
  }

  /**
   Pieces laid at the exclusive prefix sums of their lengths fill the buffer
   from the front in sender order.
   */
  lemma {:induction false} DeliverPrefix(buf: seq<int>, pieces: seq<seq<int>>, counts: seq<int>, offs: seq<int>, k: nat)
    requires k <= |pieces| == |counts|
    requires forall s :: 0 <= s < |pieces| ==> |pieces[s]| == counts[s]
    requires ExclusivePrefixSums(offs, counts) && Sum(counts) <= |buf|
    ensures PiecesFit(buf, pieces[..k], offs)
    ensures 0 <= Sum(counts[..k]) <= |buf|
    ensures Deliver(buf, pieces[..k], offs) == Concat(pieces[..k]) + buf[Sum(counts[..k])..]
  {
    ReceiveRegionsFit(offs, counts);
    SumPrefixMonotone(counts, k, |counts|);
    SumNonneg(counts[..k]);
    assert PiecesFit(buf, pieces[..k], offs);
    if k > 0 {
      DeliverPrefix(buf, pieces, counts, offs, k - 1);
      DeliverStep(buf, pieces, counts, offs, k);
    } else {
      assert pieces[..0] == [];
    }
  }

  /** One step of `DeliverPrefix`: the piece of sender `k - 1` lands right after those before it. */
  lemma DeliverStep(buf: seq<int>, pieces: seq<seq<int>>, counts: seq<int>, offs: seq<int>, k: nat)
    requires 0 < k <= |pieces| == |counts|
    requires forall s :: 0 <= s < |pieces| ==> |pieces[s]| == counts[s]
    requires ExclusivePrefixSums(offs, counts)
    requires PiecesFit(buf, pieces[..k], offs) && PiecesFit(buf, pieces[..k - 1], offs)
    requires 0 <= Sum(counts[..k - 1]) && 0 <= Sum(counts[..k]) <= |buf|
    requires Deliver(buf, pieces[..k - 1], offs) == Concat(pieces[..k - 1]) + buf[Sum(counts[..k - 1])..]
    ensures Deliver(buf, pieces[..k], offs) == Concat(pieces[..k]) + buf[Sum(counts[..k])..]
  {
    var front := Concat(pieces[..k - 1]);
    var lo := Sum(counts[..k - 1]);
    var before := Deliver(buf, pieces[..k - 1], offs);
    assert pieces[..k][..k - 1] == pieces[..k - 1];
    assert Deliver(buf, pieces[..k], offs) == Place(before, pieces[k - 1], offs[k - 1]);
    assert Concat(pieces[..k]) == front + pieces[k - 1];
    SumPrefixStep(counts, k - 1);
    ConcatLength(pieces[..k - 1], counts[..k - 1]);
    PlaceAfter(front, buf[lo..], pieces[k - 1]);
    assert buf[lo..][counts[k - 1]..] == buf[lo + counts[k - 1]..];
  }

  /** Writing just past a prefix replaces the front of what follows it. */
  lemma PlaceAfter(front: seq<int>, rest: seq<int>, piece: seq<int>)
    requires |piece| <= |rest|
    ensures Place(front + rest, piece, |front|) == front + piece + rest[|piece|..]
  {
    var b := front + rest;
    assert b[..|front|] == front;
    assert b[|front| + |piece|..] == rest[|piece|..];
  }

  /** The concatenation is as long as the pieces together. */
  lemma {:induction false} ConcatLength(pieces: seq<seq<int>>, counts: seq<int>)
    requires |pieces| == |counts|
    requires forall s :: 0 <= s < |pieces| ==> |pieces[s]| == counts[s]
    ensures |Concat(pieces)| == Sum(counts)
  {
    if pieces != [] {
      ConcatLength(pieces[..|pieces| - 1], counts[..|counts| - 1]);
    }
  }

  /** Into a buffer exactly as long as the pieces together, delivery is concatenation in sender order. */
  lemma DeliverConcat(buf: seq<int>, pieces: seq<seq<int>>, counts: seq<int>, offs: seq<int>)
    requires |pieces| == |counts|
    requires forall s :: 0 <= s < |pieces| ==> |pieces[s]| == counts[s]
    requires ExclusivePrefixSums(offs, counts) && Sum(counts) == |buf|
    ensures PiecesFit(buf, pieces, offs)
    ensures Deliver(buf, pieces, offs) == Concat(pieces)
  {
    DeliverPrefix(buf, pieces, counts, offs, |pieces|);
    assert pieces[..|pieces|] == pieces;
    assert counts[..|counts|] == counts;
  }

  /** Delivering non-negative pieces into a non-negative buffer leaves it non-negative. */
  lemma {:induction false} DeliverNonneg(buf: seq<int>, pieces: seq<seq<int>>, offs: seq<int>)
    requires PiecesFit(buf, pieces, offs) && NonnegInts(buf)
    requires forall s :: 0 <= s < |pieces| ==> NonnegInts(pieces[s])
    ensures NonnegInts(Deliver(buf, pieces, offs))
  {
    if pieces != [] {
      var k := |pieces| - 1;
      assert PiecesFit(buf, pieces[..k], offs);
      DeliverNonneg(buf, pieces[..k], offs);
      PlaceNonneg(Deliver(buf, pieces[..k], offs), pieces[k], offs[k]);
    }
  }

  /** Writing a non-negative piece into a non-negative buffer leaves it non-negative. */
  lemma PlaceNonneg(buf: seq<int>, piece: seq<int>, off: int)
    requires 0 <= off && off + |piece| <= |buf|
    requires NonnegInts(buf) && NonnegInts(piece)
    ensures NonnegInts(Place(buf, piece, off))
  {
    var r := Place(buf, piece, off);
    forall i | 0 <= i < |r| ensures 0 <= r[i] <= INT32_MAX {
      if i < off {
        assert r[i] == buf[i];
      } else if i < off + |piece| {
        assert r[i] == piece[i - off];
      } else {
        assert r[i] == buf[i];
      }
    }
  }


  /** What rank r receives from each sender s: segment r of s's send buffer. */
  function Pieces(segBuckets: seq<seq<int>>, sendCounts: seq<seq<int>>, sendDispls: seq<int>, r: nat, p: nat): (ps: seq<seq<int>>)
    requires |segBuckets| == p && Square(sendCounts, p) && r < p && |sendDispls| >= p
    requires 0 <= sendDispls[r]
    requires forall s :: 0 <= s < p ==> 0 <= sendCounts[s][r] && sendDispls[r] + sendCounts[s][r] <= |segBuckets[s]|
    ensures |ps| == p && forall s :: 0 <= s < p ==> |ps[s]| == sendCounts[s][r]
  {
    seq(p, s requires 0 <= s < p => segBuckets[s][sendDispls[r]..sendDispls[r] + sendCounts[s][r]])
  }

  /**
   The argument contract of `Alltoallv`: every send region lies in its buffer,
   every rank's receive counts match what the others send it, and every receive
   region lies in the receiving rank's buffer. Every rank passes the same send
   displacements, because every rank computes the same plan.
   */
  ghost predicate AlltoallvArgs(segBuckets: seq<seq<int>>, sendCounts: seq<seq<int>>, sendDispls: seq<int>,
                                recvCounts: seq<seq<int>>, recvDispls: seq<seq<int>>, recvSizes: seq<int>, p: nat) {
    |segBuckets| == p && Square(sendCounts, p) && Square(recvCounts, p) && |sendDispls| >= p &&
    |recvDispls| == p && |recvSizes| == p &&
    (forall r :: 0 <= r < p ==> 0 <= sendDispls[r]) &&
    (forall r, s :: 0 <= r < p && 0 <= s < p ==>
      0 <= sendCounts[s][r] && sendDispls[r] + sendCounts[s][r] <= |segBuckets[s]|) &&
    (forall r, s :: 0 <= r < p && 0 <= s < p ==> recvCounts[r][s] == sendCounts[s][r]) &&
    (forall r :: 0 <= r < p ==> recvSizes[r] >= 0 && |recvDispls[r]| >= p) &&
    (forall r, s :: 0 <= r < p && 0 <= s < p ==>
      0 <= recvDispls[r][s] && recvDispls[r][s] + recvCounts[r][s] <= recvSizes[r])
  }

  /** `Alltoallv`: rank r's buffer starts as `recvSizes[r]` zeros and receives every sender's piece at its offset. */
  function Alltoallv(segBuckets: seq<seq<int>>, sendCounts: seq<seq<int>>, sendDispls: seq<int>,
                     recvCounts: seq<seq<int>>, recvDispls: seq<seq<int>>, recvSizes: seq<int>, p: nat): (received: seq<seq<int>>)
    requires AlltoallvArgs(segBuckets, sendCounts, sendDispls, recvCounts, recvDispls, recvSizes, p)
    ensures |received| == p
    ensures forall r :: 0 <= r < p ==> |received[r]| == recvSizes[r]
  {
    seq(p, r requires 0 <= r < p =>
      Deliver(seq(recvSizes[r], _ => 0), Pieces(segBuckets, sendCounts, sendDispls, r, p), recvDispls[r]))
  }

  /**
   With receive offsets that are the exclusive prefix sums of the receive
   counts and a buffer as long as their total, rank r ends up with the
   segments addressed to it, concatenated in sender order.
   */
  lemma AlltoallvConcat(segBuckets: seq<seq<int>>, sendCounts: seq<seq<int>>, sendDispls: seq<int>,
                        recvCounts: seq<seq<int>>, recvDispls: seq<seq<int>>, recvSizes: seq<int>, p: nat, r: nat)
    requires AlltoallvArgs(segBuckets, sendCounts, sendDispls, recvCounts, recvDispls, recvSizes, p) && r < p
    requires ExclusivePrefixSums(recvDispls[r], recvCounts[r]) && recvSizes[r] == Sum(recvCounts[r])
    ensures Alltoallv(segBuckets, sendCounts, sendDispls, recvCounts, recvDispls, recvSizes, p)[r]
      == Concat(Pieces(segBuckets, sendCounts, sendDispls, r, p))
  {
    var ps := Pieces(segBuckets, sendCounts, sendDispls, r, p);
    DeliverConcat(seq(recvSizes[r], _ => 0), ps, recvCounts[r], recvDispls[r]);
  }

  /** Every rank receives only values that were sent, over zeros: non-negative buffers stay non-negative. */
  lemma AlltoallvNonneg(segBuckets: seq<seq<int>>, sendCounts: seq<seq<int>>, sendDispls: seq<int>,
                        recvCounts: seq<seq<int>>, recvDispls: seq<seq<int>>, recvSizes: seq<int>, p: nat)
    requires AlltoallvArgs(segBuckets, sendCounts, sendDispls, recvCounts, recvDispls, recvSizes, p)
    requires forall s :: 0 <= s < p ==> NonnegInts(segBuckets[s])
    ensures forall r :: 0 <= r < p ==>
      NonnegInts(Alltoallv(segBuckets, sendCounts, sendDispls, recvCounts, recvDispls, recvSizes, p)[r])
  {
    forall r | 0 <= r < p
      ensures NonnegInts(Alltoallv(segBuckets, sendCounts, sendDispls, recvCounts, recvDispls, recvSizes, p)[r])
    {
      var ps := Pieces(segBuckets, sendCounts, sendDispls, r, p);
      forall s | 0 <= s < p ensures NonnegInts(ps[s]) {
        assert ps[s] == segBuckets[s][sendDispls[r]..sendDispls[r] + sendCounts[s][r]];
      }
      DeliverNonneg(seq(recvSizes[r], _ => 0), ps, recvDispls[r]);
    }
  }
}
