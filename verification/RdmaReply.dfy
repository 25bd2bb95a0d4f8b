/** A read answered by RDMA, end to end: from the segments of the request to the client's memory. */
module RdmaReply {
  import opened Basics
  import opened SegmentIndex
  import opened SharedHeap
  import opened RequestCover
  import opened ScatterGather
  import opened RdmaFanOut

  /** The bytes each iovec entry contributes. */
  function Pieces(heap: Heap, iov: seq<IoVec>): seq<seq<Byte>> {
    seq(|iov|, j requires 0 <= j < |iov| => Slice(heap, iov[j]))
  }

  lemma {:induction false} PiecesGather(heap: Heap, iov: seq<IoVec>)
    ensures Flat(Pieces(heap, iov)) == Gather(heap, iov)
  {
    hide Slice;
    if iov != [] {
      var n := |iov| - 1;
      PiecesGather(heap, iov[..n]);
      assert Pieces(heap, iov)[..n] == Pieces(heap, iov[..n]);
    }
  }

  /**
    When the acknowledgement of a read goes out, whatever the order of completions, the client's buffer holds exactly
    the requested bytes of the view, and no other byte of the client's memory changed.
   */
  lemma ReadDelivered(segs: seq<Descr>, m: SegmentMap, heap: Heap, stored: Stored, id: ObjectId, off: nat, size: nat,
                      iov: seq<IoVec>,
                      plan: seq<Transfer>, base: nat, remote: nat -> Byte, run: seq<Fan>, i: nat, x: nat)
    requires Indexed(m) && AllBacked(m, heap) && AllInMap(segs, m) && Serves(segs, off, size) && |segs| == |iov|
    requires forall j | 0 <= j < |iov| :: iov[j] == Clamp(segs[j], off, size)
    requires Contiguous(plan, base) && Carried(plan) == Flat(Pieces(heap, iov))
    requires Run(plan, remote, run) && i < |run| && run[i].acks == 1
    ensures run[i].remote(x) == if base <= x < base + size
            then ViewOf(m, heap, stored, id, off + (x - base)) else remote(x)
  {
    hide Indexed, AllBacked, AllInMap, Serves, Clamp, Contiguous, Run, Carried, Flat, Gather, ViewOf;
    PiecesGather(heap, iov);
    GatherExact(segs, m, heap, stored, id, off, size, iov);
    AckMeansDelivered(plan, base, remote, run, i, x);
  }
}
