/**
  A write fetched by RDMA: groups of at most four segments filled in any order end in the one write that was asked for.
 */
module RdmaFetch {
  import opened Basics
  import opened SegmentIndex
  import opened SharedHeap
  import opened RequestCover
  import opened ScatterGather
  import opened ViewUpdates
  import opened RdmaFanOut

  /** Where group `g` starts in a list of `n` segments. */
  function Cut(n: nat, g: nat): nat { if MAX_RDMA_SEGS * g < n then MAX_RDMA_SEGS * g else n }

  /** How many bytes of the request the groups before `g` hold. */
  function Bound(segs: seq<Descr>, off: nat, size: nat, g: nat): nat {
    Progress(segs, off, size, Cut(|segs|, g))
  }

  /** An iovec entry of the request: its place in the segment is the place of its bytes in the request. */
  lemma ClampProgress(segs: seq<Descr>, off: nat, size: nat, j: nat)
    requires Serves(segs, off, size) && j < |segs|
    ensures var v := Clamp(segs[j], off, size);
            && 0 <= v.start && 0 <= v.len && v.start + v.len <= segs[j].size
            && Progress(segs, off, size, j) + v.len == Progress(segs, off, size, j + 1) <= size
            && segs[j].offset + v.start == off + Progress(segs, off, size, j)
  {
    assert j > 0 ==> segs[j - 1].End() == segs[j].offset;
  }

  lemma {:induction false} ProgressMonotone(segs: seq<Descr>, off: nat, size: nat, i: nat, j: nat)
    requires Serves(segs, off, size) && i <= j <= |segs|
    ensures Progress(segs, off, size, i) <= Progress(segs, off, size, j) <= size
    decreases j
  {
    hide Serves, Progress, Clamp;
    if i < j {
      ProgressMonotone(segs, off, size, i, j - 1);
      ClampProgress(segs, off, size, j - 1);
    } else if j > 0 {
      ClampProgress(segs, off, size, j - 1);
    } else {
      NoProgress(segs, off, size);
    }
  }

  lemma BoundEnds(segs: seq<Descr>, off: nat, size: nat)
    requires Serves(segs, off, size)
    ensures Bound(segs, off, size, 0) == 0 && Bound(segs, off, size, Groups(|segs|)) == size
  {
    hide Serves, Progress;
    NoProgress(segs, off, size);
    FullProgress(segs, off, size);
  }

  /** Every byte of the request belongs to a group. */
  lemma {:induction false} FindGroup(segs: seq<Descr>, off: nat, size: nat, n: nat, x: nat) returns (g: nat)
    requires Bound(segs, off, size, 0) == 0 && x < Bound(segs, off, size, n)
    ensures g < n && Bound(segs, off, size, g) <= x < Bound(segs, off, size, g + 1)
  {
    hide Bound;
    if x < Bound(segs, off, size, n - 1) {
      g := FindGroup(segs, off, size, n - 1, x);
    } else {
      g := n - 1;
    }
  }

  /** The numbers of the first `n` groups. */
  function Numbers(n: nat): (r: set<nat>)
    ensures |r| == n && forall g: nat :: g in r <==> g < n
  {
    if n == 0 then {} else Numbers(n - 1) + {n - 1}
  }

  /** Byte `i` of the object belongs to a group that has arrived. */
  ghost predicate Arrived(segs: seq<Descr>, off: nat, size: nat, pending: set<nat>, i: nat) {
    exists g: nat :: g < Groups(|segs|) && g !in pending
                     && off + Bound(segs, off, size, g) <= i < off + Bound(segs, off, size, g + 1)
  }

  /** The bytes of the groups that have arrived are in place; no other byte of any object changed. */
  ghost predicate PartlyPatched(objs: Objects, heap: Heap, heap': Heap, stored: Stored, id: ObjectId, off: nat,
                                data: seq<Byte>, segs: seq<Descr>, pending: set<nat>) {
    forall id', i: nat ::
      View(objs, heap', stored, id', i) ==
      if id' == id && off <= i < off + |data| && Arrived(segs, off, |data|, pending, i)
          then data[i - off] else View(objs, heap, stored, id', i)
  }

  lemma NothingArrived(objs: Objects, heap: Heap, stored: Stored, id: ObjectId, off: nat, data: seq<Byte>,
                       segs: seq<Descr>, pending: set<nat>)
    requires forall g: nat | g < Groups(|segs|) :: g in pending
    ensures PartlyPatched(objs, heap, heap, stored, id, off, data, segs, pending)
  {
    hide View, Bound;
  }

  /** One more group, whichever it is. */
  lemma GroupArrived(objs: Objects, heap: Heap, heap1: Heap, heap2: Heap, stored: Stored, id: ObjectId, off: nat,
                     data: seq<Byte>, segs: seq<Descr>, pending: set<nat>, g: nat)
    requires PartlyPatched(objs, heap, heap1, stored, id, off, data, segs, pending) && g in pending
             && g < Groups(|segs|)
    requires Bound(segs, off, |data|, g) <= Bound(segs, off, |data|, g + 1) <= |data|
    requires Patched(objs, heap1, objs, heap2, stored, id, off + Bound(segs, off, |data|, g),
                     data[Bound(segs, off, |data|, g)..Bound(segs, off, |data|, g + 1)])
    ensures PartlyPatched(objs, heap, heap2, stored, id, off, data, segs, pending - {g})
  {
    hide View, Bound;
    var lo, hi := Bound(segs, off, |data|, g), Bound(segs, off, |data|, g + 1);
    forall i: nat
      ensures Arrived(segs, off, |data|, pending - {g}, i) <==>
              Arrived(segs, off, |data|, pending, i) || off + lo <= i < off + hi
    {
      if off + lo <= i < off + hi { assert g !in pending - {g}; }
    }
    hide Arrived;
    assert forall x | lo <= x < hi :: data[lo..hi][x - lo] == data[x];
  }

  /** When nothing is pending, the write is complete. */
  lemma AllArrived(objs: Objects, heap: Heap, heap': Heap, stored: Stored, id: ObjectId, off: nat, data: seq<Byte>,
                   segs: seq<Descr>)
    requires Serves(segs, off, |data|) && PartlyPatched(objs, heap, heap', stored, id, off, data, segs, {})
    ensures Patched(objs, heap, objs, heap', stored, id, off, data)
  {
    hide View, Bound, Serves;
    BoundEnds(segs, off, |data|);
    forall i: nat | off <= i < off + |data| ensures Arrived(segs, off, |data|, {}, i) {
      var g := FindGroup(segs, off, |data|, Groups(|segs|), i - off);
    }
    hide Arrived;
  }
}
