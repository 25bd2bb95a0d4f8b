/**
  A whole range copy-on-write: the walk over the source segments, what it shows in the end, and when it overruns a
  buffer.
 */
module RangeWalk {
  import opened Basics
  import opened SegmentIndex
  import opened SharedHeap
  import opened Shapes
  import opened ObjectShapes
  import opened RangeCow

  /** A segment of `m` below key `bound` that was copied holds byte `i`; those in `failed` were not. */
  ghost predicate CopiedBefore(m: SegmentMap, failed: set<nat>, bound: nat, i: nat) {
    exists k :: k in m && k < bound && k !in failed && m[k].Has(i)
  }

  /** A segment of `m` that was copied holds byte `i`. */
  ghost predicate CopiedFrom(m: SegmentMap, failed: set<nat>, i: nat) {
    exists k :: k in m && k !in failed && m[k].Has(i)
  }

  /**
    The bytes of `[offset, offset + size)` in the segments of `m` below key `bound` have been copied from `src` to
    `dst`, except those of the segments in `failed`.
   */
  ghost predicate RangeUpTo(objs: Objects, heap: Heap, objs': Objects, heap': Heap, stored: Stored, src: ObjectId,
                            dst: ObjectId, m: SegmentMap, offset: nat, size: nat, failed: set<nat>, bound: nat)
  {
    && OthersShaped(objs, objs', dst) && RangesKept(SegmentsOf(objs, dst), SegmentsOf(objs', dst))
    && (forall i: nat | offset <= i < offset + size && CopiedBefore(m, failed, bound, i) ::
          Covered(SegmentsOf(objs', dst), i))
    && (forall i: nat ::
          UnderDirty(SegmentsOf(objs', dst), i) <==> DirtyAfter(m, SegmentsOf(objs, dst), offset, size, bound, i))
    && forall id, i: nat ::
         View(objs', heap', stored, id, i) ==
         if id == dst && offset <= i < offset + size && CopiedBefore(m, failed, bound, i)
         then View(objs, heap, stored, src, i) else View(objs, heap, stored, id, i)
  }

  /**
    Outcome of a range copy-on-write: what the source has cached of the range, except in the segments `failed`, now
    shows in the destination and is cached there; a byte is dirty as its shared segment was, or as it was before.
   */
  ghost predicate RangeCowDone(objs: Objects, heap: Heap, objs': Objects, heap': Heap, stored: Stored, src: ObjectId,
                               dst: ObjectId, offset: nat, size: nat, failed: set<nat>)
  {
    && OthersShaped(objs, objs', dst) && RangesKept(SegmentsOf(objs, dst), SegmentsOf(objs', dst))
    && (forall i: nat | offset <= i < offset + size && CopiedFrom(SegmentsOf(objs, src), failed, i) ::
          Covered(SegmentsOf(objs', dst), i))
    && (forall i: nat ::
          UnderDirty(SegmentsOf(objs', dst), i) <==>
          DirtyAtEnd(SegmentsOf(objs, src), SegmentsOf(objs, dst), offset, size, i))
    && forall id, i: nat ::
         View(objs', heap', stored, id, i) ==
         if id == dst && offset <= i < offset + size && CopiedFrom(SegmentsOf(objs, src), failed, i)
         then View(objs, heap, stored, src, i) else View(objs, heap, stored, id, i)
  }

  /** Only segments of the range whose copy has to load can fail. */
  ghost predicate MayFail(m: SegmentMap, md: SegmentMap, a: nat, offset: nat, size: nat, failed: set<nat>) {
    forall k | k in failed :: k in m && m[k].Overlap(offset, size) && CopyLoads(md, a, m[k], offset, size)
  }

  /** The copy of some segment below `bound` had to load. */
  ghost predicate LoadsBefore(m: SegmentMap, md: SegmentMap, a: nat, offset: nat, size: nat, bound: nat) {
    exists k :: k in m && k < bound && m[k].Overlap(offset, size) && CopyLoads(md, a, m[k], offset, size)
  }

  lemma NothingToLoad(m: SegmentMap, md: SegmentMap, a: nat, offset: nat, size: nat, failed: set<nat>)
    requires MayFail(m, md, a, offset, size, failed) && !RangeLoads(m, md, a, offset, size)
    ensures failed == {}
  {
    hide CopyLoads;
    forall k ensures k !in failed { }
  }

  lemma NothingFailed(m: SegmentMap, i: nat)
    ensures CopiedFrom(m, {}, i) <==> Covered(m, i)
  {
    if k :| k in m && m[k].Has(i) { assert k !in {}; }
  }

  lemma NothingBefore(m: SegmentMap, md: SegmentMap, offset: nat, size: nat, bound: nat, i: nat)
    requires Indexed(m) && forall k | k in m && offset <= k :: bound <= k
    ensures offset <= i ==> !CopiedBefore(m, {}, bound, i)
    ensures DirtyAfter(m, md, offset, size, bound, i) <==> UnderDirty(md, i)
  {
    hide MustCopy;
  }

  lemma RangeStarts(objs: Objects, heap: Heap, stored: Stored, src: ObjectId, dst: ObjectId, m: SegmentMap, offset: nat,
                    size: nat, bound: nat)
    requires Indexed(m) && forall k | k in m && offset <= k :: bound <= k
    ensures RangeUpTo(objs, heap, objs, heap, stored, src, dst, m, offset, size, {}, bound)
  {
    hide View, CopiedBefore, DirtyAfter, UnderDirty, Indexed, Bare;
    var md := SegmentsOf(objs, dst);
    forall i: nat
      ensures offset <= i ==> !CopiedBefore(m, {}, bound, i)
      ensures DirtyAfter(m, md, offset, size, bound, i) <==> UnderDirty(md, i)
    {
      NothingBefore(m, md, offset, size, bound, i);
    }
  }

  /** The iterator stands on the first key from `bound` on. */
  ghost predicate Stands(m: SegmentMap, it: Option<nat>, bound: nat) {
    match it
    case Some(k) => k in m && bound <= k && forall j | j in m && bound <= j :: k <= j
    case None => forall j | j in m :: j < bound
  }

  lemma StandsFirst(m: SegmentMap, offset: nat)
    ensures Stands(m, LowerBound(m.Keys, offset), offset)
  {
  }

  lemma StandsNext(m: SegmentMap, k: nat)
    requires Indexed(m) && k in m
    ensures var it := LowerBound(m.Keys, k + 1);
            Stands(m, it, k + 1) && (it.Some? ==> it.value in m && m[k].End() <= m[it.value].offset)
  {
  }

  lemma CopiedNext(m: SegmentMap, failed: set<nat>, bound: nat, k: nat, i: nat)
    requires Stands(m, Some(k), bound) && k !in failed
    ensures CopiedBefore(m, failed, k + 1, i) <==> CopiedBefore(m, failed, bound, i) || m[k].Has(i)
    ensures CopiedBefore(m, failed + {k}, k + 1, i) <==> CopiedBefore(m, failed, bound, i)
  {
    if j :| j in m && j < bound && j !in failed && m[j].Has(i) { assert j !in failed + {k}; }
  }

  lemma DirtyNext(m: SegmentMap, md: SegmentMap, offset: nat, size: nat, bound: nat, k: nat, i: nat)
    requires Indexed(m) && Stands(m, Some(k), bound)
    ensures DirtyAfter(m, md, offset, size, k + 1, i) <==>
            if SharedAt(m, md, offset, size, k, i) then m[k].dirty else DirtyAfter(m, md, offset, size, bound, i)
  {
    hide MustCopy, UnderDirty;
    if SharedAt(m, md, offset, size, k, i) {
      forall j: nat | SharedAt(m, md, offset, size, j, i) ensures j == k { OnlyOneCovers(m, j, k, i); }
    } else {
      assert forall j: nat | SharedAt(m, md, offset, size, j, i) :: j < k + 1 <==> j < bound;
    }
  }

  /** One more segment was shared or copied. */
  lemma RangeAdvances(objs0: Objects, heap0: Heap, objs: Objects, heap: Heap, objs': Objects, heap': Heap,
                      stored: Stored, src: ObjectId, dst: ObjectId, m: SegmentMap, offset: nat, size: nat,
                      failed: set<nat>, bound: nat, k: nat)
    requires src != dst && Indexed(m) && Stands(m, Some(k), bound) && m[k].Overlap(offset, size) && k !in failed
    requires RangeUpTo(objs0, heap0, objs, heap, stored, src, dst, m, offset, size, failed, bound)
    requires RangeStep(objs, heap, objs', heap', stored, src, dst,
                       Max(m[k].offset, offset), Min(m[k].End(), offset + size),
                       !MustCopy(SegmentsOf(objs0, dst), m[k], offset, size), m[k].dirty)
    ensures RangeUpTo(objs0, heap0, objs', heap', stored, src, dst, m, offset, size, failed, k + 1)
  {
    hide View, CopiedBefore, DirtyAfter, UnderDirty, Indexed, Bare, MustCopy, Covered;
    var md0, md, md' := SegmentsOf(objs0, dst), SegmentsOf(objs, dst), SegmentsOf(objs', dst);
    forall id, i: nat
      ensures View(objs', heap', stored, id, i) ==
              if id == dst && offset <= i < offset + size && CopiedBefore(m, failed, k + 1, i)
              then View(objs0, heap0, stored, src, i) else View(objs0, heap0, stored, id, i)
    {
      CopiedNext(m, failed, bound, k, i);
      assert View(objs, heap, stored, src, i) == View(objs0, heap0, stored, src, i);
    }
    forall i: nat | offset <= i < offset + size && CopiedBefore(m, failed, k + 1, i) ensures Covered(md', i) {
      CopiedNext(m, failed, bound, k, i);
      CoverKept(md, md', i);
    }
    forall i: nat ensures UnderDirty(md', i) <==> DirtyAfter(m, md0, offset, size, k + 1, i) {
      DirtyNext(m, md0, offset, size, bound, k, i);
      if !MustCopy(md0, m[k], offset, size) { WholeSegment(md0, m[k], offset, size); }
    }
  }

  /** The load for one segment failed: nothing of it was copied. */
  lemma RangeSkips(objs0: Objects, heap0: Heap, objs: Objects, heap: Heap, objs': Objects, heap': Heap,
                   stored: Stored, src: ObjectId, dst: ObjectId, m: SegmentMap, offset: nat, size: nat,
                   failed: set<nat>, bound: nat, k: nat)
    requires Indexed(m) && Stands(m, Some(k), bound) && k !in failed
    requires MustCopy(SegmentsOf(objs0, dst), m[k], offset, size)
    requires RangeUpTo(objs0, heap0, objs, heap, stored, src, dst, m, offset, size, failed, bound)
    requires RangeStep(objs, heap, objs', heap', stored, src, dst, 0, 0, false, false)
    ensures RangeUpTo(objs0, heap0, objs', heap', stored, src, dst, m, offset, size, failed + {k}, k + 1)
  {
    hide View, CopiedBefore, DirtyAfter, UnderDirty, Indexed, Bare, MustCopy, Covered;
    var md0, md, md' := SegmentsOf(objs0, dst), SegmentsOf(objs, dst), SegmentsOf(objs', dst);
    forall i: nat ensures CopiedBefore(m, failed + {k}, k + 1, i) <==> CopiedBefore(m, failed, bound, i) {
      CopiedNext(m, failed, bound, k, i);
    }
    forall i: nat | offset <= i < offset + size && CopiedBefore(m, failed + {k}, k + 1, i) ensures Covered(md', i) {
      CoverKept(md, md', i);
    }
    forall i: nat ensures UnderDirty(md', i) <==> DirtyAfter(m, md0, offset, size, k + 1, i) {
      DirtyNext(m, md0, offset, size, bound, k, i);
    }
  }

  lemma DirtyEnds(m: SegmentMap, md: SegmentMap, offset: nat, size: nat, bound: nat, i: nat)
    requires forall k | k in m && m[k].Overlap(offset, size) :: k < bound
    ensures DirtyAfter(m, md, offset, size, bound, i) <==> DirtyAtEnd(m, md, offset, size, i)
  {
    hide MustCopy, UnderDirty;
    assert forall k: nat | SharedAt(m, md, offset, size, k, i) :: k < bound;
  }

  lemma RangeEnds(objs: Objects, heap: Heap, objs': Objects, heap': Heap, stored: Stored, src: ObjectId, dst: ObjectId,
                  m: SegmentMap, offset: nat, size: nat, failed: set<nat>, bound: nat)
    requires m == SegmentsOf(objs, src)
    requires RangeUpTo(objs, heap, objs', heap', stored, src, dst, m, offset, size, failed, bound)
    requires forall k | k in m && m[k].Overlap(offset, size) :: k < bound
    ensures RangeCowDone(objs, heap, objs', heap', stored, src, dst, offset, size, failed)
  {
    hide View, DirtyAfter, DirtyAtEnd, UnderDirty, Bare;
    forall i: nat | offset <= i < offset + size
      ensures CopiedBefore(m, failed, bound, i) <==> CopiedFrom(m, failed, i)
    {
      if k :| k in m && k !in failed && m[k].Has(i) { assert m[k].Overlap(offset, size); }
    }
    forall i: nat
      ensures DirtyAfter(m, SegmentsOf(objs, dst), offset, size, bound, i) <==>
              DirtyAtEnd(m, SegmentsOf(objs, dst), offset, size, i)
    {
      DirtyEnds(m, SegmentsOf(objs, dst), offset, size, bound, i);
    }
  }

  /** No segment past a non-overlapping one overlaps: the walk over the source may stop there. */
  lemma StandsAtEnd(m: SegmentMap, it: Option<nat>, bound: nat, offset: nat, size: nat)
    requires Indexed(m) && offset <= bound && Stands(m, it, bound) && (it.Some? ==> !m[it.value].Overlap(offset, size))
    ensures forall k | k in m && m[k].Overlap(offset, size) :: k < bound
  {
  }

  // ---- The state of the walk -----------------------------------------------------------------------

  /** None of the source segments below `bound` that were copied overran a buffer of the destination `md`. */
  ghost predicate NoOverrunBefore(m: SegmentMap, md: SegmentMap, a: nat, offset: nat, size: nat, failed: set<nat>,
                                  bound: nat)
  {
    forall k | k in m && k < bound && k !in failed && m[k].Overlap(offset, size) :: !Overruns(md, a, m[k], offset, size)
  }

  /** The segment under `k` is in the range and is shared with the destination `md`. */
  ghost predicate Shared(m: SegmentMap, md: SegmentMap, offset: nat, size: nat, k: nat) {
    k in m && m[k].Overlap(offset, size) && !MustCopy(md, m[k], offset, size)
  }

  /** The shared segments below `bound` are in their slots of the destination; its other segments keep their flags. */
  ghost predicate SlotsAfter(m: SegmentMap, md0: SegmentMap, md: SegmentMap, offset: nat, size: nat, bound: nat) {
    && (forall k: nat | Shared(m, md0, offset, size, k) && k < bound :: k in md && md[k] == m[k])
    && (forall k | k in md && !(Shared(m, md0, offset, size, k) && k < bound) ::
          md[k].dirty <==> k in md0 && md0[k].dirty)
  }

  lemma SlotsNext(m: SegmentMap, md0: SegmentMap, md: SegmentMap, md': SegmentMap, offset: nat, size: nat, bound: nat,
                  k: nat)
    requires Indexed(m) && Stands(m, Some(k), bound) && m[k].Overlap(offset, size) && RangesKept(md0, md)
    requires SlotsAfter(m, md0, md, offset, size, bound) && KeptBelow(md, md', m[k].offset)
    requires if MustCopy(md0, m[k], offset, size) then FlagsKept(md, md') else md' == md[k := m[k]]
    ensures SlotsAfter(m, md0, md', offset, size, k + 1)
  {
    hide MustCopy;
    forall j: nat | Shared(m, md0, offset, size, j) && j < k + 1 ensures j in md' && md'[j] == m[j] {
      assert j < k ==> j < bound && j < m[k].offset;
    }
  }

  lemma SlotsStart(m: SegmentMap, md: SegmentMap, offset: nat, size: nat, bound: nat)
    requires forall k | k in m && m[k].Overlap(offset, size) :: bound <= k
    ensures SlotsAfter(m, md, md, offset, size, bound)
  {
    hide MustCopy;
  }

  /** How far the copy has come; the destination is untouched from `since` on. */
  ghost predicate RangeState(objs0: Objects, heap0: Heap, objs: Objects, heap: Heap, stored: Stored, a: nat,
                             src: ObjectId, dst: ObjectId, m: SegmentMap, offset: nat, size: nat, failed: set<nat>,
                             bound: nat, since: nat)
  {
    && RangeUpTo(objs0, heap0, objs, heap, stored, src, dst, m, offset, size, failed, bound)
    && SameFrom(SegmentsOf(objs0, dst), SegmentsOf(objs, dst), since)
    && NoOverrunBefore(m, SegmentsOf(objs0, dst), a, offset, size, failed, bound)
    && MayFail(m, SegmentsOf(objs0, dst), a, offset, size, failed)
    && SlotsAfter(m, SegmentsOf(objs0, dst), SegmentsOf(objs, dst), offset, size, bound)
    && (forall k | k in failed :: k < bound)
  }

  lemma RangeStateStart(objs: Objects, heap: Heap, stored: Stored, a: nat, src: ObjectId, dst: ObjectId, m: SegmentMap,
                        offset: nat, size: nat, bound: nat)
    requires Indexed(m) && forall k | k in m && offset <= k :: bound <= k
    ensures RangeState(objs, heap, objs, heap, stored, a, src, dst, m, offset, size, {}, bound, 0)
    ensures !LoadsBefore(m, SegmentsOf(objs, dst), a, offset, size, bound)
  {
    hide RangeUpTo, Overruns, CopyLoads, SlotsAfter;
    SlotsStart(m, SegmentsOf(objs, dst), offset, size, bound);
    RangeStarts(objs, heap, stored, src, dst, m, offset, size, bound);
    assert forall k | k in m && m[k].Overlap(offset, size) :: offset <= k;
  }

  lemma UpToKeeps(objs: Objects, heap: Heap, objs': Objects, heap': Heap, stored: Stored, src: ObjectId, dst: ObjectId,
                  m: SegmentMap, offset: nat, size: nat, failed: set<nat>, bound: nat)
    requires RangeUpTo(objs, heap, objs', heap', stored, src, dst, m, offset, size, failed, bound)
    ensures RangesKept(SegmentsOf(objs, dst), SegmentsOf(objs', dst))
  {
  }

  lemma LoadsNext(m: SegmentMap, md: SegmentMap, a: nat, offset: nat, size: nat, bound: nat, k: nat)
    requires Stands(m, Some(k), bound) && m[k].Overlap(offset, size)
    ensures LoadsBefore(m, md, a, offset, size, k + 1) <==>
            LoadsBefore(m, md, a, offset, size, bound) || CopyLoads(md, a, m[k], offset, size)
  {
    hide CopyLoads;
  }

  lemma LoadsCopies(m: SegmentMap, a: nat, s: Segment, offset: nat, size: nat)
    requires CopyLoads(m, a, s, offset, size)
    ensures MustCopy(m, s, offset, size)
  {
  }

  /** The calls of the walk: there are some exactly if a copy had to load, and one failed exactly if a copy did. */
  ghost predicate Accounted(outcome: nat -> Outcome, from: nat, calls: nat, failed: set<nat>, m: SegmentMap,
                            md: SegmentMap, a: nat, offset: nat, size: nat, bound: nat)
  {
    && from <= calls && (failed == {} <==> Quiet(outcome, from, calls))
    && (calls > from <==> LoadsBefore(m, md, a, offset, size, bound))
  }

  lemma AccountedStart(outcome: nat -> Outcome, from: nat, m: SegmentMap, md: SegmentMap, a: nat, offset: nat,
                       size: nat, bound: nat)
    requires !LoadsBefore(m, md, a, offset, size, bound)
    ensures Accounted(outcome, from, from, {}, m, md, a, offset, size, bound)
  {
    hide LoadsBefore;
  }

  lemma AccountedNext(outcome: nat -> Outcome, from: nat, calls: nat, calls': nat, failed: set<nat>, m: SegmentMap,
                      md: SegmentMap, a: nat, offset: nat, size: nat, bound: nat, k: nat, loads: bool, ok: bool)
    requires Accounted(outcome, from, calls, failed, m, md, a, offset, size, bound) && calls <= calls'
    requires (ok <==> Quiet(outcome, calls, calls')) && (calls' > calls <==> loads)
    requires LoadsBefore(m, md, a, offset, size, k + 1) <==> LoadsBefore(m, md, a, offset, size, bound) || loads
    ensures Accounted(outcome, from, calls', if ok then failed else failed + {k}, m, md, a, offset, size, k + 1)
  {
    hide LoadsBefore;
    assert k in failed + {k};
  }

  lemma AccountedEnds(outcome: nat -> Outcome, from: nat, calls: nat, failed: set<nat>, m: SegmentMap, md: SegmentMap,
                      a: nat, offset: nat, size: nat, bound: nat)
    requires Accounted(outcome, from, calls, failed, m, md, a, offset, size, bound)
    requires forall k | k in m && m[k].Overlap(offset, size) :: k < bound
    ensures from <= calls && (failed == {} <==> Quiet(outcome, from, calls))
    ensures calls > from <==> RangeLoads(m, md, a, offset, size)
  {
    hide CopyLoads;
  }

  /** What the step does to a segment is what the destination before the request asked for. */
  lemma RangeStateStep(objs0: Objects, heap0: Heap, objs: Objects, heap: Heap, objs': Objects, heap': Heap,
                       stored: Stored, a: nat, src: ObjectId, dst: ObjectId, m: SegmentMap, offset: nat, size: nat,
                       failed: set<nat>, bound: nat, since: nat, k: nat, ok: bool)
    requires RangeState(objs0, heap0, objs, heap, stored, a, src, dst, m, offset, size, failed, bound, since)
    requires src != dst && Indexed(m) && Indexed(SegmentsOf(objs0, dst)) && Indexed(SegmentsOf(objs, dst))
    requires Stands(m, Some(k), bound) && m[k].Overlap(offset, size) && since <= m[k].offset
    requires SameFrom(SegmentsOf(objs, dst), SegmentsOf(objs', dst), m[k].End())
    requires ok ==> !Overruns(SegmentsOf(objs, dst), a, m[k], offset, size)
    requires ok ==> RangeStep(objs, heap, objs', heap', stored, src, dst,
                              Max(m[k].offset, offset), Min(m[k].End(), offset + size),
                              !MustCopy(SegmentsOf(objs, dst), m[k], offset, size), m[k].dirty)
    requires AlignedTo(m[k].offset, a) && (!ok ==> CopyLoads(SegmentsOf(objs, dst), a, m[k], offset, size))
    requires !ok ==> RangeStep(objs, heap, objs', heap', stored, src, dst, 0, 0, false, false)
    requires KeptBelow(SegmentsOf(objs, dst), SegmentsOf(objs', dst), m[k].offset)
    requires if MustCopy(SegmentsOf(objs, dst), m[k], offset, size)
             then FlagsKept(SegmentsOf(objs, dst), SegmentsOf(objs', dst))
             else SegmentsOf(objs', dst) == SegmentsOf(objs, dst)[k := m[k]]
    ensures RangeState(objs0, heap0, objs', heap', stored, a, src, dst, m, offset, size,
                       if ok then failed else failed + {k}, k + 1, m[k].End())
    ensures LoadsBefore(m, SegmentsOf(objs0, dst), a, offset, size, k + 1) <==>
            || LoadsBefore(m, SegmentsOf(objs0, dst), a, offset, size, bound)
            || CopyLoads(SegmentsOf(objs, dst), a, m[k], offset, size)
  {
    hide RangeUpTo, RangeStep, Overruns, MustCopy, SameFrom, Indexed, CopyLoads, AlignedTo, KeptBelow, FlagsKept,
         SlotsAfter;
    SameFromLater(SegmentsOf(objs0, dst), SegmentsOf(objs, dst), since, m[k].offset);
    SameFromThen(SegmentsOf(objs0, dst), SegmentsOf(objs, dst), SegmentsOf(objs', dst), since, m[k].End());
    MustCopySame(SegmentsOf(objs0, dst), SegmentsOf(objs, dst), m[k], offset, size);
    OverrunsSame(SegmentsOf(objs0, dst), SegmentsOf(objs, dst), a, m[k], offset, size);
    CopyLoadsSame(SegmentsOf(objs0, dst), SegmentsOf(objs, dst), a, m[k], offset, size);
    LoadsNext(m, SegmentsOf(objs0, dst), a, offset, size, bound, k);
    UpToKeeps(objs0, heap0, objs, heap, stored, src, dst, m, offset, size, failed, bound);
    SlotsNext(m, SegmentsOf(objs0, dst), SegmentsOf(objs, dst), SegmentsOf(objs', dst), offset, size, bound, k);
    if ok {
      RangeAdvances(objs0, heap0, objs, heap, objs', heap', stored, src, dst, m, offset, size, failed, bound, k);
    } else {
      LoadsCopies(SegmentsOf(objs0, dst), a, m[k], offset, size);
      RangeSkips(objs0, heap0, objs, heap, objs', heap', stored, src, dst, m, offset, size, failed, bound, k);
    }
  }

  /** An overrun met on the way was there to be seen before the request. */
  lemma OverrunFound(objs0: Objects, heap0: Heap, objs: Objects, heap: Heap, stored: Stored, a: nat, src: ObjectId,
                     dst: ObjectId, m: SegmentMap, offset: nat, size: nat, failed: set<nat>, bound: nat, since: nat,
                     k: nat)
    requires RangeState(objs0, heap0, objs, heap, stored, a, src, dst, m, offset, size, failed, bound, since)
    requires Indexed(SegmentsOf(objs0, dst)) && Indexed(SegmentsOf(objs, dst))
    requires k in m && m[k].Overlap(offset, size) && since <= m[k].offset
    requires Overruns(SegmentsOf(objs, dst), a, m[k], offset, size)
    ensures RangeOverruns(m, SegmentsOf(objs0, dst), a, offset, size)
    ensures MayFail(m, SegmentsOf(objs0, dst), a, offset, size, failed)
  {
    hide RangeUpTo, Overruns, Indexed, SameFrom;
    SameFromLater(SegmentsOf(objs0, dst), SegmentsOf(objs, dst), since, m[k].offset);
    OverrunsSame(SegmentsOf(objs0, dst), SegmentsOf(objs, dst), a, m[k], offset, size);
  }

  lemma RangeStateEnds(objs0: Objects, heap0: Heap, objs: Objects, heap: Heap, stored: Stored, a: nat, src: ObjectId,
                       dst: ObjectId, m: SegmentMap, offset: nat, size: nat, failed: set<nat>, bound: nat, since: nat)
    requires RangeState(objs0, heap0, objs, heap, stored, a, src, dst, m, offset, size, failed, bound, since)
    requires m == SegmentsOf(objs0, src) && forall k | k in m && m[k].Overlap(offset, size) :: k < bound
    ensures RangeCowDone(objs0, heap0, objs, heap, stored, src, dst, offset, size, failed)
    ensures MayFail(m, SegmentsOf(objs0, dst), a, offset, size, failed)
    ensures failed == {} ==> !RangeOverruns(m, SegmentsOf(objs0, dst), a, offset, size)
    ensures SlotsAfter(m, SegmentsOf(objs0, dst), SegmentsOf(objs, dst), offset, size, bound)
  {
    hide RangeUpTo, RangeCowDone, Overruns, CopyLoads, SlotsAfter;
    RangeEnds(objs0, heap0, objs, heap, stored, src, dst, m, offset, size, failed, bound);
  }

  /**
    What a range copy has done to the slots of the destination: a segment in the range for which it had no segment from
    its start on, or one of the same range, is shared, buffer and flag included; any other slot keeps its flag.
   */
  ghost predicate SlotsDone(m: SegmentMap, md: SegmentMap, md': SegmentMap, offset: nat, size: nat) {
    && (forall k | k in m && Placed(m[k], md, offset, size) :: k in md' && md'[k] == m[k])
    && (forall k | k in md' && !(k in m && Placed(m[k], md, offset, size)) ::
          md'[k].dirty <==> k in md && md[k].dirty)
  }

  ghost predicate Placed(s: Segment, md: SegmentMap, offset: nat, size: nat) {
    && s.size > 0 && offset <= s.offset && s.End() <= offset + size
    && (|| (forall j | j in md :: j < s.offset)
        || (s.End() - 1 in md && md[s.End() - 1].offset == s.offset && md[s.End() - 1].size == s.size))
  }

  lemma SlotsEnd(m: SegmentMap, md: SegmentMap, md': SegmentMap, offset: nat, size: nat, bound: nat)
    requires SlotsAfter(m, md, md', offset, size, bound) && Indexed(m) && Indexed(md)
    requires forall k | k in m && m[k].Overlap(offset, size) :: k < bound
    ensures SlotsDone(m, md, md', offset, size)
  {
    hide MustCopy, Placed;
    forall k | k in m ensures Shared(m, md, offset, size, k) <==> Placed(m[k], md, offset, size) {
      SharedIffPlaced(m, md, offset, size, k);
    }
  }

  /** The same, said of the ranges of the segments. */
  lemma SlotsByRange(m: SegmentMap, md: SegmentMap, md': SegmentMap, offset: nat, size: nat, k: nat)
    requires SlotsDone(m, md, md', offset, size) && Indexed(m)
    ensures if && k in m && offset <= m[k].offset && m[k].End() <= offset + size
               && ((forall j | j in md :: j < m[k].offset)
                   || (k in md && md[k].offset == m[k].offset && md[k].size == m[k].size))
            then k in md' && md'[k] == m[k]
            else k in md' ==> (md'[k].dirty <==> k in md && md[k].dirty)
  {
    assert k in m ==> m[k].size > 0 && k == m[k].End() - 1;
  }

  /** If every segment of the range can be shared, the copy does not need the storage. */
  lemma SharingNeedsNoLoad(m: SegmentMap, md: SegmentMap, a: nat, offset: nat, size: nat)
    requires Indexed(m) && Indexed(md)
    requires forall k | k in m && m[k].Overlap(offset, size) :: Placed(m[k], md, offset, size)
    ensures !RangeLoads(m, md, a, offset, size)
  {
    hide MustCopy, Placed, CoveredRange, AlignedBase, AlignedSize, Indexed;
    forall k | k in m && m[k].Overlap(offset, size) ensures !MustCopy(md, m[k], offset, size) {
      SharedIffPlaced(m, md, offset, size, k);
    }
  }

  lemma SharedIffPlaced(m: SegmentMap, md: SegmentMap, offset: nat, size: nat, k: nat)
    requires k in m && Indexed(m) && Indexed(md)
    ensures Shared(m, md, offset, size, k) <==> Placed(m[k], md, offset, size)
  {
    hide MustCopy;
    MustCopyIff(md, m[k], offset, size);
  }

  // ---- Special destinations ------------------------------------------------------------------------

  /** A new destination takes every copy. */
  lemma FreshNeverOverruns(m: SegmentMap, a: nat, offset: nat, size: nat)
    ensures !RangeOverruns(m, map[], a, offset, size)
  {
  }

  lemma EmptyObjectRange(objs: Objects, objs1: Objects, heap: Heap, objs': Objects, heap': Heap, stored: Stored,
                         src: ObjectId, dst: ObjectId, offset: nat, size: nat, failed: set<nat>)
    requires objs1 == if dst in objs then objs else objs[dst := map[]]
    ensures RangeCowDone(objs1, heap, objs', heap', stored, src, dst, offset, size, failed) ==>
              RangeCowDone(objs, heap, objs', heap', stored, src, dst, offset, size, failed)
    ensures SegmentsOf(objs1, src) == SegmentsOf(objs, src) && SegmentsOf(objs1, dst) == SegmentsOf(objs, dst)
  {
    hide View, Bare, DirtyAtEnd, Covered, CopiedFrom;
    EmptyObjectKeepsView(objs, objs1, heap, stored, dst);
    EmptyObjectShapes(objs, objs1, dst);
    assert forall id :: SegmentsOf(objs1, id) == SegmentsOf(objs, id);
  }

  lemma SelfDirty(m: SegmentMap, offset: nat, size: nat, i: nat)
    requires Indexed(m)
    ensures DirtyAtEnd(m, m, offset, size, i) <==> UnderDirty(m, i)
  {
    hide MustCopy;
    forall j: nat, k: nat | SharedAt(m, m, offset, size, j, i) && k in m && m[k].Has(i) ensures j == k {
      OnlyOneCovers(m, j, k, i);
    }
  }

  /** The copy onto itself meets the contract of every range copy. */
  lemma SelfRangeDone(objs: Objects, heap: Heap, owners: Owners, a: nat, objs': Objects, heap': Heap, stored: Stored,
                      id: ObjectId, offset: nat, size: nat)
    requires SelfCopied(objs, heap, objs', heap', stored, id) && Inv(objs, heap, owners, a) && size > 0
    ensures RangeCowDone(objs, heap, objs', heap', stored, id, id, offset, size, {})
    ensures !RangeOverruns(SegmentsOf(objs, id), SegmentsOf(objs, id), a, offset, size)
  {
    hide Inv, View, Covered, Bare, UnderDirty, DirtyAtEnd, Indexed, BlockAligned, AllBacked, RangeOverruns, RangesKept,
         CopiedFrom;
    IndexOf(objs, heap, owners, a, id);
    SelfNeverOverruns(objs[id], a, offset, size);
    OthersKeepShape(objs, objs', id);
    SameBareKept(objs[id], objs'[id]);
    forall i: nat
      ensures CopiedFrom(objs[id], {}, i) <==> Covered(objs'[id], i)
      ensures UnderDirty(objs'[id], i) <==> DirtyAtEnd(objs[id], objs[id], offset, size, i)
    {
      NothingFailed(objs[id], i);
      BareCovered(objs[id], i);
      BareCovered(objs'[id], i);
      SelfDirty(objs[id], offset, size, i);
    }
  }
}
