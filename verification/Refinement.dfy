/** Each request of the cache, with the contract of its method, is a step of the flat store. */
module Refinement {
  import opened Basics
  import opened SegmentIndex
  import opened SharedHeap
  import opened SegmentLoading
  import opened ViewUpdates
  import opened WriteBack
  import opened Flushing
  import opened CopyOnWrite
  import opened Shapes
  import opened ObjectShapes
  import opened RangeCow
  import opened RangeWalk
  import opened ScatterGather
  import FlatStore

  ghost function Abstract(objs: Objects, heap: Heap, stored: Stored, a: nat): FlatStore.Flat {
    FlatStore.Flat((id: ObjectId, i: nat) => View(objs, heap, stored, id, i), stored, (id: ObjectId) => Shape(objs, id),
                   objs.Keys, a)
  }

  ghost predicate WellShaped(objs: Objects) {
    forall id :: Indexed(Shape(objs, id)) && Indexed(SegmentsOf(objs, id))
  }

  lemma InvShapes(objs: Objects, heap: Heap, owners: Owners, a: nat)
    requires Inv(objs, heap, owners, a)
    ensures WellShaped(objs)
  {
    hide Inv, Indexed, Bare;
    forall id ensures Indexed(Shape(objs, id)) && Indexed(SegmentsOf(objs, id)) {
      if id in objs { IndexOf(objs, heap, owners, a, id); } else { NothingIndexed(); }
      BareIndexed(SegmentsOf(objs, id));
    }
  }

  lemma NothingIndexed()
    ensures Indexed(map[])
  {
  }

  lemma WriteRefines(objs: Objects, heap: Heap, objs': Objects, heap': Heap, stored: Stored, a: nat, id: ObjectId,
                     off: nat, data: seq<Byte>, eager: bool, r: FlatStore.Reply)
    requires Patched(objs, heap, objs', heap', stored, id, off, data) && WriteShaped(objs, objs', a, id, off, |data|)
    requires WellShaped(objs) && WellShaped(objs') && objs'.Keys == objs.Keys + {id}
    requires r == if !eager && NothingThere(SegmentsOf(objs, id), AlignedBase(off, a), AlignedEnd(off, |data|, a))
                  then FlatStore.Silent else FlatStore.Ack
    ensures FlatStore.Step(Abstract(objs, heap, stored, a), Abstract(objs', heap', stored, a),
                           FlatStore.Write(id, off, data, eager), r)
  {
    hide View, Bare, Indexed, Written, AlignedBase, AlignedEnd, NothingThere;
    BareNothingThere(SegmentsOf(objs, id), AlignedBase(off, a), AlignedEnd(off, |data|, a));
  }

  lemma ReadRefines(objs: Objects, heap: Heap, objs': Objects, heap': Heap, stored: Stored, a: nat, id: ObjectId,
                    off: nat, size: nat, r: FlatStore.Reply)
    requires SameViews(objs, heap, stored, objs', heap', stored)
             && ReadShaped(objs, objs', a, id, off, size, !r.Refused?)
    requires WellShaped(objs) && WellShaped(objs') && objs'.Keys == objs.Keys + {id}
    requires r.Refused? || if ReadExact(SegmentsOf(objs, id), a, off, size) then r.Data? else r.Garbled?
    requires r.Data? ==>
               |r.bytes| == size && forall x | 0 <= x < size :: r.bytes[x] == View(objs, heap, stored, id, off + x)
    requires r.Garbled? && size <= EAGER_MAX_READ ==>
               LastStarts(r.junk, SegmentsOf(objs', id), heap', stored, id, off, size)
    ensures FlatStore.Step(Abstract(objs, heap, stored, a), Abstract(objs', heap', stored, a),
                           FlatStore.Read(id, off, size), r)
  {
    hide View, Bare, Indexed, Filled, CoveredRange, AlignedBase, AlignedEnd, ReadExact, FlatStore.LastFirst, LastStarts;
    BareReadExact(SegmentsOf(objs, id), a, off, size);
    if r.Garbled? && size <= EAGER_MAX_READ { LastBytes(objs, heap, objs', heap', stored, a, id, off, size, r.junk); }
  }

  lemma LastBytes(objs: Objects, heap: Heap, objs': Objects, heap': Heap, stored: Stored, a: nat, id: ObjectId,
                  off: nat, size: nat, junk: seq<Byte>)
    requires SameViews(objs, heap, stored, objs', heap', stored)
    requires LastStarts(junk, SegmentsOf(objs', id), heap', stored, id, off, size)
    ensures FlatStore.LastFirst(Abstract(objs, heap, stored, a).view, Shape(objs', id), id, off, size, junk)
  {
    hide ViewOf;
    var m := SegmentsOf(objs', id);
    var k :| k in m && off < m[k].offset && m[k].Has(off + size - 1) &&
             StartsWith(junk, m, heap', stored, id, m[k].offset, off + size);
    forall i: nat | m[k].offset <= i < off + size ensures junk[i - m[k].offset] == View(objs, heap, stored, id, i) {
      assert View(objs', heap', stored, id, i) == View(objs, heap, stored, id, i);
    }
    assert Bare(m)[k].Has(off + size - 1);
  }

  lemma FlushRefines(objs: Objects, objs1: Objects, heap: Heap, objs': Objects, stored: Stored, stored': Stored, a: nat,
                     id: ObjectId, off: nat, size: nat, outcome: nat -> Outcome, call: nat, r: FlatStore.Reply)
    requires objs1 == (if id in objs then objs else objs[id := map[]]) && (r.Ack? || r.Refused?)
    requires FlushDone(objs1, heap, stored, objs', stored', id, off, size, outcome, call)
    requires r.Ack? ==> Quiet(outcome, call, call + Writes(SegmentsOf(objs1, id), off, size))
    requires objs' == objs1[id := FlushedAll(objs1[id], off, size)]
    requires WellShaped(objs) && WellShaped(objs')
    ensures FlatStore.Step(Abstract(objs, heap, stored, a), Abstract(objs', heap, stored', a),
                           FlatStore.Flush(id, off, size), r)
  {
    hide View, Bare, Indexed, Selected, FlushedAll, Quiet, Stores, Writes;
    EmptyObjectKeepsView(objs, objs1, heap, stored, id);
    EmptyObjectShapes(objs, objs1, id);
    FlagsShapes(objs1, objs', id, off, size);
    forall i: nat ensures Selected(Shape(objs, id), off, size, i) <==> Selected(SegmentsOf(objs1, id), off, size, i) {
      BareSelected(SegmentsOf(objs, id), off, size, i);
    }
    forall i: nat
      ensures Stores(SegmentsOf(objs1, id), off, size, outcome, call, i) ==>
                Selected(SegmentsOf(objs1, id), off, size, i)
      ensures r.Ack? ==> (Stores(SegmentsOf(objs1, id), off, size, outcome, call, i) <==>
                          Selected(SegmentsOf(objs1, id), off, size, i))
    {
      StoresSelected(SegmentsOf(objs1, id), off, size, outcome, call, i);
      if r.Ack? { QuietStores(SegmentsOf(objs1, id), off, size, outcome, call, i); }
    }
  }

  lemma EmptyObjectFlush(objs: Objects, objs1: Objects, heap: Heap, objs': Objects, stored: Stored, stored': Stored,
                         id: ObjectId, off: nat, size: nat, outcome: nat -> Outcome, call: nat)
    requires objs1 == if id in objs then objs else objs[id := map[]]
    requires FlushDone(objs1, heap, stored, objs', stored', id, off, size, outcome, call)
    ensures FlushDone(objs, heap, stored, objs', stored', id, off, size, outcome, call)
    ensures SegmentsOf(objs1, id) == SegmentsOf(objs, id)
  {
    hide View, Stores;
    EmptyObjectKeepsView(objs, objs1, heap, stored, id);
  }

  /**
    The write-back invariant in terms of segments and in terms of bytes: clean segments hold exactly their stored bytes.
   */
  lemma SafeIsWriteBack(objs: Objects, heap: Heap, stored: Stored, a: nat, id: ObjectId)
    requires Indexed(SegmentsOf(objs, id))
    ensures FlatStore.Safe(Abstract(objs, heap, stored, a), id) <==> CleanAgrees(id, SegmentsOf(objs, id), heap, stored)
  {
    hide ViewOf, Indexed, Agrees, Bare;
    var m, s := SegmentsOf(objs, id), Abstract(objs, heap, stored, a);
    forall i: nat ensures UnderDirty(s.shape(id), i) <==> UnderDirty(m, i) { BareCovered(m, i); }
    forall k | k in m && !m[k].dirty
      ensures Agrees(m[k], heap, stored, id) <==> forall i: nat | m[k].Has(i) :: s.view(id, i) == stored(id, i)
    {
      AgreesByView(m, heap, stored, id, k);
    }
    if CleanAgrees(id, m, heap, stored) {
      forall i: nat ensures s.view(id, i) == stored(id, i) || UnderDirty(s.shape(id), i) {
        if k :| k in m && m[k].Has(i) { } else { ViewUncached(m, heap, stored, id, i); }
      }
    } else {
      var k :| k in m && !m[k].dirty && !Agrees(m[k], heap, stored, id);
      var i: nat :| m[k].Has(i) && s.view(id, i) != stored(id, i);
      CleanNotDirty(m, k, i);
    }
  }

  lemma CleanNotDirty(m: SegmentMap, k: nat, i: nat)
    requires Indexed(m) && k in m && m[k].Has(i) && !m[k].dirty
    ensures !UnderDirty(m, i)
  {
    if j :| j in m && m[j].Has(i) && m[j].dirty { OnlyOneCovers(m, j, k, i); }
  }

  lemma LastCached(m: SegmentMap, end: nat, i: nat)
    requires Indexed(m) && CachedEnd(m, end)
    ensures i < end <==> exists j: nat :: i <= j && Covered(m, j)
  {
    if i < end {
      assert m[end - 1].Has(end - 1);
      assert Covered(m, end - 1);
    }
    if j: nat :| i <= j && Covered(m, j) {
      var k :| k in m && m[k].Has(j);
      assert k < end;
    }
  }

  lemma BelowEnd(objs: Objects, heap: Heap, stored: Stored, a: nat, id: ObjectId, end: nat, i: nat)
    requires Indexed(SegmentsOf(objs, id)) && CachedEnd(SegmentsOf(objs, id), end)
    ensures FlatStore.BelowCached(Abstract(objs, heap, stored, a), id, i) <==> i < end
  {
    hide View, Covered, Indexed, Bare;
    var m, s := SegmentsOf(objs, id), Abstract(objs, heap, stored, a);
    LastCached(m, end, i);
    forall j: nat ensures Covered(s.shape(id), j) <==> Covered(m, j) { BareCovered(m, j); }
  }

  lemma SafeByte(objs: Objects, heap: Heap, stored: Stored, a: nat, id: ObjectId, i: nat)
    ensures FlatStore.Safe(Abstract(objs, heap, stored, a), id) && !UnderDirty(SegmentsOf(objs, id), i) ==>
              View(objs, heap, stored, id, i) == stored(id, i)
  {
    hide View, UnderDirty;
    BareCovered(SegmentsOf(objs, id), i);
  }

  lemma FullCowRefines(objs: Objects, heap: Heap, stored: Stored, objs': Objects, heap': Heap, stored': Stored, a: nat,
                       src: ObjectId, dst: ObjectId, allowExist: bool, off: nat, end: nat)
    requires FullCowDone(objs, heap, stored, objs', heap', stored', src, dst, end) && src in objs
             && (dst in objs ==> allowExist)
    requires WellShaped(objs) && WellShaped(objs') && objs'.Keys == objs.Keys + {dst}
    ensures FlatStore.Step(Abstract(objs, heap, stored, a), Abstract(objs', heap', stored', a),
                           FlatStore.Cow(src, dst, allowExist, off, 0), FlatStore.Ack)
  {
    hide View, Bare, Indexed, FlatStore.Safe, FlatStore.BelowCached, CachedEnd, CleanAgrees, UnderDirty, Covered;
    SafeIsWriteBack(objs', heap', stored', a, dst);
    forall i: nat
      ensures UnderDirty(Shape(objs, src), i) <==> UnderDirty(SegmentsOf(objs, src), i)
      ensures FlatStore.Safe(Abstract(objs', heap', stored', a), dst) && !UnderDirty(SegmentsOf(objs', dst), i) ==>
                View(objs', heap', stored', dst, i) == stored'(dst, i)
    {
      BareCovered(SegmentsOf(objs, src), i);
      SafeByte(objs', heap', stored', a, dst, i);
    }
    forall i: nat ensures FlatStore.BelowCached(Abstract(objs, heap, stored, a), src, i) <==> i < end {
      BelowEnd(objs, heap, stored, a, src, end, i);
    }
  }

  lemma RangeCowRefines(objs: Objects, heap: Heap, objs': Objects, heap': Heap, stored: Stored, a: nat,
                        src: ObjectId, dst: ObjectId, allowExist: bool, off: nat, size: nat)
    requires RangeCowDone(objs, heap, objs', heap', stored, src, dst, off, size, {}) && size > 0 && src in objs
             && (dst in objs ==> allowExist)
    requires WellShaped(objs) && WellShaped(objs') && objs'.Keys == objs.Keys + {dst}
    ensures FlatStore.Step(Abstract(objs, heap, stored, a), Abstract(objs', heap', stored, a),
                           FlatStore.Cow(src, dst, allowExist, off, size), FlatStore.Ack)
  {
    hide View, Bare, Indexed, Covered, UnderDirty, DirtyAtEnd, RangesKept, CopiedFrom;
    BareRangesKept(SegmentsOf(objs, dst), SegmentsOf(objs', dst));
    forall i: nat
      ensures (Covered(Shape(objs, src), i) <==> Covered(SegmentsOf(objs, src), i))
              && (Covered(Shape(objs', dst), i) <==> Covered(SegmentsOf(objs', dst), i))
      ensures UnderDirty(Shape(objs', dst), i) <==> UnderDirty(SegmentsOf(objs', dst), i)
      ensures DirtyAtEnd(Shape(objs, src), Shape(objs, dst), off, size, i) <==>
                DirtyAtEnd(SegmentsOf(objs, src), SegmentsOf(objs, dst), off, size, i)
      ensures CopiedFrom(SegmentsOf(objs, src), {}, i) <==> Covered(SegmentsOf(objs, src), i)
    {
      NothingFailed(SegmentsOf(objs, src), i);
      BareCovered(SegmentsOf(objs, src), i);
      BareCovered(SegmentsOf(objs', dst), i);
      BareDirtyAtEnd(SegmentsOf(objs, src), SegmentsOf(objs, dst), off, size, i);
    }
  }

  lemma BareRangesKept(m: SegmentMap, m': SegmentMap)
    requires RangesKept(m, m')
    ensures RangesKept(Bare(m), Bare(m'))
  {
  }

  lemma RefusalRefines(objs: Objects, heap: Heap, stored: Stored, a: nat, op: FlatStore.Op)
    requires op.Cow? && (op.src !in objs || (op.dst in objs && !op.allowExist)) && WellShaped(objs)
    ensures FlatStore.Step(Abstract(objs, heap, stored, a), Abstract(objs, heap, stored, a), op, FlatStore.Refused)
  {
    hide View, Bare, Indexed;
  }

  /** The conditions of scope, on the segments themselves. */
  lemma ScopeOf(objs: Objects, heap: Heap, stored: Stored, a: nat, op: FlatStore.Op)
    requires WellShaped(objs)
    ensures op.Write? ==> (FlatStore.InScope(Abstract(objs, heap, stored, a), op) <==>
                             op.eager || CutsFit(SegmentsOf(objs, op.id), a, op.off, |op.data|))
    ensures op.Read? || op.Flush? ==> FlatStore.InScope(Abstract(objs, heap, stored, a), op)
    ensures op.Cow? && (op.src !in objs || (op.dst in objs && !op.allowExist)) ==>
              FlatStore.InScope(Abstract(objs, heap, stored, a), op)
    ensures op.Cow? && op.size == 0 && op.src in objs && (op.dst in objs ==> op.allowExist) ==>
              (FlatStore.InScope(Abstract(objs, heap, stored, a), op) <==> op.src != op.dst)
    ensures op.Cow? && op.size > 0 && op.src in objs && (op.dst in objs ==> op.allowExist) ==>
              (FlatStore.InScope(Abstract(objs, heap, stored, a), op) <==>
                 !RangeOverruns(SegmentsOf(objs, op.src), SegmentsOf(objs, op.dst), a, op.off, op.size))
  {
    hide View, Bare, Indexed, CutsFit, RangeOverruns;
    if op.Write? { BareCutsFit(SegmentsOf(objs, op.id), a, op.off, |op.data|); }
    if op.Cow? { BareRangeOverruns(SegmentsOf(objs, op.src), SegmentsOf(objs, op.dst), a, op.off, op.size); }
  }

  /** The requests that need the storage, on the segments themselves. */
  lemma StorageOf(objs: Objects, heap: Heap, stored: Stored, a: nat, op: FlatStore.Op)
    requires WellShaped(objs)
    ensures op.Write? ==> (FlatStore.NeedsStorage(Abstract(objs, heap, stored, a), op) <==>
                             NeedsLoad(SegmentsOf(objs, op.id), a, op.off, |op.data|))
    ensures op.Cow? && op.src in objs && (op.dst in objs ==> op.allowExist) ==>
              (FlatStore.NeedsStorage(Abstract(objs, heap, stored, a), op) <==>
                 op.size == 0 || RangeLoads(SegmentsOf(objs, op.src), SegmentsOf(objs, op.dst), a, op.off, op.size))
  {
    hide View, Bare, Indexed, NeedsLoad, RangeLoads;
    if op.Write? { BareNeedsLoad(SegmentsOf(objs, op.id), a, op.off, |op.data|); }
    if op.Cow? { BareRangeLoads(SegmentsOf(objs, op.src), SegmentsOf(objs, op.dst), a, op.off, op.size); }
  }

  // ---- Range copies and the write-back invariant -----------------------------------------------------

  /** What the copy of the source segment `s` puts into the destination `md` is dirty there or stored already. */
  ghost predicate SegmentStored(heap: Heap, stored: Stored, md: SegmentMap, dst: ObjectId, s: Segment, off: nat,
                                size: nat) {
    if MustCopy(md, s, off, size) then
      forall i: nat | s.Has(i) && off <= i < off + size :: UnderDirty(md, i) || ByteAt(heap, s, i) == stored(dst, i)
    else s.dirty || Agrees(s, heap, stored, dst)
  }

  ghost predicate AllSegmentsStored(objs: Objects, heap: Heap, stored: Stored, src: ObjectId, dst: ObjectId, off: nat,
                                    size: nat) {
    forall k | k in SegmentsOf(objs, src) && SegmentsOf(objs, src)[k].Overlap(off, size) ::
      SegmentStored(heap, stored, SegmentsOf(objs, dst), dst, SegmentsOf(objs, src)[k], off, size)
  }

  lemma SegmentStoredBytes(m: SegmentMap, heap: Heap, stored: Stored, md: SegmentMap, src: ObjectId, dst: ObjectId,
                           k: nat, off: nat, size: nat)
    requires Indexed(m) && k in m && m[k].Overlap(off, size)
    ensures SegmentStored(heap, stored, md, dst, m[k], off, size) <==>
            forall i: nat | m[k].Has(i) && off <= i < off + size ::
                ViewOf(m, heap, stored, src, i) == stored(dst, i) || DirtyAtEnd(m, md, off, size, i)
  {
    hide Indexed, MustCopy, ViewOf, ByteAt, DirtyAtEnd, UnderDirty;
    forall i: nat | m[k].Has(i) && off <= i < off + size
      ensures ViewOf(m, heap, stored, src, i) == ByteAt(heap, m[k], i)
      ensures DirtyAtEnd(m, md, off, size, i) <==>
                if MustCopy(md, m[k], off, size) then UnderDirty(md, i) else m[k].dirty
    {
      ViewCached(m, heap, stored, src, k, i);
      DirtyInSegment(m, md, off, size, k, i);
    }
    if !MustCopy(md, m[k], off, size) { WholeSegment(md, m[k], off, size); }
  }

  /** The condition byte by byte is the condition segment by segment. */
  lemma CopyStoredBySegment(objs: Objects, heap: Heap, stored: Stored, a: nat, src: ObjectId, dst: ObjectId, off: nat,
                            size: nat)
    requires WellShaped(objs)
    ensures FlatStore.CopyIsStored(Abstract(objs, heap, stored, a), src, dst, off, size) <==>
            AllSegmentsStored(objs, heap, stored, src, dst, off, size)
  {
    hide Indexed, Bare, ViewOf, DirtyAtEnd, SegmentStored;
    var m, md, s := SegmentsOf(objs, src), SegmentsOf(objs, dst), Abstract(objs, heap, stored, a);
    forall i: nat
      ensures (Covered(s.shape(src), i) <==> Covered(m, i))
              && (DirtyAtEnd(s.shape(src), s.shape(dst), off, size, i) <==> DirtyAtEnd(m, md, off, size, i))
    {
      BareCovered(m, i);
      BareDirtyAtEnd(m, md, off, size, i);
    }
    forall k | k in m && m[k].Overlap(off, size)
      ensures SegmentStored(heap, stored, md, dst, m[k], off, size) <==>
              forall i: nat | m[k].Has(i) && off <= i < off + size ::
                  ViewOf(m, heap, stored, src, i) == stored(dst, i) || DirtyAtEnd(m, md, off, size, i)
    {
      SegmentStoredBytes(m, heap, stored, md, src, dst, k, off, size);
    }
    forall k, i: nat | k in m && m[k].Has(i) && off <= i < off + size ensures Covered(m, i) && m[k].Overlap(off, size) {
    }
  }

  /**
    A finished range copy keeps the write-back invariant of its destination exactly if every source segment in the range
    is shared and dirty, or shared and already stored in the destination, or copied under dirty segments or onto bytes
    that are stored already.
   */
  lemma RangeCopyWriteBackIff(objs: Objects, heap: Heap, objs': Objects, heap': Heap, stored: Stored, a: nat,
                              src: ObjectId, dst: ObjectId, off: nat, size: nat)
    requires RangeCowDone(objs, heap, objs', heap', stored, src, dst, off, size, {}) && size > 0 && src in objs
             && objs'.Keys == objs.Keys + {dst}
    requires WellShaped(objs) && WellShaped(objs') && CleanAgrees(dst, SegmentsOf(objs, dst), heap, stored)
    ensures CleanAgrees(dst, SegmentsOf(objs', dst), heap', stored) <==>
            AllSegmentsStored(objs, heap, stored, src, dst, off, size)
  {
    hide RangeCowDone, CleanAgrees, AllSegmentsStored, Indexed, FlatStore.Safe, FlatStore.CopyIsStored, Abstract,
         FlatStore.RangeCowStep;
    var s, s' := Abstract(objs, heap, stored, a), Abstract(objs', heap', stored, a);
    SafeIsWriteBack(objs, heap, stored, a, dst);
    SafeIsWriteBack(objs', heap', stored, a, dst);
    RangeCowRefines(objs, heap, objs', heap', stored, a, src, dst, true, off, size);
    AcceptedCopy(objs, heap, stored, a, s', src, dst, off, size);
    FlatStore.RangeCopySafeIff(s, s', src, dst, off, size);
    CopyStoredBySegment(objs, heap, stored, a, src, dst, off, size);
  }

  lemma RangeWriteBack(objs: Objects, heap: Heap, owners: Owners, objs': Objects, heap': Heap, owners': Owners,
                       stored: Stored, a: nat,
                       src: ObjectId, dst: ObjectId, off: nat, size: nat)
    requires RangeCowDone(objs, heap, objs', heap', stored, src, dst, off, size, {}) && size > 0 && src in objs
             && objs'.Keys == objs.Keys + {dst}
    requires Inv(objs, heap, owners, a) && Inv(objs', heap', owners', a)
    ensures CleanAgrees(dst, SegmentsOf(objs, dst), heap, stored) ==>
              (CleanAgrees(dst, SegmentsOf(objs', dst), heap', stored) <==>
                 AllSegmentsStored(objs, heap, stored, src, dst, off, size))
  {
    hide Inv, RangeCowDone, CleanAgrees, AllSegmentsStored, WellShaped;
    InvShapes(objs, heap, owners, a);
    InvShapes(objs', heap', owners', a);
    if CleanAgrees(dst, SegmentsOf(objs, dst), heap, stored) {
      RangeCopyWriteBackIff(objs, heap, objs', heap', stored, a, src, dst, off, size);
    }
  }

  lemma AcceptedCopy(objs: Objects, heap: Heap, stored: Stored, a: nat, s': FlatStore.Flat, src: ObjectId,
                     dst: ObjectId, off: nat, size: nat)
    requires FlatStore.Step(Abstract(objs, heap, stored, a), s', FlatStore.Cow(src, dst, true, off, size),
                            FlatStore.Ack) && src in objs && size > 0
    ensures FlatStore.RangeCowStep(Abstract(objs, heap, stored, a), s', src, dst, off, size)
  {
  }

  // ---- Reads -----------------------------------------------------------------------------------

  /** Fetching for a read changes no view of any object. */
  lemma ReadEffect(objs: Objects, objs0: Objects, heap0: Heap, owners0: Owners, objs': Objects, heap': Heap,
                   owners': Owners, a: nat, stored: Stored, id: ObjectId, off: nat, size: nat)
    requires objs0 == if id in objs then objs else objs[id := map[]]
    requires Inv(objs0, heap0, owners0, a) && Inv(objs', heap', owners', a)
             && Fetched(objs0, heap0, objs', heap', stored, id, true, false, off, size)
    ensures SameViews(objs, heap0, stored, objs', heap', stored)
  {
    hide Inv, View, Fetched;
    EmptyObjectKeepsView(objs, objs0, heap0, stored, id);
    FetchedSameViews(objs0, heap0, owners0, objs', heap', owners', a, stored, id, off, size);
  }

  lemma ViewsOfReply(objs: Objects, heap: Heap, objs': Objects, heap': Heap, stored: Stored, id: ObjectId, off: nat,
                     size: nat, data: seq<Byte>)
    requires SameViews(objs, heap, stored, objs', heap', stored) && |data| == size && id in objs'
    requires forall x | 0 <= x < size :: data[x] == ViewOf(objs'[id], heap', stored, id, off + x)
    ensures forall x | 0 <= x < size :: data[x] == View(objs, heap, stored, id, off + x)
  {
    hide ViewOf;
    forall x | 0 <= x < size ensures data[x] == View(objs, heap, stored, id, off + x) {
      assert View(objs', heap', stored, id, off + x) == View(objs, heap, stored, id, off + x);
    }
  }
}
