/** The shapes of all objects, and how fetches and writes change them. */
module ObjectShapes {
  import opened Basics
  import opened SegmentIndex
  import opened SharedHeap
  import opened SegmentLoading
  import opened Shapes

  /** The segments of an object without their buffers; an unknown object has none. */
  ghost function Shape(objs: Objects, id: ObjectId): SegmentMap {
    Bare(SegmentsOf(objs, id))
  }

  ghost predicate OthersShaped(objs: Objects, objs': Objects, id: ObjectId) {
    forall id' | id' != id :: Shape(objs', id') == Shape(objs, id')
  }

  ghost predicate SameShapes(objs: Objects, objs': Objects) {
    forall id :: Shape(objs', id) == Shape(objs, id)
  }

  /** Segments of `id` keep their ranges and `[lo, hi)` is cached; other objects keep their shapes. */
  ghost predicate Grown(objs: Objects, objs': Objects, id: ObjectId, lo: nat, hi: nat) {
    && OthersShaped(objs, objs', id)
    && RangesKept(SegmentsOf(objs, id), SegmentsOf(objs', id))
    && CoveredRange(SegmentsOf(objs', id), lo, hi)
  }

  /** The effect of a read: gaps are filled, all of them unless a load failed. */
  ghost predicate ReadShaped(objs: Objects, objs': Objects, a: nat, id: ObjectId, off: nat, size: nat, ok: bool) {
    && OthersShaped(objs, objs', id)
    && Filled(Shape(objs, id), Shape(objs', id), AlignedBase(off, a), AlignedEnd(off, size, a))
    && (ok ==> CoveredRange(Shape(objs', id), AlignedBase(off, a), AlignedEnd(off, size, a)))
  }

  /** The effect of a write: gaps are filled and what it touches is marked. */
  ghost predicate WriteShaped(objs: Objects, objs': Objects, a: nat, id: ObjectId, off: nat, size: nat) {
    && OthersShaped(objs, objs', id)
    && Written(Shape(objs, id), Shape(objs', id), AlignedBase(off, a), AlignedEnd(off, size, a), off, size)
  }

  lemma EmptyObjectShapes(objs: Objects, objs': Objects, id: ObjectId)
    requires objs' == if id in objs then objs else objs[id := map[]]
    ensures SameShapes(objs, objs') && SegmentsOf(objs', id) == SegmentsOf(objs, id)
  {
    assert forall id' :: SegmentsOf(objs', id') == SegmentsOf(objs, id');
  }

  lemma OthersKeepShape(objs: Objects, objs': Objects, id: ObjectId)
    requires OthersKept(objs, objs', id)
    ensures OthersShaped(objs, objs', id)
  {
    hide Bare;
    assert forall id' | id' != id :: SegmentsOf(objs', id') == SegmentsOf(objs, id');
  }

  lemma BareFilled(m: SegmentMap, heap: Heap, m': SegmentMap, heap': Heap, stored: Stored, id: ObjectId, clean: bool,
                   forWrite: bool,
                   base: nat, size: nat, b: nat, e: nat)
    requires CellsKept(m, heap, m', heap') && NewSegments(m, m', heap', stored, id, clean, forWrite, base, size)
             && GapShaped(m, m', b, e)
    ensures Filled(Bare(m), Bare(m'), b, e)
  {
    hide Agrees;
    forall k | k in Bare(m') && k !in Bare(m) && Bare(m')[k].End() != e ensures StartsAt(Bare(m), Bare(m')[k].End()) {
      assert StartsAt(m, m'[k].End());
      var j :| j in m && m[j].offset == m'[k].End();
      assert Bare(m)[j].offset == m'[k].End();
    }
  }

  lemma FetchedShapes(objs: Objects, heap: Heap, objs': Objects, heap': Heap, stored: Stored, id: ObjectId, clean: bool,
                      forWrite: bool,
                      base: nat, size: nat, b: nat, e: nat)
    requires Fetched(objs, heap, objs', heap', stored, id, clean, forWrite, base, size)
             && GapShaped(SegmentsOf(objs, id), SegmentsOf(objs', id), b, e)
    ensures OthersShaped(objs, objs', id) && Filled(Shape(objs, id), Shape(objs', id), b, e)
    ensures RangesKept(SegmentsOf(objs, id), SegmentsOf(objs', id))
  {
    hide Filled, GapShaped, NewSegments, BytesKept, Bare;
    OthersKeepShape(objs, objs', id);
    BareFilled(objs[id], heap, objs'[id], heap', stored, id, clean, forWrite, base, size, b, e);
  }

  lemma CoveredRequest(m: SegmentMap, base: nat, size: nat, a: nat)
    requires CoveredRange(m, AlignedBase(base, a), AlignedEnd(base, size, a))
    ensures CoveredRange(m, base, base + size)
  {
    hide AlignedBase, AlignedSize, Covered;
    AlignedRange(base, size, a);
  }

  lemma MarkedWritten(m: SegmentMap, m1: SegmentMap, m': SegmentMap, b: nat, e: nat, off: nat, size: nat)
    requires Filled(Bare(m), Bare(m1), b, e) && CoveredRange(m1, b, e)
    requires m'.Keys == m1.Keys && forall k | k in m' :: m'[k] == Marked(m1[k], off, size)
    ensures Written(Bare(m), Bare(m'), b, e, off, size)
  {
    hide Covered, GapShaped;
    assert RangesKept(m1, Bare(m'));
    forall i | b <= i < e ensures Covered(Bare(m'), i) { CoverKept(m1, Bare(m'), i); }
    assert forall k | k in m :: Bare(m1)[k] == Bare(m)[k];
    MarkedGaps(m, m1, m', b, e, off, size);
  }

  lemma MarkedGaps(m: SegmentMap, m1: SegmentMap, m': SegmentMap, b: nat, e: nat, off: nat, size: nat)
    requires GapShaped(Bare(m), Bare(m1), b, e)
    requires m'.Keys == m1.Keys && forall k | k in m' :: m'[k] == Marked(m1[k], off, size)
    ensures GapShaped(Bare(m), Bare(m'), b, e)
  {
    hide StartsAt;
    assert forall k | k in m' :: Bare(m')[k].offset == Bare(m1)[k].offset && Bare(m')[k].End() == Bare(m1)[k].End();
  }

  /** Fetch and mark, seen from the object as it was before it was created. */
  lemma WriteShapes(objs: Objects, objs0: Objects, heap0: Heap, objs1: Objects, heap1: Heap, objs3: Objects, a: nat,
                    stored: Stored,
                    id: ObjectId, off: nat, size: nat, clean: bool)
    requires objs0 == if id in objs then objs else objs[id := map[]]
    requires Fetched(objs0, heap0, objs1, heap1, stored, id, clean, true, off, size) && id in objs0 && id in objs1
    requires GapShaped(objs0[id], objs1[id], AlignedBase(off, a), AlignedEnd(off, size, a))
    requires CoveredRange(objs1[id], AlignedBase(off, a), AlignedEnd(off, size, a)) && OthersKept(objs1, objs3, id)
             && id in objs3
    requires objs3[id].Keys == objs1[id].Keys && forall k | k in objs3[id] ::
             objs3[id][k] == Marked(objs1[id][k], off, size)
    ensures WriteShaped(objs, objs3, a, id, off, size)
  {
    hide Fetched, Filled, Written, GapShaped, CoveredRange, AlignedBase, AlignedEnd, Marked, Bare, OthersKept;
    EmptyObjectShapes(objs, objs0, id);
    FetchedShapes(objs0, heap0, objs1, heap1, stored, id, clean, true, off, size, AlignedBase(off, a),
                  AlignedEnd(off, size, a));
    OthersKeepShape(objs1, objs3, id);
    MarkedWritten(objs0[id], objs1[id], objs3[id], AlignedBase(off, a), AlignedEnd(off, size, a), off, size);
  }

  lemma ReadShapes(objs: Objects, objs0: Objects, heap0: Heap, objs1: Objects, heap1: Heap, a: nat, stored: Stored,
                   id: ObjectId,
                   off: nat, size: nat, clean: bool, ok: bool)
    requires objs0 == if id in objs then objs else objs[id := map[]]
    requires Fetched(objs0, heap0, objs1, heap1, stored, id, clean, false, off, size) && id in objs0 && id in objs1
    requires GapShaped(objs0[id], objs1[id], AlignedBase(off, a), AlignedEnd(off, size, a))
    requires ok ==> CoveredRange(objs1[id], AlignedBase(off, a), AlignedEnd(off, size, a))
    ensures ReadShaped(objs, objs1, a, id, off, size, ok)
  {
    hide Fetched, Filled, GapShaped, CoveredRange, AlignedBase, AlignedEnd, Bare;
    EmptyObjectShapes(objs, objs0, id);
    FetchedShapes(objs0, heap0, objs1, heap1, stored, id, clean, false, off, size, AlignedBase(off, a),
                  AlignedEnd(off, size, a));
    BareRange(objs1[id], AlignedBase(off, a), AlignedEnd(off, size, a));
  }

  lemma FlagsShapes(objs: Objects, objs': Objects, id: ObjectId, off: nat, size: nat)
    requires id in objs && objs' == objs[id := FlushedAll(objs[id], off, size)]
    ensures OthersShaped(objs, objs', id) && Shape(objs', id) == FlushedAll(Shape(objs, id), off, size)
  {
    assert forall id' | id' != id :: SegmentsOf(objs', id') == SegmentsOf(objs, id');
  }
}
