/**
  Range copy-on-write: when the copy of a partly overlapped segment stays in its buffers, and what the destination
  shows.
 */
module RangeCow {
  import opened Basics
  import opened SegmentIndex
  import opened SharedHeap
  import opened SegmentLoading
  import opened RequestCover
  import opened ViewUpdates
  import opened Flushing
  import opened CopyOnWrite
  import opened Shapes
  import opened ObjectShapes

  // ---- The copy length -------------------------------------------------------------------------

  /** The first `memcpy` stays inside its buffer: it starts at the segment's start, or all that is left fits. */
  ghost predicate SafeFirst(segs: seq<Descr>, at: nat, n: nat) {
    segs != [] ==> segs[0].offset == at || at + n <= segs[0].End()
  }

  lemma FirstCovers(segs: seq<Descr>, m: SegmentMap, base: nat, size: nat, at: nat, n: nat)
    requires n > 0 && Serves(segs, at, n) && Lists(segs, m, base, size)
    ensures segs != [] && segs[0].offset <= at < segs[0].End() && InMap(segs[0], m)
    ensures m[segs[0].End() - 1].Has(at)
  {
    assert segs[0] in segs;
  }

  lemma OldFirst(m: SegmentMap, heap: Heap, m': SegmentMap, heap': Heap, a: nat, at: nat, n: nat, d: Descr)
    requires Indexed(m) && CellsKept(m, heap, m', heap') && InMap(d, m') && d.End() - 1 in m && d.offset <= at < d.End()
    ensures (d.offset == at || at + n <= d.End()) <==> CopyFits(m, a, at, n)
  {
    hide AlignedBase;
    var k := d.End() - 1;
    assert m[k].Has(at) && Covered(m, at);
    forall j | j in m && m[j].Has(at) ensures j == k { OnlyOneCovers(m, j, k, at); }
  }

  lemma NewUncovered(m: SegmentMap, heap: Heap, m': SegmentMap, heap': Heap, at: nat, d: Descr)
    requires Indexed(m') && CellsKept(m, heap, m', heap') && InMap(d, m') && d.End() - 1 !in m
             && d.offset <= at < d.End()
    ensures !Covered(m, at)
  {
  }

  lemma NewFirst(m: SegmentMap, heap: Heap, m': SegmentMap, heap': Heap, a: nat, at: nat, n: nat, d: Descr)
    requires Indexed(m) && Indexed(m') && BlockAligned(m', a) && n > 0 && CellsKept(m, heap, m', heap')
    requires GapShaped(m, m', AlignedBase(at, a), AlignedEnd(at, n, a))
    requires InMap(d, m') && d.End() - 1 !in m && d.offset <= at < d.End()
    ensures (d.offset == at || at + n <= d.End()) <==> CopyFits(m, a, at, n)
  {
    hide AlignedBase, AlignedSize, AlignedTo;
    NewUncovered(m, heap, m', heap', at, d);
    var b, e := AlignedBase(at, a), AlignedEnd(at, n, a);
    AlignedRange(at, n, a);
    var k := d.End() - 1;
    assert AlignedTo(m'[k].offset, a);
    if d.offset > b { AlignedAbove(at, a, d.offset); }
    assert d.offset == b;
    forall j | j in m ensures m[j].offset <= at || d.End() <= m[j].offset {
      assert j in m' && j != k;
    }
    if d.End() < at + n {
      var j :| j in m && m[j].offset == d.End();
      assert at < m[j].offset < at + n;
    }
  }

  /** The copy stays in bounds exactly when the destination met the condition before the call. */
  lemma FirstSegmentFits(segs: seq<Descr>, m: SegmentMap, heap: Heap, m': SegmentMap, heap': Heap, a: nat, at: nat,
                         n: nat)
    requires Indexed(m) && Indexed(m') && BlockAligned(m', a) && n > 0 && CellsKept(m, heap, m', heap')
    requires GapShaped(m, m', AlignedBase(at, a), AlignedEnd(at, n, a))
    requires Serves(segs, at, n) && Lists(segs, m', AlignedBase(at, a), AlignedSize(at, n, a))
    ensures SafeFirst(segs, at, n) <==> CopyFits(m, a, at, n)
  {
    hide Indexed, BlockAligned, GapShaped, CellsKept, CopyFits, AlignedBase, AlignedSize, Lists, Serves;
    FirstCovers(segs, m', AlignedBase(at, a), AlignedSize(at, n, a), at, n);
    if segs[0].End() - 1 in m { OldFirst(m, heap, m', heap', a, at, n, segs[0]); }
    else { NewFirst(m, heap, m', heap', a, at, n, segs[0]); }
  }

  // ---- One source segment ----------------------------------------------------------------------

  /** Only sharing changes flags: the shared segment brings its own. */
  ghost predicate FlagStep(m: SegmentMap, m': SegmentMap, lo: nat, hi: nat, shared: bool, dirty: bool) {
    forall i: nat :: UnderDirty(m', i) <==> if shared && lo <= i < hi then dirty else UnderDirty(m, i)
  }

  /** Bytes `[lo, hi)` of `dst` now show those of `src` and are cached; no other byte changed. */
  ghost predicate RangeStep(objs: Objects, heap: Heap, objs': Objects, heap': Heap, stored: Stored, src: ObjectId,
                            dst: ObjectId,
                            lo: nat, hi: nat, shared: bool, dirty: bool)
  {
    && Grown(objs, objs', dst, lo, hi)
    && FlagStep(SegmentsOf(objs, dst), SegmentsOf(objs', dst), lo, hi, shared, dirty)
    && forall id, i: nat ::
      View(objs', heap', stored, id, i) == if id == dst && lo <= i < hi
          then View(objs, heap, stored, src, i) else View(objs, heap, stored, id, i)
  }

  lemma SourceByte(objs: Objects, heap: Heap, owners: Owners, a: nat, stored: Stored, src: ObjectId, k: nat, i: nat)
    requires Inv(objs, heap, owners, a) && src in objs && k in objs[src] && objs[src][k].Has(i)
    ensures Backed(objs[src][k], heap)
    ensures View(objs, heap, stored, src, i) == heap[objs[src][k].ptr].bytes[i - objs[src][k].offset]
  {
    hide Inv, ViewOf, Indexed, BlockAligned, AllBacked;
    IndexOf(objs, heap, owners, a, src);
    SlotHasOwner(objs, heap, owners, a, src, k);
    ViewCached(objs[src], heap, stored, src, k, i);
  }

  /** Fetching for a copy and patching the copied bytes in is one range step. */
  lemma CopiedStep(objs: Objects, heap: Heap, owners: Owners, objs1: Objects, heap1: Heap, owners1: Owners, heap2: Heap,
                   a: nat, stored: Stored,
                   src: ObjectId, dst: ObjectId, k: nat, lo: nat, hi: nat)
    requires Inv(objs, heap, owners, a) && Inv(objs1, heap1, owners1, a) && src != dst && src in objs && k in objs[src]
             && src in objs1 && objs1[src] == objs[src]
    requires objs[src][k].offset <= lo <= hi <= objs[src][k].End()
             && Fetched(objs, heap, objs1, heap1, stored, dst, true, false, lo, hi - lo)
    requires objs[src][k].ptr in heap1 && |heap1[objs[src][k].ptr].bytes| == objs[src][k].size
    requires Patched(objs1, heap1, objs1, heap2, stored, dst, lo,
                     heap1[objs[src][k].ptr].bytes[lo - objs[src][k].offset..hi - objs[src][k].offset])
    requires dst in objs1 && CoveredRange(objs1[dst], AlignedBase(lo, a), AlignedEnd(lo, hi - lo, a))
    ensures RangeStep(objs, heap, objs1, heap2, stored, src, dst, lo, hi, false, false)
  {
    hide Inv, View, Fetched, Grown, FlagStep, CoveredRange, AlignedBase, AlignedEnd;
    CoveredRequest(objs1[dst], lo, hi - lo, a);
    FetchedGrows(objs, heap, objs1, heap1, owners1, a, stored, dst, lo, hi - lo, lo, hi);
    var s := objs[src][k];
    var chunk := heap1[s.ptr].bytes[lo - s.offset..hi - s.offset];
    forall id, i: nat
      ensures View(objs1, heap2, stored, id, i) == if id == dst && lo <= i < hi
              then View(objs, heap, stored, src, i) else View(objs, heap, stored, id, i)
    {
      FetchedKeepsAll(objs, heap, owners, objs1, heap1, owners1, a, stored, dst, lo, hi - lo, id, i);
      if id == dst && lo <= i < hi {
        FetchedKeepsAll(objs, heap, owners, objs1, heap1, owners1, a, stored, dst, lo, hi - lo, src, i);
        SourceByte(objs1, heap1, owners1, a, stored, src, k, i);
        assert chunk[i - lo] == heap1[s.ptr].bytes[i - s.offset];
      }
    }
  }

  lemma FetchedKeepsAll(objs: Objects, heap: Heap, owners: Owners, objs': Objects, heap': Heap, owners': Owners, a: nat,
                        stored: Stored, dst: ObjectId,
                        base: nat, size: nat, id: ObjectId, i: nat)
    requires Inv(objs, heap, owners, a) && Inv(objs', heap', owners', a)
             && Fetched(objs, heap, objs', heap', stored, dst, true, false, base, size)
    ensures View(objs', heap', stored, id, i) == View(objs, heap, stored, id, i)
  {
    hide Inv, View, CellsKept, NewSegments, Indexed, BlockAligned;
    if id == dst {
      FetchedView(objs, heap, owners, objs', heap', owners', a, stored, dst, false, base, size, i);
    } else {
      if id in objs { IndexOf(objs, heap, owners, a, id); }
      ViewFollows(objs, heap, owners, objs', heap', a, stored, id, i);
    }
  }

  // ---- Sharing a whole segment -----------------------------------------------------------------

  lemma SharedView(m: SegmentMap, heap: Heap, s: Segment, heap': Heap, stored: Stored, id: ObjectId, i: nat)
    requires s.size > 0 && Indexed(m) && Indexed(m[s.End() - 1 := s]) && AllBacked(m[s.End() - 1 := s], heap')
             && OnlyFreed(heap, heap')
    requires s.End() - 1 in m ==> m[s.End() - 1].offset == s.offset && m[s.End() - 1].size == s.size
    ensures ViewOf(m[s.End() - 1 := s], heap', stored, id, i) == if s.Has(i)
            then ByteAt(heap, s, i) else ViewOf(m, heap, stored, id, i)
  {
    hide Indexed, ViewOf, ByteAt, OnlyFreed;
    var k0 := s.End() - 1;
    var m' := m[k0 := s];
    if s.Has(i) {
      assert m'[k0].Has(i) && Backed(m'[k0], heap');
      FreedByte(heap, heap', s, i);
      ViewCached(m', heap', stored, id, k0, i);
    } else if j :| j in m && m[j].Has(i) {
      assert j != k0 && m'[j] == m[j] && Backed(m'[j], heap');
      ViewCached(m, heap, stored, id, j, i);
      ViewCached(m', heap', stored, id, j, i);
      FreedByte(heap, heap', m[j], i);
    } else {
      ViewUncached(m, heap, stored, id, i);
      ViewUncached(m', heap', stored, id, i);
    }
  }

  lemma FreedByte(heap: Heap, heap': Heap, s: Segment, i: nat)
    requires OnlyFreed(heap, heap') && s.ptr in heap'
    ensures ByteAt(heap', s, i) == ByteAt(heap, s, i)
  {
  }

  lemma SharedStep(objs: Objects, heap: Heap, owners: Owners, objs': Objects, heap': Heap, owners': Owners, a: nat,
                   stored: Stored,
                   src: ObjectId, dst: ObjectId, k: nat)
    requires Inv(objs, heap, owners, a) && Inv(objs', heap', owners', a) && src != dst && src in objs && dst in objs
             && k in objs[src]
    requires OthersKept(objs, objs', dst) && OnlyFreed(heap, heap') && objs[src][k].size > 0
             && k == objs[src][k].End() - 1
    requires dst in objs' && objs'[dst] == objs[dst][k := objs[src][k]]
    requires k in objs[dst] ==> objs[dst][k].offset == objs[src][k].offset && objs[dst][k].size == objs[src][k].size
    ensures RangeStep(objs, heap, objs', heap', stored, src, dst, objs[src][k].offset, objs[src][k].End(), true,
                      objs[src][k].dirty)
  {
    hide Inv, View, Indexed, BlockAligned, AllBacked, OnlyFreed, Grown, FlagStep;
    var s := objs[src][k];
    IndexOf(objs', heap', owners', a, dst);
    SharedGrows(objs, objs', dst, s);
    SharedFlags(objs[dst], s);
    forall id, i: nat
      ensures View(objs', heap', stored, id, i) == if id == dst && s.offset <= i < s.End()
              then View(objs, heap, stored, src, i) else View(objs, heap, stored, id, i)
    {
      if id != dst {
        SurvivingView(objs, heap, owners, objs', heap', owners', a, stored, id, i);
      } else {
        SharedByte(objs, heap, owners, objs', heap', owners', a, stored, src, dst, k, i);
      }
    }
  }

  lemma SharedGrows(objs: Objects, objs': Objects, dst: ObjectId, s: Segment)
    requires dst in objs && dst in objs' && OthersKept(objs, objs', dst) && s.size > 0
             && objs'[dst] == objs[dst][s.End() - 1 := s]
    requires s.End() - 1 in objs[dst] ==> objs[dst][s.End() - 1].offset == s.offset
                                          && objs[dst][s.End() - 1].size == s.size
    ensures Grown(objs, objs', dst, s.offset, s.End())
  {
    hide Covered, Bare;
    OthersKeepShape(objs, objs', dst);
    forall i | s.offset <= i < s.End() ensures Covered(objs'[dst], i) { CoveredAt(objs'[dst], s.End() - 1, i); }
  }

  lemma AnyFlag(objs: Objects, heap: Heap, objs': Objects, heap': Heap, stored: Stored, src: ObjectId, dst: ObjectId,
                lo: nat, hi: nat, dirty: bool)
    requires RangeStep(objs, heap, objs', heap', stored, src, dst, lo, hi, false, false)
    ensures RangeStep(objs, heap, objs', heap', stored, src, dst, lo, hi, false, dirty)
  {
    hide View, Grown, UnderDirty;
  }

  lemma SharedSameFrom(m: SegmentMap, s: Segment)
    requires s.size > 0
    ensures SameFrom(m, m[s.End() - 1 := s], s.End())
  {
  }

  lemma SharedFlags(m: SegmentMap, s: Segment)
    requires s.size > 0 && Indexed(m[s.End() - 1 := s])
    requires s.End() - 1 in m ==> m[s.End() - 1].offset == s.offset && m[s.End() - 1].size == s.size
    ensures FlagStep(m, m[s.End() - 1 := s], s.offset, s.End(), true, s.dirty)
  {
    var k0, m' := s.End() - 1, m[s.End() - 1 := s];
    forall i: nat ensures UnderDirty(m', i) <==> if s.offset <= i < s.End() then s.dirty else UnderDirty(m, i) {
      assert m'[k0] == s;
      if s.Has(i) {
        if s.dirty { assert m'[k0].Has(i); }
        if k :| k in m' && m'[k].Has(i) && m'[k].dirty { OnlyOneCovers(m', k, k0, i); }
      } else {
        if k :| k in m && m[k].Has(i) && m[k].dirty { assert k != k0 && m'[k] == m[k]; }
      }
    }
  }

  /** A fetch leaves the dirty bytes as they are. */
  lemma FetchedGrows(objs: Objects, heap: Heap, objs': Objects, heap': Heap, owners': Owners, a: nat, stored: Stored,
                     dst: ObjectId,
                     base: nat, size: nat, lo: nat, hi: nat)
    requires Fetched(objs, heap, objs', heap', stored, dst, true, false, base, size) && Inv(objs', heap', owners', a)
    requires dst in objs' && CoveredRange(objs'[dst], lo, hi)
    ensures Grown(objs, objs', dst, lo, hi)
    ensures FlagStep(SegmentsOf(objs, dst), SegmentsOf(objs', dst), lo, hi, false, false)
  {
    hide Inv, Covered, Bare, Agrees, BytesKept;
    OthersKeepShape(objs, objs', dst);
    var m, m' := objs[dst], objs'[dst];
    forall i: nat ensures UnderDirty(m', i) <==> UnderDirty(m, i) {
      if k :| k in m && m[k].Has(i) && m[k].dirty { assert m'[k].Has(i) && m'[k].dirty; }
      if k :| k in m' && m'[k].Has(i) && m'[k].dirty { assert k in m && m[k].Has(i) && m[k].dirty; }
    }
  }

  lemma CoveredAt(m: SegmentMap, k: nat, i: nat)
    requires k in m && m[k].Has(i)
    ensures Covered(m, i)
  {
  }

  lemma SharedByte(objs: Objects, heap: Heap, owners: Owners, objs': Objects, heap': Heap, owners': Owners, a: nat,
                   stored: Stored,
                   src: ObjectId, dst: ObjectId, k: nat, i: nat)
    requires Inv(objs, heap, owners, a) && Inv(objs', heap', owners', a) && src in objs && dst in objs && k in objs[src]
    requires OnlyFreed(heap, heap') && objs[src][k].size > 0 && k == objs[src][k].End() - 1
    requires dst in objs' && objs'[dst] == objs[dst][k := objs[src][k]]
    requires k in objs[dst] ==> objs[dst][k].offset == objs[src][k].offset && objs[dst][k].size == objs[src][k].size
    ensures View(objs', heap', stored, dst, i) == if objs[src][k].Has(i)
            then View(objs, heap, stored, src, i) else View(objs, heap, stored, dst, i)
  {
    hide Inv, Indexed, BlockAligned, AllBacked, OnlyFreed, ViewOf;
    IndexOf(objs, heap, owners, a, dst);
    IndexOf(objs', heap', owners', a, dst);
    SharedView(objs[dst], heap, objs[src][k], heap', stored, dst, i);
    if objs[src][k].Has(i) { SourceByte(objs, heap, owners, a, stored, src, k, i); }
  }

  // ---- Choosing between sharing and copying ----------------------------------------------------

  lemma SharePlace(m: SegmentMap, s: Segment, offset: nat, size: nat)
    requires Indexed(m) && s.size > 0 && !MustCopy(m, s, offset, size)
    ensures s.End() - 1 in m ==> m[s.End() - 1].offset == s.offset && m[s.End() - 1].size == s.size
    ensures FreeRange(m - {s.End() - 1}, s.offset, s.End())
  {
    var t := LowerBound(m.Keys, s.offset);
    forall k | k in m - {s.End() - 1} ensures m[k].End() <= s.offset || s.End() <= m[k].offset {
      if t.Some? { assert t.value == s.End() - 1; }
    }
  }

  lemma BlockEnd(m: SegmentMap, a: nat, k: nat)
    requires BlockAligned(m, a) && k in m
    ensures AlignedTo(m[k].offset, a) && AlignedTo(m[k].End(), a)
  {
  }

  lemma FetchedParts(objs: Objects, heap: Heap, objs': Objects, heap': Heap, stored: Stored, id: ObjectId, clean: bool,
                     forWrite: bool, base: nat, size: nat)
    requires Fetched(objs, heap, objs', heap', stored, id, clean, forWrite, base, size)
    ensures id in objs && id in objs' && OthersKept(objs, objs', id) && CellsKept(objs[id], heap, objs'[id], heap')
  {
  }

  lemma FetchedStep(objs: Objects, heap: Heap, owners: Owners, objs': Objects, heap': Heap, owners': Owners, a: nat,
                    stored: Stored, src: ObjectId, dst: ObjectId, base: nat, size: nat)
    requires Inv(objs, heap, owners, a) && Inv(objs', heap', owners', a)
             && Fetched(objs, heap, objs', heap', stored, dst, true, false, base, size)
    ensures RangeStep(objs, heap, objs', heap', stored, src, dst, 0, 0, false, false)
  {
    hide Inv, View, Fetched, Grown, FlagStep;
    FetchedParts(objs, heap, objs', heap', stored, dst, true, false, base, size);
    FetchedGrows(objs, heap, objs', heap', owners', a, stored, dst, base, size, 0, 0);
    forall id, i: nat ensures View(objs', heap', stored, id, i) == View(objs, heap, stored, id, i) {
      FetchedKeepsAll(objs, heap, owners, objs', heap', owners', a, stored, dst, base, size, id, i);
    }
  }

  lemma WholeSegment(m: SegmentMap, s: Segment, offset: nat, size: nat)
    requires !MustCopy(m, s, offset, size)
    ensures Max(s.offset, offset) == s.offset && Min(s.End(), offset + size) == s.End()
  {
  }

  /** A copy or a share of a source segment leaves the destination alone from the end of that segment on. */
  lemma FetchedSameFrom(m: SegmentMap, heap: Heap, m': SegmentMap, heap': Heap, a: nat, at: nat, n: nat, y: nat)
    requires CellsKept(m, heap, m', heap') && GapShaped(m, m', AlignedBase(at, a), AlignedEnd(at, n, a)) && Indexed(m')
    requires n > 0 && at + n <= y && AlignedTo(y, a)
    ensures SameFrom(m, m', y)
  {
    hide AlignedTo, AlignedBase, AlignedSize;
    if y < AlignedEnd(at, n, a) { AlignedBelow(at, n, a, y); }
  }

  lemma FetchedBelow(m: SegmentMap, m': SegmentMap, a: nat, at: nat, n: nat, x: nat)
    requires SlotsKept(m, m', AlignedBase(at, a), AlignedSize(at, n, a), true) && Indexed(m)
    requires x <= at && AlignedTo(x, a)
    ensures KeptBelow(m, m', x)
  {
    hide AlignedTo, AlignedBase, AlignedSize;
    if x > AlignedBase(at, a) { AlignedAbove(at, a, x); }
  }

  lemma FetchedFlags(objs: Objects, heap: Heap, objs': Objects, heap': Heap, stored: Stored, id: ObjectId, clean: bool,
                     forWrite: bool, base: nat, size: nat)
    requires Fetched(objs, heap, objs', heap', stored, id, clean, forWrite, base, size)
    ensures FlagsKept(objs[id], objs'[id])
  {
    hide Keeps, Agrees;
  }

  lemma SharedBelow(m: SegmentMap, s: Segment)
    requires s.size > 0
    ensures KeptBelow(m, m[s.End() - 1 := s], s.offset)
  {
  }

  // ---- Copying a range of an object onto itself --------------------------------------------------

  lemma SelfFits(m: SegmentMap, a: nat, k: nat, lo: nat, n: nat)
    requires Indexed(m) && k in m && m[k].offset <= lo && lo + n <= m[k].End() && n > 0
    ensures CopyFits(m, a, lo, n)
  {
    hide AlignedBase;
    assert m[k].Has(lo);
    forall j | j in m && m[j].Has(lo) ensures j == k { OnlyOneCovers(m, j, k, lo); }
  }

  /** Patching an object with its own bytes changes nothing. */
  lemma SelfPatched(objs: Objects, heap: Heap, owners: Owners, objs1: Objects, heap1: Heap, owners1: Owners,
                    heap2: Heap, a: nat, stored: Stored,
                    id: ObjectId, k: nat, lo: nat, hi: nat)
    requires lo <= hi && Inv(objs, heap, owners, a) && Inv(objs1, heap1, owners1, a)
             && Fetched(objs, heap, objs1, heap1, stored, id, true, false, lo, hi - lo)
    requires id in objs1 && k in objs1[id] && objs1[id][k].offset <= lo <= hi <= objs1[id][k].End()
             && Backed(objs1[id][k], heap1)
    requires Patched(objs1, heap1, objs1, heap2, stored, id, lo,
                     heap1[objs1[id][k].ptr].bytes[lo - objs1[id][k].offset..hi - objs1[id][k].offset])
    ensures SameViews(objs, heap, stored, objs1, heap2, stored)
  {
    hide Inv, View, Fetched;
    var s := objs1[id][k];
    var chunk := heap1[s.ptr].bytes[lo - s.offset..hi - s.offset];
    forall id', i: nat ensures View(objs1, heap2, stored, id', i) == View(objs, heap, stored, id', i) {
      FetchedKeepsAll(objs, heap, owners, objs1, heap1, owners1, a, stored, id, lo, hi - lo, id', i);
      if id' == id && lo <= i < hi {
        SourceByte(objs1, heap1, owners1, a, stored, id, k, i);
        assert chunk[i - lo] == heap1[s.ptr].bytes[i - s.offset];
      }
    }
  }

  lemma FetchedSameViews(objs: Objects, heap: Heap, owners: Owners, objs': Objects, heap': Heap, owners': Owners,
                         a: nat, stored: Stored, id: ObjectId, base: nat, size: nat)
    requires Inv(objs, heap, owners, a) && Inv(objs', heap', owners', a)
             && Fetched(objs, heap, objs', heap', stored, id, true, false, base, size)
    ensures SameViews(objs, heap, stored, objs', heap', stored)
  {
    hide Inv, View, Fetched;
    forall id', i: nat ensures View(objs', heap', stored, id', i) == View(objs, heap, stored, id', i) {
      FetchedKeepsAll(objs, heap, owners, objs', heap', owners', a, stored, id, base, size, id', i);
    }
  }

  /** Fetching a part of a cached segment loads nothing. */
  lemma WithinCovered(m: SegmentMap, a: nat, k: nat, lo: nat, n: nat)
    requires BlockAligned(m, a) && k in m && m[k].offset <= lo && lo + n <= m[k].End() && n > 0
    ensures CoveredRange(m, AlignedBase(lo, a), AlignedEnd(lo, n, a))
  {
    hide AlignedBase, AlignedSize, AlignedTo;
    BlockEnd(m, a, k);
    if m[k].offset > AlignedBase(lo, a) { AlignedAbove(lo, a, m[k].offset); }
    if m[k].End() < AlignedEnd(lo, n, a) { AlignedBelow(lo, n, a, m[k].End()); }
    assert forall i | AlignedBase(lo, a) <= i < AlignedEnd(lo, n, a) :: m[k].Has(i);
  }

  lemma PrivateSlot(segs: seq<Descr>, m: SegmentMap, m': SegmentMap, heap: Heap, a: nat, k: nat, lo: nat, n: nat)
    requires Lists(segs, m', AlignedBase(lo, a), AlignedSize(lo, n, a)) && AllPrivate(segs, heap)
    requires Bare(m') == Bare(m) && k in m && m[k].offset <= lo && lo + n <= m[k].End() && n > 0
    ensures k in m' && m'[k].ptr in heap && heap[m'[k].ptr].refs == 1
  {
    AlignedRange(lo, n, a);
    SameBareKept(m, m');
    assert m'[k].Overlap(AlignedBase(lo, a), AlignedSize(lo, n, a));
    assert m'[k].Describe() in segs;
  }

  lemma WithinSegment(m: SegmentMap, heap: Heap, m': SegmentMap, heap': Heap, a: nat, k: nat, lo: nat, n: nat)
    requires Indexed(m') && BlockAligned(m, a) && CellsKept(m, heap, m', heap') && k in m
    requires m[k].offset <= lo && lo + n <= m[k].End() && n > 0
    requires GapShaped(m, m', AlignedBase(lo, a), AlignedEnd(lo, n, a))
    ensures Bare(m') == Bare(m)
  {
    hide AlignedBase, AlignedSize, AlignedTo;
    BlockEnd(m, a, k);
    if m[k].offset > AlignedBase(lo, a) { AlignedAbove(lo, a, m[k].offset); }
    if m[k].End() < AlignedEnd(lo, n, a) { AlignedBelow(lo, n, a, m[k].End()); }
    assert k in m' && m'[k].offset == m[k].offset && m'[k].End() == m[k].End();
    assert m'.Keys == m.Keys;
  }

  /** What copying a range of an object onto itself may do: no byte, no range and no flag changes. */
  ghost predicate SelfCopied(objs: Objects, heap: Heap, objs': Objects, heap': Heap, stored: Stored, id: ObjectId) {
    && id in objs && id in objs' && OthersKept(objs, objs', id) && Bare(objs'[id]) == Bare(objs[id])
    && SameViews(objs, heap, stored, objs', heap', stored)
  }

  lemma SelfCopiedNothing(objs: Objects, heap: Heap, stored: Stored, id: ObjectId)
    requires id in objs
    ensures SelfCopied(objs, heap, objs, heap, stored, id)
  {
  }

  lemma SelfCopiedKeys(objs: Objects, heap: Heap, objs': Objects, heap': Heap, stored: Stored, id: ObjectId)
    requires SelfCopied(objs, heap, objs', heap', stored, id)
    ensures id in objs && id in objs' && objs'[id].Keys == objs[id].Keys
  {
    assert Bare(objs'[id]).Keys == objs'[id].Keys && Bare(objs[id]).Keys == objs[id].Keys;
  }

  lemma SelfObjects(objs: Objects, heap: Heap, objs': Objects, heap': Heap, stored: Stored, id: ObjectId)
    requires SelfCopied(objs, heap, objs', heap', stored, id)
    ensures objs'.Keys == objs.Keys && id in objs
  {
  }

  lemma SelfCopiedThen(objs0: Objects, heap0: Heap, objs: Objects, heap: Heap, objs': Objects, heap': Heap,
                       stored: Stored, id: ObjectId)
    requires SelfCopied(objs0, heap0, objs, heap, stored, id) && SelfCopied(objs, heap, objs', heap', stored, id)
    ensures SelfCopied(objs0, heap0, objs', heap', stored, id)
  {
    hide View, Bare;
  }

  /** A copy onto itself never leaves a buffer. */
  lemma SelfNeverOverruns(m: SegmentMap, a: nat, offset: nat, size: nat)
    requires Indexed(m) && size > 0
    ensures !RangeOverruns(m, m, a, offset, size)
  {
    hide MustCopy, CopyFits;
    forall k | k in m && m[k].Overlap(offset, size) ensures !Overruns(m, a, m[k], offset, size) {
      var lo, hi := Max(m[k].offset, offset), Min(m[k].End(), offset + size);
      SelfFits(m, a, k, lo, hi - lo);
    }
  }
}
