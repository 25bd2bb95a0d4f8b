/** The completion loop of `getBuffers` over the shared heap: what holds between two loads. */
module SegmentLoading {
  import opened Basics
  import opened SegmentIndex
  import opened SharedHeap
  import opened GapFilling
  import opened Shapes

  /** The aligned range being completed, and the client request it was derived from. */
  datatype Fill = Fill(base: nat, size: nat, reqBase: nat, reqSize: nat, forWrite: bool) {
    predicate Aligns(a: nat) { base == AlignedBase(reqBase, a) && size == AlignedSize(reqBase, reqSize, a) }
  }

  ghost predicate FillState(objs1: Objects, heap1: Heap, objs: Objects, heap: Heap, stored: Stored, a: nat,
                            id: ObjectId, q: Fill,
                            tmp: seq<Descr>, last: nat, clean: bool)
  {
    && Keeps(objs1, heap1, objs, heap, id) && id in objs1 && id in objs
    && Filling(objs1[id], objs[id], tmp, q.base, last)
    && NewSegments(objs1[id], objs[id], heap, stored, id, clean, q.forWrite, q.reqBase, q.reqSize)
    && AllPrivate(tmp, heap)
    && AlignedTo(last, a)
    && (forall d | d in tmp :: d.offset < q.base + q.size)
    && GapShaped(objs1[id], objs[id], q.base, q.base + q.size)
  }

  lemma FillStart(objs: Objects, heap: Heap, owners: Owners, stored: Stored, a: nat, id: ObjectId, q: Fill)
    requires Inv(objs, heap, owners, a) && id in objs && AlignedTo(q.base, a)
    ensures FillState(objs, heap, objs, heap, stored, a, id, q, [], q.base, true)
  {
    IndexOf(objs, heap, owners, a, id);
  }

  lemma FillHas(objs1: Objects, heap1: Heap, objs: Objects, heap: Heap, stored: Stored, a: nat, id: ObjectId, q: Fill,
                tmp: seq<Descr>, last: nat, clean: bool)
    requires FillState(objs1, heap1, objs, heap, stored, a, id, q, tmp, last, clean)
    ensures id in objs1 && id in objs && AlignedTo(last, a)
  {
  }

  /** The gap before `segs[j]` is free, starts where the loop stands, and ends on a block boundary. */
  lemma GapReady(objs1: Objects, heap1: Heap, objs: Objects, heap: Heap, stored: Stored, a: nat, id: ObjectId, q: Fill,
                 segs: seq<Descr>, tmp: seq<Descr>, j: nat, clean: bool)
    requires j <= |segs| && id in objs1 && Sorted(segs) && Lists(segs, objs1[id], q.base, q.size)
             && BlockAligned(objs1[id], a)
    requires AlignedTo(q.base + q.size, a)
    requires FillState(objs1, heap1, objs, heap, stored, a, id, q, tmp, GapStart(segs, j, q.base), clean)
    ensures FreeRange(objs1[id], GapStart(segs, j, q.base), GapEnd(segs, j, q.base + q.size))
    ensures FreeRange(objs[id], GapStart(segs, j, q.base), GapEnd(segs, j, q.base + q.size))
    ensures AlignedTo(GapEnd(segs, j, q.base + q.size), a)
    ensures GapEnd(segs, j, q.base + q.size) == q.base + q.size ||
            (GapEnd(segs, j, q.base + q.size) < q.base + q.size
             && StartsAt(objs1[id], GapEnd(segs, j, q.base + q.size)))
  {
    GapIsFree(segs, objs1[id], q.base, q.size, j);
    GapFreeAfterLoads(objs1[id], objs[id], tmp, q.base, GapStart(segs, j, q.base), GapEnd(segs, j, q.base + q.size));
    if j < |segs| {
      assert segs[j] in segs;
      assert InMap(segs[j], objs1[id]);
    }
  }

  lemma FillLoaded(objs1: Objects, heap1: Heap, objs: Objects, heap: Heap, owners: Owners, objs': Objects, heap': Heap,
                   stored: Stored, a: nat,
                   id: ObjectId, q: Fill, tmp: seq<Descr>, d: Descr, clean: bool, ok: bool)
    requires Inv(objs, heap, owners, a) && FillState(objs1, heap1, objs, heap, stored, a, id, q, tmp, d.offset, clean)
    requires Loaded(objs, heap, objs', heap', id, d) && FreeRange(objs1[id], d.offset, d.End()) && AlignedTo(d.End(), a)
    requires d.offset < q.base + q.size && (d.End() == q.base + q.size
                                            || (d.End() < q.base + q.size && StartsAt(objs1[id], d.End())))
    requires var s := Segment(d.ptr, d.offset, d.size, false);
             ok ==> Agrees(s, heap', stored, id) || (q.forWrite && Inside(s, q.reqBase, q.reqSize))
    ensures FillState(objs1, heap1, objs', heap', stored, a, id, q, tmp + [d], d.End(), clean && ok)
  {
    hide Keeps, Filling, NewSegments, AllPrivate, AlignedTo, Agrees, Inv, StartsAt, GapShaped;
    GapShapedLoaded(objs1[id], objs[id], q.base, q.base + q.size, Segment(d.ptr, d.offset, d.size, false), tmp);
    var s := Segment(d.ptr, d.offset, d.size, false);
    assert s.Describe() == d && objs'[id] == objs[id][d.End() - 1 := s];
    LoadedKeeps(objs1, heap1, objs, heap, objs', heap', id, d);
    AddGap(objs1[id], objs[id], tmp, q.base, d.offset, s);
    NewSegmentsLoaded(objs1[id], objs, heap, owners, a, objs', heap', stored, id, d, clean, ok, q.forWrite, q.reqBase,
                      q.reqSize);
    PrivateLoaded(tmp, objs, heap, objs', heap', id, d);
  }

  lemma GapShapedLoaded(m1: SegmentMap, m: SegmentMap, base: nat, end: nat, s: Segment, tmp: seq<Descr>)
    requires GapShaped(m1, m, base, end) && Filling(m1, m, tmp, base, s.offset) && s.size > 0
    requires s.End() == end || (s.End() < end && StartsAt(m1, s.End()))
    ensures GapShaped(m1, m[s.End() - 1 := s], base, end)
  {
  }

  lemma GapShapedFrom(m0: SegmentMap, heap0: Heap, m1: SegmentMap, heap1: Heap, m: SegmentMap, base: nat, end: nat)
    requires SameCells(m0, heap0, m1, heap1) && GapShaped(m1, m, base, end)
    ensures GapShaped(m0, m, base, end)
  {
    forall k | k in m && k !in m0 && m[k].End() != end ensures StartsAt(m0, m[k].End()) {
      assert StartsAt(m1, m[k].End());
      var j :| j in m1 && m1[j].offset == m[k].End();
      assert m0[j].offset == m[k].End();
    }
  }

  lemma PrivateLoaded(segs: seq<Descr>, objs: Objects, heap: Heap, objs': Objects, heap': Heap, id: ObjectId, d: Descr)
    requires AllPrivate(segs, heap) && Loaded(objs, heap, objs', heap', id, d)
    ensures AllPrivate(segs + [d], heap')
  {
  }

  lemma FillSkip(objs1: Objects, heap1: Heap, objs: Objects, heap: Heap, stored: Stored, a: nat, id: ObjectId, q: Fill,
                 segs: seq<Descr>, tmp: seq<Descr>, j: nat, last: nat, clean: bool)
    requires j < |segs| && id in objs1 && Sorted(segs) && Lists(segs, objs1[id], q.base, q.size)
             && BlockAligned(objs1[id], a)
    requires FillState(objs1, heap1, objs, heap, stored, a, id, q, tmp, last, clean)
    requires last == GapStart(segs, j, q.base) || last == segs[j].offset
    requires segs[j].offset <= last
    ensures FillState(objs1, heap1, objs, heap, stored, a, id, q, tmp, segs[j].End(), clean)
  {
    hide Keeps, NewSegments, AllPrivate, GapShaped, AlignedTo, Filling, BlockAligned, Lists, Sorted;
    FillIndexed(objs1, heap1, objs, heap, stored, a, id, q, tmp, last, clean);
    ListedAhead(segs, objs1[id], a, q.base, q.size, j, last);
    SkipListed(objs1[id], objs[id], tmp, q.base, last, segs[j]);
  }

  lemma FillIndexed(objs1: Objects, heap1: Heap, objs: Objects, heap: Heap, stored: Stored, a: nat, id: ObjectId,
                    q: Fill,
                    tmp: seq<Descr>, last: nat, clean: bool)
    requires FillState(objs1, heap1, objs, heap, stored, a, id, q, tmp, last, clean)
    ensures id in objs1 && Indexed(objs1[id]) && q.base <= last
  {
  }

  lemma ListedAhead(segs: seq<Descr>, m: SegmentMap, a: nat, base: nat, size: nat, j: nat, last: nat)
    requires j < |segs| && Indexed(m) && Sorted(segs) && Lists(segs, m, base, size) && BlockAligned(m, a)
    requires last == GapStart(segs, j, base) || last == segs[j].offset
    ensures InMap(segs[j], m) && last <= segs[j].End() && AlignedTo(segs[j].End(), a)
  {
    hide AlignedTo;
    assert segs[j] in segs && InMap(segs[j], m);
    if j > 0 {
      assert segs[j - 1] in segs;
      DescrOrder(m, segs[j - 1], segs[j]);
    }
  }

  // ---- Where loaded bytes come from ----------------------------------------------------------------

  /** A gap of a write that needs no load is overwritten entirely. */
  lemma GapInside(m: SegmentMap, a: nat, off: nat, size: nat, lo: nat, hi: nat)
    requires AlignedBase(off, a) <= lo < hi <= AlignedEnd(off, size, a) && AlignedTo(lo, a) && AlignedTo(hi, a)
    requires FreeRange(m, lo, hi) && !NeedsLoad(m, a, off, size)
    ensures off <= lo && hi <= off + size
  {
    hide AlignedBase, AlignedSize, AlignedTo;
    var b, e := AlignedBase(off, a), AlignedEnd(off, size, a);
    AlignedRange(off, size, a);
    assert !Covered(m, lo) && !Covered(m, hi - 1);
    if lo > b { AlignedAbove(off, a, lo); }
    if hi < e {
      if size > 0 { AlignedBelow(off, size, a, hi); } else { OneBlock(off, a, lo, hi); }
    }
  }

  lemma OneBlock(off: nat, a: nat, lo: nat, hi: nat)
    requires AlignedBase(off, a) <= lo < hi <= AlignedEnd(off, 0, a) && AlignedTo(lo, a) && AlignedTo(hi, a)
    ensures hi == AlignedEnd(off, 0, a)
  {
    AlignedRange(off, 0, a);
    if a > 0 {
      SmallMod(off % a, a);
      MultiplesApart(hi, lo, a);
    }
  }

  /** The storage, what memory held before, and the numbers `[from, upto)` of the calls made so far. */
  datatype Origin = Origin(outcome: nat -> Outcome, former: (Ptr, nat) -> Byte, from: nat, upto: nat)

  /** The segment holds what a call with this outcome read, and former memory content where it did not get. */
  ghost predicate LoadedBy(s: Segment, heap: Heap, stored: Stored, id: ObjectId, out: Outcome,
                           former: (Ptr, nat) -> Byte)
  {
    forall i: nat | s.Has(i) ::
      ByteAt(heap, s, i) == if Reaches(out, i - s.offset) then stored(id, i) else former(s.ptr, i - s.offset)
  }

  ghost predicate FromLoad(s: Segment, heap: Heap, stored: Stored, id: ObjectId, o: Origin) {
    exists n: nat :: o.from <= n < o.upto && LoadedBy(s, heap, stored, id, o.outcome(n), o.former)
  }

  /** Every new segment was loaded by one of the calls, unless the write overwrites it entirely. */
  ghost predicate AllLoaded(m1: SegmentMap, m: SegmentMap, heap: Heap, stored: Stored, id: ObjectId, base: nat,
                            size: nat, o: Origin)
  {
    forall k | k in m && k !in m1 :: Inside(m[k], base, size) || FromLoad(m[k], heap, stored, id, o)
  }

  lemma LoadedByKept(s: Segment, heap: Heap, heap': Heap, stored: Stored, id: ObjectId, out: Outcome,
                     former: (Ptr, nat) -> Byte)
    requires LoadedBy(s, heap, stored, id, out, former) && Backed(s, heap) && BytesKept(heap, heap')
    ensures LoadedBy(s, heap', stored, id, out, former)
  {
    forall i: nat | s.Has(i) ensures ByteAt(heap', s, i) == ByteAt(heap, s, i) { }
  }

  lemma FromLoadKept(s: Segment, heap: Heap, heap': Heap, stored: Stored, id: ObjectId, o: Origin, upto: nat)
    requires FromLoad(s, heap, stored, id, o) && Backed(s, heap) && BytesKept(heap, heap') && o.upto <= upto
    ensures FromLoad(s, heap', stored, id, o.(upto := upto))
  {
    hide LoadedBy;
    var n: nat :| o.from <= n < o.upto && LoadedBy(s, heap, stored, id, o.outcome(n), o.former);
    LoadedByKept(s, heap, heap', stored, id, o.outcome(n), o.former);
    assert LoadedBy(s, heap', stored, id, o.(upto := upto).outcome(n), o.former);
  }

  lemma AllLoadedNone(m: SegmentMap, heap: Heap, stored: Stored, id: ObjectId, base: nat, size: nat, o: Origin)
    ensures AllLoaded(m, m, heap, stored, id, base, size, o)
  {
  }

  /** One more segment, loaded by the next call unless the write overwrites it. */
  lemma AllLoadedNext(m1: SegmentMap, objs: Objects, heap: Heap, owners: Owners, a: nat, objs': Objects, heap': Heap,
                      stored: Stored, id: ObjectId, d: Descr, base: nat, size: nat, o: Origin, upto: nat)
    requires Inv(objs, heap, owners, a) && Loaded(objs, heap, objs', heap', id, d) && id in objs'
    requires AllLoaded(m1, objs[id], heap, stored, id, base, size, o) && o.from <= o.upto <= upto
    requires var s := Segment(d.ptr, d.offset, d.size, false);
             Inside(s, base, size) || (o.upto < upto && LoadedBy(s, heap', stored, id, o.outcome(o.upto), o.former))
    ensures AllLoaded(m1, objs'[id], heap', stored, id, base, size, o.(upto := upto))
  {
    hide Inv, LoadedBy, FromLoad, Indexed, BlockAligned;
    IndexOf(objs, heap, owners, a, id);
    assert BytesKept(heap, heap');
    var s := Segment(d.ptr, d.offset, d.size, false);
    forall k | k in objs'[id] && k !in m1 && !Inside(objs'[id][k], base, size)
      ensures FromLoad(objs'[id][k], heap', stored, id, o.(upto := upto))
    {
      if k == d.End() - 1 {
        ThisLoad(s, heap', stored, id, o, upto);
      } else {
        FromLoadKept(objs[id][k], heap, heap', stored, id, o, upto);
      }
    }
  }

  /** Breaking the sharing of segments does not change what has to be loaded. */
  lemma CollectedNeedsLoad(objs: Objects, heap: Heap, objs': Objects, heap': Heap, id: ObjectId, a: nat, off: nat,
                           size: nat)
    requires Collected(objs, heap, objs', heap', id) && id in objs'
    ensures NeedsLoad(objs'[id], a, off, size) <==> NeedsLoad(objs[id], a, off, size)
    ensures objs'[id].Keys == objs[id].Keys
  {
    hide NeedsLoad;
    NeedsLoadSame(objs[id], objs'[id], a, off, size);
  }

  lemma CollectedCovers(objs: Objects, heap: Heap, objs': Objects, heap': Heap, id: ObjectId, lo: nat, hi: nat)
    requires Collected(objs, heap, objs', heap', id) && id in objs'
    ensures CoveredRange(objs'[id], lo, hi) <==> CoveredRange(objs[id], lo, hi)
  {
    hide Covered;
    forall i: nat ensures Covered(objs'[id], i) <==> Covered(objs[id], i) {
      CoverKept(objs[id], objs'[id], i);
      CoverKept(objs'[id], objs[id], i);
    }
  }

  lemma NothingListed(segs: seq<Descr>, objs: Objects, heap: Heap, objs': Objects, heap': Heap, id: ObjectId, base: nat,
                      size: nat)
    requires Collected(objs, heap, objs', heap', id) && id in objs' && Lists(segs, objs'[id], base, size)
    requires FreeRange(objs[id], base, base + size)
    ensures segs == []
  {
    FirstListed(segs);
  }

  lemma FreeNotCovered(m: SegmentMap, lo: nat, hi: nat, base: nat, end: nat)
    requires FreeRange(m, lo, hi) && base <= lo < hi && lo < end
    ensures !CoveredRange(m, base, end)
  {
    assert !Covered(m, lo);
  }

  lemma FillExtends(objs1: Objects, heap1: Heap, objs: Objects, heap: Heap, stored: Stored, a: nat, id: ObjectId,
                    q: Fill, tmp: seq<Descr>, last: nat, clean: bool)
    requires FillState(objs1, heap1, objs, heap, stored, a, id, q, tmp, last, clean)
    ensures forall k | k in objs1[id] :: k in objs[id] && objs[id][k] == objs1[id][k]
  {
    hide Keeps, NewSegments, AllPrivate, GapShaped, AlignedTo;
  }

  lemma FillCovers(objs1: Objects, heap1: Heap, objs: Objects, heap: Heap, stored: Stored, a: nat, id: ObjectId,
                   q: Fill, tmp: seq<Descr>, last: nat, clean: bool)
    requires FillState(objs1, heap1, objs, heap, stored, a, id, q, tmp, last, clean) && q.base + q.size <= last
    ensures CoveredRange(objs[id], q.base, q.base + q.size)
  {
    hide Keeps, NewSegments, AllPrivate, GapShaped, AlignedTo, Covered;
  }

  lemma FirstListed(segs: seq<Descr>)
    ensures segs != [] ==> segs[0] in segs
  {
  }

  lemma LoadedHas(objs: Objects, heap: Heap, objs': Objects, heap': Heap, id: ObjectId, d: Descr)
    requires Loaded(objs, heap, objs', heap', id, d)
    ensures id in objs'
  {
  }

  lemma ThisLoad(s: Segment, heap: Heap, stored: Stored, id: ObjectId, o: Origin, upto: nat)
    requires o.from <= o.upto < upto && LoadedBy(s, heap, stored, id, o.outcome(o.upto), o.former)
    ensures FromLoad(s, heap, stored, id, o.(upto := upto))
  {
    assert LoadedBy(s, heap, stored, id, o.(upto := upto).outcome(o.upto), o.former);
  }

  lemma AllLoadedFrom(m0: SegmentMap, m1: SegmentMap, m: SegmentMap, heap: Heap, stored: Stored, id: ObjectId,
                      base: nat, size: nat, o: Origin)
    requires AllLoaded(m1, m, heap, stored, id, base, size, o) && m0.Keys == m1.Keys
    ensures AllLoaded(m0, m, heap, stored, id, base, size, o)
  {
    hide FromLoad;
  }

  // ---- The completed request -------------------------------------------------------------------

  ghost predicate CellsKept(m: SegmentMap, heap: Heap, m': SegmentMap, heap': Heap) {
    forall k | k in m ::
      && k in m' && m'[k].offset == m[k].offset && m'[k].size == m[k].size && m'[k].dirty == m[k].dirty
      && m[k].ptr in heap && m'[k].ptr in heap' && heap'[m'[k].ptr].bytes == heap[m[k].ptr].bytes
  }

  /** Fetching a range keeps every other object, every live buffer and every cached byte of the object itself. */
  ghost predicate Fetched(objs: Objects, heap: Heap, objs': Objects, heap': Heap, stored: Stored, id: ObjectId,
                          clean: bool, forWrite: bool, base: nat, size: nat)
  {
    && Keeps(objs, heap, objs', heap', id) && id in objs && id in objs'
    && CellsKept(objs[id], heap, objs'[id], heap')
    && NewSegments(objs[id], objs'[id], heap', stored, id, clean, forWrite, base, size)
  }

  lemma FetchedFrom(objs0: Objects, heap0: Heap, objs1: Objects, heap1: Heap, objs: Objects, heap: Heap, stored: Stored,
                    a: nat,
                    id: ObjectId, q: Fill, tmp: seq<Descr>, last: nat, clean: bool)
    requires Collected(objs0, heap0, objs1, heap1, id)
    requires FillState(objs1, heap1, objs, heap, stored, a, id, q, tmp, last, clean)
    ensures id in objs && Fetched(objs0, heap0, objs, heap, stored, id, clean, q.forWrite, q.reqBase, q.reqSize)
    ensures GapShaped(objs0[id], objs[id], q.base, q.base + q.size)
  {
    hide CoveredRange, AddedListed, ListedAdded, AllPrivate, AlignedTo, OffsetsDistinct, Indexed, Extends, SameCells,
         SameFlags;
    hide NewSegments, BytesKept, OthersKept, GapShaped;
    KeepsTransitive(objs0, heap0, objs1, heap1, objs, heap, id);
    GapShapedFrom(objs0[id], heap0, objs1[id], heap1, objs[id], q.base, q.base + q.size);
    CellsKeptFrom(objs0[id], heap0, objs1[id], heap1, objs[id], heap);
    NewSegmentsFrom(objs0[id], objs1[id], objs[id], heap, stored, id, clean, q);
  }

  lemma KeepsTransitive(objs0: Objects, heap0: Heap, objs1: Objects, heap1: Heap, objs: Objects, heap: Heap,
                        id: ObjectId)
    requires Keeps(objs0, heap0, objs1, heap1, id) && Keeps(objs1, heap1, objs, heap, id)
    ensures Keeps(objs0, heap0, objs, heap, id)
  {
  }

  lemma CellsKeptFrom(m0: SegmentMap, heap0: Heap, m1: SegmentMap, heap1: Heap, m: SegmentMap, heap: Heap)
    requires SameCells(m0, heap0, m1, heap1) && SameFlags(m0, m1) && Extends(m1, m) && BytesKept(heap1, heap)
    ensures CellsKept(m0, heap0, m, heap)
  {
  }

  lemma NewSegmentsFrom(m0: SegmentMap, m1: SegmentMap, m: SegmentMap, heap: Heap, stored: Stored, id: ObjectId,
                        clean: bool, q: Fill)
    requires SameFlags(m0, m1) && NewSegments(m1, m, heap, stored, id, clean, q.forWrite, q.reqBase, q.reqSize)
    ensures NewSegments(m0, m, heap, stored, id, clean, q.forWrite, q.reqBase, q.reqSize)
  {
  }

  lemma CompletedTiles(objs1: Objects, heap1: Heap, objs: Objects, heap: Heap, stored: Stored, a: nat, id: ObjectId,
                       q: Fill,
                       segs: seq<Descr>, tmp: seq<Descr>, last: nat, clean: bool)
    requires FillState(objs1, heap1, objs, heap, stored, a, id, q, tmp, last, clean)
    requires id in objs1 && Sorted(segs) && Lists(segs, objs1[id], q.base, q.size) && q.base + q.size <= last
    ensures id in objs && OffsetsDistinct(segs + tmp)
    ensures Lists(SortByOffset(segs + tmp), objs[id], q.base, q.size)
    ensures Tiles(SortByOffset(segs + tmp), q.base, q.base + q.size) && CoveredRange(objs[id], q.base, q.base + q.size)
  {
    var m := objs[id];
    hide Keeps, NewSegments, AllPrivate, AlignedTo, Tiles, Indexed, AddedListed, ListedAdded, Extends, OffsetsDistinct,
         Sorted, InMap;
    CompletedDistinct(segs, objs1[id], m, tmp);
    CompletedListing(segs, objs1[id], m, tmp, q.base, q.size, last);
    var s := SortByOffset(segs + tmp);
    assert Lists(s, m, q.base, q.size);
    assert CoveredRange(m, q.base, q.base + q.size);
    ListingTiles(s, m, q.base, q.size);
  }

  lemma PrivateSorted(segs: seq<Descr>, tmp: seq<Descr>, s: seq<Descr>, objs1: Objects, heap1: Heap, objs: Objects,
                      heap: Heap, stored: Stored,
                      a: nat, id: ObjectId, q: Fill, last: nat, clean: bool)
    requires FillState(objs1, heap1, objs, heap, stored, a, id, q, tmp, last, clean) && AllPrivate(segs, heap1)
    requires OffsetsDistinct(segs + tmp) && s == SortByOffset(segs + tmp)
    ensures AllPrivate(s, heap)
  {
    hide Filling, NewSegments, AlignedTo;
    forall d | d in s ensures d.ptr in heap && heap[d.ptr].refs == 1 {
      assert d in segs + tmp;
      assert d in segs || d in tmp;
    }
  }

  // ---- Views across a fetch --------------------------------------------------------------------

  lemma FetchedViewCached(m: SegmentMap, heap: Heap, m': SegmentMap, heap': Heap, stored: Stored, id: ObjectId, i: nat)
    requires Indexed(m) && Indexed(m') && CellsKept(m, heap, m', heap') && Covered(m, i)
    ensures ViewOf(m', heap', stored, id, i) == ViewOf(m, heap, stored, id, i)
  {
    hide Indexed, ViewOf;
    var k :| k in m && m[k].Has(i);
    assert m'[k].Has(i);
    ViewCached(m, heap, stored, id, k, i);
    ViewCached(m', heap', stored, id, k, i);
  }

  lemma FetchedViewLoaded(m: SegmentMap, m': SegmentMap, heap': Heap, stored: Stored, id: ObjectId,
                          forWrite: bool, base: nat, size: nat, i: nat)
    requires Indexed(m') && NewSegments(m, m', heap', stored, id, true, forWrite, base, size)
    requires !Covered(m, i) && !(forWrite && base <= i < base + size)
    requires forall k | k in m :: k in m' && m'[k].offset == m[k].offset && m'[k].size == m[k].size
    ensures ViewOf(m', heap', stored, id, i) == stored(id, i)
  {
    if k :| k in m' && m'[k].Has(i) {
      assert k !in m by { if k in m { assert m[k].Has(i); } }
      assert Agrees(m'[k], heap', stored, id);
      ViewCached(m', heap', stored, id, k, i);
    }
  }

  /** Fetching shows the same bytes, except for the bytes a write is about to replace. */
  lemma FetchedView(objs: Objects, heap: Heap, owners: Owners, objs': Objects, heap': Heap, owners': Owners, a: nat,
                    stored: Stored, id: ObjectId,
                    forWrite: bool, base: nat, size: nat, i: nat)
    requires Inv(objs, heap, owners, a) && Inv(objs', heap', owners', a)
    requires Fetched(objs, heap, objs', heap', stored, id, true, forWrite, base, size)
    requires !(forWrite && base <= i < base + size)
    ensures View(objs', heap', stored, id, i) == View(objs, heap, stored, id, i)
  {
    IndexOf(objs, heap, owners, a, id);
    IndexOf(objs', heap', owners', a, id);
    hide Inv, Keeps, NewSegments, Indexed, Covered, ViewOf;
    if Covered(objs[id], i) {
      FetchedViewCached(objs[id], heap, objs'[id], heap', stored, id, i);
    } else {
      FetchedViewLoaded(objs[id], objs'[id], heap', stored, id, forWrite, base, size, i);
      ViewUncached(objs[id], heap, stored, id, i);
    }
  }

  lemma ViewUncached(m: SegmentMap, heap: Heap, stored: Stored, id: ObjectId, i: nat)
    requires !Covered(m, i)
    ensures ViewOf(m, heap, stored, id, i) == stored(id, i)
  {
  }

  /** The view of an object follows its own slots and the bytes of its own buffers. */
  lemma ViewFollows(objs: Objects, heap: Heap, owners: Owners, objs': Objects, heap': Heap, a: nat, stored: Stored,
                    id: ObjectId, i: nat)
    requires Inv(objs, heap, owners, a) && SegmentsOf(objs', id) == SegmentsOf(objs, id)
    requires id in objs ==> forall k | k in objs[id] ::
                            objs[id][k].ptr in heap' && heap'[objs[id][k].ptr].bytes == heap[objs[id][k].ptr].bytes
    ensures View(objs', heap', stored, id, i) == View(objs, heap, stored, id, i)
  {
    if id in objs {
      IndexOf(objs, heap, owners, a, id);
      SameCellsSameView(objs[id], heap, objs[id], heap', stored, id, i);
    }
  }
}
