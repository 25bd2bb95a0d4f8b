/**
  Sharing segments between objects, giving up the slots of a deleted object, and the full copy-on-write of an object.
 */
module CopyOnWrite {
  import opened Basics
  import opened SegmentIndex
  import opened SharedHeap
  import opened SegmentLoading
  import opened WriteBack
  import opened Flushing
  import opened Shapes

  // ---- Buffers that survive --------------------------------------------------------------------

  /** Buffers may have been freed, but none changed. */
  ghost predicate OnlyFreed(heap: Heap, heap': Heap) {
    forall p | p in heap' :: p in heap && heap'[p].bytes == heap[p].bytes
  }

  /** An object that kept its slots keeps its view: the invariant protects its buffers from being freed. */
  lemma SurvivingView(objs: Objects, heap: Heap, owners: Owners, objs': Objects, heap': Heap, owners': Owners, a: nat,
                      stored: Stored, id: ObjectId, i: nat)
    requires Inv(objs, heap, owners, a) && Inv(objs', heap', owners', a)
             && SegmentsOf(objs', id) == SegmentsOf(objs, id)
    requires id in objs ==> id in objs'
    requires OnlyFreed(heap, heap')
    ensures View(objs', heap', stored, id, i) == View(objs, heap, stored, id, i)
  {
    hide Inv, View, Indexed, BlockAligned;
    if id in objs {
      IndexOf(objs', heap', owners', a, id);
      assert forall k | k in objs[id] :: Backed(objs'[id][k], heap');
    }
    ViewFollows(objs, heap, owners, objs', heap', a, stored, id, i);
  }

  // ---- Deleting slots --------------------------------------------------------------------------

  lemma SubIndex(m: SegmentMap, m': SegmentMap, a: nat)
    requires Indexed(m) && BlockAligned(m, a) && forall k | k in m' :: k in m && m'[k] == m[k]
    ensures Indexed(m') && BlockAligned(m', a)
  {
    hide AlignedTo;
  }

  lemma DroppedSlotKeepsInv(objs: Objects, heap: Heap, owners: Owners, a: nat, id: ObjectId, k: nat)
    requires Inv(objs, heap, owners, a) && id in objs && k in objs[id]
    ensures var p := objs[id][k].ptr;
            && Inv(RemoveSlot(objs, id, k), Drop(heap, p), DropOwner(owners, p, (id, k)), a)
            && OthersKept(objs, RemoveSlot(objs, id, k), id) && OnlyFreed(heap, Drop(heap, p))
  {
    hide HeapOk, Indexed, BlockAligned, DropOwner;
    DroppedSlotKeepsHeap(objs, heap, owners, id, k);
    SubIndex(objs[id], objs[id] - {k}, a);
  }

  // ---- Sharing a segment -----------------------------------------------------------------------

  /** Buffers may have gained references, but none changed or died. */
  ghost predicate SameBytes(heap: Heap, heap': Heap) {
    heap'.Keys == heap.Keys && forall p | p in heap :: heap'[p].bytes == heap[p].bytes
  }

  lemma SharedSlotKeepsInv(objs: Objects, heap: Heap, owners: Owners, a: nat, id: ObjectId, s: Segment)
    requires Inv(objs, heap, owners, a) && id in objs && s.size > 0 && FreeRange(objs[id], s.offset, s.End())
    requires AlignedTo(s.offset, a) && AlignedTo(s.End(), a) && Backed(s, heap)
    ensures s.End() - 1 !in objs[id]
    ensures Inv(PutSlot(objs, id, s.End() - 1, s), Hold(heap, s.ptr), HoldOwner(owners, s.ptr, (id, s.End() - 1)), a)
    ensures OthersKept(objs, PutSlot(objs, id, s.End() - 1, s), id) && SameBytes(heap, Hold(heap, s.ptr))
  {
    hide HeapOk, AlignedTo, HoldOwner, Indexed;
    InsertKeepsIndex(objs[id], s);
    SharedSlotKeepsHeap(objs, heap, owners, id, s.End() - 1, s);
  }

  // ---- Full copy-on-write ----------------------------------------------------------------------

  /** The end of the last cached segment. */
  ghost predicate CachedEnd(m: SegmentMap, end: nat) {
    (forall k | k in m :: k < end) && (end > 0 ==> end - 1 in m)
  }

  /**
    The copy up to `cursor`: `md` has the source's segments below it, and below it the storage of the copy holds
    the source's stored bytes where nothing is cached and the cached bytes where the segment is clean. Under dirty
    segments and from the cursor on it is as before.
   */
  ghost predicate CopiedUpTo(m: SegmentMap, md: SegmentMap, heap: Heap, stored0: Stored, stored: Stored, src: ObjectId,
                             dst: ObjectId, cursor: nat) {
    && (forall k | k in md :: k in m && md[k] == m[k] && k < cursor)
    && (forall k | k in m && k < cursor :: k in md)
    && (forall i: nat | cursor <= i || UnderDirty(md, i) :: stored(dst, i) == stored0(dst, i))
    && (forall i: nat | i < cursor && !Covered(md, i) :: stored(dst, i) == stored0(src, i))
    && CleanAgrees(dst, md, heap, stored)
    && OtherStored(stored0, stored, dst)
  }

  /** The segments with uncached bytes right before them. */
  function Gaps(m: SegmentMap): set<nat> {
    set k | k in m && m[k].offset > 0 && m[k].offset - 1 !in m
  }

  /** The segments that are not dirty. */
  function Clean(m: SegmentMap): set<nat> {
    set k | k in m && !m[k].dirty
  }

  function GapsBelow(m: SegmentMap, cursor: nat): set<nat> {
    set k | k in m && k < cursor && m[k].offset > 0 && m[k].offset - 1 !in m
  }

  function CleanKeysBelow(m: SegmentMap, cursor: nat): set<nat> {
    set k | k in m && k < cursor && !m[k].dirty
  }

  /** The storage calls of a full copy up to `cursor`: a read and a write for a gap, a write for a clean segment. */
  function CallsBelow(m: SegmentMap, cursor: nat): nat {
    2 * |GapsBelow(m, cursor)| + |CleanKeysBelow(m, cursor)|
  }

  lemma CallsNone(m: SegmentMap)
    ensures CallsBelow(m, 0) == 0
  {
    assert GapsBelow(m, 0) == {} && CleanKeysBelow(m, 0) == {};
  }

  lemma CallsNext(m: SegmentMap, k: nat, cursor: nat)
    requires Indexed(m) && k in m && cursor <= m[k].offset && (cursor > 0 ==> cursor - 1 in m)
    requires forall j | j in m && cursor <= j :: m[k].offset <= j && k <= j
    ensures CallsBelow(m, m[k].End()) ==
            CallsBelow(m, cursor) + (if cursor < m[k].offset then 2 else 0) + if m[k].dirty then 0 else 1
  {
    hide Indexed, GapsBelow, CleanKeysBelow;
    GapsNext(m, k, cursor);
    CleanNext(m, k, cursor);
  }

  lemma GapsNext(m: SegmentMap, k: nat, cursor: nat)
    requires Indexed(m) && k in m && cursor <= m[k].offset && (cursor > 0 ==> cursor - 1 in m)
    requires forall j | j in m && cursor <= j :: m[k].offset <= j && k <= j
    ensures k !in GapsBelow(m, cursor)
    ensures |GapsBelow(m, m[k].End())| == |GapsBelow(m, cursor)| + if cursor < m[k].offset then 1 else 0
  {
    var before, after := GapsBelow(m, cursor), GapsBelow(m, m[k].End());
    KeyOf(m, k);
    hide Indexed;
    assert m[k].offset > 0 && m[k].offset - 1 !in m <==> cursor < m[k].offset;
    assert forall j | j in m && j < m[k].End() && j != k :: j < cursor;
    assert after == before + if cursor < m[k].offset then {k} else {};
  }

  lemma CleanNext(m: SegmentMap, k: nat, cursor: nat)
    requires Indexed(m) && k in m && cursor <= m[k].offset
    requires forall j | j in m && cursor <= j :: k <= j
    ensures |CleanKeysBelow(m, m[k].End())| == |CleanKeysBelow(m, cursor)| + if m[k].dirty then 0 else 1
  {
    KeyOf(m, k);
    hide Indexed;
    assert CleanKeysBelow(m, m[k].End()) == CleanKeysBelow(m, cursor) + if m[k].dirty then {} else {k};
  }

  lemma CallsEnd(m: SegmentMap, cursor: nat)
    requires forall k | k in m :: k < cursor
    ensures CallsBelow(m, cursor) == 2 * |Gaps(m)| + |Clean(m)|
  {
    assert GapsBelow(m, cursor) == Gaps(m) && CleanKeysBelow(m, cursor) == Clean(m);
  }

  lemma NothingCopied(m: SegmentMap, heap: Heap, stored: Stored, src: ObjectId, dst: ObjectId)
    ensures CopiedUpTo(m, map[], heap, stored, stored, src, dst, 0)
  {
  }

  /** Storage bytes outside `[lo, hi)` of `dst` are as before. */
  ghost predicate StoredOutside(stored: Stored, stored': Stored, dst: ObjectId, lo: nat, hi: nat) {
    forall id, i: nat :: !(id == dst && lo <= i < hi) ==> stored'(id, i) == stored(id, i)
  }

  lemma CleanBelow(md: SegmentMap, heap: Heap, stored: Stored, stored': Stored, dst: ObjectId, lo: nat, hi: nat)
    requires CleanAgrees(dst, md, heap, stored) && StoredOutside(stored, stored', dst, lo, hi)
    requires forall k | k in md :: md[k].End() <= lo
    ensures CleanAgrees(dst, md, heap, stored')
  {
    forall k | k in md && !md[k].dirty ensures Agrees(md[k], heap, stored', dst) {
      assert Agrees(md[k], heap, stored, dst);
    }
  }

  /** Copying the stored bytes of a gap on the storage. */
  lemma GapCopied(m: SegmentMap, md: SegmentMap, heap: Heap, stored0: Stored, stored: Stored, stored': Stored,
                  src: ObjectId, dst: ObjectId, cursor: nat, hi: nat)
    requires src != dst && Indexed(m) && CopiedUpTo(m, md, heap, stored0, stored, src, dst, cursor) && cursor <= hi
    requires forall k | k in m && cursor <= k :: hi <= k
    requires StoredOutside(stored, stored', dst, cursor, hi) && forall i: nat | cursor <= i < hi ::
             stored'(dst, i) == stored(src, i)
    ensures CopiedUpTo(m, md, heap, stored0, stored', src, dst, hi)
  {
    CleanBelow(md, heap, stored, stored', dst, cursor, hi);
    assert forall i: nat | UnderDirty(md, i) :: i < cursor;
  }

  lemma DirtyMore(md: SegmentMap, k: nat, s: Segment, i: nat)
    requires k !in md && UnderDirty(md[k := s], i)
    ensures UnderDirty(md, i) || (s.Has(i) && s.dirty)
  {
    var md' := md[k := s];
    var j :| j in md' && md'[j].Has(i) && md'[j].dirty;
    assert j == k || (j in md && md[j].Has(i) && md[j].dirty);
  }

  lemma CoveredMore(md: SegmentMap, k: nat, s: Segment, i: nat)
    requires k !in md && !Covered(md[k := s], i)
    ensures !Covered(md, i) && !s.Has(i)
  {
    var md' := md[k := s];
    assert k in md' && md'[k] == s;
    assert forall j | j in md :: j in md' && md'[j] == md[j];
  }

  lemma SharedClean(md: SegmentMap, s: Segment, heap: Heap, stored: Stored, stored': Stored, dst: ObjectId)
    requires CleanAgrees(dst, md, heap, stored) && StoredOutside(stored, stored', dst, s.offset, s.End()) && s.size > 0
    requires forall k | k in md :: md[k].End() <= s.offset
    requires !s.dirty ==> Agrees(s, heap, stored', dst)
    ensures CleanAgrees(dst, md[s.End() - 1 := s], heap, stored')
  {
    hide Agrees;
    CleanBelow(md, heap, stored, stored', dst, s.offset, s.End());
  }

  /** Sharing the next segment, written out to the storage of the copy if it is clean. */
  lemma SegmentCopied(m: SegmentMap, md: SegmentMap, heap: Heap, stored0: Stored, stored: Stored, stored': Stored,
                      src: ObjectId, dst: ObjectId, k: nat)
    requires src != dst && Indexed(m) && k in m && CopiedUpTo(m, md, heap, stored0, stored, src, dst, m[k].offset)
    requires StoredOutside(stored, stored', dst, m[k].offset, m[k].End())
    requires if m[k].dirty then stored' == stored else Agrees(m[k], heap, stored', dst)
    ensures k !in md && CopiedUpTo(m, md[k := m[k]], heap, stored0, stored', src, dst, m[k].End())
  {
    hide CleanAgrees, Agrees, Covered, UnderDirty;
    var s := m[k];
    SharedClean(md, s, heap, stored, stored', dst);
    forall i: nat | UnderDirty(md[k := s], i) ensures stored'(dst, i) == stored0(dst, i) {
      DirtyMore(md, k, s, i);
      if UnderDirty(md, i) { DirtyBelow(m, md, m[k].offset, i); }
    }
    forall i: nat | i < s.End() && !Covered(md[k := s], i) ensures stored'(dst, i) == stored0(src, i) {
      CoveredMore(md, k, s, i);
    }
  }

  lemma DirtyBelow(m: SegmentMap, md: SegmentMap, cursor: nat, i: nat)
    requires Indexed(m) && (forall k | k in md :: k in m && md[k] == m[k] && k < cursor) && UnderDirty(md, i)
    ensures i < cursor
  {
  }

  lemma CopiedHeap(m: SegmentMap, md: SegmentMap, heap: Heap, heap': Heap, stored0: Stored, stored: Stored,
                   src: ObjectId, dst: ObjectId, cursor: nat)
    requires CopiedUpTo(m, md, heap, stored0, stored, src, dst, cursor) && SameBytes(heap, heap')
    ensures CopiedUpTo(m, md, heap', stored0, stored, src, dst, cursor)
  {
    forall k | k in md && !md[k].dirty ensures Agrees(md[k], heap', stored, dst) {
      assert Agrees(md[k], heap, stored, dst);
    }
  }

  /** The finished copy shows the source up to the end of its last cached segment, and its own storage beyond. */
  lemma CopyShows(m: SegmentMap, md: SegmentMap, heap0: Heap, heap: Heap, stored0: Stored, stored: Stored,
                  src: ObjectId, dst: ObjectId, end: nat, i: nat)
    requires Indexed(m) && Indexed(md) && CopiedUpTo(m, md, heap, stored0, stored, src, dst, end) && CachedEnd(m, end)
    requires AllBacked(m, heap0) && SameBytes(heap0, heap)
    ensures ViewOf(md, heap, stored, dst, i) == if i < end then ViewOf(m, heap0, stored0, src, i) else stored0(dst, i)
  {
    hide Indexed, CleanAgrees, ViewOf;
    assert md == m;
    if k :| k in m && m[k].Has(i) {
      ViewCached(m, heap0, stored0, src, k, i);
      ViewCached(md, heap, stored, dst, k, i);
      KeyOf(m, k);
    } else {
      ViewUncached(m, heap0, stored0, src, i);
      ViewUncached(md, heap, stored, dst, i);
    }
  }

  lemma KeyOf(m: SegmentMap, k: nat)
    requires Indexed(m) && k in m
    ensures k == m[k].offset + m[k].size - 1 && m[k].size > 0
  {
  }

  lemma OnlyFreedTransitive(heap0: Heap, heap: Heap, heap': Heap)
    requires OnlyFreed(heap0, heap) && OnlyFreed(heap, heap')
    ensures OnlyFreed(heap0, heap')
  {
  }

  lemma SameBytesTransitive(heap0: Heap, heap: Heap, heap': Heap)
    requires SameBytes(heap0, heap) && SameBytes(heap, heap')
    ensures SameBytes(heap0, heap')
  {
  }

  lemma SameBytesFreesNothing(heap: Heap, heap': Heap)
    requires SameBytes(heap, heap')
    ensures OnlyFreed(heap, heap')
  {
  }

  lemma CopiedFree(m: SegmentMap, md: SegmentMap, a: nat, heap: Heap, stored0: Stored, stored: Stored, src: ObjectId,
                   dst: ObjectId, k: nat)
    requires Indexed(m) && BlockAligned(m, a) && k in m
             && CopiedUpTo(m, md, heap, stored0, stored, src, dst, m[k].offset)
    ensures FreeRange(md, m[k].offset, m[k].End()) && m[k].size > 0 && k == m[k].End() - 1
    ensures AlignedTo(m[k].offset, a) && AlignedTo(m[k].End(), a)
  {
    hide CleanAgrees, AlignedTo;
  }

  /** Nothing of the source lies between the cursor and the next segment. */
  lemma NextSegment(m: SegmentMap, k: nat, cursor: nat)
    requires Indexed(m) && k in m && cursor <= k && forall j | j in m && cursor <= j :: k <= j
    requires cursor > 0 ==> cursor - 1 in m
    ensures cursor <= m[k].offset && forall j | j in m && cursor <= j :: m[k].offset <= j
  {
  }

  lemma CopiedWhole(m: SegmentMap, md: SegmentMap, heap: Heap, stored0: Stored, stored: Stored, src: ObjectId,
                    dst: ObjectId, end: nat)
    requires CopiedUpTo(m, md, heap, stored0, stored, src, dst, end) && CachedEnd(m, end)
    ensures md == m
  {
  }

  /**
    Outcome of a completed full copy-on-write: the copy has the source's own segments and shows its bytes up to the last
    cached one.
   */
  ghost predicate FullCowDone(objs: Objects, heap: Heap, stored: Stored, objs': Objects, heap': Heap, stored': Stored,
                              src: ObjectId, dst: ObjectId, end: nat) {
    && CachedEnd(SegmentsOf(objs, src), end)
    && CleanAgrees(dst, SegmentsOf(objs', dst), heap', stored')
    && (forall i: nat :: View(objs', heap', stored', dst, i) == if i < end
                         then View(objs, heap, stored, src, i) else stored(dst, i))
    && (forall i: nat | end <= i || UnderDirty(SegmentsOf(objs, src), i) :: stored'(dst, i) == stored(dst, i))
    && SegmentsOf(objs', dst) == SegmentsOf(objs, src)
    && (forall id | id != dst :: SegmentsOf(objs', id) == SegmentsOf(objs, id))
    && (forall id, i: nat :: id != dst ==> View(objs', heap', stored', id, i) == View(objs, heap, stored, id, i))
    && OtherStored(stored, stored', dst)
  }

  lemma OtherStoredView(objs: Objects, heap: Heap, stored: Stored, stored': Stored, dst: ObjectId, id: ObjectId, i: nat)
    requires OtherStored(stored, stored', dst) && id != dst
    ensures View(objs, heap, stored', id, i) == View(objs, heap, stored, id, i)
  {
  }

  lemma FullCowViews(objs: Objects, heap: Heap, owners: Owners, objs1: Objects, heap1: Heap, owners1: Owners,
                     objs': Objects, heap': Heap, owners': Owners,
                     a: nat, stored: Stored, stored': Stored, src: ObjectId, dst: ObjectId, end: nat)
    requires Inv(objs, heap, owners, a) && Inv(objs1, heap1, owners1, a) && Inv(objs', heap', owners', a)
    requires src != dst && src in objs && src in objs1 && dst in objs1 && dst in objs' && objs1[src] == objs[src]
    requires (forall id | id in objs && id != dst :: id in objs1 && objs1[id] == objs[id])
             && (forall id | id in objs1 && id != dst :: id in objs)
    requires OnlyFreed(heap, heap1) && OthersKept(objs1, objs', dst) && SameBytes(heap1, heap')
    requires CopiedUpTo(objs1[src], objs'[dst], heap', stored, stored', src, dst, end) && CachedEnd(objs1[src], end)
    ensures FullCowDone(objs, heap, stored, objs', heap', stored', src, dst, end)
  {
    hide Inv, View, Indexed, BlockAligned, CopiedUpTo, AllBacked, CachedEnd, OtherStored, CleanAgrees, UnderDirty;
    CopiedOtherStored(objs1[src], objs'[dst], heap', stored, stored', src, dst, end);
    CopiedWhole(objs1[src], objs'[dst], heap', stored, stored', src, dst, end);
    SameBytesFreesNothing(heap1, heap');
    OnlyFreedTransitive(heap, heap1, heap');
    forall id, i: nat | id != dst ensures View(objs', heap', stored', id, i) == View(objs, heap, stored, id, i) {
      OtherStoredView(objs', heap', stored, stored', dst, id, i);
      SurvivingView(objs, heap, owners, objs', heap', owners', a, stored, id, i);
    }
    forall i: nat ensures View(objs', heap', stored', dst, i) == if i < end
        then View(objs, heap, stored, src, i) else stored(dst, i) {
      FullCowByte(objs, heap, owners, objs1, heap1, owners1, objs', heap', owners', a, stored, stored', src, dst, end,
                  i);
    }
  }

  lemma CopiedOtherStored(m: SegmentMap, md: SegmentMap, heap: Heap, stored0: Stored, stored: Stored, src: ObjectId,
                          dst: ObjectId, cursor: nat)
    requires CopiedUpTo(m, md, heap, stored0, stored, src, dst, cursor)
    ensures OtherStored(stored0, stored, dst) && CleanAgrees(dst, md, heap, stored)
    ensures forall i: nat | cursor <= i || UnderDirty(md, i) :: stored(dst, i) == stored0(dst, i)
  {
  }

  lemma FullCowByte(objs: Objects, heap: Heap, owners: Owners, objs1: Objects, heap1: Heap, owners1: Owners,
                    objs': Objects, heap': Heap, owners': Owners,
                    a: nat, stored: Stored, stored': Stored, src: ObjectId, dst: ObjectId, end: nat, i: nat)
    requires Inv(objs, heap, owners, a) && Inv(objs1, heap1, owners1, a) && Inv(objs', heap', owners', a)
    requires src in objs && src in objs1 && dst in objs' && objs1[src] == objs[src]
    requires OnlyFreed(heap, heap1) && SameBytes(heap1, heap')
    requires CopiedUpTo(objs1[src], objs'[dst], heap', stored, stored', src, dst, end) && CachedEnd(objs1[src], end)
    ensures View(objs', heap', stored', dst, i) == if i < end then View(objs, heap, stored, src, i) else stored(dst, i)
  {
    hide Inv, Indexed, BlockAligned, CopiedUpTo, AllBacked, CachedEnd, ViewOf, OnlyFreed, SameBytes;
    IndexOf(objs1, heap1, owners1, a, src);
    IndexOf(objs', heap', owners', a, dst);
    CopyShows(objs1[src], objs'[dst], heap1, heap', stored, stored', src, dst, end, i);
    SurvivingView(objs, heap, owners, objs1, heap1, owners1, a, stored, src, i);
  }

  lemma OthersKeptTransitive(objs0: Objects, objs: Objects, objs': Objects, id: ObjectId)
    requires OthersKept(objs0, objs, id) && OthersKept(objs, objs', id)
    ensures OthersKept(objs0, objs', id)
  {
  }

  lemma OnlyFreedRefl(heap: Heap)
    ensures OnlyFreed(heap, heap)
  {
  }

  lemma SourceStored(m: SegmentMap, md: SegmentMap, heap: Heap, stored0: Stored, stored: Stored, src: ObjectId,
                     dst: ObjectId, cursor: nat)
    requires CopiedUpTo(m, md, heap, stored0, stored, src, dst, cursor) && src != dst
    ensures forall i: nat :: stored(src, i) == stored0(src, i)
  {
  }
}
