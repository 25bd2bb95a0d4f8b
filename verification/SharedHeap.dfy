/**
  Reference-counted buffers shared between the segment maps of any number of objects, the global
  invariant that ties counts to owners, and the byte a client sees through the cache.
 */
module SharedHeap {
  import opened Basics
  import opened SegmentIndex

  /** A live buffer with its `shared_ptr` use count; a buffer that nobody holds is not in the heap. */
  datatype Memory = Memory(bytes: seq<Byte>, refs: nat)

  type Heap = map<Ptr, Memory>

  type Objects = map<ObjectId, SegmentMap>

  /** Content of the remote storage: one unbounded flat object per identifier. */
  type Stored = (ObjectId, nat) -> Byte

  type Slot = (ObjectId, nat)

  function SegmentsOf(objs: Objects, id: ObjectId): SegmentMap {
    if id in objs then objs[id] else map[]
  }

  function PutSlot(objs: Objects, id: ObjectId, k: nat, s: Segment): Objects {
    var m: SegmentMap := SegmentsOf(objs, id)[k := s];
    objs[id := m]
  }

  function RemoveSlot(objs: Objects, id: ObjectId, k: nat): Objects {
    objs[id := SegmentsOf(objs, id) - {k}]
  }

  ghost predicate Backed(s: Segment, heap: Heap) {
    s.ptr in heap && |heap[s.ptr].bytes| == s.size
  }

  ghost predicate AllBacked(m: SegmentMap, heap: Heap) {
    forall k | k in m :: Backed(m[k], heap)
  }

  /** The slots that hold a reference to each live buffer. */
  type Owners = map<Ptr, set<Slot>>

  ghost predicate SlotsOwn(id: ObjectId, m: SegmentMap, heap: Heap, owners: Owners) {
    forall k | k in m :: Backed(m[k], heap) && m[k].ptr in owners && (id, k) in owners[m[k].ptr]
  }

  ghost predicate HeldBy(objs: Objects, p: Ptr, slots: set<Slot>) {
    forall id, k | (id, k) in slots :: id in objs && k in objs[id] && objs[id][k].ptr == p
  }

  /** No slot dangles, nothing leaks, and every live buffer counts exactly its owners. */
  ghost predicate HeapOk(objs: Objects, heap: Heap, owners: Owners) {
    && owners.Keys == heap.Keys
    && (forall id | id in objs :: SlotsOwn(id, objs[id], heap, owners))
    && (forall p | p in heap :: heap[p].refs == |owners[p]| && owners[p] != {})
    && (forall p | p in heap :: HeldBy(objs, p, owners[p]))
  }

  ghost predicate Inv(objs: Objects, heap: Heap, owners: Owners, a: nat) {
    && (forall id | id in objs :: Indexed(objs[id]) && BlockAligned(objs[id], a))
    && HeapOk(objs, heap, owners)
  }

  // ---- Views -----------------------------------------------------------------------------------

  function ByteAt(heap: Heap, s: Segment, i: nat): Byte {
    if s.ptr in heap && s.offset <= i < s.offset + |heap[s.ptr].bytes| then heap[s.ptr].bytes[i - s.offset] else 0
  }

  /** The byte a client sees at offset `i`: the cached byte if a segment covers it, else the stored one. */
  ghost function ViewOf(m: SegmentMap, heap: Heap, stored: Stored, id: ObjectId, i: nat): Byte {
    if Covered(m, i) then
      var k :| k in m && m[k].Has(i);
      ByteAt(heap, m[k], i)
    else stored(id, i)
  }

  ghost function View(objs: Objects, heap: Heap, stored: Stored, id: ObjectId, i: nat): Byte {
    ViewOf(SegmentsOf(objs, id), heap, stored, id, i)
  }

  lemma ViewCached(m: SegmentMap, heap: Heap, stored: Stored, id: ObjectId, k: nat, i: nat)
    requires Indexed(m) && k in m && m[k].Has(i)
    ensures Covered(m, i) && ViewOf(m, heap, stored, id, i) == ByteAt(heap, m[k], i)
  {
    var j :| j in m && m[j].Has(i) && ViewOf(m, heap, stored, id, i) == ByteAt(heap, m[j], i);
    OnlyOneCovers(m, j, k, i);
  }

  /** Two segment maps with the same ranges and the same bytes show the same view. */
  ghost predicate SameCells(m: SegmentMap, heap: Heap, m': SegmentMap, heap': Heap) {
    && m.Keys == m'.Keys
    && forall k | k in m :: m'[k].offset == m[k].offset && m'[k].size == m[k].size && m[k].ptr in heap
                            && m'[k].ptr in heap'
                            && heap'[m'[k].ptr].bytes == heap[m[k].ptr].bytes
  }

  lemma SameCellsSameView(m: SegmentMap, heap: Heap, m': SegmentMap, heap': Heap, stored: Stored, id: ObjectId, i: nat)
    requires Indexed(m) && Indexed(m') && SameCells(m, heap, m', heap')
    ensures ViewOf(m', heap', stored, id, i) == ViewOf(m, heap, stored, id, i)
  {
    hide Indexed, ViewOf;
    if k :| k in m && m[k].Has(i) {
      assert m'[k].Has(i) && ByteAt(heap', m'[k], i) == ByteAt(heap, m[k], i);
      ViewCached(m, heap, stored, id, k, i);
      ViewCached(m', heap', stored, id, k, i);
    } else {
      assert forall k | k in m' :: m'[k].Has(i) == m[k].Has(i);
      Uncached(m, heap, stored, id, i);
      Uncached(m', heap', stored, id, i);
    }
  }

  lemma Uncached(m: SegmentMap, heap: Heap, stored: Stored, id: ObjectId, i: nat)
    requires forall k | k in m :: !m[k].Has(i)
    ensures ViewOf(m, heap, stored, id, i) == stored(id, i)
  {
  }

  // ---- Sharing ---------------------------------------------------------------------------------

  lemma {:induction false} CardinalityMonotone<T>(s: set<T>, t: set<T>)
    requires s <= t
    ensures |s| <= |t|
    decreases s
  {
    if s != {} {
      var x :| x in s;
      CardinalityMonotone(s - {x}, t - {x});
    }
  }

  /** A buffer with one reference is held by that slot alone. */
  lemma SoleOwner(objs: Objects, heap: Heap, owners: Owners, id: ObjectId, k: nat, id': ObjectId, k': nat)
    requires HeapOk(objs, heap, owners) && id in objs && k in objs[id] && id' in objs && k' in objs[id']
    requires objs[id'][k'].ptr == objs[id][k].ptr && heap[objs[id][k].ptr].refs == 1
    ensures id' == id && k' == k
  {
    var p := objs[id][k].ptr;
    assert SlotsOwn(id, objs[id], heap, owners) && SlotsOwn(id', objs[id'], heap, owners);
    CardinalityMonotone({(id, k), (id', k')}, owners[p]);
  }

  // ---- Steps on the shared heap ----------------------------------------------------------------

  /** Dropping one reference: the buffer is freed with its last owner. */
  function Drop(heap: Heap, p: Ptr): Heap {
    if p in heap && heap[p].refs > 1 then heap[p := heap[p].(refs := heap[p].refs - 1)] else heap - {p}
  }

  function Hold(heap: Heap, p: Ptr): Heap {
    if p in heap then heap[p := heap[p].(refs := heap[p].refs + 1)] else heap
  }

  ghost function DropOwner(owners: Owners, p: Ptr, s: Slot): Owners {
    if p in owners && owners[p] != {s} then owners[p := owners[p] - {s}] else owners - {p}
  }

  ghost function HoldOwner(owners: Owners, p: Ptr, s: Slot): Owners {
    if p in owners then owners[p := owners[p] + {s}] else owners
  }

  lemma SlotsOwnMore(id: ObjectId, m: SegmentMap, heap: Heap, owners: Owners, heap': Heap, owners': Owners)
    requires SlotsOwn(id, m, heap, owners)
    requires forall p | p in heap :: p in heap' && |heap'[p].bytes| == |heap[p].bytes|
    requires forall p | p in owners :: p in owners' && owners[p] <= owners'[p]
    ensures SlotsOwn(id, m, heap', owners')
  {
  }

  lemma SlotsOwnPut(id: ObjectId, m: SegmentMap, heap: Heap, owners: Owners, k: nat, s: Segment)
    requires SlotsOwn(id, m, heap, owners) && Backed(s, heap) && s.ptr in owners && (id, k) in owners[s.ptr]
    ensures SlotsOwn(id, m[k := s], heap, owners)
  {
  }

  lemma HeldByPut(objs: Objects, p: Ptr, slots: set<Slot>, id: ObjectId, k: nat, s: Segment)
    requires HeldBy(objs, p, slots) && id in objs && k !in objs[id]
    ensures HeldBy(PutSlot(objs, id, k, s), p, slots) && (id, k) !in slots
  {
  }

  lemma HeldByNew(objs: Objects, p: Ptr, id: ObjectId, k: nat)
    requires id in objs && k in objs[id] && objs[id][k].ptr == p
    ensures HeldBy(objs, p, {(id, k)})
  {
  }

  lemma HeldByMore(objs: Objects, p: Ptr, slots: set<Slot>, id: ObjectId, k: nat)
    requires HeldBy(objs, p, slots) && id in objs && k in objs[id] && objs[id][k].ptr == p
    ensures HeldBy(objs, p, slots + {(id, k)})
  {
  }

  /** A new slot with a new buffer. */
  lemma FreshSlotKeepsHeap(objs: Objects, heap: Heap, owners: Owners, id: ObjectId, k: nat, s: Segment,
                           bytes: seq<Byte>)
    requires HeapOk(objs, heap, owners) && id in objs && k !in objs[id]
    requires s.ptr !in heap && |bytes| == s.size
    ensures HeapOk(PutSlot(objs, id, k, s), heap[s.ptr := Memory(bytes, 1)], owners[s.ptr := {(id, k)}])
  {
    hide SlotsOwn, HeldBy;
    var objs', heap', owners' := PutSlot(objs, id, k, s), heap[s.ptr := Memory(bytes, 1)], owners[s.ptr := {(id, k)}];
    forall id' | id' in objs' ensures SlotsOwn(id', objs'[id'], heap', owners') {
      SlotsOwnMore(id', objs[id'], heap, owners, heap', owners');
      if id' == id { SlotsOwnPut(id, objs[id], heap', owners', k, s); }
    }
    forall p | p in heap' ensures HeldBy(objs', p, owners'[p]) {
      if p != s.ptr { HeldByPut(objs, p, owners[p], id, k, s); } else { HeldByNew(objs', p, id, k); }
    }
  }

  /** A slot sharing the buffer of another one. */
  lemma SharedSlotKeepsHeap(objs: Objects, heap: Heap, owners: Owners, id: ObjectId, k: nat, s: Segment)
    requires HeapOk(objs, heap, owners) && id in objs && k !in objs[id] && Backed(s, heap)
    ensures HeapOk(PutSlot(objs, id, k, s), Hold(heap, s.ptr), HoldOwner(owners, s.ptr, (id, k)))
  {
    hide SlotsOwn, HeldBy;
    var objs', heap', owners' := PutSlot(objs, id, k, s), Hold(heap, s.ptr), HoldOwner(owners, s.ptr, (id, k));
    forall id' | id' in objs' ensures SlotsOwn(id', objs'[id'], heap', owners') {
      SlotsOwnMore(id', objs[id'], heap, owners, heap', owners');
      if id' == id { SlotsOwnPut(id, objs[id], heap', owners', k, s); }
    }
    forall p | p in heap' ensures HeldBy(objs', p, owners'[p]) {
      HeldByPut(objs, p, owners[p], id, k, s);
      if p == s.ptr { HeldByMore(objs', p, owners[p], id, k); }
    }
    HeldByPut(objs, s.ptr, owners[s.ptr], id, k, s);
  }

  /** A slot given up: its buffer lives on exactly if another slot holds it. */
  lemma DroppedSlotKeepsHeap(objs: Objects, heap: Heap, owners: Owners, id: ObjectId, k: nat)
    requires HeapOk(objs, heap, owners) && id in objs && k in objs[id]
    ensures var p := objs[id][k].ptr;
            HeapOk(RemoveSlot(objs, id, k), Drop(heap, p), DropOwner(owners, p, (id, k)))
  {
    var p := objs[id][k].ptr;
    assert SlotsOwn(id, objs[id], heap, owners) && HeldBy(objs, p, owners[p]);
    var objs', heap', owners' := RemoveSlot(objs, id, k), Drop(heap, p), DropOwner(owners, p, (id, k));
    assert |owners[p] - {(id, k)}| == |owners[p]| - 1;
    assert heap[p].refs == 1 <==> owners[p] - {(id, k)} == {};
    forall id' | id' in objs' ensures SlotsOwn(id', objs'[id'], heap', owners') {
      assert SlotsOwn(id', objs[id'], heap, owners);
    }
    forall q | q in heap' ensures HeldBy(objs', q, owners'[q]) {
      HeldByLess(objs, q, owners[q], owners'[q], id, k);
    }
  }

  lemma HeldByLess(objs: Objects, p: Ptr, slots: set<Slot>, slots': set<Slot>, id: ObjectId, k: nat)
    requires HeldBy(objs, p, slots) && id in objs && k in objs[id] && slots' <= slots && (id, k) !in slots'
    ensures HeldBy(RemoveSlot(objs, id, k), p, slots')
  {
  }

  // ---- Steps of one object, and what they keep -------------------------------------------------

  ghost predicate OthersKept(objs: Objects, objs': Objects, id: ObjectId) {
    && objs'.Keys == objs.Keys
    && forall id' | id' in objs && id' != id :: objs'[id'] == objs[id']
  }

  /** No live buffer changes or dies, and none that was private becomes shared. */
  ghost predicate BytesKept(heap: Heap, heap': Heap) {
    forall p | p in heap :: p in heap' && heap'[p].bytes == heap[p].bytes && (heap[p].refs == 1 ==> heap'[p].refs == 1)
  }

  ghost predicate SameFlags(m: SegmentMap, m': SegmentMap) {
    m.Keys == m'.Keys && forall k | k in m :: m'[k].dirty == m[k].dirty
  }

  lemma IndexFollowsRanges(m: SegmentMap, m': SegmentMap, a: nat)
    requires Indexed(m) && BlockAligned(m, a) && m.Keys == m'.Keys
    requires forall k | k in m :: m'[k].offset == m[k].offset && m'[k].size == m[k].size
    ensures Indexed(m') && BlockAligned(m', a)
  {
    forall k | k in m' ensures AlignedTo(m'[k].offset, a) && AlignedTo(m'[k].End(), a) {
      assert AlignedTo(m[k].offset, a) && AlignedTo(m[k].End(), a);
    }
  }

  lemma SlotBacked(objs: Objects, heap: Heap, owners: Owners, id: ObjectId, k: nat)
    requires HeapOk(objs, heap, owners) && id in objs && k in objs[id]
    ensures Backed(objs[id][k], heap)
  {
    assert SlotsOwn(id, objs[id], heap, owners);
  }

  lemma PrivateCopyKeepsHeap(objs: Objects, heap: Heap, owners: Owners, id: ObjectId, k: nat, p': Ptr)
    requires HeapOk(objs, heap, owners) && id in objs && k in objs[id]
    requires objs[id][k].ptr in heap && heap[objs[id][k].ptr].refs > 0 && p' !in heap
    ensures var s := objs[id][k];
            HeapOk(PutSlot(objs, id, k, s.(ptr := p')), Drop(heap, s.ptr)[p' := Memory(heap[s.ptr].bytes, 1)],
                   DropOwner(owners, s.ptr, (id, k))[p' := {(id, k)}])
  {
    hide HeapOk, DropOwner;
    var s := objs[id][k];
    SlotBacked(objs, heap, owners, id, k);
    DroppedSlotKeepsHeap(objs, heap, owners, id, k);
    var without := RemoveSlot(objs, id, k);
    FreshSlotKeepsHeap(without, Drop(heap, s.ptr), DropOwner(owners, s.ptr, (id, k)), id, k, s.(ptr := p'),
                       heap[s.ptr].bytes);
    assert without[id][k := s.(ptr := p')] == objs[id][k := s.(ptr := p')];
    assert PutSlot(without, id, k, s.(ptr := p')) == PutSlot(objs, id, k, s.(ptr := p'));
  }

  lemma PrivateCopyKeepsInv(objs: Objects, heap: Heap, owners: Owners, a: nat, id: ObjectId, k: nat, p': Ptr)
    requires Inv(objs, heap, owners, a) && id in objs && k in objs[id]
    requires objs[id][k].ptr in heap && heap[objs[id][k].ptr].refs > 1 && p' !in heap
    ensures var s := objs[id][k];
            Inv(PutSlot(objs, id, k, s.(ptr := p')), Drop(heap, s.ptr)[p' := Memory(heap[s.ptr].bytes, 1)],
                DropOwner(owners, s.ptr, (id, k))[p' := {(id, k)}], a)
  {
    PrivateCopyKeepsHeap(objs, heap, owners, id, k, p');
    IndexFollowsRanges(objs[id], objs[id][k := objs[id][k].(ptr := p')], a);
  }

  /** Only the buffer of slot `k` is replaced, by a private one with the same bytes. */
  ghost predicate Unshared(objs: Objects, heap: Heap, objs': Objects, heap': Heap, id: ObjectId, k: nat) {
    && OthersKept(objs, objs', id) && BytesKept(heap, heap') && id in objs && id in objs' && k in objs[id]
    && SameCells(objs[id], heap, objs'[id], heap') && SameFlags(objs[id], objs'[id])
    && (forall j | j in objs[id] && j != k :: objs'[id][j] == objs[id][j])
    && heap'[objs'[id][k].ptr].refs == 1
  }

  lemma PrivateCopyCells(objs: Objects, heap: Heap, id: ObjectId, k: nat, p': Ptr)
    requires id in objs && k in objs[id] && AllBacked(objs[id], heap)
    requires objs[id][k].ptr in heap && heap[objs[id][k].ptr].refs > 1 && p' !in heap
    ensures var s := objs[id][k];
            Unshared(objs, heap, PutSlot(objs, id, k, s.(ptr := p')),
                     Drop(heap, s.ptr)[p' := Memory(heap[s.ptr].bytes, 1)], id, k)
  {
    assert forall j | j in objs[id] :: Backed(objs[id][j], heap);
  }

  lemma PrivateCopyUnshares(objs: Objects, heap: Heap, owners: Owners, a: nat, id: ObjectId, k: nat, p': Ptr)
    requires Inv(objs, heap, owners, a) && id in objs && k in objs[id]
    requires objs[id][k].ptr in heap && heap[objs[id][k].ptr].refs > 1 && p' !in heap
    ensures var s := objs[id][k];
            Unshared(objs, heap, PutSlot(objs, id, k, s.(ptr := p')),
                     Drop(heap, s.ptr)[p' := Memory(heap[s.ptr].bytes, 1)], id, k)
  {
    assert AllBacked(objs[id], heap) by { assert SlotsOwn(id, objs[id], heap, owners); }
    hide *;
    PrivateCopyCells(objs, heap, id, k, p');
  }

  lemma FreshSlotKeepsInv(objs: Objects, heap: Heap, owners: Owners, a: nat, id: ObjectId, s: Segment, bytes: seq<Byte>)
    requires Inv(objs, heap, owners, a) && id in objs && s.size > 0 && FreeRange(objs[id], s.offset, s.End())
    requires AlignedTo(s.offset, a) && AlignedTo(s.End(), a)
    requires s.ptr !in heap && |bytes| == s.size
    ensures s.End() - 1 !in objs[id]
    ensures Inv(PutSlot(objs, id, s.End() - 1, s), heap[s.ptr := Memory(bytes, 1)],
                owners[s.ptr := {(id, s.End() - 1)}], a)
  {
    hide HeapOk, AlignedTo, Indexed;
    InsertKeepsIndex(objs[id], s);
    FreshSlotKeepsHeap(objs, heap, owners, id, s.End() - 1, s, bytes);
  }

  /** A clean segment holds exactly its stored bytes. */
  ghost predicate Agrees(s: Segment, heap: Heap, stored: Stored, id: ObjectId) {
    forall i: nat | s.Has(i) :: ByteAt(heap, s, i) == stored(id, i)
  }

  /** Every listed buffer has exactly one owner. */
  ghost predicate AllPrivate(segs: seq<Descr>, heap: Heap) {
    forall d | d in segs :: d.ptr in heap && heap[d.ptr].refs == 1
  }

  // ---- Collecting overlapping segments ---------------------------------------------------------

  /** Collecting may only move slots of `id` to private copies of their buffers. */
  ghost predicate Collected(objs: Objects, heap: Heap, objs': Objects, heap': Heap, id: ObjectId) {
    && OthersKept(objs, objs', id) && BytesKept(heap, heap') && id in objs
    && SameCells(objs[id], heap, objs'[id], heap') && SameFlags(objs[id], objs'[id])
  }

  lemma CollectedNothing(objs: Objects, heap: Heap, owners: Owners, a: nat, id: ObjectId)
    requires Inv(objs, heap, owners, a) && id in objs
    ensures Collected(objs, heap, objs, heap, id)
  {
    assert SlotsOwn(id, objs[id], heap, owners);
  }

  lemma CollectedTransitive(objs0: Objects, heap0: Heap, objs: Objects, heap: Heap, objs': Objects, heap': Heap,
                            id: ObjectId)
    requires Collected(objs0, heap0, objs, heap, id) && Collected(objs, heap, objs', heap', id)
    ensures Collected(objs0, heap0, objs', heap', id)
  {
  }

  lemma UnsharedVisits(objs: Objects, heap: Heap, objs': Objects, heap': Heap, id: ObjectId, k: nat)
    requires Unshared(objs, heap, objs', heap', id, k)
    ensures Collected(objs, heap, objs', heap', id)
    ensures id in objs && id in objs' && VisitedOnly(objs[id], objs'[id], k)
    ensures objs'[id][k].ptr in heap' && heap'[objs'[id][k].ptr].refs == 1
  {
  }

  lemma NonePrivate(heap: Heap)
    ensures AllPrivate([], heap)
  {
  }

  lemma PrivateStep(segs: seq<Descr>, d: Descr, objs: Objects, heap: Heap, objs': Objects, heap': Heap, id: ObjectId)
    requires AllPrivate(segs, heap) && Collected(objs, heap, objs', heap', id) && d.ptr in heap'
             && heap'[d.ptr].refs == 1
    ensures AllPrivate(segs + [d], heap')
  {
  }

  lemma IndexOf(objs: Objects, heap: Heap, owners: Owners, a: nat, id: ObjectId)
    requires Inv(objs, heap, owners, a) && id in objs
    ensures Indexed(objs[id]) && BlockAligned(objs[id], a) && AllBacked(objs[id], heap)
  {
    assert SlotsOwn(id, objs[id], heap, owners);
  }

  lemma SlotHasOwner(objs: Objects, heap: Heap, owners: Owners, a: nat, id: ObjectId, k: nat)
    requires Inv(objs, heap, owners, a) && id in objs && k in objs[id]
    ensures Backed(objs[id][k], heap) && objs[id][k].ptr in heap && heap[objs[id][k].ptr].refs >= 1
  {
    assert SlotsOwn(id, objs[id], heap, owners);
  }

  // ---- Loading ---------------------------------------------------------------------------------

  /** One clean segment with a new private buffer was added to `id`. */
  ghost predicate Loaded(objs: Objects, heap: Heap, objs': Objects, heap': Heap, id: ObjectId, d: Descr) {
    && id in objs && d.size > 0 && d.End() - 1 !in objs[id] && d.ptr !in heap
    && objs' == PutSlot(objs, id, d.End() - 1, Segment(d.ptr, d.offset, d.size, false))
    && d.ptr in heap' && heap' == heap[d.ptr := heap'[d.ptr]] && heap'[d.ptr].refs == 1
        && |heap'[d.ptr].bytes| == d.size
  }

  ghost predicate Inside(s: Segment, base: nat, size: nat) {
    base <= s.offset && s.End() <= base + size
  }

  /**
    What loading added to `m1`: clean private segments that agree with the storage, except, on behalf of a
    write, segments that the write will overwrite entirely.
   */
  ghost predicate NewSegments(m1: SegmentMap, m: SegmentMap, heap: Heap, stored: Stored, id: ObjectId, clean: bool,
                              forWrite: bool, base: nat, size: nat) {
    forall k | k in m && k !in m1 ::
      && !m[k].dirty
      && (clean ==> Agrees(m[k], heap, stored, id) || (forWrite && Inside(m[k], base, size)))
  }

  /** `Keeps`: other objects and the bytes of every live buffer are untouched. */
  ghost predicate Keeps(objs: Objects, heap: Heap, objs': Objects, heap': Heap, id: ObjectId) {
    OthersKept(objs, objs', id) && BytesKept(heap, heap')
  }

  lemma LoadedSegment(objs: Objects, heap: Heap, owners: Owners, a: nat, id: ObjectId, d: Descr, bytes: seq<Byte>)
    requires Inv(objs, heap, owners, a) && id in objs && d.size > 0 && FreeRange(objs[id], d.offset, d.End())
    requires AlignedTo(d.offset, a) && AlignedTo(d.End(), a) && d.ptr !in heap && |bytes| == d.size
    ensures var s, heap' := Segment(d.ptr, d.offset, d.size, false), heap[d.ptr := Memory(bytes, 1)];
            && Inv(PutSlot(objs, id, d.End() - 1, s), heap', owners[d.ptr := {(id, d.End() - 1)}], a)
            && Loaded(objs, heap, PutSlot(objs, id, d.End() - 1, s), heap', id, d)
  {
    hide Inv, FreeRange, AlignedTo, PutSlot;
    FreshSlotKeepsInv(objs, heap, owners, a, id, Segment(d.ptr, d.offset, d.size, false), bytes);
  }

  lemma BytesAgree(heap: Heap, stored: Stored, id: ObjectId, s: Segment)
    requires Backed(s, heap) && forall j | 0 <= j < s.size :: heap[s.ptr].bytes[j] == stored(id, s.offset + j)
    ensures Agrees(s, heap, stored, id)
  {
    forall i: nat | s.Has(i) ensures ByteAt(heap, s, i) == stored(id, i) {
      assert heap[s.ptr].bytes[i - s.offset] == stored(id, s.offset + (i - s.offset));
    }
  }

  lemma LoadedKeeps(objs0: Objects, heap0: Heap, objs: Objects, heap: Heap, objs': Objects, heap': Heap, id: ObjectId,
                    d: Descr)
    requires Keeps(objs0, heap0, objs, heap, id) && Loaded(objs, heap, objs', heap', id, d)
    ensures Keeps(objs0, heap0, objs', heap', id)
  {
  }

  lemma AgreesKept(s: Segment, heap: Heap, heap': Heap, stored: Stored, id: ObjectId)
    requires Agrees(s, heap, stored, id) && Backed(s, heap) && BytesKept(heap, heap')
    ensures Agrees(s, heap', stored, id)
  {
    forall i: nat | s.Has(i) ensures ByteAt(heap', s, i) == stored(id, i) {
      assert ByteAt(heap, s, i) == stored(id, i);
    }
  }

  lemma NewSegmentsLoaded(m1: SegmentMap, objs: Objects, heap: Heap, owners: Owners, a: nat, objs': Objects,
                          heap': Heap, stored: Stored,
                          id: ObjectId, d: Descr, clean: bool, ok: bool, forWrite: bool, base: nat, size: nat)
    requires Inv(objs, heap, owners, a) && Loaded(objs, heap, objs', heap', id, d)
    requires NewSegments(m1, objs[id], heap, stored, id, clean, forWrite, base, size)
    requires var s := Segment(d.ptr, d.offset, d.size, false);
             ok ==> Agrees(s, heap', stored, id) || (forWrite && Inside(s, base, size))
    ensures id in objs' && NewSegments(m1, objs'[id], heap', stored, id, clean && ok, forWrite, base, size)
  {
    assert SlotsOwn(id, objs[id], heap, owners);
    assert BytesKept(heap, heap');
    var m, m' := objs[id], objs'[id];
    forall k | k in m' && k !in m1 && clean && ok
      ensures Agrees(m'[k], heap', stored, id) || (forWrite && Inside(m'[k], base, size))
    {
      if k != d.End() - 1 && Agrees(m[k], heap, stored, id) { AgreesKept(m[k], heap, heap', stored, id); }
    }
  }

  // ---- Creating an object ----------------------------------------------------------------------

  lemma EmptyMap(id: ObjectId, heap: Heap, owners: Owners, a: nat)
    ensures Indexed(map[]) && BlockAligned(map[], a) && SlotsOwn(id, map[], heap, owners)
  {
  }

  lemma HeldByMoreObjects(objs: Objects, p: Ptr, slots: set<Slot>, id: ObjectId)
    requires HeldBy(objs, p, slots) && id !in objs
    ensures HeldBy(objs[id := map[]], p, slots)
  {
  }

  /** The objects with `id` among them, empty if it is new. */
  function WithObject(objs: Objects, id: ObjectId): Objects { if id in objs then objs else objs[id := map[]] }

  lemma EmptyObjectKeepsInv(objs: Objects, heap: Heap, owners: Owners, a: nat, id: ObjectId)
    requires Inv(objs, heap, owners, a) && id !in objs
    ensures Inv(objs[id := map[]], heap, owners, a)
  {
    hide Indexed, BlockAligned, HeldBy, SlotsOwn;
    var objs' := objs[id := map[]];
    EmptyMap(id, heap, owners, a);
    forall p | p in heap ensures HeldBy(objs', p, owners[p]) { HeldByMoreObjects(objs, p, owners[p], id); }
  }

  /** An object nobody touched yet and an object with an empty cache look alike. */
  lemma EmptyObjectKeepsView(objs: Objects, objs': Objects, heap: Heap, stored: Stored, id: ObjectId)
    requires objs' == if id in objs then objs else objs[id := map[]]
    ensures forall id', i: nat :: View(objs', heap, stored, id', i) == View(objs, heap, stored, id', i)
  {
    assert forall id' :: SegmentsOf(objs', id') == SegmentsOf(objs, id');
  }
}
