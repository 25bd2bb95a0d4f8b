/** Dirty flags: which changes of flags keep views, and the invariant that a clean segment holds its stored bytes. */
module WriteBack {
  import opened Basics
  import opened SegmentIndex
  import opened SharedHeap
  import opened SegmentLoading
  import opened ViewUpdates
  import opened Shapes

  ghost predicate SameButFlags(m: SegmentMap, m': SegmentMap) {
    m'.Keys == m.Keys && forall k | k in m :: m'[k] == m[k].(dirty := m'[k].dirty)
  }

  lemma FlagsKeepInv(objs: Objects, heap: Heap, owners: Owners, a: nat, id: ObjectId, m': SegmentMap)
    requires Inv(objs, heap, owners, a) && id in objs && SameButFlags(objs[id], m')
    ensures Inv(objs[id := m'], heap, owners, a)
  {
    hide Indexed, BlockAligned;
    var objs' := objs[id := m'];
    IndexFollowsRanges(objs[id], m', a);
    forall id' | id' in objs' ensures SlotsOwn(id', objs'[id'], heap, owners) {
      assert SlotsOwn(id', objs[id'], heap, owners);
    }
    forall p | p in heap ensures HeldBy(objs', p, owners[p]) {
      assert HeldBy(objs, p, owners[p]);
    }
  }

  /** Flags are invisible to clients. */
  lemma FlagsKeepView(objs: Objects, heap: Heap, owners: Owners, a: nat, id: ObjectId, m': SegmentMap, stored: Stored,
                      id': ObjectId, i: nat)
    requires Inv(objs, heap, owners, a) && id in objs && SameButFlags(objs[id], m')
    ensures View(objs[id := m'], heap, stored, id', i) == View(objs, heap, stored, id', i)
  {
    hide Inv, ViewOf;
    if id' == id {
      IndexOf(objs, heap, owners, a, id);
      FlagsCells(objs[id], m', heap);
      FlagsKeepInv(objs, heap, owners, a, id, m');
      IndexOf(objs[id := m'], heap, owners, a, id);
      SameCellsSameView(objs[id], heap, m', heap, stored, id, i);
    }
  }

  lemma FlagsCells(m: SegmentMap, m': SegmentMap, heap: Heap)
    requires SameButFlags(m, m') && AllBacked(m, heap)
    ensures SameCells(m, heap, m', heap)
  {
  }

  // ---- Clean segments agree with the storage -----------------------------------------------------

  ghost predicate CleanAgrees(id: ObjectId, m: SegmentMap, heap: Heap, stored: Stored) {
    forall k | k in m && !m[k].dirty :: Agrees(m[k], heap, stored, id)
  }

  /** Agreement is a statement about the view. */
  lemma AgreesByView(m: SegmentMap, heap: Heap, stored: Stored, id: ObjectId, k: nat)
    requires Indexed(m) && k in m
    ensures Agrees(m[k], heap, stored, id) <==> forall i: nat | m[k].Has(i) ::
                                                ViewOf(m, heap, stored, id, i) == stored(id, i)
  {
    hide ViewOf, ByteAt;
    forall i: nat | m[k].Has(i) ensures ViewOf(m, heap, stored, id, i) == ByteAt(heap, m[k], i) {
      ViewCached(m, heap, stored, id, k, i);
    }
  }

  // ---- The effect of a write request -------------------------------------------------------------

  /** What holds even if a load failed: the data is there, other objects and cached bytes are as before. */
  ghost predicate PatchedCached(objs: Objects, heap: Heap, objs': Objects, heap': Heap, stored: Stored, id: ObjectId,
                                at: nat, data: seq<Byte>) {
    forall id', i: nat :: id' != id || at <= i < at + |data| || Covered(SegmentsOf(objs, id), i) ==>
      View(objs', heap', stored, id', i) == if id' == id
          then Patch(at, data, i, View(objs, heap, stored, id', i)) else View(objs, heap, stored, id', i)
  }

  lemma ListsInMap(segs: seq<Descr>, m: SegmentMap, base: nat, size: nat)
    requires Lists(segs, m, base, size)
    ensures AllInMap(segs, m)
  {
  }

  lemma SameKeys(objs0: Objects, objs1: Objects, objs: Objects, id: ObjectId)
    requires OthersKept(objs0, objs1, id) && OthersKept(objs1, objs, id) && id in objs0 && id in objs1 && id in objs
    ensures objs.Keys == objs0.Keys
  {
  }

  lemma MarkedFlags(m: SegmentMap, m': SegmentMap, base: nat, size: nat)
    requires m'.Keys == m.Keys && forall k | k in m' :: m'[k] == Marked(m[k], base, size)
    ensures SameButFlags(m, m')
  {
  }

  /** Views of one byte through the three steps of a write: fetch, patch, mark. */
  lemma WriteByte(objs0: Objects, heap0: Heap, owners0: Owners, objs1: Objects, heap1: Heap, owners1: Owners,
                  heap2: Heap, objs3: Objects,
                  a: nat, stored: Stored, id: ObjectId, off: nat, data: seq<Byte>, clean: bool, id': ObjectId, i: nat)
    requires Inv(objs0, heap0, owners0, a) && Inv(objs1, heap1, owners1, a) && Inv(objs1, heap2, owners1, a)
    requires Fetched(objs0, heap0, objs1, heap1, stored, id, clean, true, off, |data|)
    requires Patched(objs1, heap1, objs1, heap2, stored, id, off, data)
    requires id in objs1 && OthersKept(objs1, objs3, id) && id in objs3 && SameButFlags(objs1[id], objs3[id])
    requires clean || id' != id || off <= i < off + |data| || Covered(SegmentsOf(objs0, id), i)
    ensures View(objs3, heap2, stored, id', i) == if id' == id
            then Patch(off, data, i, View(objs0, heap0, stored, id', i)) else View(objs0, heap0, stored, id', i)
  {
    hide Inv, View, Fetched, OthersKept, SameButFlags, Covered, SegmentsOf;
    FlagsSameObjects(objs1, objs3, id);
    FlagsKeepView(objs1, heap2, owners1, a, id, objs3[id], stored, id', i);
    if id' != id {
      FetchedOtherView(objs0, heap0, owners0, objs1, heap1, a, stored, id, clean, off, |data|, id', i);
    } else if !(off <= i < off + |data|) {
      if clean {
        FetchedView(objs0, heap0, owners0, objs1, heap1, owners1, a, stored, id, true, off, |data|, i);
      } else {
        FetchedCachedView(objs0, heap0, owners0, objs1, heap1, owners1, a, stored, id, clean, off, |data|, i);
      }
    }
  }

  lemma FlagsSameObjects(objs: Objects, objs': Objects, id: ObjectId)
    requires id in objs && OthersKept(objs, objs', id) && id in objs'
    ensures objs' == objs[id := objs'[id]]
  {
  }

  lemma FetchedOtherView(objs: Objects, heap: Heap, owners: Owners, objs': Objects, heap': Heap, a: nat, stored: Stored,
                         id: ObjectId,
                         clean: bool, base: nat, size: nat, id': ObjectId, i: nat)
    requires Inv(objs, heap, owners, a) && Fetched(objs, heap, objs', heap', stored, id, clean, true, base, size)
             && id' != id
    ensures View(objs', heap', stored, id', i) == View(objs, heap, stored, id', i)
  {
    hide View, CellsKept, NewSegments, Indexed, BlockAligned;
    if id' in objs { IndexOf(objs, heap, owners, a, id'); }
    ViewFollows(objs, heap, owners, objs', heap', a, stored, id', i);
  }

  lemma FetchedCachedView(objs: Objects, heap: Heap, owners: Owners, objs': Objects, heap': Heap, owners': Owners,
                          a: nat, stored: Stored, id: ObjectId,
                          clean: bool, base: nat, size: nat, i: nat)
    requires Inv(objs, heap, owners, a) && Inv(objs', heap', owners', a)
    requires Fetched(objs, heap, objs', heap', stored, id, clean, true, base, size) && Covered(SegmentsOf(objs, id), i)
    ensures View(objs', heap', stored, id, i) == View(objs, heap, stored, id, i)
  {
    hide Inv, Keeps, NewSegments, Indexed, Covered, ViewOf, BlockAligned, AllBacked;
    IndexOf(objs, heap, owners, a, id);
    IndexOf(objs', heap', owners', a, id);
    FetchedViewCached(objs[id], heap, objs'[id], heap', stored, id, i);
  }

  lemma WriteEffect(objs: Objects, objs0: Objects, heap0: Heap, owners0: Owners, objs1: Objects, heap1: Heap,
                    owners1: Owners, heap2: Heap, objs3: Objects,
                    a: nat, stored: Stored, id: ObjectId, off: nat, data: seq<Byte>, clean: bool)
    requires objs0 == if id in objs then objs else objs[id := map[]]
    requires Inv(objs0, heap0, owners0, a) && Inv(objs1, heap1, owners1, a) && Inv(objs1, heap2, owners1, a)
    requires Fetched(objs0, heap0, objs1, heap1, stored, id, clean, true, off, |data|)
    requires Patched(objs1, heap1, objs1, heap2, stored, id, off, data)
    requires id in objs1 && OthersKept(objs1, objs3, id) && id in objs3
    requires objs3[id].Keys == objs1[id].Keys && forall k | k in objs3[id] ::
             objs3[id][k] == Marked(objs1[id][k], off, |data|)
    ensures clean ==> Patched(objs, heap0, objs3, heap2, stored, id, off, data)
    ensures PatchedCached(objs, heap0, objs3, heap2, stored, id, off, data)
  {
    hide Inv, View, Fetched, OthersKept, Covered, Patch, SameButFlags;
    MarkedFlags(objs1[id], objs3[id], off, |data|);
    EmptyObjectKeepsView(objs, objs0, heap0, stored, id);
    forall id', i: nat | clean || id' != id || off <= i < off + |data| || Covered(SegmentsOf(objs, id), i)
      ensures View(objs3, heap2, stored, id', i) == if id' == id
              then Patch(off, data, i, View(objs, heap0, stored, id', i)) else View(objs, heap0, stored, id', i)
    {
      assert SegmentsOf(objs0, id) == SegmentsOf(objs, id);
      WriteByte(objs0, heap0, owners0, objs1, heap1, owners1, heap2, objs3, a, stored, id, off, data, clean, id', i);
    }
  }

  // ---- What a write shows where it had to load -------------------------------------------------------

  /** The byte was read by call `n` into the buffer at `p` that starts at `lo`, or is what that memory held before. */
  ghost predicate SeenVia(v: Byte, stored: Stored, id: ObjectId, o: Origin, i: nat, n: nat, p: Ptr, lo: nat) {
    o.from <= n < o.upto && lo <= i && v == if Reaches(o.outcome(n), i - lo) then stored(id, i) else o.former(p, i - lo)
  }

  ghost predicate SeenFromLoad(v: Byte, stored: Stored, id: ObjectId, o: Origin, i: nat) {
    exists n: nat, p: Ptr, lo: nat :: SeenVia(v, stored, id, o, i, n, p, lo)
  }

  /** A byte left to load shows what one of the calls read, or former memory content if the call did not get there. */
  ghost predicate LeftBytes(objs: Objects, objs': Objects, heap': Heap, stored: Stored, a: nat, id: ObjectId, off: nat,
                            size: nat, o: Origin)
  {
    forall i: nat | LeftToLoad(SegmentsOf(objs, id), a, off, size, i) ::
      SeenFromLoad(View(objs', heap', stored, id, i), stored, id, o, i)
  }

  /** A write that has to load does load. */
  lemma LoadMade(objs: Objects, objs': Objects, heap': Heap, stored: Stored, a: nat, id: ObjectId, off: nat, size: nat,
                 o: Origin)
    requires LeftBytes(objs, objs', heap', stored, a, id, off, size, o) && BlockAligned(SegmentsOf(objs, id), a)
    requires NeedsLoad(SegmentsOf(objs, id), a, off, size)
    ensures o.from < o.upto
  {
    hide NeedsLoad, LeftToLoad, View;
    NeedsLoadIff(SegmentsOf(objs, id), a, off, size);
    var i: nat :| LeftToLoad(SegmentsOf(objs, id), a, off, size, i);
    assert SeenFromLoad(View(objs', heap', stored, id, i), stored, id, o, i);
  }

  /** Where all loads of a write fail at once, a byte it did not write shows what memory held before. */
  lemma FailedLoadShows(objs: Objects, objs': Objects, heap': Heap, stored: Stored, a: nat, id: ObjectId, off: nat,
                        size: nat, o: Origin)
    requires LeftBytes(objs, objs', heap', stored, a, id, off, size, o) && BlockAligned(SegmentsOf(objs, id), a)
    requires NeedsLoad(SegmentsOf(objs, id), a, off, size) && forall n: nat | o.from <= n < o.upto ::
             o.outcome(n) == Some(0)
    ensures exists i: nat, p: Ptr, lo: nat :: SpoiledAt(objs, objs', heap', stored, a, id, off, size, o, i, p, lo)
  {
    hide NeedsLoad, LeftToLoad, View;
    NeedsLoadIff(SegmentsOf(objs, id), a, off, size);
    var i: nat :| LeftToLoad(SegmentsOf(objs, id), a, off, size, i);
    assert SeenFromLoad(View(objs', heap', stored, id, i), stored, id, o, i);
    var n: nat, p: Ptr, lo: nat :| SeenVia(View(objs', heap', stored, id, i), stored, id, o, i, n, p, lo);
    assert SpoiledAt(objs, objs', heap', stored, a, id, off, size, o, i, p, lo);
  }

  /** Byte `i`, which was neither cached nor written, shows former content of the buffer at `p` that starts at `lo`. */
  ghost predicate SpoiledAt(objs: Objects, objs': Objects, heap': Heap, stored: Stored, a: nat, id: ObjectId, off: nat,
                            size: nat, o: Origin, i: nat, p: Ptr, lo: nat)
  {
    && LeftToLoad(SegmentsOf(objs, id), a, off, size, i) && lo <= i
    && View(objs', heap', stored, id, i) == o.former(p, i - lo)
  }

  lemma LoadedByte(m0: SegmentMap, heap0: Heap, m: SegmentMap, heap: Heap, stored: Stored, id: ObjectId, off: nat,
                   size: nat, o: Origin, i: nat)
    requires Indexed(m) && AllLoaded(m0, m, heap, stored, id, off, size, o) && CellsKept(m0, heap0, m, heap)
    requires Covered(m, i) && !Covered(m0, i) && !(off <= i < off + size)
    ensures SeenFromLoad(ViewOf(m, heap, stored, id, i), stored, id, o, i)
  {
    hide Indexed, ViewOf;
    var k :| k in m && m[k].Has(i);
    assert k in m0 ==> m0[k].Has(i);
    assert FromLoad(m[k], heap, stored, id, o);
    var n: nat :| o.from <= n < o.upto && LoadedBy(m[k], heap, stored, id, o.outcome(n), o.former);
    ViewCached(m, heap, stored, id, k, i);
    assert SeenVia(ViewOf(m, heap, stored, id, i), stored, id, o, i, n, m[k].ptr, m[k].offset);
  }

  lemma WriteLeaves(objs0: Objects, heap0: Heap, objs1: Objects, heap1: Heap, owners1: Owners, heap2: Heap,
                    objs3: Objects, a: nat, stored: Stored, id: ObjectId, off: nat, data: seq<Byte>, clean: bool,
                    o: Origin)
    requires Inv(objs1, heap1, owners1, a) && Inv(objs1, heap2, owners1, a)
    requires Fetched(objs0, heap0, objs1, heap1, stored, id, clean, true, off, |data|)
    requires id in objs0 && id in objs1 && CoveredRange(objs1[id], AlignedBase(off, a), AlignedEnd(off, |data|, a))
    requires AllLoaded(objs0[id], objs1[id], heap1, stored, id, off, |data|, o)
    requires Patched(objs1, heap1, objs1, heap2, stored, id, off, data)
    requires OthersKept(objs1, objs3, id) && id in objs3 && SameButFlags(objs1[id], objs3[id])
    ensures LeftBytes(objs0, objs3, heap2, stored, a, id, off, |data|, o)
  {
    hide Inv, ViewOf, AllLoaded, Covered, AlignedBase, AlignedEnd, NewSegments, BytesKept, SameButFlags, SeenFromLoad,
         Indexed, BlockAligned, AllBacked, CellsKept, OthersKept;
    IndexOf(objs1, heap1, owners1, a, id);
    FlagsSameObjects(objs1, objs3, id);
    forall i: nat | LeftToLoad(objs0[id], a, off, |data|, i)
      ensures SeenFromLoad(View(objs3, heap2, stored, id, i), stored, id, o, i)
    {
      LoadedByte(objs0[id], heap0, objs1[id], heap1, stored, id, off, |data|, o, i);
      FlagsKeepView(objs1, heap2, owners1, a, id, objs3[id], stored, id, i);
    }
  }

  /** The bytes a write left to load, if there are any, show what its calls read. */
  lemma WriteLoads(objs: Objects, objs0: Objects, heap0: Heap, objs1: Objects, heap1: Heap, owners1: Owners,
                   heap2: Heap, objs3: Objects, a: nat, stored: Stored, id: ObjectId, off: nat, data: seq<Byte>,
                   clean: bool, o: Origin)
    requires objs0 == (if id in objs then objs else objs[id := map[]]) && BlockAligned(objs0[id], a)
    requires Inv(objs1, heap1, owners1, a) && Inv(objs1, heap2, owners1, a)
    requires Fetched(objs0, heap0, objs1, heap1, stored, id, clean, true, off, |data|)
    requires id in objs1 && CoveredRange(objs1[id], AlignedBase(off, a), AlignedEnd(off, |data|, a))
    requires AllLoaded(objs0[id], objs1[id], heap1, stored, id, off, |data|, o)
    requires Patched(objs1, heap1, objs1, heap2, stored, id, off, data)
    requires OthersKept(objs1, objs3, id) && id in objs3
    requires objs3[id].Keys == objs1[id].Keys && forall k | k in objs3[id] ::
             objs3[id][k] == Marked(objs1[id][k], off, |data|)
    ensures LeftBytes(objs, objs3, heap2, stored, a, id, off, |data|, o)
    ensures NeedsLoad(SegmentsOf(objs, id), a, off, |data|) ==> o.from < o.upto
  {
    hide Inv, View, AllLoaded, Fetched, Patched, CoveredRange, NeedsLoad, LeftToLoad, BlockAligned, SeenFromLoad,
         SameButFlags, OthersKept;
    MarkedFlags(objs1[id], objs3[id], off, |data|);
    WriteLeaves(objs0, heap0, objs1, heap1, owners1, heap2, objs3, a, stored, id, off, data, clean, o);
    assert SegmentsOf(objs0, id) == SegmentsOf(objs, id);
    if NeedsLoad(SegmentsOf(objs, id), a, off, |data|) {
      LoadMade(objs, objs3, heap2, stored, a, id, off, |data|, o);
    }
  }
}
