/**
  How the views of all objects change when one private buffer is overwritten, when flags change, and when the storage
  changes.
 */
module ViewUpdates {
  import opened Basics
  import opened SegmentIndex
  import opened SharedHeap
  import opened SegmentLoading

  /** The view of byte `i` after `data` was written at `at`. */
  function Patch(at: nat, data: seq<Byte>, i: nat, before: Byte): Byte {
    if at <= i < at + |data| then data[i - at] else before
  }

  /** Exactly the bytes `[at, at + |data|)` of object `id` now show `data`. */
  ghost predicate Patched(objs: Objects, heap: Heap, objs': Objects, heap': Heap, stored: Stored, id: ObjectId, at: nat,
                          data: seq<Byte>) {
    forall id', i: nat ::
      View(objs', heap', stored, id', i) == if id' == id
          then Patch(at, data, i, View(objs, heap, stored, id', i)) else View(objs, heap, stored, id', i)
  }

  ghost predicate SameRefs(heap: Heap, heap': Heap) {
    heap'.Keys == heap.Keys && forall p | p in heap ::
        heap'[p].refs == heap[p].refs && |heap'[p].bytes| == |heap[p].bytes|
  }

  function Splice(bytes: seq<Byte>, o: nat, chunk: seq<Byte>): seq<Byte>
    requires o + |chunk| <= |bytes|
  {
    bytes[..o] + chunk + bytes[o + |chunk|..]
  }

  lemma SameRefsKeepsInv(objs: Objects, heap: Heap, heap': Heap, owners: Owners, a: nat)
    requires Inv(objs, heap, owners, a) && SameRefs(heap, heap')
    ensures Inv(objs, heap', owners, a)
  {
    forall id | id in objs ensures SlotsOwn(id, objs[id], heap', owners) {
      assert SlotsOwn(id, objs[id], heap, owners);
    }
    forall p | p in heap' ensures HeldBy(objs, p, owners[p]) {
      assert HeldBy(objs, p, owners[p]);
    }
  }

  lemma SpliceAt(bytes: seq<Byte>, o: nat, chunk: seq<Byte>, x: nat)
    requires o + |chunk| <= |bytes| && x < |bytes|
    ensures |Splice(bytes, o, chunk)| == |bytes|
    ensures Splice(bytes, o, chunk)[x] == if o <= x < o + |chunk| then chunk[x - o] else bytes[x]
  {
  }

  /** Overwriting part of a private buffer patches one object and no other. */
  lemma SpliceOwn(objs: Objects, heap: Heap, owners: Owners, a: nat, stored: Stored, id: ObjectId, k: nat, o: nat,
                  chunk: seq<Byte>, i: nat)
    requires Inv(objs, heap, owners, a) && id in objs && k in objs[id] && Backed(objs[id][k], heap)
    requires heap[objs[id][k].ptr].refs == 1 && o + |chunk| <= objs[id][k].size
    ensures var s := objs[id][k];
            View(objs, heap[s.ptr := heap[s.ptr].(bytes := Splice(heap[s.ptr].bytes, o, chunk))], stored, id, i)
            == Patch(s.offset + o, chunk, i, View(objs, heap, stored, id, i))
  {
    hide Inv, Indexed, ViewOf, AllBacked, BlockAligned, Splice, ByteAt, Patch, Covered;
    var s := objs[id][k];
    var heap' := heap[s.ptr := heap[s.ptr].(bytes := Splice(heap[s.ptr].bytes, o, chunk))];
    IndexOf(objs, heap, owners, a, id);
    if j :| j in objs[id] && objs[id][j].Has(i) {
      ViewCached(objs[id], heap, stored, id, j, i);
      ViewCached(objs[id], heap', stored, id, j, i);
      if j == k {
        SpliceInside(heap, s, o, chunk, i);
      } else {
        PrivateElsewhere(objs, heap, owners, a, id, k, id, j);
        OnlyOneInRange(objs[id], k, j, i);
        SpliceElsewhere(heap, s, objs[id][j], o, chunk, i);
      }
    } else {
      NotCovered(objs[id], i);
      ViewUncached(objs[id], heap, stored, id, i);
      ViewUncached(objs[id], heap', stored, id, i);
      PatchOutside(s, o, chunk, i, stored(id, i));
    }
  }

  lemma NotCovered(m: SegmentMap, i: nat)
    requires forall k | k in m :: !m[k].Has(i)
    ensures !Covered(m, i)
  {
  }

  lemma PatchOutside(s: Segment, o: nat, chunk: seq<Byte>, i: nat, b: Byte)
    requires !s.Has(i) && o + |chunk| <= s.size
    ensures Patch(s.offset + o, chunk, i, b) == b
  {
  }

  lemma SpliceInside(heap: Heap, s: Segment, o: nat, chunk: seq<Byte>, i: nat)
    requires Backed(s, heap) && o + |chunk| <= s.size && s.Has(i)
    ensures ByteAt(heap[s.ptr := heap[s.ptr].(bytes := Splice(heap[s.ptr].bytes, o, chunk))], s, i)
            == Patch(s.offset + o, chunk, i, ByteAt(heap, s, i))
  {
    SpliceAt(heap[s.ptr].bytes, o, chunk, i - s.offset);
  }

  lemma SpliceElsewhere(heap: Heap, s: Segment, t: Segment, o: nat, chunk: seq<Byte>, i: nat)
    requires Backed(s, heap) && t.ptr != s.ptr && o + |chunk| <= s.size && !s.Has(i)
    ensures ByteAt(heap[s.ptr := heap[s.ptr].(bytes := Splice(heap[s.ptr].bytes, o, chunk))], t, i)
            == Patch(s.offset + o, chunk, i, ByteAt(heap, t, i))
  {
  }

  lemma OnlyOneInRange(m: SegmentMap, k: nat, j: nat, i: nat)
    requires Indexed(m) && k in m && j in m && j != k && m[j].Has(i)
    ensures !m[k].Has(i)
  {
  }

  lemma PrivateElsewhere(objs: Objects, heap: Heap, owners: Owners, a: nat, id: ObjectId, k: nat, id': ObjectId,
                         k': nat)
    requires Inv(objs, heap, owners, a) && id in objs && k in objs[id] && objs[id][k].ptr in heap
             && heap[objs[id][k].ptr].refs == 1
    requires id' in objs && k' in objs[id'] && (id', k') != (id, k)
    ensures objs[id'][k'].ptr != objs[id][k].ptr && Backed(objs[id'][k'], heap)
  {
    SlotBacked(objs, heap, owners, id', k');
    if objs[id'][k'].ptr == objs[id][k].ptr { SoleOwner(objs, heap, owners, id, k, id', k'); }
  }

  lemma SpliceOther(objs: Objects, heap: Heap, owners: Owners, a: nat, stored: Stored, id: ObjectId, k: nat, m': Memory,
                    id': ObjectId, i: nat)
    requires Inv(objs, heap, owners, a) && id in objs && k in objs[id] && objs[id][k].ptr in heap
    requires heap[objs[id][k].ptr].refs == 1 && id' != id
    ensures View(objs, heap[objs[id][k].ptr := m'], stored, id', i) == View(objs, heap, stored, id', i)
  {
    hide Inv, View;
    var heap' := heap[objs[id][k].ptr := m'];
    if id' in objs {
      forall k' | k' in objs[id'] ensures objs[id'][k'].ptr in heap'
          && heap'[objs[id'][k'].ptr].bytes == heap[objs[id'][k'].ptr].bytes {
        PrivateElsewhere(objs, heap, owners, a, id, k, id', k');
      }
    }
    ViewFollows(objs, heap, owners, objs, heap', a, stored, id', i);
  }

  lemma SplicePatches(objs: Objects, heap: Heap, owners: Owners, a: nat, stored: Stored, id: ObjectId, k: nat, o: nat,
                      chunk: seq<Byte>)
    requires Inv(objs, heap, owners, a) && id in objs && k in objs[id] && Backed(objs[id][k], heap)
    requires heap[objs[id][k].ptr].refs == 1 && o + |chunk| <= objs[id][k].size
    ensures var s := objs[id][k];
            var heap' := heap[s.ptr := heap[s.ptr].(bytes := Splice(heap[s.ptr].bytes, o, chunk))];
            SameRefs(heap, heap') && Patched(objs, heap, objs, heap', stored, id, s.offset + o, chunk)
  {
    hide Inv, View, Patch;
    var s := objs[id][k];
    var m' := heap[s.ptr].(bytes := Splice(heap[s.ptr].bytes, o, chunk));
    forall id', i: nat
      ensures View(objs, heap[s.ptr := m'], stored, id', i)
              == if id' == id then Patch(s.offset + o, chunk, i, View(objs, heap, stored, id', i))
                                   else View(objs, heap, stored, id', i)
    {
      if id' == id { SpliceOwn(objs, heap, owners, a, stored, id, k, o, chunk, i); }
      else { SpliceOther(objs, heap, owners, a, stored, id, k, m', id', i); }
    }
  }

  /** Patching a prefix of the data and then the next piece patches the longer prefix. */
  lemma PatchedExtends(objs: Objects, heap0: Heap, heap: Heap, heap': Heap, stored: Stored, id: ObjectId, at: nat,
                       data: seq<Byte>, cur: nat, n: nat)
    requires cur + n <= |data| && Patched(objs, heap0, objs, heap, stored, id, at, data[..cur])
    requires Patched(objs, heap, objs, heap', stored, id, at + cur, data[cur..cur + n])
    ensures Patched(objs, heap0, objs, heap', stored, id, at, data[..cur + n])
  {
    hide View;
  }

  lemma PatchedNothing(objs: Objects, heap: Heap, stored: Stored, id: ObjectId, at: nat)
    ensures Patched(objs, heap, objs, heap, stored, id, at, [])
  {
  }

  lemma SameRefsRefl(heap: Heap)
    ensures SameRefs(heap, heap)
  {
  }

  lemma SameRefsTransitive(segs: seq<Descr>, heap0: Heap, heap: Heap, heap': Heap)
    requires SameRefs(heap0, heap) && SameRefs(heap, heap') && AllPrivate(segs, heap)
    ensures SameRefs(heap0, heap') && AllPrivate(segs, heap')
  {
  }

  lemma ListedSlot(segs: seq<Descr>, m: SegmentMap, heap: Heap, j: nat)
    requires AllInMap(segs, m) && AllPrivate(segs, heap) && j < |segs|
    ensures segs[j].size > 0 && segs[j].End() - 1 in m && m[segs[j].End() - 1].Describe() == segs[j]
    ensures segs[j].ptr in heap && heap[segs[j].ptr].refs == 1
  {
    assert segs[j] in segs && InMap(segs[j], m);
  }
}
