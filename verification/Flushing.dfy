/** Writing dirty segments back: the storage changes only under the flushed segments, so no view changes. */
module Flushing {
  import opened Basics
  import opened SegmentIndex
  import opened SharedHeap
  import opened WriteBack
  import opened Shapes

  ghost predicate SameViews(objs: Objects, heap: Heap, stored: Stored, objs': Objects, heap': Heap, stored': Stored) {
    forall id, i: nat :: View(objs', heap', stored', id, i) == View(objs, heap, stored, id, i)
  }

  ghost predicate OtherStored(stored: Stored, stored': Stored, id: ObjectId) {
    forall id', i: nat :: id' != id ==> stored'(id', i) == stored(id', i)
  }

  lemma SameViewsRefl(objs: Objects, heap: Heap, stored: Stored)
    ensures SameViews(objs, heap, stored, objs, heap, stored)
  {
  }

  // ---- One segment ---------------------------------------------------------------------------------

  /** The storage now holds the view where the call reached segment `s` of object `id`, and is as before elsewhere. */
  ghost predicate WrittenOut(objs: Objects, heap: Heap, stored: Stored, stored': Stored, id: ObjectId, s: Segment,
                             o: Outcome) {
    forall id', i: nat ::
      stored'(id', i) == if id' == id && s.Has(i) && Reaches(o, i - s.offset)
          then View(objs, heap, stored, id, i) else stored(id', i)
  }

  lemma WrittenOutView(objs: Objects, heap: Heap, stored: Stored, stored': Stored, id: ObjectId, k: nat, o: Outcome,
                       id': ObjectId, i: nat)
    requires id in objs && k in objs[id] && WrittenOut(objs, heap, stored, stored', id, objs[id][k], o)
    ensures View(objs, heap, stored', id', i) == View(objs, heap, stored, id', i)
  {
    if id' == id && objs[id][k].Has(i) { assert Covered(objs[id], i); }
  }

  lemma UnflaggedSlot(m: SegmentMap, k: nat)
    requires k in m
    ensures SameButFlags(m, m[k := m[k].(dirty := false)])
  {
  }

  lemma SegmentWrittenOut(objs: Objects, heap: Heap, owners: Owners, a: nat, stored: Stored, stored': Stored,
                          id: ObjectId, k: nat, o: Outcome)
    requires Inv(objs, heap, owners, a) && id in objs && k in objs[id] && Backed(objs[id][k], heap)
    requires var s := objs[id][k];
             forall id', i: nat ::
               stored'(id', i) == if id' == id && s.offset <= i < s.offset + s.size && Reaches(o, i - s.offset)
                   then heap[s.ptr].bytes[i - s.offset] else stored(id', i)
    ensures WrittenOut(objs, heap, stored, stored', id, objs[id][k], o)
  {
    hide Inv, Indexed, BlockAligned, AllBacked, ViewOf;
    IndexOf(objs, heap, owners, a, id);
    forall i: nat | objs[id][k].Has(i)
      ensures View(objs, heap, stored, id, i) == heap[objs[id][k].ptr].bytes[i - objs[id][k].offset]
    {
      ViewCached(objs[id], heap, stored, id, k, i);
    }
  }

  /** Clearing a flag after writing the segment, whether or not the write worked, changes no view. */
  lemma FlushedViews(objs: Objects, heap: Heap, owners: Owners, a: nat, stored: Stored, stored': Stored, id: ObjectId,
                     k: nat, o: Outcome)
    requires Inv(objs, heap, owners, a) && id in objs && k in objs[id]
             && WrittenOut(objs, heap, stored, stored', id, objs[id][k], o)
    ensures Inv(objs[id := objs[id][k := objs[id][k].(dirty := false)]], heap, owners, a)
    ensures SameViews(objs, heap, stored, objs[id := objs[id][k := objs[id][k].(dirty := false)]], heap, stored')
  {
    hide Inv, View, WrittenOut;
    var m' := objs[id][k := objs[id][k].(dirty := false)];
    UnflaggedSlot(objs[id], k);
    FlagsKeepInv(objs, heap, owners, a, id, m');
    forall id', i: nat ensures View(objs[id := m'], heap, stored', id', i) == View(objs, heap, stored, id', i) {
      FlagsKeepView(objs, heap, owners, a, id, m', stored', id', i);
      WrittenOutView(objs, heap, stored, stored', id, k, o, id', i);
    }
  }

  /**
    Clearing the flag of a segment keeps the write-back invariant exactly if the storage now holds the segment's bytes.
   */
  lemma ClearedIff(m: SegmentMap, heap: Heap, stored: Stored, stored': Stored, id: ObjectId, k: nat)
    requires Indexed(m) && k in m && CleanAgrees(id, m, heap, stored)
    requires forall i: nat :: !m[k].Has(i) ==> stored'(id, i) == stored(id, i)
    ensures CleanAgrees(id, m[k := m[k].(dirty := false)], heap, stored') <==> Agrees(m[k], heap, stored', id)
  {
    var m' := m[k := m[k].(dirty := false)];
    assert k in m' && !m'[k].dirty;
    if Agrees(m[k], heap, stored', id) {
      forall j | j in m' && !m'[j].dirty ensures Agrees(m'[j], heap, stored', id) {
        if j != k {
          assert Agrees(m[j], heap, stored, id);
          forall i: nat | m[j].Has(i) ensures ByteAt(heap, m[j], i) == stored'(id, i) { assert !m[k].Has(i); }
        }
      }
    } else {
      var i: nat :| m[k].Has(i) && ByteAt(heap, m[k], i) != stored'(id, i);
      assert m'[k].Has(i) && ByteAt(heap, m'[k], i) != stored'(id, i);
    }
  }

  // ---- All segments --------------------------------------------------------------------------------

  /** The walk of a flush has passed key `k`. */
  predicate Behind(it: Option<nat>, k: nat) { it.None? || k < it.value }

  /** How many segments the walk has written out. */
  function WrittenSoFar(m: SegmentMap, offset: nat, size: nat, it: Option<nat>): nat {
    |ChosenBehind(m, offset, size, it)|
  }

  function ChosenBehind(m: SegmentMap, offset: nat, size: nat, it: Option<nat>): set<nat> {
    set j | j in m && Behind(it, j) && Chosen(m[j], offset, size)
  }

  /** The walk has stored byte `i`. */
  ghost predicate StoredSoFar(m: SegmentMap, offset: nat, size: nat, outcome: nat -> Outcome, call: nat,
                              it: Option<nat>, i: nat)
  {
    exists k :: k in m && Behind(it, k) && m[k].Has(i) && Chosen(m[k], offset, size) &&
                Reaches(outcome(call + Rank(m, offset, size, k)), i - m[k].offset)
  }

  /** What the flush has done so far: no view changed, and exactly the bytes its calls reached are stored, as seen. */
  ghost predicate FlushState(objs: Objects, heap: Heap, stored: Stored, objs': Objects, stored': Stored, id: ObjectId,
                             m: SegmentMap, offset: nat, size: nat, outcome: nat -> Outcome, call: nat,
                             it: Option<nat>)
  {
    && SameViews(objs, heap, stored, objs', heap, stored')
    && forall id', i: nat ::
         stored'(id', i) ==
         if id' == id && StoredSoFar(m, offset, size, outcome, call, it, i) then View(objs, heap, stored, id, i)
         else stored(id', i)
  }

  lemma FlushStarts(objs: Objects, heap: Heap, stored: Stored, id: ObjectId, m: SegmentMap, offset: nat, size: nat,
                    outcome: nat -> Outcome, call: nat)
    ensures FlushState(objs, heap, stored, objs, stored, id, m, offset, size, outcome, call, LowerBound(m.Keys, 0))
    ensures WrittenSoFar(m, offset, size, LowerBound(m.Keys, 0)) == 0
  {
    hide View, Rank;
    assert ChosenBehind(m, offset, size, LowerBound(m.Keys, 0)) == {};
  }

  /** The call for segment `k` is the one after those for the segments before it. */
  lemma WrittenNext(m: SegmentMap, offset: nat, size: nat, k: nat)
    requires k in m
    ensures WrittenSoFar(m, offset, size, Some(k)) == Rank(m, offset, size, k)
    ensures WrittenSoFar(m, offset, size, LowerBound(m.Keys, k + 1)) ==
            Rank(m, offset, size, k) + if Chosen(m[k], offset, size) then 1 else 0
  {
    var it := LowerBound(m.Keys, k + 1);
    var before := ChosenBefore(m, offset, size, k);
    assert ChosenBehind(m, offset, size, Some(k)) == before;
    assert ChosenBehind(m, offset, size, it) == before + if Chosen(m[k], offset, size) then {k} else {};
  }

  lemma StoredNext(m: SegmentMap, offset: nat, size: nat, outcome: nat -> Outcome, call: nat, k: nat, i: nat)
    requires k in m
    ensures StoredSoFar(m, offset, size, outcome, call, LowerBound(m.Keys, k + 1), i) <==>
            || StoredSoFar(m, offset, size, outcome, call, Some(k), i)
            || (m[k].Has(i) && Chosen(m[k], offset, size) &&
                Reaches(outcome(call + Rank(m, offset, size, k)), i - m[k].offset))
  {
    hide Rank;
    var it := LowerBound(m.Keys, k + 1);
    assert forall j | j in m :: Behind(it, j) <==> Behind(Some(k), j) || j == k;
  }

  /** A chosen segment was written out, or the segment was not chosen and nothing happened. */
  lemma FlushAdvances(objs0: Objects, objs: Objects, objs': Objects, heap: Heap, stored0: Stored, stored: Stored,
                      stored': Stored, id: ObjectId, m: SegmentMap, offset: nat, size: nat,
                      outcome: nat -> Outcome, call: nat, k: nat)
    requires FlushState(objs0, heap, stored0, objs, stored, id, m, offset, size, outcome, call, Some(k)) && k in m
    requires SameViews(objs, heap, stored, objs', heap, stored')
    requires if Chosen(m[k], offset, size)
             then WrittenOut(objs, heap, stored, stored', id, m[k], outcome(call + Rank(m, offset, size, k)))
             else stored' == stored
    ensures FlushState(objs0, heap, stored0, objs', stored', id, m, offset, size, outcome, call,
                       LowerBound(m.Keys, k + 1))
  {
    hide View, StoredSoFar, LowerBound, Rank;
    forall id', i: nat
      ensures stored'(id', i) ==
              if id' == id && StoredSoFar(m, offset, size, outcome, call, LowerBound(m.Keys, k + 1), i)
              then View(objs0, heap, stored0, id, i) else stored0(id', i)
    {
      StoredNext(m, offset, size, outcome, call, k, i);
    }
  }

  /** Outcome of a flush: exactly the selected bytes that its calls reached are stored anew, as seen. */
  ghost predicate FlushDone(objs: Objects, heap: Heap, stored: Stored, objs': Objects, stored': Stored, id: ObjectId,
                            offset: nat, size: nat, outcome: nat -> Outcome, call: nat)
  {
    && SameViews(objs, heap, stored, objs', heap, stored')
    && forall id', i: nat ::
         stored'(id', i) ==
         if id' == id && Stores(SegmentsOf(objs, id), offset, size, outcome, call, i)
         then View(objs, heap, stored, id, i) else stored(id', i)
  }

  lemma FlushEnds(objs: Objects, heap: Heap, stored: Stored, objs': Objects, stored': Stored, id: ObjectId,
                  offset: nat, size: nat, outcome: nat -> Outcome, call: nat)
    requires FlushState(objs, heap, stored, objs', stored', id, SegmentsOf(objs, id), offset, size, outcome, call, None)
    ensures FlushDone(objs, heap, stored, objs', stored', id, offset, size, outcome, call)
    ensures WrittenSoFar(SegmentsOf(objs, id), offset, size, None) == Writes(SegmentsOf(objs, id), offset, size)
  {
    hide View, Rank;
    var m := SegmentsOf(objs, id);
    forall i: nat
      ensures StoredSoFar(m, offset, size, outcome, call, None, i) <==> Stores(m, offset, size, outcome, call, i)
    {
    }
    assert ChosenBehind(m, offset, size, None) == ChosenKeys(m, offset, size);
  }

  lemma FlushedKeys(m: SegmentMap, m': SegmentMap, offset: nat, size: nat)
    requires m'.Keys == m.Keys && forall k | k in m :: m'[k] == Flushed(m[k], offset, size)
    ensures m' == FlushedAll(m, offset, size)
  {
  }
}
