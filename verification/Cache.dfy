/** The cache server: objects, their segment maps, the shared heap of buffers and the storage behind them. */
module Cache {
  import opened Basics
  import opened SegmentIndex
  import opened SharedHeap
  import opened GapFilling
  import opened SegmentLoading
  import opened RequestCover
  import opened ViewUpdates
  import opened WriteBack
  import opened Flushing
  import opened CopyOnWrite
  import opened RangeCow
  import opened ScatterGather
  import opened RdmaFetch
  import RdmaFanOut
  import opened Shapes
  import opened ObjectShapes
  import opened RangeWalk
  import opened RequestExact
  import opened Refinement
  import FlatStore

  ghost predicate Perfect(outcome: nat -> Outcome) {
    forall n :: outcome(n).None?
  }

  /** Failures are only ever counted up, and only if some call fails. */
  ghost predicate Onward(before: nat, after: nat, outcome: nat -> Outcome) {
    before <= after && (Perfect(outcome) ==> after == before)
  }

  /** The remote object store. Which of its calls fail, and how far they get, is anyone's choice. */
  class StorageBackend {
    const outcome: nat -> Outcome
    var content: Stored
    var calls: nat
    /** History: how many calls have failed. */
    ghost var failures: nat

    constructor (initial: Stored, outcome: nat -> Outcome)
      ensures content == initial && this.outcome == outcome && calls == 0 && failures == 0
    {
      this.outcome := outcome;
      content, calls, failures := initial, 0, 0;
    }

    /** Reads a range into a buffer of former content `before`. */
    method Pread(id: ObjectId, before: seq<Byte>, offset: nat) returns (ok: bool, bytes: seq<Byte>)
      modifies this`failures, this`calls
      ensures calls == old(calls) + 1 && failures == old(failures) + (if ok then 0 else 1)
              && (ok <==> outcome(old(calls)).None?)
      ensures |bytes| == |before|
      ensures forall i | 0 <= i < |bytes| :: bytes[i] == if Reaches(outcome(old(calls)), i)
                                             then content(id, offset + i) else before[i]
    {
      var f, o := content, outcome(calls);
      ok := o.None?;
      bytes := seq(|before|, i requires 0 <= i < |before| => if Reaches(o, i) then f(id, offset + i) else before[i]);
      calls, failures := calls + 1, failures + (if ok then 0 else 1);
    }

    /** Writes a range. */
    method Pwrite(id: ObjectId, data: seq<Byte>, offset: nat) returns (ok: bool)
      modifies this
      ensures calls == old(calls) + 1 && failures == old(failures) + (if ok then 0 else 1)
              && (ok <==> outcome(old(calls)).None?)
      ensures forall id', i: nat ::
                content(id', i) == if id' == id && offset <= i < offset + |data|
                    && Reaches(outcome(old(calls)), i - offset) then data[i - offset] else old(content)(id', i)
    {
      var before, o := content, outcome(calls);
      ok := o.None?;
      content := (id': ObjectId, i: nat) =>
        if id' == id && offset <= i < offset + |data| && Reaches(o, i - offset)
            then data[i - offset] else before(id', i);
      calls, failures := calls + 1, failures + (if ok then 0 else 1);
    }

    /** Creates an object; that it exists already is not counted as a failure if the caller allows it. */
    method Create(id: ObjectId, allowExist: bool) returns (ok: bool)
      modifies this`failures, this`calls
      ensures calls == old(calls) + 1 && failures == old(failures) + (if ok || allowExist then 0 else 1)
              && (ok <==> outcome(old(calls)).None?)
    {
      ok := outcome(calls).None?;
      calls, failures := calls + 1, failures + (if ok || allowExist then 0 else 1);
    }
  }

  lemma {:induction false} SomeUnused(used: set<nat>) returns (p: nat)
    ensures forall q | q in used :: q < p
    decreases used
  {
    p := 0;
    if used != {} {
      var x :| x in used;
      p := SomeUnused(used - {x});
      if p <= x { p := x + 1; }
      forall q | q in used ensures q < p { assert q == x || q in used - {x}; }
    }
  }

  /**
    Outcome of a copy-on-write request. `Aborted` stands for a failed `assume`, which stops the process;
    `NullDereference` for the copy of an object onto itself, which first deletes it and clears the pointer to it.
   */
  datatype CowResult = NotFound | AlreadyExists | NullDereference | Aborted | Done

  /** How the copy of one source segment went. `Overrun` stands for a `memcpy` past the end of a buffer. */
  datatype RangeResult = Copied | LoadFailed | Overrun

  class CacheServer {
    const storage: StorageBackend
    const alignment: nat
    /** What memory held before it was allocated. */
    const former: (Ptr, nat) -> Byte
    var objects: Objects
    var heap: Heap
    ghost var owners: Owners

    constructor (storage: StorageBackend, alignment: nat, former: (Ptr, nat) -> Byte)
      ensures this.storage == storage && this.alignment == alignment && this.former == former && objects == map[]
              && heap == map[]
      ensures Inv(objects, heap, owners, alignment)
    {
      this.storage, this.alignment, this.former := storage, alignment, former;
      objects, heap, owners := map[], map[], map[];
    }

    /** Any address that no live buffer uses, whatever the memory backend picks. */
    method Allocate(size: nat) returns (p: Ptr, bytes: seq<Byte>)
      ensures p !in heap && |bytes| == size && forall i | 0 <= i < size :: bytes[i] == former(p, i)
    {
      ghost var q := SomeUnused(heap.Keys);
      assert q !in heap;
      p :| p !in heap;
      var f := former;
      bytes := seq(size, i requires 0 <= i => f(p, i));
    }

    /** Gives a slot of a shared buffer its own copy. */
    method ApplyCow(id: ObjectId, k: nat)
      requires Inv(objects, heap, owners, alignment) && id in objects && k in objects[id]
      requires objects[id][k].ptr in heap && heap[objects[id][k].ptr].refs > 1
      modifies this
      ensures Inv(objects, heap, owners, alignment)
      ensures Unshared(old(objects), old(heap), objects, heap, id, k)
    {
      hide *;
      var s := objects[id][k];
      var p, _ := Allocate(s.size);
      PrivateCopyUnshares(objects, heap, owners, alignment, id, k, p);
      PrivateCopyKeepsInv(objects, heap, owners, alignment, id, k, p);
      owners := DropOwner(owners, s.ptr, (id, k))[p := {(id, k)}];
      heap := Drop(heap, s.ptr)[p := Memory(heap[s.ptr].bytes, 1)];
      objects := PutSlot(objects, id, k, s.(ptr := p));
    }

    /** One visit of the walk: a shared buffer is replaced by a private copy before it is handed out for writing. */
    method VisitSegment(id: ObjectId, k: nat, write: bool) returns (d: Descr)
      requires Inv(objects, heap, owners, alignment) && id in objects && k in objects[id] && objects[id][k].ptr in heap
      modifies this
      ensures Inv(objects, heap, owners, alignment) && id in objects
      ensures Collected(old(objects), old(heap), objects, heap, id)
      ensures VisitedOnly(old(objects[id]), objects[id], k) && k in objects[id] && d == objects[id][k].Describe()
      ensures write ==> d.ptr in heap && heap[d.ptr].refs == 1
      ensures !(write && old(heap)[old(objects[id][k]).ptr].refs > 1) ==> objects == old(objects) && heap == old(heap)
    {
      hide Inv, Collected, Unshared;
      SlotHasOwner(objects, heap, owners, alignment, id, k);
      if write && heap[objects[id][k].ptr].refs > 1 {
        ApplyCow(id, k);
        UnsharedVisits(old(objects), old(heap), objects, heap, id, k);
      } else {
        CollectedNothing(objects, heap, owners, alignment, id);
      }
      d := objects[id][k].Describe();
    }

    /** First loop of `getBuffers`: the walk from `lower_bound`, breaking the sharing of what will be written. */
    method Collect(id: ObjectId, base: nat, size: nat, write: bool) returns (segs: seq<Descr>)
      requires Inv(objects, heap, owners, alignment) && id in objects
      modifies this
      ensures Inv(objects, heap, owners, alignment) && id in objects
      ensures Collected(old(objects), old(heap), objects, heap, id)
      ensures Sorted(segs) && Lists(segs, objects[id], base, size)
      ensures write ==> AllPrivate(segs, heap)
      ensures SlotsKept(old(objects[id]), objects[id], base, size, write)
      ensures !write ==> objects == old(objects) && heap == old(heap)
    {
      hide Inv, Collected, AllPrivate, WalkListed, Lists, Indexed, Sorted, Ahead, SlotsKept, LowerBound;
      SlotsKeptAll(objects[id], base, size, write);
      ghost var keys := objects[id].Keys;
      CollectedNothing(objects, heap, owners, alignment, id);
      WalkStarts(objects[id], base, size);
      NonePrivate(heap);
      segs := [];
      var it := LowerBound(objects[id].Keys, base);
      while it.Some? && objects[id][it.value].Overlap(base, size)
        invariant Inv(objects, heap, owners, alignment) && id in objects && objects[id].Keys == keys
        invariant Collected(old(objects), old(heap), objects, heap, id)
        invariant it.Some? ==> it.value in keys && base <= it.value
        invariant WalkListed(segs, objects[id], it, base, size)
        invariant write ==> AllPrivate(segs, heap)
        invariant SlotsKept(old(objects[id]), objects[id], base, size, write)
        invariant !write ==> objects == old(objects) && heap == old(heap)
        decreases Ahead(keys, it)
      {
        var k := it.value;
        ghost var objs, hp := objects, heap;
        IndexOf(objects, heap, owners, alignment, id);
        SlotHasOwner(objects, heap, owners, alignment, id, k);
        var d := VisitSegment(id, k, write);
        IndexOf(objects, heap, owners, alignment, id);
        CollectedTransitive(old(objects), old(heap), objs, hp, objects, heap, id);
        WalkStep(segs, objs[id], objects[id], k, base, size);
        SlotsKeptNext(old(objects[id]), objs[id], objects[id], k, base, size, write);
        if write { PrivateStep(segs, d, objs, hp, objects, heap, id); }
        segs := segs + [d];
        AheadShrinks(keys, k);
        it := LowerBound(objects[id].Keys, k + 1);
      }
      IndexOf(objects, heap, owners, alignment, id);
      WalkDone(segs, objects[id], it, base, size);
    }

    /**
      Allocates a buffer for an uncached range, fills it from the storage if asked to, and indexes it by its last byte.
     */
    method LoadSegment(id: ObjectId, offset: nat, size: nat, load: bool, acceptLoadFail: bool)
        returns (r: Option<Descr>, ghost clean: bool)
      requires Inv(objects, heap, owners, alignment) && id in objects && size > 0
               && FreeRange(objects[id], offset, offset + size)
      requires AlignedTo(offset, alignment) && AlignedTo(offset + size, alignment)
      modifies this, storage`failures, storage`calls
      ensures Inv(objects, heap, owners, alignment)
      ensures r.None? ==> objects == old(objects) && heap == old(heap) && load && !acceptLoadFail && !clean
      ensures r.Some? ==> Loaded(old(objects), old(heap), objects, heap, id, r.value) && r.value.offset == offset
                          && r.value.size == size
      ensures r.Some? && load && !acceptLoadFail ==> clean
      ensures r.Some? && load && clean ==> Agrees(Segment(r.value.ptr, offset, size, false), heap, storage.content, id)
      ensures if load then clean <==> storage.outcome(old(storage.calls)).None? else clean
      ensures storage.calls == old(storage.calls) + if load then 1 else 0
      ensures load ==> (r.None? <==> !clean && !acceptLoadFail)
      ensures r.Some? && load ==> LoadedBy(Segment(r.value.ptr, offset, size, false), heap, storage.content, id,
                                           storage.outcome(old(storage.calls)), former)
      ensures Onward(old(storage.failures), storage.failures, storage.outcome)
              && ((r.None? || !clean) ==> storage.failures > old(storage.failures))
    {
      hide Inv, Loaded, FreeRange, AlignedTo, Agrees, PutSlot;
      var p, bytes := Allocate(size);
      clean := true;
      if load {
        var ok;
        ok, bytes := storage.Pread(id, bytes, offset);
        clean := ok;
        if !ok && !acceptLoadFail {
          return None, false;
        }
      }
      var d := Descr(p, offset, size);
      LoadedSegment(objects, heap, owners, alignment, id, d, bytes);
      owners := owners[p := {(id, offset + size - 1)}];
      heap := heap[p := Memory(bytes, 1)];
      objects := PutSlot(objects, id, offset + size - 1, Segment(p, offset, size, false));
      if load && clean { BytesAgree(heap, storage.content, id, Segment(p, offset, size, false)); }
      r := Some(d);
    }

    /** Loads the gap `[lo, hi)`; a write skips the load of a gap it overwrites entirely and accepts a failed load. */
    method FillGap(id: ObjectId, q: Fill, lo: nat, hi: nat, load: bool, tmp: seq<Descr>,
                   ghost objs1: Objects, ghost heap1: Heap, ghost clean: bool, ghost from: nat)
      returns (ok: bool, tmp': seq<Descr>, ghost clean': bool)
      requires Inv(objects, heap, owners, alignment) && lo < hi && lo < q.base + q.size && AlignedTo(lo, alignment)
               && AlignedTo(hi, alignment)
      requires FillState(objs1, heap1, objects, heap, storage.content, alignment, id, q, tmp, lo, clean)
      requires id in objs1 && id in objects && FreeRange(objs1[id], lo, hi) && FreeRange(objects[id], lo, hi)
      requires hi == q.base + q.size || (hi < q.base + q.size && StartsAt(objs1[id], hi))
      requires q.Aligns(alignment) && from <= storage.calls
      requires load ==> AllLoaded(objs1[id], objects[id], heap, storage.content, id, q.reqBase, q.reqSize,
                                  Origin(storage.outcome, former, from, storage.calls))
      modifies this, storage`failures, storage`calls
      ensures Inv(objects, heap, owners, alignment)
      ensures !ok ==> !q.forWrite && objects == old(objects) && heap == old(heap)
      ensures ok ==> FillState(objs1, heap1, objects, heap, storage.content, alignment, id, q, tmp', hi, clean')
      ensures ok && load && !q.forWrite ==> clean' == clean
      ensures q.forWrite && !NeedsLoad(objs1[id], alignment, q.reqBase, q.reqSize) ==>
                clean' == clean && storage.calls == old(storage.calls)
      ensures var covered := q.forWrite && q.reqBase <= lo && hi <= q.reqBase + q.reqSize;
              storage.calls == old(storage.calls) + if load && !covered then 1 else 0
      ensures load && !q.forWrite ==> storage.calls > old(storage.calls)
                                      && (ok <==> storage.outcome(old(storage.calls)).None?)
      ensures !CoveredRange(objs1[id], q.base, q.base + q.size)
      ensures ok && load ==>
                && id in objects
                && AllLoaded(objs1[id], objects[id], heap, storage.content, id, q.reqBase, q.reqSize,
                             Origin(storage.outcome, former, from, storage.calls))
      ensures Onward(old(storage.failures), storage.failures, storage.outcome)
              && (!ok || (load && clean && !clean') ==> storage.failures > old(storage.failures))
    {
      hide Inv, FillState, FreeRange, AlignedTo, Agrees, Loaded, StartsAt, NeedsLoad, AllLoaded, LoadedBy, AlignedBase,
           AlignedSize, CoveredRange;
      FillIndexed(objs1, heap1, objects, heap, storage.content, alignment, id, q, tmp, lo, clean);
      FreeNotCovered(objs1[id], lo, hi, q.base, q.base + q.size);
      if !NeedsLoad(objs1[id], alignment, q.reqBase, q.reqSize) {
        GapInside(objs1[id], alignment, q.reqBase, q.reqSize, lo, hi);
      }
      var inside := q.forWrite && q.reqBase <= lo && hi <= q.reqBase + q.reqSize;
      var r; ghost var loaded;
      ghost var objs, hp, ow := objects, heap, owners;
      r, loaded := LoadSegment(id, lo, hi - lo, load && !inside, q.forWrite);
      if r.None? { return false, tmp, false; }
      ghost var good := loaded && (load || inside);
      FillLoaded(objs1, heap1, objs, hp, ow, objects, heap, storage.content, alignment, id, q, tmp, r.value, clean,
                 good);
      LoadedHas(objs, hp, objects, heap, id, r.value);
      if load {
        AllLoadedNext(objs1[id], objs, hp, ow, alignment, objects, heap, storage.content, id, r.value, q.reqBase,
                      q.reqSize, Origin(storage.outcome, former, from, old(storage.calls)), storage.calls);
      }
      ok, tmp', clean' := true, tmp + [r.value], clean && good;
    }

    /** Completes a listing: one load per gap, then one for the end of the range. */
    method FillGaps(id: ObjectId, q: Fill, load: bool, segs: seq<Descr>)
        returns (ok: bool, tmp: seq<Descr>, ghost last: nat, ghost clean: bool)
      requires Inv(objects, heap, owners, alignment) && id in objects
      requires Sorted(segs) && Lists(segs, objects[id], q.base, q.size)
      requires AlignedTo(q.base, alignment) && AlignedTo(q.base + q.size, alignment) && q.Aligns(alignment)
      modifies this, storage`failures, storage`calls
      ensures Inv(objects, heap, owners, alignment)
      ensures FillState(old(objects), old(heap), objects, heap, storage.content, alignment, id, q, tmp, last, clean)
      ensures ok ==> q.base + q.size <= last
      ensures !ok ==> !q.forWrite
      ensures load && !q.forWrite ==> clean
      ensures q.forWrite && !NeedsLoad(old(objects[id]), alignment, q.reqBase, q.reqSize) ==>
                clean && storage.calls == old(storage.calls)
      ensures old(storage.calls) <= storage.calls <= old(storage.calls) + |segs| + 1
      ensures load && !q.forWrite ==>
                && (ok <==> Quiet(storage.outcome, old(storage.calls), storage.calls))
                && (storage.calls == old(storage.calls) <==> CoveredRange(old(objects[id]), q.base, q.base + q.size))
      ensures ok && load ==>
                && id in objects
                && AllLoaded(old(objects[id]), objects[id], heap, storage.content, id, q.reqBase, q.reqSize,
                             Origin(storage.outcome, former, old(storage.calls), storage.calls))
      ensures Onward(old(storage.failures), storage.failures, storage.outcome)
              && (!ok || (load && !clean) ==> storage.failures > old(storage.failures))
    {
      hide Inv, FillState, FreeRange, AlignedTo, Lists, Sorted, BlockAligned, StartsAt, NeedsLoad, AllLoaded,
           AlignedBase, AlignedSize, CoveredRange;
      ghost var from := storage.calls;
      AllLoadedNone(objects[id], heap, storage.content, id, q.reqBase, q.reqSize,
                    Origin(storage.outcome, former, from, from));
      IndexOf(objects, heap, owners, alignment, id);
      FillStart(objects, heap, owners, storage.content, alignment, id, q);
      ghost var objs1, heap1 := objects, heap;
      tmp, last, clean := [], q.base, true;
      var lastOffset: nat := q.base;
      for j := 0 to |segs|
        invariant Inv(objects, heap, owners, alignment)
        invariant FillState(objs1, heap1, objects, heap, storage.content, alignment, id, q, tmp, lastOffset, clean)
        invariant lastOffset == GapStart(segs, j, q.base)
        invariant load && !q.forWrite ==> clean
        invariant q.forWrite && !NeedsLoad(objs1[id], alignment, q.reqBase, q.reqSize) ==>
                    clean && storage.calls == from
        invariant from <= storage.calls <= from + j
        invariant load && !q.forWrite ==> Quiet(storage.outcome, from, storage.calls)
        invariant if storage.calls > from then !CoveredRange(objs1[id], q.base, q.base + q.size)
                  else load && !q.forWrite ==> objects == objs1
        invariant load ==>
                    && id in objects
                    && AllLoaded(objs1[id], objects[id], heap, storage.content, id, q.reqBase, q.reqSize,
                                 Origin(storage.outcome, former, from, storage.calls))
        invariant Onward(old(storage.failures), storage.failures, storage.outcome)
                  && (load && !clean ==> storage.failures > old(storage.failures))
      {
        FillHas(objs1, heap1, objects, heap, storage.content, alignment, id, q, tmp, lastOffset, clean);
        if segs[j].offset > lastOffset {
          GapReady(objs1, heap1, objects, heap, storage.content, alignment, id, q, segs, tmp, j, clean);
          ghost var was := clean;
          var tmp1;
          ok, tmp1, clean := FillGap(id, q, lastOffset, segs[j].offset, load, tmp, objs1, heap1, clean, from);
          if !ok { clean, last := was, lastOffset; return; }
          tmp, lastOffset := tmp1, segs[j].offset;
        }
        FillSkip(objs1, heap1, objects, heap, storage.content, alignment, id, q, segs, tmp, j, lastOffset, clean);
        lastOffset := segs[j].End();
      }
      ok := true;
      if lastOffset < q.base + q.size {
        FillHas(objs1, heap1, objects, heap, storage.content, alignment, id, q, tmp, lastOffset, clean);
        GapReady(objs1, heap1, objects, heap, storage.content, alignment, id, q, segs, tmp, |segs|, clean);
        ghost var was := clean;
        var tmp1;
        ok, tmp1, clean := FillGap(id, q, lastOffset, q.base + q.size, load, tmp, objs1, heap1, clean, from);
        if !ok { clean, last := was, lastOffset; return; }
        tmp, lastOffset := tmp1, q.base + q.size;
      }
      FillCovers(objs1, heap1, objects, heap, storage.content, alignment, id, q, tmp, lastOffset, clean);
      last := lastOffset;
    }

    /**
      The segments that cover an aligned request, in order: existing ones, made private first if they will be
      written, and newly loaded ones for the gaps. `clean` tells that every load that was needed succeeded.
     */
    method GetBuffers(id: ObjectId, base: nat, size: nat, write: bool, load: bool, forWrite: bool)
      returns (ok: bool, segs: seq<Descr>, ghost clean: bool)
      requires Inv(objects, heap, owners, alignment) && id in objects
      modifies this, storage`failures, storage`calls
      ensures Inv(objects, heap, owners, alignment) && id in objects
      ensures Fetched(old(objects), old(heap), objects, heap, storage.content, id, clean, forWrite, base, size)
      ensures GapShaped(old(objects[id]), objects[id], AlignedBase(base, alignment), AlignedEnd(base, size, alignment))
      ensures ok ==> Tiles(segs, AlignedBase(base, alignment), AlignedEnd(base, size, alignment))
      ensures ok ==> Lists(segs, objects[id], AlignedBase(base, alignment), AlignedSize(base, size, alignment))
      ensures ok ==> CoveredRange(objects[id], AlignedBase(base, alignment), AlignedEnd(base, size, alignment))
      ensures ok && write ==> AllPrivate(segs, heap)
      ensures SlotsKept(old(objects[id]), objects[id], AlignedBase(base, alignment), AlignedSize(base, size, alignment),
                        write)
      ensures !ok ==> segs == [] && !forWrite
      ensures load && !forWrite ==> clean
      ensures forWrite && !NeedsLoad(old(objects[id]), alignment, base, size) ==>
                clean && storage.calls == old(storage.calls)
      ensures old(storage.calls) <= storage.calls
      ensures FreeRange(old(objects[id]), AlignedBase(base, alignment), AlignedEnd(base, size, alignment)) ==>
                storage.calls <= old(storage.calls) + 1
      ensures load && !forWrite ==>
                && (ok <==> Quiet(storage.outcome, old(storage.calls), storage.calls))
                && (storage.calls == old(storage.calls) <==>
                    CoveredRange(old(objects[id]), AlignedBase(base, alignment), AlignedEnd(base, size, alignment)))
      ensures ok && load ==> AllLoaded(old(objects[id]), objects[id], heap, storage.content, id, base, size,
                                       Origin(storage.outcome, former, old(storage.calls), storage.calls))
      ensures Onward(old(storage.failures), storage.failures, storage.outcome)
              && (!ok || (load && !clean) ==> storage.failures > old(storage.failures))
    {
      hide Inv, FillState, Collected, AllPrivate, Lists, Tiles, Sorted, AlignedTo, Fetched, GapShaped, CoveredRange,
           NeedsLoad, AllLoaded, FreeRange, AlignedBase, AlignedSize, SlotsKept;
      AlignedRange(base, size, alignment);
      var q := Fill(AlignedBase(base, alignment), AlignedSize(base, size, alignment), base, size, forWrite);
      var segs1 := Collect(id, q.base, q.size, write);
      ghost var objs1, heap1 := objects, heap;
      CollectedNeedsLoad(old(objects), old(heap), objs1, heap1, id, alignment, base, size);
      CollectedCovers(old(objects), old(heap), objs1, heap1, id, q.base, q.base + q.size);
      if FreeRange(old(objects[id]), q.base, q.base + q.size) {
        NothingListed(segs1, old(objects), old(heap), objs1, heap1, id, q.base, q.size);
      }
      var tmp; ghost var last;
      ok, tmp, last, clean := FillGaps(id, q, load, segs1);
      FetchedFrom(old(objects), old(heap), objs1, heap1, objects, heap, storage.content, alignment, id, q, tmp, last,
                  clean);
      FillExtends(objs1, heap1, objects, heap, storage.content, alignment, id, q, tmp, last, clean);
      SlotsKeptThen(old(objects[id]), objs1[id], objects[id], q.base, q.size, write);
      if !ok { return false, [], clean; }
      CompletedTiles(objs1, heap1, objects, heap, storage.content, alignment, id, q, segs1, tmp, last, clean);
      segs := SortByOffset(segs1 + tmp);
      if load {
        AllLoadedFrom(old(objects[id]), objs1[id], objects[id], heap, storage.content, id, base, size,
                      Origin(storage.outcome, former, old(storage.calls), storage.calls));
      }
      if write {
        PrivateSorted(segs1, tmp, segs, objs1, heap1, objects, heap, storage.content, alignment, id, q, last, clean);
      }
    }

    /** `memcpy` into the buffer of one privately held segment. */
    method CopyInto(id: ObjectId, k: nat, o: nat, chunk: seq<Byte>)
      requires Inv(objects, heap, owners, alignment) && id in objects && k in objects[id]
      requires objects[id][k].ptr in heap && heap[objects[id][k].ptr].refs == 1 && o + |chunk| <= objects[id][k].size
      modifies this`heap
      ensures Inv(objects, heap, owners, alignment) && SameRefs(old(heap), heap)
      ensures Patched(objects, old(heap), objects, heap, storage.content, id, objects[id][k].offset + o, chunk)
    {
      hide Inv, SameRefs, Patched;
      SlotHasOwner(objects, heap, owners, alignment, id, k);
      SplicePatches(objects, heap, owners, alignment, storage.content, id, k, o, chunk);
      var p := objects[id][k].ptr;
      ghost var heap0 := heap;
      heap := heap[p := heap[p].(bytes := Splice(heap[p].bytes, o, chunk))];
      SameRefsKeepsInv(objects, heap0, heap, owners, alignment);
    }

    /** Scatters the data of an eager write over the segments that serve it. */
    method EagerExtract(id: ObjectId, off: nat, data: seq<Byte>, segs: seq<Descr>)
      requires Inv(objects, heap, owners, alignment) && id in objects
      requires AllInMap(segs, objects[id]) && AllPrivate(segs, heap) && Serves(segs, off, |data|)
      modifies this`heap
      ensures Inv(objects, heap, owners, alignment) && SameRefs(old(heap), heap)
      ensures Patched(objects, old(heap), objects, heap, storage.content, id, off, data)
    {
      hide Inv, SameRefs, Patched, AllInMap, AllPrivate;
      PatchedNothing(objects, heap, storage.content, id, off);
      SameRefsRefl(heap);
      var cur: nat := 0;
      assert data[..cur] == [];
      for j := 0 to |segs|
        invariant Inv(objects, heap, owners, alignment) && SameRefs(old(heap), heap) && AllPrivate(segs, heap)
        invariant cur <= |data| && Patched(objects, old(heap), objects, heap, storage.content, id, off, data[..cur])
        invariant cur == Progress(segs, off, |data|, j)
      {
        var segment := segs[j];
        var copySize, offset := segment.size, 0;
        if off > segment.offset {
          offset := off - segment.offset;
          copySize := copySize - offset;
        }
        if cur + copySize > |data| {
          copySize := |data| - cur;
        }
        ListedSlot(segs, objects[id], heap, j);
        ghost var heap1 := heap;
        CopyInto(id, segment.End() - 1, offset, data[cur..cur + copySize]);
        SameRefsTransitive(segs, old(heap), heap1, heap);
        PatchedExtends(objects, old(heap), heap1, heap, storage.content, id, off, data, cur, copySize);
        cur := cur + copySize;
      }
      assert data[..cur] == data;
    }

    /** The completion of one group: the fabric has filled its iovec entries one after the other. */
    method FetchGroup(id: ObjectId, off: nat, data: seq<Byte>, segs: seq<Descr>, iov: seq<IoVec>, from: nat, upto: nat)
      requires Inv(objects, heap, owners, alignment) && id in objects && from <= upto <= |segs| == |iov|
      requires AllInMap(segs, objects[id]) && AllPrivate(segs, heap) && Serves(segs, off, |data|)
      requires forall j | 0 <= j < |iov| :: iov[j] == Clamp(segs[j], off, |data|)
      modifies this`heap
      ensures Inv(objects, heap, owners, alignment) && SameRefs(old(heap), heap) && AllPrivate(segs, heap)
      ensures Progress(segs, off, |data|, from) <= Progress(segs, off, |data|, upto) <= |data|
      ensures Patched(objects, old(heap), objects, heap, storage.content, id, off + Progress(segs, off, |data|, from),
                      data[Progress(segs, off, |data|, from)..Progress(segs, off, |data|, upto)])
    {
      hide Inv, SameRefs, Patched, AllInMap, AllPrivate, Serves, Clamp, Progress;
      ProgressMonotone(segs, off, |data|, from, upto);
      ghost var lo := Progress(segs, off, |data|, from);
      var chunk := data[Progress(segs, off, |data|, from)..Progress(segs, off, |data|, upto)];
      PatchedNothing(objects, heap, storage.content, id, off + lo);
      SameRefsRefl(heap);
      var cur: nat := 0;
      assert chunk[..cur] == [];
      for j := from to upto
        invariant Inv(objects, heap, owners, alignment) && SameRefs(old(heap), heap) && AllPrivate(segs, heap)
        invariant lo + cur == Progress(segs, off, |data|, j) && cur <= |chunk|
        invariant Patched(objects, old(heap), objects, heap, storage.content, id, off + lo, chunk[..cur])
      {
        ClampProgress(segs, off, |data|, j);
        ProgressMonotone(segs, off, |data|, j + 1, upto);
        ListedSlot(segs, objects[id], heap, j);
        ghost var heap1 := heap;
        CopyInto(id, segs[j].End() - 1, iov[j].start, chunk[cur..cur + iov[j].len]);
        SameRefsTransitive(segs, old(heap), heap1, heap);
        PatchedExtends(objects, old(heap), heap1, heap, storage.content, id, off + lo, chunk, cur, iov[j].len);
        cur := cur + iov[j].len;
      }
      assert chunk[..cur] == chunk;
    }

    /**
      Fetches `data` from the client's memory in groups that complete in any order, and acknowledges when the last one
      has: once, or never if there is nothing to transfer.
     */
    method FetchByRdma(id: ObjectId, off: nat, data: seq<Byte>, segs: seq<Descr>, iov: seq<IoVec>) returns (acks: nat)
      requires Inv(objects, heap, owners, alignment) && id in objects && |segs| == |iov|
      requires AllInMap(segs, objects[id]) && AllPrivate(segs, heap) && Serves(segs, off, |data|)
      requires forall j | 0 <= j < |iov| :: iov[j] == Clamp(segs[j], off, |data|)
      modifies this`heap
      ensures Inv(objects, heap, owners, alignment) && SameRefs(old(heap), heap)
      ensures Patched(objects, old(heap), objects, heap, storage.content, id, off, data)
      ensures acks == if segs == [] then 0 else 1
    {
      hide Inv, SameRefs, Patched, AllInMap, AllPrivate, Serves, Clamp, Progress, PartlyPatched;
      var ops := RdmaFanOut.CountGroups(|segs|);
      var pending: set<nat> := Numbers(ops);
      NothingArrived(objects, heap, storage.content, id, off, data, segs, pending);
      SameRefsRefl(heap);
      acks := 0;
      while pending != {}
        invariant Inv(objects, heap, owners, alignment) && SameRefs(old(heap), heap) && AllPrivate(segs, heap)
        invariant (forall g | g in pending :: g < RdmaFanOut.Groups(|segs|)) && ops == |pending|
        invariant PartlyPatched(objects, old(heap), heap, storage.content, id, off, data, segs, pending)
        invariant acks == if pending == {} && segs != [] then 1 else 0
        decreases |pending|
      {
        var g :| g in pending;
        ghost var heap1 := heap;
        FetchGroup(id, off, data, segs, iov, Cut(|segs|, g), Cut(|segs|, g + 1));
        SameRefsTransitive(segs, old(heap), heap1, heap);
        GroupArrived(objects, old(heap), heap1, heap, storage.content, id, off, data, segs, pending, g);
        pending, ops := pending - {g}, ops - 1;
        if ops == 0 { acks := acks + 1; }
      }
      AllArrived(objects, old(heap), heap, storage.content, id, off, data, segs);
    }

    /** Marks every segment that overlaps the range as dirty. */
    method MarkDirty(id: ObjectId, base: nat, size: nat)
      requires Inv(objects, heap, owners, alignment) && id in objects
      modifies this`objects
      ensures Inv(objects, heap, owners, alignment) && id in objects && OthersKept(old(objects), objects, id)
      ensures objects[id].Keys == old(objects[id]).Keys
      ensures forall k | k in objects[id] :: objects[id][k] == Marked(old(objects[id][k]), base, size)
      ensures forall k | k in objects[id] ::
                objects[id][k] == if old(objects[id][k]).offset < base + size && base < old(objects[id][k]).End()
                    then old(objects[id][k]).(dirty := true) else old(objects[id][k])
    {
      hide Inv;
      var m := objects[id];
      ghost var keys := m.Keys;
      var it := LowerBound(m.Keys, 0);
      while it.Some?
        invariant objects == old(objects) && m.Keys == keys && (it.Some? ==> it.value in keys)
        invariant forall k | k in keys :: m[k] == if it.Some? && it.value <= k
                                          then objects[id][k] else Marked(objects[id][k], base, size)
        decreases Ahead(keys, it)
      {
        hide Ahead;
        var k := it.value;
        if m[k].Overlap(base, size) {
          m := m[k := m[k].(dirty := true)];
        }
        AheadShrinks(keys, k);
        it := LowerBound(m.Keys, k + 1);
      }
      FlagsKeepInv(objects, heap, owners, alignment, id, m);
      objects := objects[id := m];
    }

    /** Finds an object, creating it empty at first use. */
    method GetObject(id: ObjectId)
      requires Inv(objects, heap, owners, alignment)
      modifies this`objects
      ensures Inv(objects, heap, owners, alignment) && id in objects
      ensures objects == if id in old(objects) then old(objects) else old(objects)[id := map[]]
    {
      hide Inv;
      if id !in objects {
        EmptyObjectKeepsInv(objects, heap, owners, alignment, id);
        objects := objects[id := map[]];
      }
    }

    /** The object of a request, created at first use, and the segments that serve the requested range. */
    method OpenRange(id: ObjectId, off: nat, size: nat, write: bool)
        returns (ok: bool, segs: seq<Descr>, ghost clean: bool)
      requires Inv(objects, heap, owners, alignment)
      modifies this, storage`failures, storage`calls
      ensures Inv(objects, heap, owners, alignment) && id in objects
      ensures Fetched(WithObject(old(objects), id), old(heap), objects, heap, storage.content, id, clean, write, off,
                      size)
      ensures GapShaped(SegmentsOf(old(objects), id), objects[id], AlignedBase(off, alignment),
                        AlignedEnd(off, size, alignment))
      ensures SlotsKept(SegmentsOf(old(objects), id), objects[id], AlignedBase(off, alignment),
                        AlignedSize(off, size, alignment), write)
      ensures ok ==> CoveredRange(objects[id], AlignedBase(off, alignment), AlignedEnd(off, size, alignment))
      ensures ok ==> AllInMap(segs, objects[id]) && Serves(segs, off, size) && (write ==> AllPrivate(segs, heap))
      ensures ok ==> (|segs| <= 1 <==> OneSegment(SegmentsOf(old(objects), id), AlignedBase(off, alignment),
                                                  AlignedEnd(off, size, alignment)))
      ensures ok ==> ((forall j | 0 <= j < |segs| :: Fits(segs[j], off, size)) <==>
                      CutsFit(SegmentsOf(old(objects), id), alignment, off, size))
      ensures ok ==> (segs == [] <==> NothingThere(SegmentsOf(old(objects), id), AlignedBase(off, alignment),
                                                   AlignedEnd(off, size, alignment)))
      ensures !ok ==> !write
      ensures write && !NeedsLoad(SegmentsOf(old(objects), id), alignment, off, size) ==>
                clean && storage.calls == old(storage.calls)
      ensures FreeRange(SegmentsOf(old(objects), id), AlignedBase(off, alignment), AlignedEnd(off, size, alignment))
              ==> storage.calls <= old(storage.calls) + 1
      ensures !write ==> clean && (ok <==> Quiet(storage.outcome, old(storage.calls), storage.calls))
                         && (storage.calls == old(storage.calls) <==>
                             CoveredRange(SegmentsOf(old(objects), id), AlignedBase(off, alignment),
                                          AlignedEnd(off, size, alignment)))
      ensures ok ==> AllLoaded(SegmentsOf(old(objects), id), objects[id], heap, storage.content, id, off, size,
                               Origin(storage.outcome, former, old(storage.calls), storage.calls))
      ensures Onward(old(storage.failures), storage.failures, storage.outcome)
              && (!ok || !clean ==> storage.failures > old(storage.failures))
    {
      hide Clamp, Fits, Inv, Fetched, GapShaped, Serves, AllPrivate, Lists, Tiles, CoveredRange, CutsFit, Indexed,
           BlockAligned, AllBacked, Completed, RangesKept, AlignedBase, AlignedSize, AlignedEnd, NeedsLoad, AllLoaded,
           FreeRange, Onward, OneSegment, AllInMap, SlotsKept, Quiet, NothingThere;
      GetObject(id);
      ghost var objs0 := objects;
      IndexOf(objects, heap, owners, alignment, id);
      ok, segs, clean := GetBuffers(id, off, size, write, true, write);
      if !ok { return; }
      IndexOf(objects, heap, owners, alignment, id);
      TilesServe(segs, objects[id], alignment, off, size);
      ListsInMap(segs, objects[id], AlignedBase(off, alignment), AlignedSize(off, size, alignment));
      FetchedCompletes(objs0, old(heap), objects, heap, storage.content, id, clean, write, alignment, off, size, segs);
      OneSegmentIff(segs, objs0[id], objects[id], AlignedBase(off, alignment), AlignedEnd(off, size, alignment));
      CutsFitIff(segs, objs0[id], objects[id], alignment, off, size);
      NothingThereIff(segs, objs0[id], objects[id], AlignedBase(off, alignment), AlignedEnd(off, size, alignment));
    }

    /** Puts the data of a write into the segments that serve it, from the message or by RDMA. */
    method Transfer(id: ObjectId, off: nat, data: seq<Byte>, eager: bool, segs: seq<Descr>)
        returns (exact: bool, acks: nat)
      requires Inv(objects, heap, owners, alignment) && id in objects
      requires AllInMap(segs, objects[id]) && AllPrivate(segs, heap) && Serves(segs, off, |data|)
      modifies this`heap
      ensures exact <==> eager || forall j | 0 <= j < |segs| :: Fits(segs[j], off, |data|)
      ensures acks == if exact && !eager && segs == [] then 0 else 1
      ensures exact ==> Inv(objects, heap, owners, alignment)
      ensures exact ==> Patched(objects, old(heap), objects, heap, storage.content, id, off, data)
    {
      hide Clamp, Fits, Inv, Patched, Serves, AllPrivate, AllInMap, SameRefs;
      exact, acks := true, 1;
      if eager {
        EagerExtract(id, off, data, segs);
      } else {
        var iov := BuildIovec(segs, off, |data|);
        exact := forall j | 0 <= j < |segs| :: Fits(segs[j], off, |data|);
        if exact { acks := FetchByRdma(id, off, data, segs, iov); }
      }
    }

    /**
      A write request, with its data in the message or in the client's memory. `clean` tells that every load it needed
      succeeded; a failed one is tolerated and can only spoil bytes of the object that were neither cached nor written.
      `exact` is false if an iovec entry of the RDMA path went wrong. A write by RDMA is never acknowledged if no
      segment serves it, which happens to empty writes only.
     */
    method WriteMessage(id: ObjectId, off: nat, data: seq<Byte>, eager: bool)
        returns (exact: bool, acks: nat, ghost clean: bool)
      requires Inv(objects, heap, owners, alignment)
      modifies this, storage`failures, storage`calls
      ensures exact <==> eager || CutsFit(SegmentsOf(old(objects), id), alignment, off, |data|)
      ensures exact ==> Inv(objects, heap, owners, alignment)
      ensures exact ==> acks == if !eager && NothingThere(SegmentsOf(old(objects), id), AlignedBase(off, alignment),
                                                          AlignedEnd(off, |data|, alignment)) then 0 else 1
      ensures exact && clean ==> Patched(old(objects), old(heap), objects, heap, storage.content, id, off, data)
      ensures !NeedsLoad(SegmentsOf(old(objects), id), alignment, off, |data|) ==>
                clean && storage.calls == old(storage.calls)
      ensures exact && NeedsLoad(SegmentsOf(old(objects), id), alignment, off, |data|) ==>
                storage.calls > old(storage.calls)
      ensures exact ==> LeftBytes(old(objects), objects, heap, storage.content, alignment, id, off, |data|,
                                  Origin(storage.outcome, former, old(storage.calls), storage.calls))
      ensures FreeRange(SegmentsOf(old(objects), id), AlignedBase(off, alignment), AlignedEnd(off, |data|, alignment))
              ==> storage.calls <= old(storage.calls) + 1
      ensures exact ==> PatchedCached(old(objects), old(heap), objects, heap, storage.content, id, off, data)
      ensures exact ==> WriteShaped(old(objects), objects, alignment, id, off, |data|)
                        && objects.Keys == old(objects).Keys + {id}
      ensures Onward(old(storage.failures), storage.failures, storage.outcome)
              && (!clean ==> storage.failures > old(storage.failures))
    {
      hide Clamp, Fits, Inv, Patched, PatchedCached, Fetched, GapShaped, Serves, AllPrivate, SameRefs, CoveredRange,
           WriteShaped, CutsFit, Indexed, BlockAligned, AllBacked, AlignedBase, AlignedSize, AlignedEnd, NeedsLoad,
           LeftBytes, AllLoaded, FreeRange, Onward, OthersKept, CellsKept, AllInMap, SlotsKept, NothingThere,
           OneSegment, Quiet;
      ghost var objs0, heap0, owners0 := WithObject(objects, id), heap, owners;
      if id !in objects { EmptyObjectKeepsInv(objects, heap, owners, alignment, id); }
      IndexOf(objs0, heap0, owners0, alignment, id);
      var ok, segs;
      ok, segs, clean := OpenRange(id, off, |data|, true);
      ghost var objs1, heap1, owners1 := objects, heap, owners;
      exact, acks := Transfer(id, off, data, eager, segs);
      if !exact { return; }
      ghost var heap2 := heap;
      MarkDirty(id, off, |data|);
      WriteEffect(old(objects), objs0, heap0, owners0, objs1, heap1, owners1, heap2, objects, alignment,
                  storage.content, id, off, data, clean);
      WriteLoads(old(objects), objs0, heap0, objs1, heap1, owners1, heap2, objects, alignment, storage.content, id, off,
                 data, clean, Origin(storage.outcome, former, old(storage.calls), storage.calls));
      WriteShapes(old(objects), objs0, heap0, objs1, heap1, objects, alignment, storage.content, id, off, |data|,
                  clean);
      FetchedParts(objs0, heap0, objs1, heap1, storage.content, id, clean, true, off, |data|);
      SameKeys(objs0, objs1, objects, id);
    }

    /**
      One round of the loop of `flush`: a selected segment is written out and its flag cleared, even when the write
      fails.
     */
    method FlushSegment(id: ObjectId, k: nat, offset: nat, size: nat) returns (ok: bool)
      requires Inv(objects, heap, owners, alignment) && id in objects && k in objects[id]
      modifies this`objects, storage
      ensures Inv(objects, heap, owners, alignment)
      ensures objects == PutSlot(old(objects), id, k, Flushed(old(objects[id][k]), offset, size))
      ensures SameViews(old(objects), heap, old(storage.content), objects, heap, storage.content)
      ensures if Chosen(old(objects[id][k]), offset, size)
              then WrittenOut(old(objects), heap, old(storage.content), storage.content, id, old(objects[id][k]),
                              storage.outcome(old(storage.calls)))
              else storage.content == old(storage.content)
      ensures storage.calls == old(storage.calls) + if Chosen(old(objects[id][k]), offset, size) then 1 else 0
      ensures ok <==> Quiet(storage.outcome, old(storage.calls), storage.calls)
      ensures Onward(old(storage.failures), storage.failures, storage.outcome)
              && (ok <==> storage.failures == old(storage.failures))
    {
      hide Inv, SameViews, WrittenOut;
      ghost var objs, before := objects, storage.content;
      var s := objects[id][k];
      if !Chosen(s, offset, size) {
        SameViewsRefl(objects, heap, storage.content);
        assert objects[id][k := s] == objects[id] && Flushed(s, offset, size) == s;
        return true;
      }
      SlotHasOwner(objects, heap, owners, alignment, id, k);
      ok := storage.Pwrite(id, heap[s.ptr].bytes, s.offset);
      ghost var o := storage.outcome(old(storage.calls));
      SegmentWrittenOut(objects, heap, owners, alignment, before, storage.content, id, k, o);
      FlushedViews(objects, heap, owners, alignment, before, storage.content, id, k, o);
      var m: SegmentMap := objects[id][k := s.(dirty := false)];
      objects := objects[id := m];
    }

    /** Flushes the dirty segments that overlap the range, all of them if `size` is 0. */
    method Flush(id: ObjectId, offset: nat, size: nat) returns (ok: bool)
      requires Inv(objects, heap, owners, alignment) && id in objects
      modifies this`objects, storage
      ensures Inv(objects, heap, owners, alignment)
      ensures objects == old(objects)[id := FlushedAll(old(objects[id]), offset, size)]
      ensures FlushDone(old(objects), heap, old(storage.content), objects, storage.content, id, offset, size,
                        storage.outcome, old(storage.calls))
      ensures storage.calls == old(storage.calls) + Writes(old(objects[id]), offset, size)
      ensures ok <==> Quiet(storage.outcome, old(storage.calls), storage.calls)
      ensures Onward(old(storage.failures), storage.failures, storage.outcome)
              && (ok <==> storage.failures == old(storage.failures))
    {
      hide Inv, FlushState, FlushDone, SameViews, WrittenOut, Ahead, Flushed, FlushedAll, Perfect, Chosen, Rank, Writes,
           WrittenSoFar, LowerBound;
      ghost var m0, call := objects[id], storage.calls;
      FlushStarts(objects, heap, storage.content, id, m0, offset, size, storage.outcome, call);
      ok := true;
      var it := LowerBound(objects[id].Keys, 0);
      while it.Some?
        invariant Inv(objects, heap, owners, alignment) && id in objects && objects[id].Keys == m0.Keys
                  && (it.Some? ==> it.value in m0)
        invariant objects == old(objects)[id := objects[id]]
        invariant FlushState(old(objects), heap, old(storage.content), objects, storage.content, id, m0, offset, size,
                             storage.outcome, call, it)
        invariant storage.calls == call + WrittenSoFar(m0, offset, size, it)
        invariant ok <==> Quiet(storage.outcome, call, storage.calls)
        invariant forall k | k in m0 :: objects[id][k] == if it.Some? && it.value <= k
                                        then m0[k] else Flushed(m0[k], offset, size)
        invariant Onward(old(storage.failures), storage.failures, storage.outcome)
                  && (ok <==> storage.failures == old(storage.failures))
        decreases Ahead(m0.Keys, it)
      {
        var k := it.value;
        ghost var objs, before := objects, storage.content;
        WrittenNext(m0, offset, size, k);
        var written := FlushSegment(id, k, offset, size);
        FlushAdvances(old(objects), objs, objects, heap, old(storage.content), before, storage.content, id, m0, offset,
                      size, storage.outcome, call, k);
        ok := ok && written;
        assert it == Some(k) && objects[id].Keys == m0.Keys;
        AheadShrinks(m0.Keys, k);
        it := LowerBound(objects[id].Keys, k + 1);
      }
      FlushedKeys(m0, objects[id], offset, size);
      FlushEnds(old(objects), heap, old(storage.content), objects, storage.content, id, offset, size, storage.outcome,
                call);
    }

    /** The destructor of an object: every slot gives up its reference. */
    method DeleteObject(id: ObjectId)
      requires Inv(objects, heap, owners, alignment) && id in objects
      modifies this
      ensures Inv(objects, heap, owners, alignment) && id in objects && objects[id] == map[]
      ensures OthersKept(old(objects), objects, id) && OnlyFreed(old(heap), heap)
    {
      hide Inv, DropOwner, Drop;
      ghost var keys := objects[id].Keys;
      var it := LowerBound(objects[id].Keys, 0);
      while it.Some?
        invariant Inv(objects, heap, owners, alignment) && id in objects && OthersKept(old(objects), objects, id)
                  && OnlyFreed(old(heap), heap)
        invariant it.Some? ==> it.value in objects[id]
        invariant it.None? ==> objects[id].Keys == {}
        decreases objects[id].Keys
      {
        var k := it.value;
        var p := objects[id][k].ptr;
        DroppedSlotKeepsInv(objects, heap, owners, alignment, id, k);
        OnlyFreedTransitive(old(heap), heap, Drop(heap, p));
        owners := DropOwner(owners, p, (id, k));
        heap := Drop(heap, p);
        objects := RemoveSlot(objects, id, k);
        it := LowerBound(objects[id].Keys, 0);
      }
    }

    /** `makeCowOf` into a new slot: the buffer gains a reference. */
    method ShareSegment(id: ObjectId, s: Segment)
      requires Inv(objects, heap, owners, alignment) && id in objects && s.size > 0
               && FreeRange(objects[id], s.offset, s.End())
      requires AlignedTo(s.offset, alignment) && AlignedTo(s.End(), alignment) && Backed(s, heap)
      modifies this
      ensures Inv(objects, heap, owners, alignment) && id in objects
      ensures objects == PutSlot(old(objects), id, s.End() - 1, s) && OthersKept(old(objects), objects, id)
              && SameBytes(old(heap), heap)
    {
      hide Inv, AlignedTo, FreeRange, OthersKept, SameBytes, HoldOwner, Hold;
      SharedSlotKeepsInv(objects, heap, owners, alignment, id, s);
      owners := HoldOwner(owners, s.ptr, (id, s.End() - 1));
      heap := Hold(heap, s.ptr);
      objects := PutSlot(objects, id, s.End() - 1, s);
    }

    /** The storage copies `[lo, hi)` of one object to another by reading and writing it back. */
    method MakeCowSegment(src: ObjectId, dst: ObjectId, lo: nat, hi: nat) returns (ok: bool)
      requires lo <= hi && src != dst
      modifies storage
      ensures StoredOutside(old(storage.content), storage.content, dst, lo, hi)
      ensures ok ==> forall i: nat | lo <= i < hi :: storage.content(dst, i) == old(storage.content)(src, i)
      ensures old(storage.calls) <= storage.calls && (ok ==> storage.calls == old(storage.calls) + 2)
              && (ok <==> Quiet(storage.outcome, old(storage.calls), storage.calls))
      ensures Onward(old(storage.failures), storage.failures, storage.outcome)
              && (!ok ==> storage.failures > old(storage.failures))
    {
      var bytes;
      ok, bytes := storage.Pread(src, seq(hi - lo, _ => 0), lo);
      if ok {
        ok := storage.Pwrite(dst, bytes, lo);
        if ok {
          forall i: nat | lo <= i < hi ensures storage.content(dst, i) == old(storage.content)(src, i) {
            assert bytes[i - lo] == old(storage.content)(src, lo + (i - lo));
          }
        }
      }
    }

    /** One round of `makeFullCopyOnWrite`: copy the gap before a segment, share the segment, write it out if clean. */
    method CopySegment(src: ObjectId, dst: ObjectId, k: nat, cursor: nat, ghost stored0: Stored) returns (ok: bool)
      requires Inv(objects, heap, owners, alignment) && src != dst && src in objects && dst in objects
               && k in objects[src]
      requires CopiedUpTo(objects[src], objects[dst], heap, stored0, storage.content, src, dst, cursor)
      requires cursor <= objects[src][k].offset && forall j | j in objects[src] && cursor <= j ::
               objects[src][k].offset <= j
      modifies this, storage
      ensures ok ==> Inv(objects, heap, owners, alignment) && OthersKept(old(objects), objects, dst)
                     && SameBytes(old(heap), heap)
      ensures ok ==> src in objects && dst in objects && objects[src] == old(objects[src])
      ensures ok ==> CopiedUpTo(objects[src], objects[dst], heap, stored0, storage.content, src, dst,
                                objects[src][k].End())
      ensures old(storage.calls) <= storage.calls
              && (ok <==> Quiet(storage.outcome, old(storage.calls), storage.calls))
      ensures ok ==> storage.calls == old(storage.calls) + (if cursor < old(objects[src][k]).offset then 2 else 0)
                                      + if old(objects[src][k]).dirty then 0 else 1
      ensures Onward(old(storage.failures), storage.failures, storage.outcome)
              && (!ok ==> storage.failures > old(storage.failures))
    {
      hide Inv, CopiedUpTo, Indexed, BlockAligned, AlignedTo, FreeRange, AllBacked, SameBytes, Agrees;
      IndexOf(objects, heap, owners, alignment, src);
      SlotHasOwner(objects, heap, owners, alignment, src, k);
      ghost var m := objects[src];
      var s := objects[src][k];
      if cursor < s.offset {
        ghost var before := storage.content;
        ok := MakeCowSegment(src, dst, cursor, s.offset);
        if !ok { return; }
        SourceStored(m, objects[dst], heap, stored0, before, src, dst, cursor);
        GapCopied(m, objects[dst], heap, stored0, before, storage.content, src, dst, cursor, s.offset);
      }
      ghost var before, md, hp := storage.content, objects[dst], heap;
      CopiedFree(m, objects[dst], alignment, heap, stored0, before, src, dst, k);
      ShareSegment(dst, s);
      SlotHasOwner(objects, heap, owners, alignment, src, k);
      CopiedHeap(m, md, hp, heap, stored0, before, src, dst, s.offset);
      ok := true;
      if !s.dirty {
        ok := storage.Pwrite(dst, heap[s.ptr].bytes, s.offset);
        if !ok { return; }
        BytesAgree(heap, storage.content, dst, s);
      }
      SegmentCopied(m, md, heap, stored0, before, storage.content, src, dst, k);
    }

    /** Loop of `makeFullCopyOnWrite` over the source's segments, into an empty object. */
    method CopySegments(src: ObjectId, dst: ObjectId) returns (ok: bool, ghost end: nat)
      requires Inv(objects, heap, owners, alignment) && src != dst && src in objects && dst in objects
               && objects[dst] == map[]
      modifies this, storage
      ensures ok ==> Inv(objects, heap, owners, alignment) && OthersKept(old(objects), objects, dst)
                     && SameBytes(old(heap), heap)
      ensures ok ==> src in objects && dst in objects && objects[src] == old(objects[src])
                     && CachedEnd(objects[src], end)
      ensures ok ==> CopiedUpTo(objects[src], objects[dst], heap, old(storage.content), storage.content, src, dst, end)
      ensures old(storage.calls) <= storage.calls
              && (ok <==> Quiet(storage.outcome, old(storage.calls), storage.calls))
      ensures ok ==> storage.calls == old(storage.calls) + 2 * |Gaps(old(objects[src]))| + |Clean(old(objects[src]))|
      ensures Onward(old(storage.failures), storage.failures, storage.outcome)
              && (!ok ==> storage.failures > old(storage.failures))
    {
      hide Inv, CopiedUpTo, Indexed, BlockAligned, AllBacked, CallsBelow, Perfect;
      ghost var m := objects[src];
      CallsNone(m);
      NothingCopied(m, heap, storage.content, src, dst);
      var cursor: nat := 0;
      var it := LowerBound(objects[src].Keys, 0);
      while it.Some?
        invariant Inv(objects, heap, owners, alignment) && OthersKept(old(objects), objects, dst)
                  && SameBytes(old(heap), heap)
        invariant src in objects && dst in objects && objects[src] == m
        invariant CopiedUpTo(m, objects[dst], heap, old(storage.content), storage.content, src, dst, cursor)
        invariant it.Some? ==> it.value in m && cursor <= it.value && forall j | j in m && cursor <= j :: it.value <= j
        invariant it.None? ==> forall j | j in m :: j < cursor
        invariant cursor > 0 ==> cursor - 1 in m
        invariant storage.calls == old(storage.calls) + CallsBelow(m, cursor)
        invariant Quiet(storage.outcome, old(storage.calls), storage.calls)
        invariant Onward(old(storage.failures), storage.failures, storage.outcome)
        decreases Ahead(m.Keys, it)
      {
        hide Ahead, OthersKept, SameBytes;
        var k := it.value;
        IndexOf(objects, heap, owners, alignment, src);
        NextSegment(m, k, cursor);
        KeyOf(m, k);
        CallsNext(m, k, cursor);
        ghost var objs, hp := objects, heap;
        ok := CopySegment(src, dst, k, cursor, old(storage.content));
        if !ok { return false, 0; }
        OthersKeptTransitive(old(objects), objs, objects, dst);
        SameBytesTransitive(old(heap), hp, heap);
        cursor := objects[src][k].End();
        AheadShrinks(m.Keys, k);
        it := LowerBound(objects[src].Keys, k + 1);
      }
      CallsEnd(m, cursor);
      ok, end := true, cursor;
    }

    /** A full copy-on-write request: replaces `dst` by a copy of `src` that shares every cached segment. */
    method MakeObjectFullCow(src: ObjectId, dst: ObjectId, allowExist: bool) returns (r: CowResult, ghost end: nat)
      requires Inv(objects, heap, owners, alignment)
      modifies this, storage
      ensures r.NotFound? <==> src !in old(objects)
      ensures r.AlreadyExists? <==> src in old(objects) && dst in old(objects) && !allowExist
      ensures r.NullDereference? <==> src in old(objects) && src == dst && allowExist
      ensures r.NotFound? || r.AlreadyExists? ==> objects == old(objects) && heap == old(heap)
                                                  && storage.content == old(storage.content)
      ensures r.NotFound? || r.AlreadyExists? || r.Done? ==> Inv(objects, heap, owners, alignment)
      ensures r.Done? ==> FullCowDone(old(objects), old(heap), old(storage.content), objects, heap, storage.content,
                                      src, dst, end)
      ensures r.Done? ==> objects.Keys == old(objects).Keys + {dst}
      ensures r.Done? ==> storage.calls == old(storage.calls) + 1 + 2 * |Gaps(old(objects)[src])|
                                           + |Clean(old(objects)[src])|
      ensures r.Done? || r.Aborted? ==>
                (r.Done? <==> (allowExist || storage.outcome(old(storage.calls)).None?)
                              && Quiet(storage.outcome, old(storage.calls) + 1, storage.calls))
      ensures Onward(old(storage.failures), storage.failures, storage.outcome)
              && (r.Aborted? ==> storage.failures > old(storage.failures))
    {
      hide Inv, FullCowDone, CopiedUpTo, CachedEnd, SameBytes, Gaps, Clean;
      end := 0;
      if src !in objects { return NotFound, 0; }
      if dst in objects && !allowExist { return AlreadyExists, 0; }
      if src == dst { return NullDereference, 0; }
      if dst in objects {
        DeleteObject(dst);
      } else {
        OnlyFreedRefl(heap);
        EmptyObjectKeepsInv(objects, heap, owners, alignment, dst);
        objects := objects[dst := map[]];
      }
      var created := storage.Create(dst, allowExist);
      if !created && !allowExist { return Aborted, 0; }
      ghost var objs1, heap1, owners1 := objects, heap, owners;
      var ok;
      ok, end := CopySegments(src, dst);
      if !ok { return Aborted, 0; }
      FullCowViews(old(objects), old(heap), old(owners), objs1, heap1, owners1, objects, heap, owners, alignment,
                   old(storage.content), storage.content, src, dst, end);
      r := Done;
    }

    /** Copy loop of `rangeCopyOnWriteSegment`; its length ignores where in the segment the copy starts. */
    method CopyRange(id: ObjectId, at: nat, data: seq<Byte>, segs: seq<Descr>) returns (ok: bool)
      requires Inv(objects, heap, owners, alignment) && id in objects && data != []
      requires AllInMap(segs, objects[id]) && AllPrivate(segs, heap) && Serves(segs, at, |data|)
      modifies this`heap
      ensures ok <==> SafeFirst(segs, at, |data|)
      ensures ok ==> Inv(objects, heap, owners, alignment)
      ensures ok ==> Patched(objects, old(heap), objects, heap, storage.content, id, at, data) && AllPrivate(segs, heap)
    {
      hide Inv, SameRefs, Patched, AllInMap, AllPrivate;
      PatchedNothing(objects, heap, storage.content, id, at);
      SameRefsRefl(heap);
      var cur: nat := 0;
      assert data[..cur] == [];
      for j := 0 to |segs|
        invariant Inv(objects, heap, owners, alignment) && SameRefs(old(heap), heap) && AllPrivate(segs, heap)
        invariant cur <= |data| && Patched(objects, old(heap), objects, heap, storage.content, id, at, data[..cur])
        invariant cur == Progress(segs, at, |data|, j)
        invariant j > 0 ==> SafeFirst(segs, at, |data|)
      {
        var segment := segs[j];
        var destOffset := at + cur - segment.offset;
        var copySize := if segment.size > |data| - cur then |data| - cur else segment.size;
        if destOffset + copySize > segment.size { return false; }
        ListedSlot(segs, objects[id], heap, j);
        ghost var heap1 := heap;
        CopyInto(id, segment.End() - 1, destOffset, data[cur..cur + copySize]);
        SameRefsTransitive(segs, old(heap), heap1, heap);
        PatchedExtends(objects, old(heap), heap1, heap, storage.content, id, at, data, cur, copySize);
        cur := cur + copySize;
      }
      assert data[..cur] == data;
      ok := true;
    }

    /** Replaces or creates the slot of a fully covered segment by a shared one. */
    method ShareInto(src: ObjectId, dst: ObjectId, k: nat)
      requires Inv(objects, heap, owners, alignment) && src != dst && src in objects && dst in objects
               && k in objects[src]
      requires k == objects[src][k].End() - 1 && objects[src][k].size > 0
      requires k in objects[dst] ==> objects[dst][k].offset == objects[src][k].offset
                                     && objects[dst][k].size == objects[src][k].size
      requires FreeRange(objects[dst] - {k}, objects[src][k].offset, objects[src][k].End())
      modifies this
      ensures Inv(objects, heap, owners, alignment) && OthersKept(old(objects), objects, dst) && dst in objects
      ensures objects[dst] == old(objects[dst])[k := old(objects[src][k])]
      ensures OnlyFreed(old(heap), heap)
    {
      hide Inv, AlignedTo, FreeRange, SameBytes, DropOwner, Drop, Indexed, AllBacked;
      var s := objects[src][k];
      if k in objects[dst] {
        var p := objects[dst][k].ptr;
        DroppedSlotKeepsInv(objects, heap, owners, alignment, dst, k);
        owners := DropOwner(owners, p, (dst, k));
        heap := Drop(heap, p);
        objects := RemoveSlot(objects, dst, k);
      } else {
        OnlyFreedRefl(heap);
        assert objects[dst] - {k} == objects[dst];
      }
      ghost var objs1, heap1 := objects, heap;
      IndexOf(objects, heap, owners, alignment, src);
      SlotHasOwner(objects, heap, owners, alignment, src, k);
      ShareSegment(dst, s);
      SameBytesFreesNothing(heap1, heap);
      OnlyFreedTransitive(old(heap), heap1, heap);
      assert objects[dst] == old(objects[dst])[k := s];
    }

    /** Copies bytes `[lo, hi)` of a source segment into the buffers of another object. */
    method CopyPart(src: ObjectId, dst: ObjectId, k: nat, lo: nat, hi: nat) returns (r: RangeResult)
      requires Inv(objects, heap, owners, alignment) && src != dst && src in objects && dst in objects
               && k in objects[src]
      requires objects[src][k].offset <= lo < hi <= objects[src][k].End()
      modifies this, storage`failures, storage`calls
      ensures src in objects && dst in objects && objects[src] == old(objects[src])
              && OthersKept(old(objects), objects, dst)
      ensures SameFrom(old(objects[dst]), objects[dst], objects[src][k].End())
      ensures !r.Overrun? ==> Inv(objects, heap, owners, alignment)
      ensures r.LoadFailed? ==> RangeStep(old(objects), old(heap), objects, heap, storage.content, src, dst, 0, 0,
                                          false, false)
      ensures r.Copied? ==> RangeStep(old(objects), old(heap), objects, heap, storage.content, src, dst, lo, hi, false,
                                      false)
      ensures !r.LoadFailed? ==> (r.Overrun? <==> !CopyFits(old(objects[dst]), alignment, lo, hi - lo))
      ensures old(storage.calls) <= storage.calls
              && (r.LoadFailed? <==> !Quiet(storage.outcome, old(storage.calls), storage.calls))
      ensures storage.calls == old(storage.calls) <==>
                CoveredRange(old(objects[dst]), AlignedBase(lo, alignment), AlignedEnd(lo, hi - lo, alignment))
      ensures KeptBelow(old(objects[dst]), objects[dst], objects[src][k].offset)
              && FlagsKept(old(objects[dst]), objects[dst])
      ensures Onward(old(storage.failures), storage.failures, storage.outcome)
              && (r.LoadFailed? ==> storage.failures > old(storage.failures))
    {
      hide Inv, RangeStep, Fetched, GapShaped, Serves, AllPrivate, Lists, Tiles, SameRefs, Indexed, BlockAligned,
           AllBacked, CopyFits, SafeFirst, Patched, AlignedTo, CoveredRange, AlignedBase, AlignedSize, AlignedEnd,
           SameFrom, CellsKept, SlotsKept, KeptBelow, FlagsKept;
      ghost var stored := storage.content;
      IndexOf(objects, heap, owners, alignment, src);
      IndexOf(objects, heap, owners, alignment, dst);
      BlockEnd(objects[src], alignment, k);
      var s := objects[src][k];
      var ok, segs; ghost var clean;
      ok, segs, clean := GetBuffers(dst, lo, hi - lo, true, true, false);
      ghost var objs1, heap1, owners1 := objects, heap, owners;
      FetchedParts(old(objects), old(heap), objects, heap, stored, dst, true, false, lo, hi - lo);
      IndexOf(objects, heap, owners, alignment, dst);
      FetchedSameFrom(old(objects[dst]), old(heap), objects[dst], heap, alignment, lo, hi - lo, s.End());
      FetchedBelow(old(objects[dst]), objects[dst], alignment, lo, hi - lo, s.offset);
      FetchedFlags(old(objects), old(heap), objects, heap, stored, dst, true, false, lo, hi - lo);
      if !ok {
        FetchedStep(old(objects), old(heap), old(owners), objects, heap, owners, alignment, stored, src, dst, lo,
                    hi - lo);
        return LoadFailed;
      }
      TilesServe(segs, objects[dst], alignment, lo, hi - lo);
      ListsInMap(segs, objects[dst], AlignedBase(lo, alignment), AlignedSize(lo, hi - lo, alignment));
      FirstSegmentFits(segs, old(objects[dst]), old(heap), objects[dst], heap, alignment, lo, hi - lo);
      SlotHasOwner(objects, heap, owners, alignment, src, k);
      var data := heap[s.ptr].bytes[lo - s.offset..hi - s.offset];
      ok := CopyRange(dst, lo, data, segs);
      if !ok { return Overrun; }
      CopiedStep(old(objects), old(heap), old(owners), objs1, heap1, owners1, heap, alignment, stored, src, dst, k, lo,
                 hi);
      r := Copied;
    }

    /** Copies what one source segment has of the range: by sharing it if both sides allow, byte by byte otherwise. */
    method RangeCopySegment(src: ObjectId, dst: ObjectId, k: nat, offset: nat, size: nat) returns (r: RangeResult)
      requires Inv(objects, heap, owners, alignment) && src != dst && src in objects && dst in objects
               && k in objects[src]
      requires size > 0 && objects[src][k].Overlap(offset, size)
      modifies this, storage`failures, storage`calls
      ensures src in objects && dst in objects && objects[src] == old(objects[src])
              && OthersKept(old(objects), objects, dst)
      ensures SameFrom(old(objects[dst]), objects[dst], objects[src][k].End())
      ensures !r.Overrun? ==> Inv(objects, heap, owners, alignment)
      ensures old(storage.calls) <= storage.calls
              && (r.LoadFailed? <==> !Quiet(storage.outcome, old(storage.calls), storage.calls))
      ensures storage.calls > old(storage.calls) <==>
                CopyLoads(old(objects[dst]), alignment, objects[src][k], offset, size)
      ensures KeptBelow(old(objects[dst]), objects[dst], objects[src][k].offset)
      ensures var s, md := objects[src][k], old(objects[dst]);
              if && offset <= s.offset && s.End() <= offset + size
                 && ((forall j | j in md :: j < s.offset)
                     || (k in md && md[k].offset == s.offset && md[k].size == s.size))
              then !MustCopy(md, s, offset, size) && r.Copied? && objects[dst] == md[k := s]
                   && storage.calls == old(storage.calls)
              else MustCopy(md, s, offset, size) && FlagsKept(md, objects[dst])
      ensures r.LoadFailed? ==> RangeStep(old(objects), old(heap), objects, heap, storage.content, src, dst, 0, 0,
                                          false, false)
      ensures r.Copied? ==> RangeStep(old(objects), old(heap), objects, heap, storage.content, src, dst,
                                      Max(objects[src][k].offset, offset), Min(objects[src][k].End(), offset + size),
                                      !MustCopy(old(objects[dst]), objects[src][k], offset, size),
                                      objects[src][k].dirty)
      ensures !r.LoadFailed? ==> (r.Overrun? <==> Overruns(old(objects[dst]), alignment, objects[src][k], offset, size))
      ensures Onward(old(storage.failures), storage.failures, storage.outcome)
              && (r.LoadFailed? ==> storage.failures > old(storage.failures))
    {
      hide Inv, RangeStep, Indexed, BlockAligned, AllBacked, CopyFits, MustCopy, OnlyFreed, SameFrom, CoveredRange,
           AlignedBase, AlignedSize, KeptBelow, FlagsKept;
      ghost var stored := storage.content;
      IndexOf(objects, heap, owners, alignment, src);
      IndexOf(objects, heap, owners, alignment, dst);
      KeyOf(objects[src], k);
      var s := objects[src][k];
      MustCopyIff(objects[dst], s, offset, size);
      if MustCopy(objects[dst], s, offset, size) {
        r := CopyPart(src, dst, k, Max(s.offset, offset), Min(s.End(), offset + size));
        if r.Copied? {
          AnyFlag(old(objects), old(heap), objects, heap, stored, src, dst, Max(s.offset, offset),
                  Min(s.End(), offset + size), s.dirty);
        }
      } else {
        SharePlace(objects[dst], s, offset, size);
        ShareInto(src, dst, k);
        SharedStep(old(objects), old(heap), old(owners), objects, heap, owners, alignment, stored, src, dst, k);
        WholeSegment(old(objects[dst]), s, offset, size);
        SharedSameFrom(old(objects[dst]), s);
        SharedBelow(old(objects[dst]), s);
        r := Copied;
      }
    }

    /** One round of the loop of `rangeCopyOnWrite`, in a walk that began with `objs0` and `heap0`. */
    method RangeCopyRound(src: ObjectId, dst: ObjectId, k: nat, offset: nat, size: nat, ghost objs0: Objects,
                          ghost heap0: Heap, ghost failed: set<nat>, ghost bound: nat, ghost since: nat,
                          ghost from: nat)
      returns (r: RangeResult)
      requires Inv(objects, heap, owners, alignment) && src != dst && src in objects && dst in objects
               && k in objects[src]
      requires size > 0 && objects[src][k].Overlap(offset, size) && since <= objects[src][k].offset
      requires Stands(objects[src], Some(k), bound) && Indexed(SegmentsOf(objs0, dst))
      requires RangeState(objs0, heap0, objects, heap, storage.content, alignment, src, dst, objects[src], offset, size,
                          failed, bound, since)
      requires Accounted(storage.outcome, from, storage.calls, failed, objects[src], SegmentsOf(objs0, dst), alignment,
                         offset, size, bound)
      modifies this, storage`failures, storage`calls
      ensures objects.Keys == old(objects).Keys && src in objects && objects[src] == old(objects[src])
      ensures r.Overrun? ==> RangeOverruns(objects[src], SegmentsOf(objs0, dst), alignment, offset, size)
                             && MayFail(objects[src], SegmentsOf(objs0, dst), alignment, offset, size, failed)
      ensures !r.Overrun? ==> Inv(objects, heap, owners, alignment)
      ensures !r.Overrun? ==> RangeState(objs0, heap0, objects, heap, storage.content, alignment, src, dst,
                                         objects[src], offset, size, if r.Copied? then failed else failed + {k}, k + 1,
                                         objects[src][k].End())
      ensures !r.Overrun? ==> Accounted(storage.outcome, from, storage.calls,
                                        if r.Copied? then failed else failed + {k}, objects[src],
                                        SegmentsOf(objs0, dst), alignment, offset, size, k + 1)
      ensures Onward(old(storage.failures), storage.failures, storage.outcome)
              && (r.LoadFailed? ==> storage.failures > old(storage.failures))
    {
      hide Inv, RangeStep, RangeState, Indexed, BlockAligned, AllBacked, Overruns, RangeOverruns, MustCopy, Max, Min,
           SameFrom, Stands, MayFail, LowerBound, CopyLoads, LoadsBefore, AlignedTo, Accounted, Perfect, KeptBelow,
           FlagsKept;
      ghost var m, md, stored := objects[src], SegmentsOf(objs0, dst), storage.content;
      IndexOf(objects, heap, owners, alignment, src);
      IndexOf(objects, heap, owners, alignment, dst);
      BlockEnd(m, alignment, k);
      r := RangeCopySegment(src, dst, k, offset, size);
      if r.Overrun? {
        OverrunFound(objs0, heap0, old(objects), old(heap), stored, alignment, src, dst, m, offset, size, failed, bound,
                     since, k);
        return;
      }
      RangeStateStep(objs0, heap0, old(objects), old(heap), objects, heap, stored, alignment, src, dst, m, offset, size,
                     failed, bound, since, k, r.Copied?);
      AccountedNext(storage.outcome, from, old(storage.calls), storage.calls, failed, m, md, alignment, offset, size,
                    bound, k, storage.calls > old(storage.calls), r.Copied?);
    }

    /**
      Loop of `rangeCopyOnWrite` over the source segments that overlap the range. It goes on after a segment for which a
      load failed; `failed` are the keys of those segments.
     */
    method RangeCopyOnWrite(src: ObjectId, dst: ObjectId, offset: nat, size: nat)
        returns (r: RangeResult, ghost failed: set<nat>)
      requires Inv(objects, heap, owners, alignment) && src != dst && src in objects && dst in objects && size > 0
      modifies this, storage`failures, storage`calls
      ensures !r.Overrun? ==> Inv(objects, heap, owners, alignment)
                              && RangeCowDone(old(objects), old(heap), objects, heap, storage.content, src, dst, offset,
                                              size, failed)
      ensures MayFail(old(objects[src]), old(objects[dst]), alignment, offset, size, failed)
      ensures !r.Overrun? ==> dst in objects
                              && SlotsDone(old(objects[src]), old(objects[dst]), objects[dst], offset, size)
      ensures !r.Overrun? ==> (r.Copied? <==> failed == {}) && old(storage.calls) <= storage.calls
      ensures !r.Overrun? ==> (r.Copied? <==> Quiet(storage.outcome, old(storage.calls), storage.calls))
      ensures !r.Overrun? ==> (storage.calls > old(storage.calls) <==>
                               RangeLoads(old(objects[src]), old(objects[dst]), alignment, offset, size))
      ensures r.Overrun? ==> RangeOverruns(old(objects[src]), old(objects[dst]), alignment, offset, size)
      ensures r.Copied? ==> !RangeOverruns(old(objects[src]), old(objects[dst]), alignment, offset, size)
      ensures Onward(old(storage.failures), storage.failures, storage.outcome)
              && (r.LoadFailed? ==> storage.failures > old(storage.failures))
      ensures objects.Keys == old(objects).Keys
    {
      hide Inv, RangeState, RangeCowDone, Indexed, BlockAligned, AllBacked, RangeOverruns, Ahead, Perfect, Stands,
           MayFail, LowerBound, RangeLoads, LoadsBefore, Accounted, Quiet, SlotsAfter, SlotsDone;
      ghost var m, md, stored, from := objects[src], objects[dst], storage.content, storage.calls;
      ghost var bound: nat, since: nat := offset, 0;
      IndexOf(objects, heap, owners, alignment, src);
      IndexOf(objects, heap, owners, alignment, dst);
      r, failed := Copied, {};
      var it := LowerBound(objects[src].Keys, offset);
      StandsFirst(m, offset);
      RangeStateStart(objects, heap, stored, alignment, src, dst, m, offset, size, bound);
      AccountedStart(storage.outcome, from, m, md, alignment, offset, size, bound);
      if it.Some? && !objects[src][it.value].Overlap(offset, size) {
        // the iterator moves on once more; nothing past it overlaps either
        StandsAtEnd(m, it, bound, offset, size);
        RangeStateEnds(objects, heap, objects, heap, stored, alignment, src, dst, m, offset, size, failed, bound,
                       since);
        SlotsEnd(m, md, md, offset, size, bound);
        AccountedEnds(storage.outcome, from, from, failed, m, md, alignment, offset, size, bound);
        return;
      }
      while it.Some? && objects[src][it.value].Overlap(offset, size)
        invariant Inv(objects, heap, owners, alignment) && objects.Keys == old(objects).Keys && objects[src] == m
                  && !r.Overrun?
        invariant offset <= bound && Stands(m, it, bound)
        invariant it.Some? ==> it.value in m && since <= m[it.value].offset && bound <= it.value
        invariant RangeState(old(objects), old(heap), objects, heap, stored, alignment, src, dst, m, offset, size,
                             failed, bound, since)
        invariant Accounted(storage.outcome, from, storage.calls, failed, m, md, alignment, offset, size, bound)
        invariant r.Copied? <==> failed == {}
        invariant Onward(old(storage.failures), storage.failures, storage.outcome)
                  && (r.LoadFailed? ==> storage.failures > old(storage.failures))
        decreases Ahead(m.Keys, it)
      {
        var k := it.value;
        var step := RangeCopyRound(src, dst, k, offset, size, old(objects), old(heap), failed, bound, since, from);
        if step.Overrun? { return Overrun, failed; }
        if step.LoadFailed? { r, failed := LoadFailed, failed + {k}; }
        AheadShrinks(m.Keys, k);
        bound, since := k + 1, m[k].End();
        it := LowerBound(objects[src].Keys, k + 1);
        StandsNext(m, k);
      }
      StandsAtEnd(m, it, bound, offset, size);
      RangeStateEnds(old(objects), old(heap), objects, heap, stored, alignment, src, dst, m, offset, size, failed,
                     bound, since);
      SlotsEnd(m, md, objects[dst], offset, size, bound);
      AccountedEnds(storage.outcome, from, storage.calls, failed, m, md, alignment, offset, size, bound);
    }

    /** Copies bytes `[lo, hi)` of a segment onto themselves: its buffer becomes private and gets its bytes again. */
    method SelfCopyPart(id: ObjectId, k: nat, lo: nat, hi: nat)
      requires Inv(objects, heap, owners, alignment) && id in objects && k in objects[id]
      requires objects[id][k].offset <= lo < hi <= objects[id][k].End()
      modifies this, storage`failures, storage`calls
      ensures Inv(objects, heap, owners, alignment)
              && SelfCopied(old(objects), old(heap), objects, heap, storage.content, id)
      ensures id in objects && k in objects[id] && objects[id][k].ptr in heap && heap[objects[id][k].ptr].refs == 1
      ensures storage.calls == old(storage.calls)
      ensures Onward(old(storage.failures), storage.failures, storage.outcome)
    {
      hide Inv, Fetched, GapShaped, Serves, AllPrivate, Lists, Tiles, Indexed, BlockAligned, AllBacked, CopyFits,
           SafeFirst, Patched, AlignedBase, AlignedSize, AlignedEnd, CoveredRange, SameViews, Bare, SlotsKept,
           AllLoaded, FreeRange, NeedsLoad, CellsKept, OthersKept;
      var s := objects[id][k];
      IndexOf(objects, heap, owners, alignment, id);
      KeyOf(objects[id], k);
      WithinCovered(objects[id], alignment, k, lo, hi - lo);
      var ok, segs; ghost var clean;
      ok, segs, clean := GetBuffers(id, lo, hi - lo, true, true, false);
      ghost var objs1, heap1, owners1 := objects, heap, owners;
      FetchedParts(old(objects), old(heap), objects, heap, storage.content, id, true, false, lo, hi - lo);
      IndexOf(objects, heap, owners, alignment, id);
      WithinSegment(old(objects[id]), old(heap), objects[id], heap, alignment, k, lo, hi - lo);
      TilesServe(segs, objects[id], alignment, lo, hi - lo);
      ListsInMap(segs, objects[id], AlignedBase(lo, alignment), AlignedSize(lo, hi - lo, alignment));
      FirstSegmentFits(segs, old(objects[id]), old(heap), objects[id], heap, alignment, lo, hi - lo);
      SelfFits(old(objects[id]), alignment, k, lo, hi - lo);
      PrivateSlot(segs, old(objects[id]), objects[id], heap, alignment, k, lo, hi - lo);
      SlotHasOwner(objects, heap, owners, alignment, id, k);
      var data := heap[objects[id][k].ptr].bytes[lo - s.offset..hi - s.offset];
      ok := CopyRange(id, lo, data, segs);
      SelfPatched(old(objects), old(heap), old(owners), objs1, heap1, owners1, heap, alignment, storage.content, id, k,
                  lo, hi);
      PrivateSlot(segs, old(objects[id]), objects[id], heap, alignment, k, lo, hi - lo);
    }

    /** Copies what a segment has of the range onto itself: nothing to do if that is all of it. */
    method SelfCopySegment(id: ObjectId, k: nat, offset: nat, size: nat)
      requires Inv(objects, heap, owners, alignment) && id in objects && k in objects[id]
      requires size > 0 && objects[id][k].Overlap(offset, size)
      modifies this, storage`failures, storage`calls
      ensures Inv(objects, heap, owners, alignment)
              && SelfCopied(old(objects), old(heap), objects, heap, storage.content, id)
      ensures if offset <= old(objects[id][k]).offset && old(objects[id][k]).End() <= offset + size
              then objects == old(objects) && heap == old(heap)
              else id in objects && k in objects[id] && objects[id][k].ptr in heap && heap[objects[id][k].ptr].refs == 1
      ensures storage.calls == old(storage.calls)
      ensures Onward(old(storage.failures), storage.failures, storage.outcome)
    {
      hide Inv, MustCopy, SelfCopied, Indexed, BlockAligned, AllBacked;
      SelfCopiedNothing(objects, heap, storage.content, id);
      var s := objects[id][k];
      IndexOf(objects, heap, owners, alignment, id);
      KeyOf(objects[id], k);
      MustCopyIff(objects[id], s, offset, size);
      if MustCopy(objects[id], s, offset, size) {
        SelfCopyPart(id, k, Max(s.offset, offset), Min(s.End(), offset + size));
      }
    }

    /** The loop of `rangeCopyOnWrite` when source and destination are the same object. */
    method RangeCopyOntoItself(id: ObjectId, offset: nat, size: nat)
      requires Inv(objects, heap, owners, alignment) && id in objects && size > 0
      modifies this, storage`failures, storage`calls
      ensures Inv(objects, heap, owners, alignment)
              && SelfCopied(old(objects), old(heap), objects, heap, storage.content, id)
      ensures storage.calls == old(storage.calls)
      ensures Onward(old(storage.failures), storage.failures, storage.outcome)
    {
      hide Inv, SelfCopied, Ahead;
      SelfCopiedNothing(objects, heap, storage.content, id);
      ghost var keys := objects[id].Keys;
      var it := LowerBound(objects[id].Keys, offset);
      if it.Some? && !objects[id][it.value].Overlap(offset, size) {
        it := LowerBound(objects[id].Keys, it.value + 1);
      }
      while it.Some? && objects[id][it.value].Overlap(offset, size)
        invariant Inv(objects, heap, owners, alignment) && id in objects && objects[id].Keys == keys
                  && (it.Some? ==> it.value in keys)
        invariant SelfCopied(old(objects), old(heap), objects, heap, storage.content, id)
        invariant storage.calls == old(storage.calls)
        invariant Onward(old(storage.failures), storage.failures, storage.outcome)
        decreases Ahead(keys, it)
      {
        var k := it.value;
        ghost var objs, hp := objects, heap;
        SelfCopySegment(id, k, offset, size);
        SelfCopiedKeys(objs, hp, objects, heap, storage.content, id);
        SelfCopiedThen(old(objects), old(heap), objs, hp, objects, heap, storage.content, id);
        assert it == Some(k) && objects[id].Keys == keys;
        AheadShrinks(keys, k);
        it := LowerBound(objects[id].Keys, k + 1);
      }
    }

    /**
      A range copy-on-write request; `HookObjectCow` sends a range of size 0 to the full copy instead. It overruns a
      buffer exactly if some source segment does so on the destination as it was before the request. It is acknowledged
      even if loads failed: then exactly the source segments in `failed` are missing from the copy, and only segments
      whose copy had to load can be among them.
     */
    method MakeObjectRangeCow(src: ObjectId, dst: ObjectId, allowExist: bool, offset: nat, size: nat)
        returns (ok: bool, r: RangeResult, ghost failed: set<nat>)
      requires Inv(objects, heap, owners, alignment) && size > 0
      modifies this, storage`failures, storage`calls
      ensures ok <==> src in old(objects) && (dst in old(objects) ==> allowExist)
      ensures !ok ==> objects == old(objects) && heap == old(heap) && r.Copied?
      ensures !r.Overrun? ==> Inv(objects, heap, owners, alignment) && (r.Copied? <==> failed == {})
      ensures ok && !r.Overrun? ==> RangeCowDone(old(objects), old(heap), objects, heap, storage.content, src, dst,
                                                 offset, size, failed)
      ensures ok ==> MayFail(SegmentsOf(old(objects), src), SegmentsOf(old(objects), dst), alignment, offset, size,
                             failed)
      ensures ok && src == dst ==> r.Copied? && storage.calls == old(storage.calls)
      ensures ok && src != dst && !r.Overrun? ==>
                && (r.Copied? <==> Quiet(storage.outcome, old(storage.calls), storage.calls))
                && (storage.calls > old(storage.calls) <==>
                    RangeLoads(SegmentsOf(old(objects), src), SegmentsOf(old(objects), dst), alignment, offset, size))
      ensures ok && r.Copied? ==> !RangeOverruns(SegmentsOf(old(objects), src), SegmentsOf(old(objects), dst),
                                                 alignment, offset, size)
      ensures r.Overrun? ==> RangeOverruns(SegmentsOf(old(objects), src), SegmentsOf(old(objects), dst), alignment,
                                           offset, size)
      ensures ok ==> objects.Keys == old(objects).Keys + {dst}
      ensures ok && src != dst && !r.Overrun? ==>
                SlotsDone(SegmentsOf(old(objects), src), SegmentsOf(old(objects), dst), objects[dst], offset, size)
      ensures ok && r.Copied? && CleanAgrees(dst, SegmentsOf(old(objects), dst), old(heap), storage.content) ==>
                (CleanAgrees(dst, SegmentsOf(objects, dst), heap, storage.content) <==>
                 AllSegmentsStored(old(objects), old(heap), storage.content, src, dst, offset, size))
      ensures Onward(old(storage.failures), storage.failures, storage.outcome)
              && (r.LoadFailed? ==> storage.failures > old(storage.failures))
    {
      hide Inv, RangeCowDone, RangeOverruns, SelfCopied, CleanAgrees, AllSegmentsStored, WellShaped, CopyLoads,
           RangeLoads, SlotsDone, Quiet, Perfect;
      if src !in objects || (dst in objects && !allowExist) {
        return false, Copied, {};
      }
      if src == dst {
        RangeCopyOntoItself(dst, offset, size);
        SelfRangeDone(old(objects), old(heap), old(owners), alignment, objects, heap, storage.content, dst, offset,
                      size);
        SelfObjects(old(objects), old(heap), objects, heap, storage.content, dst);
        RangeWriteBack(old(objects), old(heap), old(owners), objects, heap, owners, storage.content, alignment, src,
                       dst, offset, size);
        return true, Copied, {};
      }
      GetObject(dst);
      ghost var objs1 := objects;
      r, failed := RangeCopyOnWrite(src, dst, offset, size);
      EmptyObjectRange(old(objects), objs1, old(heap), objects, heap, storage.content, src, dst, offset, size, failed);
      if r.Copied? {
        RangeWriteBack(old(objects), old(heap), old(owners), objects, heap, owners, storage.content, alignment, src,
                       dst, offset, size);
      }
      ok := true;
    }

    /** Gathers the reply to a read from the segments that serve it. */
    method BuildReply(id: ObjectId, off: nat, size: nat, segs: seq<Descr>) returns (data: seq<Byte>, exact: bool)
      requires id in objects && Indexed(objects[id]) && AllBacked(objects[id], heap) && AllInMap(segs, objects[id])
               && Serves(segs, off, size)
      ensures exact <==> if size <= EAGER_MAX_READ
                         then |segs| <= 1 else forall j | 0 <= j < |segs| :: Fits(segs[j], off, size)
      ensures exact ==> |data| == size && forall x | 0 <= x < size ::
                        data[x] == ViewOf(objects[id], heap, storage.content, id, off + x)
      ensures !exact && size <= EAGER_MAX_READ ==> LastStarts(data, objects[id], heap, storage.content, id, off, size)
    {
      hide Indexed, AllBacked, AllInMap, Serves, Clamp, Fits, Gather, ViewOf, LastStarts;
      var iov;
      if size <= EAGER_MAX_READ {
        var initial: seq<IoVec> := *;
        if |initial| != |segs| { initial := seq(|segs|, _ => IoVec(0, 0, 0)); }
        iov := EagerPush(segs, off, size, initial);
        exact := |segs| <= 1;
        if !exact { EagerReplyStarts(segs, objects[id], heap, storage.content, id, off, size, initial); }
      } else {
        iov := BuildIovec(segs, off, size);
        exact := forall j | 0 <= j < |segs| :: Fits(segs[j], off, size);
      }
      data := Gather(heap, iov);
      if exact { GatherExact(segs, objects[id], heap, storage.content, id, off, size, iov); }
    }

    /**
      A read request: an eager reply for short ones, the iovec path for the others. A failed load refuses the request;
      either way no client sees a change. `exact` tells whether the reply holds the requested bytes.
     */
    method ReadMessage(id: ObjectId, off: nat, size: nat) returns (ok: bool, data: seq<Byte>, exact: bool)
      requires Inv(objects, heap, owners, alignment)
      modifies this, storage`failures, storage`calls
      ensures Inv(objects, heap, owners, alignment)
      ensures SameViews(old(objects), old(heap), storage.content, objects, heap, storage.content)
      ensures ok <==> Quiet(storage.outcome, old(storage.calls), storage.calls)
      ensures storage.calls == old(storage.calls) <==>
              CoveredRange(SegmentsOf(old(objects), id), AlignedBase(off, alignment), AlignedEnd(off, size, alignment))
      ensures ok ==> (exact <==> ReadExact(SegmentsOf(old(objects), id), alignment, off, size))
      ensures ok && exact ==> |data| == size && forall x | 0 <= x < size ::
                              data[x] == View(old(objects), old(heap), storage.content, id, off + x)
      ensures ok && !exact && size <= EAGER_MAX_READ ==>
                LastStarts(data, SegmentsOf(objects, id), heap, storage.content, id, off, size)
      ensures ReadShaped(old(objects), objects, alignment, id, off, size, ok)
              && objects.Keys == old(objects).Keys + {id}
      ensures forall k | k in SegmentsOf(old(objects), id) ::
                k in objects[id] && objects[id][k] == SegmentsOf(old(objects), id)[k]
      ensures Onward(old(storage.failures), storage.failures, storage.outcome)
              && (!ok ==> storage.failures > old(storage.failures))
    {
      hide CoveredRange, ReadShaped, Inv, SameViews, Fetched, GapShaped, Serves, Indexed, BlockAligned, AllBacked, View,
           Fits, CutsFit, OneSegment, AlignedBase, AlignedSize, AlignedEnd, LastStarts, AllLoaded, NeedsLoad, FreeRange,
           Onward, AllInMap, ViewOf, Quiet, SlotsKept, NothingThere;
      ghost var objs0, heap0, owners0 := WithObject(objects, id), heap, owners;
      if id !in objects { EmptyObjectKeepsInv(objects, heap, owners, alignment, id); }
      var segs; ghost var clean;
      ok, segs, clean := OpenRange(id, off, size, false);
      ReadEffect(old(objects), objs0, heap0, owners0, objects, heap, owners, alignment, storage.content, id, off, size);
      ReadShapes(old(objects), objs0, heap0, objects, heap, alignment, storage.content, id, off, size, clean, ok);
      FetchedParts(objs0, heap0, objects, heap, storage.content, id, clean, false, off, size);
      KeptSlots(SegmentsOf(old(objects), id), objects[id], AlignedBase(off, alignment),
                AlignedSize(off, size, alignment));
      data, exact := [], true;
      if ok {
        IndexOf(objects, heap, owners, alignment, id);
        data, exact := BuildReply(id, off, size, segs);
        if exact { ViewsOfReply(old(objects), old(heap), objects, heap, storage.content, id, off, size, data); }
      }
    }

    /**
      Serves one request. `alive` is false if the process aborted or ran into undefined behaviour; `good` also requires
      that no load failed unnoticed. Without a storage failure, exactly the requests in scope go well; those that do not
      need the storage go well whatever the storage does. A flush makes one call per selected segment, stores exactly
      what these calls reach, and is acknowledged exactly if none of them fails.
     */
    method Execute(op: FlatStore.Op) returns (alive: bool, reply: FlatStore.Reply, ghost good: bool)
      requires Inv(objects, heap, owners, alignment)
      modifies this, storage
      ensures alive ==> Inv(objects, heap, owners, alignment)
      ensures good ==> alive && FlatStore.InScope(Abstract(old(objects), old(heap), old(storage.content), alignment),
                                                  op)
      ensures good ==> FlatStore.Step(Abstract(old(objects), old(heap), old(storage.content), alignment),
                                      Abstract(objects, heap, storage.content, alignment), op, reply)
      ensures Onward(old(storage.failures), storage.failures, storage.outcome)
      ensures var s := Abstract(old(objects), old(heap), old(storage.content), alignment);
              (storage.failures == old(storage.failures) || !FlatStore.NeedsStorage(s, op)) && FlatStore.InScope(s, op)
              ==> good
      ensures storage.failures == old(storage.failures) && !op.Cow? ==> !reply.Refused?
      ensures op.Write? && !NeedsLoad(SegmentsOf(old(objects), op.id), alignment, op.off, |op.data|) ==>
                storage.calls == old(storage.calls)
      ensures op.Read? ==> (reply.Refused? <==> !Quiet(storage.outcome, old(storage.calls), storage.calls))
      ensures op.Flush? ==>
                && storage.calls == old(storage.calls) + Writes(SegmentsOf(old(objects), op.id), op.off, op.size)
                && (reply.Ack? <==> Quiet(storage.outcome, old(storage.calls), storage.calls))
                && FlushDone(old(objects), old(heap), old(storage.content), objects, storage.content, op.id, op.off,
                             op.size, storage.outcome, old(storage.calls))
    {
      hide Inv, Patched, PatchedCached, SameViews, FlushDone, FullCowDone, RangeCowDone, View, FlatStore.Step,
           FlatStore.InScope, FlatStore.NeedsStorage, WriteShaped, ReadShaped, CutsFit, ReadExact, RangeOverruns,
           FlushedAll, WellShaped, Abstract, NeedsLoad, RangeLoads, MayFail, LeftBytes, FreeRange, LastStarts, Writes;
      alive, reply, good := true, FlatStore.Ack, true;
      ghost var objs, hp, st := objects, heap, storage.content;
      InvShapes(objects, heap, owners, alignment);
      ScopeOf(objects, heap, storage.content, alignment, op);
      StorageOf(objects, heap, storage.content, alignment, op);
      match op {
        case Write(id, off, data, eager) =>
          var exact, acks;
          exact, acks, good := WriteMessage(id, off, data, eager);
          reply := if acks == 0 then FlatStore.Silent else FlatStore.Ack;
          alive := exact;
          good := good && exact;
          if good {
            InvShapes(objects, heap, owners, alignment);
            WriteRefines(objs, hp, objects, heap, st, alignment, id, off, data, eager, reply);
          }
        case Read(id, off, size) =>
          var ok, data, exact := ReadMessage(id, off, size);
          reply := if !ok then FlatStore.Refused else if exact then FlatStore.Data(data) else FlatStore.Garbled(data);
          InvShapes(objects, heap, owners, alignment);
          ReadRefines(objs, hp, objects, heap, st, alignment, id, off, size, reply);
        case Flush(id, off, size) =>
          GetObject(id);
          ghost var objs1 := objects;
          var ok := Flush(id, off, size);
          reply := if ok then FlatStore.Ack else FlatStore.Refused;
          InvShapes(objects, heap, owners, alignment);
          FlushRefines(objs, objs1, hp, objects, st, storage.content, alignment, id, off, size, storage.outcome,
                       old(storage.calls), reply);
          EmptyObjectFlush(objs, objs1, hp, objects, st, storage.content, id, off, size, storage.outcome,
                           old(storage.calls));
        case Cow(src, dst, allowExist, off, size) =>
          if size == 0 {
            var r; ghost var end;
            r, end := MakeObjectFullCow(src, dst, allowExist);
            alive := !r.NullDereference? && !r.Aborted?;
            good := alive;
            reply := if r.Done? then FlatStore.Ack else FlatStore.Refused;
            if alive { InvShapes(objects, heap, owners, alignment); }
            if r.Done? {
              FullCowRefines(objs, hp, st, objects, heap, storage.content, alignment, src, dst, allowExist, off, end);
            } else if good {
              RefusalRefines(objs, hp, st, alignment, op);
            }
          } else {
            var ok, r; ghost var failed;
            ok, r, failed := MakeObjectRangeCow(src, dst, allowExist, off, size);
            if ok && !RangeLoads(SegmentsOf(objs, src), SegmentsOf(objs, dst), alignment, off, size) {
              NothingToLoad(SegmentsOf(objs, src), SegmentsOf(objs, dst), alignment, off, size, failed);
            }
            alive := !r.Overrun?;
            good := r.Copied?;
            reply := if ok then FlatStore.Ack else FlatStore.Refused;
            if good { InvShapes(objects, heap, owners, alignment); }
            if ok && good {
              RangeCowRefines(objs, hp, objects, heap, st, alignment, src, dst, allowExist, off, size);
            } else if good {
              RefusalRefines(objs, hp, st, alignment, op);
            }
          }
      }
    }

    /**
      Serves a sequence of requests. Up to the first one that goes wrong, number `served`, they are a run of the flat
      store: the cache refines it. A request goes wrong only if it is out of scope, or if it needs the storage and a
      call to the storage has failed.
     */
    method RunAll(ops: seq<FlatStore.Op>) returns (replies: seq<FlatStore.Reply>, ghost trace: seq<FlatStore.Flat>,
                                                   ghost served: nat)
      requires Inv(objects, heap, owners, alignment)
      modifies this, storage
      ensures served <= |replies| <= |ops| && |trace| == served + 1
              && FlatStore.Run(trace, ops[..served], replies[..served])
      ensures Onward(old(storage.failures), storage.failures, storage.outcome)
      ensures trace[0] == Abstract(old(objects), old(heap), old(storage.content), alignment)
      ensures served == |ops| ==> Inv(objects, heap, owners, alignment)
                                  && trace[served] == Abstract(objects, heap, storage.content, alignment)
      ensures forall n | 0 <= n < served :: FlatStore.InScope(trace[n], ops[n])
      ensures served < |ops| ==>
                || !FlatStore.InScope(trace[served], ops[served])
                || (storage.failures > old(storage.failures) && FlatStore.NeedsStorage(trace[served], ops[served]))
      ensures storage.failures == old(storage.failures) ==>
                forall n | 0 <= n < served && !ops[n].Cow? :: !replies[n].Refused?
    {
      hide Inv, FlatStore.Step, FlatStore.InScope, FlatStore.NeedsStorage, Abstract, FlushDone, NeedsLoad, Writes;
      replies, served := [], 0;
      trace := [Abstract(objects, heap, storage.content, alignment)];
      for n := 0 to |ops|
        invariant Inv(objects, heap, owners, alignment) && |replies| == n && served <= n && |trace| == served + 1
        invariant served == n ==> trace[n] == Abstract(objects, heap, storage.content, alignment)
        invariant forall x | 0 <= x < served :: FlatStore.Step(trace[x], trace[x + 1], ops[x], replies[x])
                                                && FlatStore.InScope(trace[x], ops[x])
        invariant trace[0] == Abstract(old(objects), old(heap), old(storage.content), alignment)
        invariant Onward(old(storage.failures), storage.failures, storage.outcome)
        invariant served < n ==>
                    || !FlatStore.InScope(trace[served], ops[served])
                    || (storage.failures > old(storage.failures) && FlatStore.NeedsStorage(trace[served], ops[served]))
        invariant storage.failures == old(storage.failures) ==>
                    forall x | 0 <= x < served && !ops[x].Cow? :: !replies[x].Refused?
      {
        var alive, reply; ghost var good;
        alive, reply, good := Execute(ops[n]);
        if !alive { return; }
        replies := replies + [reply];
        if served == n && good {
          trace, served := trace + [Abstract(objects, heap, storage.content, alignment)], n + 1;
        }
      }
    }
  }
}
