/**
  Requests on which the code does less than it intends, run on the server from a fresh start or from a state with the
  invariant.
 */
module Witnesses {
  import opened Basics
  import opened SegmentIndex
  import opened SharedHeap
  import opened SegmentLoading
  import opened WriteBack
  import opened Shapes
  import opened RangeWalk
  import opened Refinement
  import opened Cache
  import FlatStore

  const A := ObjectId(0, 1)
  const B := ObjectId(0, 2)

  /** A server without objects over a storage that holds 7 everywhere. */
  method Fresh(alignment: nat, outcome: nat -> Outcome) returns (server: CacheServer)
    ensures fresh(server) && fresh(server.storage) && server.alignment == alignment && server.objects == map[]
            && server.heap == map[]
    ensures Inv(server.objects, server.heap, server.owners, alignment) && server.storage.outcome == outcome
            && server.storage.failures == 0 && server.storage.calls == 0
    ensures forall id, i: nat :: server.storage.content(id, i) == 7
    ensures forall p, i: nat :: server.former(p, i) == 0
  {
    var storage := new StorageBackend((id: ObjectId, i: nat) => 7, outcome);
    server := new CacheServer(storage, alignment, (p: Ptr, i: nat) => 0);
  }

  /** What clients of a fresh server see. */
  ghost predicate IsFresh(s: FlatStore.Flat) {
    && s.alignment == 0 && s.known == {}
    && (forall id :: s.shape(id) == map[])
    && (forall id, i: nat :: s.view(id, i) == 7 && s.stored(id, i) == 7)
  }

  lemma FreshState(heap: Heap, stored: Stored)
    requires forall id, i: nat :: stored(id, i) == 7
    ensures IsFresh(Abstract(map[], heap, stored, 0))
  {
    forall id, i: nat ensures View(map[], heap, stored, id, i) == 7 { ViewUncached(map[], heap, stored, id, i); }
  }

  /** Requests that are always in scope. */
  lemma EasyScope(s: FlatStore.Flat, op: FlatStore.Op)
    requires op.Read? || op.Flush? || (op.Write? && op.eager)
    ensures FlatStore.InScope(s, op) && (!op.Write? ==> !FlatStore.NeedsStorage(s, op))
  {
  }

  lemma NoFailures()
    ensures Perfect(_ => None)
  {
  }

  // ---- A short read over two segments --------------------------------------------------------------

  const TwoWrites := [FlatStore.Write(A, 0, [1], true), FlatStore.Write(A, 1, [2], true), FlatStore.Read(A, 0, 2)]

  lemma FirstWriteAlone(s: FlatStore.Flat, s': FlatStore.Flat, r: FlatStore.Reply) returns (k: nat)
    requires s.shape(A) == map[] && s.alignment == 0 && FlatStore.Step(s, s', FlatStore.Write(A, 0, [1], true), r)
    ensures k in s'.shape(A) && s'.shape(A)[k].Has(0) && s'.shape(A)[k].End() <= 1
  {
    assert Covered(s'.shape(A), 0);
    k :| k in s'.shape(A) && s'.shape(A)[k].Has(0);
  }

  lemma LastByteFirst(s: FlatStore.Flat, s': FlatStore.Flat, r: FlatStore.Reply)
    requires FlatStore.Step(s, s', FlatStore.Read(A, 0, 2), r) && !r.Refused? && s.alignment == 0
    requires !OneSegment(s.shape(A), 0, 2) && s.view(A, 1) == 2
    ensures r.Garbled? && |r.junk| > 0 && r.junk[0] == 2
  {
    hide OneSegment, Indexed, Filled, CoveredRange;
  }

  lemma TwoSegments(trace: seq<FlatStore.Flat>, replies: seq<FlatStore.Reply>)
    requires FlatStore.Run(trace, TwoWrites, replies) && IsFresh(trace[0]) && !replies[2].Refused?
    ensures replies[2].Garbled? && |replies[2].junk| > 0 && replies[2].junk[0] == 2
  {
    hide FlatStore.ReadStep, FlatStore.LastFirst;
    assert FlatStore.Step(trace[0], trace[1], TwoWrites[0], replies[0])
        && FlatStore.Step(trace[1], trace[2], TwoWrites[1], replies[1]);
    assert FlatStore.Step(trace[2], trace[3], FlatStore.Read(A, 0, 2), replies[2]);
    var k := FirstWriteAlone(trace[0], trace[1], replies[0]);
    FlatStore.StepKeepsRanges(trace[1], trace[2], TwoWrites[1], replies[1], A);
    var m := trace[2].shape(A);
    assert m[k].Has(0) && m[k].End() <= 1;
    forall j | j in m && m[j].Has(0) ensures j == k { OnlyOneCovers(m, j, k, 0); }
    assert !OneSegment(m, 0, 2);
    FlatStore.WriteShows(trace[1], trace[2], TwoWrites[1], replies[1], 1);
    LastByteFirst(trace[2], trace[3], replies[2]);
  }

  /** Two neighbouring writes of 1 and 2, and a read over both: the reply starts with 2. */
  method ShortReadGarbled() returns (replies: seq<FlatStore.Reply>)
    ensures |replies| == 3 && replies[2].Garbled? && replies[2].junk != [1, 2]
    ensures |replies[2].junk| > 0 && replies[2].junk[0] == 2
  {
    hide FlatStore.Run, FlatStore.InScope, Abstract, Perfect, Inv, IsFresh;
    var server := Fresh(0, _ => None);
    FreshState(server.heap, server.storage.content);
    NoFailures();
    ghost var trace, served;
    replies, trace, served := server.RunAll(TwoWrites);
    if served < 3 { EasyScope(trace[served], TwoWrites[served]); }
    assert TwoWrites[..3] == TwoWrites && replies[..3] == replies;
    TwoSegments(trace, replies);
  }

  // ---- A range copy that is never written out --------------------------------------------------------

  const CleanCopy := [FlatStore.Write(A, 0, [5], true), FlatStore.Flush(A, 0, 0), FlatStore.Cow(A, B, true, 0, 1),
                      FlatStore.Flush(B, 0, 0)]

  lemma CopyInScope(trace: seq<FlatStore.Flat>, replies: seq<FlatStore.Reply>)
    requires FlatStore.Run(trace, CleanCopy[..2], replies) && IsFresh(trace[0])
    ensures FlatStore.InScope(trace[2], CleanCopy[2])
  {
    assert FlatStore.Step(trace[0], trace[1], CleanCopy[0], replies[0])
        && FlatStore.Step(trace[1], trace[2], CleanCopy[1], replies[1]);
    assert trace[2].shape(B) == map[];
    FreshNeverOverruns(trace[2].shape(A), 0, 0, 1);
  }

  lemma FlushedClean(s: FlatStore.Flat, s': FlatStore.Flat, r: FlatStore.Reply, i: nat)
    requires FlatStore.Step(s, s', FlatStore.Flush(A, 0, 0), r)
    ensures !UnderDirty(s'.shape(A), i) && (Covered(s.shape(A), i) ==> Covered(s'.shape(A), i))
  {
    FlatStore.StepKeepsRanges(s, s', FlatStore.Flush(A, 0, 0), r, A);
    CoverKept(s.shape(A), s'.shape(A), i);
  }

  lemma CleanNotCopied(s: FlatStore.Flat, s': FlatStore.Flat, i: nat)
    requires FlatStore.RangeCowStep(s, s', A, B, 0, 1) && s.shape(B) == map[] && !UnderDirty(s.shape(A), i)
    ensures !UnderDirty(s'.shape(B), i)
  {
    forall k: nat | SharedAt(s.shape(A), s.shape(B), 0, 1, k, i) ensures !s.shape(A)[k].dirty { }
  }

  lemma NeverStored(trace: seq<FlatStore.Flat>, replies: seq<FlatStore.Reply>)
    requires FlatStore.Run(trace, CleanCopy, replies) && IsFresh(trace[0])
             && forall n | 0 <= n < 4 :: !replies[n].Refused?
    ensures replies[2].Ack? && replies[3].Ack? && trace[4].view(B, 0) == 5 && trace[4].stored(B, 0) == 7
    ensures FlatStore.Safe(trace[2], B) && !FlatStore.Safe(trace[3], B)
  {
    hide FlatStore.Step, FlatStore.RangeCowStep, UnderDirty, Covered;
    assert FlatStore.Step(trace[0], trace[1], CleanCopy[0], replies[0]);
    assert FlatStore.Step(trace[1], trace[2], CleanCopy[1], replies[1]);
    assert FlatStore.Step(trace[2], trace[3], CleanCopy[2], replies[2]);
    assert FlatStore.Step(trace[3], trace[4], CleanCopy[3], replies[3]);
    FlatStore.WriteShows(trace[0], trace[1], CleanCopy[0], replies[0], 0);
    Untouched(trace[0], trace[1], CleanCopy[0], replies[0]);
    FlushedClean(trace[1], trace[2], replies[1], 0);
    FlatStore.StepIsolated(trace[1], trace[2], CleanCopy[1], replies[1], A, 0);
    Untouched(trace[1], trace[2], CleanCopy[1], replies[1]);
    CopiedOver(trace[2], trace[3], replies[2]);
    CleanNotCopied(trace[2], trace[3], 0);
    FlushSkips(trace[3], trace[4], B, replies[3], 0);
  }

  lemma Untouched(s: FlatStore.Flat, s': FlatStore.Flat, op: FlatStore.Op, r: FlatStore.Reply)
    requires FlatStore.Step(s, s', op, r) && (op.Write? || op.Flush?) && op.id == A
    ensures s'.shape(B) == s.shape(B)
    ensures forall i: nat :: s'.view(B, i) == s.view(B, i) && s'.stored(B, i) == s.stored(B, i)
  {
    hide Written, FlushedAll;
  }

  lemma CopiedOver(s: FlatStore.Flat, s': FlatStore.Flat, r: FlatStore.Reply)
    requires FlatStore.Step(s, s', CleanCopy[2], r) && !r.Refused? && Covered(s.shape(A), 0)
    ensures r.Ack? && FlatStore.RangeCowStep(s, s', A, B, 0, 1)
    ensures s'.view(B, 0) == s.view(A, 0) && s'.stored(B, 0) == s.stored(B, 0)
  {
    hide DirtyAtEnd, Covered;
  }

  lemma FlushSkips(s: FlatStore.Flat, s': FlatStore.Flat, id: ObjectId, r: FlatStore.Reply, i: nat)
    requires FlatStore.Step(s, s', FlatStore.Flush(id, 0, 0), r) && !UnderDirty(s.shape(id), i)
    ensures s'.view(id, i) == s.view(id, i) && s'.stored(id, i) == s.stored(id, i) && (r.Ack? || r.Refused?)
  {
    hide UnderDirty, Selected, FlushedAll;
    NotSelected(s.shape(id), i);
  }

  lemma NotSelected(m: SegmentMap, i: nat)
    requires !UnderDirty(m, i)
    ensures !Selected(m, 0, 0, i)
  {
  }

  /**
    A write, its flush, a range copy into a new object, and a flush of the copy, all acknowledged, without any storage
    failure: the copy shows the data, and the storage does not hold it.
   */
  method RangeCopyLosesData() returns (server: CacheServer, replies: seq<FlatStore.Reply>)
    ensures |replies| == 4 && replies[2].Ack? && replies[3].Ack? && server.storage.failures == 0
    ensures Inv(server.objects, server.heap, server.owners, server.alignment)
    ensures View(server.objects, server.heap, server.storage.content, B, 0) == 5 && server.storage.content(B, 0) == 7
  {
    hide FlatStore.Run, FlatStore.InScope, FlatStore.Safe, Perfect, Inv, IsFresh, View;
    server := Fresh(0, _ => None);
    FreshState(server.heap, server.storage.content);
    NoFailures();
    ghost var trace, served;
    replies, trace, served := server.RunAll(CleanCopy);
    if served < 4 && served != 2 { EasyScope(trace[served], CleanCopy[served]); }
    if served == 2 { CopyInScope(trace, replies[..2]); }
    assert CleanCopy[..4] == CleanCopy && replies[..4] == replies;
    CopyAccepted(trace, replies);
    NeverStored(trace, replies);
  }

  lemma CopyAccepted(trace: seq<FlatStore.Flat>, replies: seq<FlatStore.Reply>)
    requires FlatStore.Run(trace, CleanCopy, replies) && IsFresh(trace[0])
    ensures !replies[2].Refused?
  {
    assert FlatStore.Step(trace[0], trace[1], CleanCopy[0], replies[0])
        && FlatStore.Step(trace[1], trace[2], CleanCopy[1], replies[1]);
    assert FlatStore.Step(trace[2], trace[3], CleanCopy[2], replies[2]);
  }

  // ---- A range copy that is written out --------------------------------------------------------------

  const DirtyCopy := [FlatStore.Write(A, 0, [5], true), FlatStore.Cow(A, B, true, 0, 1), FlatStore.Flush(B, 0, 0)]

  lemma DirtyCopyScope(s: FlatStore.Flat, s': FlatStore.Flat, r: FlatStore.Reply)
    requires IsFresh(s) && FlatStore.Step(s, s', DirtyCopy[0], r)
    ensures FlatStore.InScope(s', DirtyCopy[1]) && s'.shape(B) == map[] && A in s'.known
    ensures s'.shape(A).Keys == {0} && s'.shape(A)[0].offset == 0 && s'.shape(A)[0].size == 1
  {
    OneWrite(s, s', A, 0, [5], true, r);
    FreshNeverOverruns(s'.shape(A), 0, 0, 1);
  }

  lemma DirtyCopyStored(trace: seq<FlatStore.Flat>, replies: seq<FlatStore.Reply>)
    requires FlatStore.Run(trace, DirtyCopy, replies) && IsFresh(trace[0]) && !replies[2].Refused?
    ensures replies[1].Ack? && replies[2].Ack? && trace[3].stored(B, 0) == 5
  {
    hide FlatStore.Step;
    assert FlatStore.Step(trace[0], trace[1], DirtyCopy[0], replies[0]);
    assert FlatStore.Step(trace[1], trace[2], DirtyCopy[1], replies[1]);
    assert FlatStore.Step(trace[2], trace[3], DirtyCopy[2], replies[2]);
    DirtyCopyScope(trace[0], trace[1], replies[0]);
    DirtyCopyReplies(trace[1], trace[2], trace[3], replies[1], replies[2]);
    FlatStore.CopyFlushed(trace, DirtyCopy, replies, 0, 1, 2, 3, 0);
  }

  lemma DirtyCopyReplies(s: FlatStore.Flat, s': FlatStore.Flat, s'': FlatStore.Flat, r: FlatStore.Reply,
                         r': FlatStore.Reply)
    requires FlatStore.Step(s, s', DirtyCopy[1], r) && A in s.known && FlatStore.Step(s', s'', DirtyCopy[2], r')
    ensures r.Ack? && (r'.Ack? || r'.Refused?)
  {
    hide FlatStore.RangeCowStep, FlushedAll, Selected;
  }

  /**
    A write, a range copy of the dirty segment into a new object, and a flush of the copy: the segment was shared with
    its flag, so the storage of the copy holds the data.
   */
  method RangeCopyStoresData() returns (server: CacheServer, replies: seq<FlatStore.Reply>)
    ensures |replies| == 3 && replies[1].Ack? && replies[2].Ack? && server.storage.content(B, 0) == 5
    ensures Inv(server.objects, server.heap, server.owners, server.alignment)
  {
    hide FlatStore.Run, FlatStore.InScope, Perfect, Inv, IsFresh, View;
    server := Fresh(0, _ => None);
    FreshState(server.heap, server.storage.content);
    NoFailures();
    ghost var trace, served;
    replies, trace, served := server.RunAll(DirtyCopy);
    if served < 3 && served != 1 { EasyScope(trace[served], DirtyCopy[served]); }
    if served == 1 { FirstInScope(trace, replies[..1]); }
    assert DirtyCopy[..3] == DirtyCopy && replies[..3] == replies;
    DirtyCopyStored(trace, replies);
  }

  lemma FirstInScope(trace: seq<FlatStore.Flat>, replies: seq<FlatStore.Reply>)
    requires FlatStore.Run(trace, DirtyCopy[..1], replies) && IsFresh(trace[0])
    ensures FlatStore.InScope(trace[1], DirtyCopy[1])
  {
    hide FlatStore.Step;
    assert FlatStore.Step(trace[0], trace[1], DirtyCopy[0], replies[0]);
    DirtyCopyScope(trace[0], trace[1], replies[0]);
  }

  // ---- A range copy that leaves its buffer -----------------------------------------------------------

  const Prepare := [FlatStore.Write(A, 1, [5, 5], true), FlatStore.Write(B, 0, [6, 6], true)]

  lemma OneWrite(s: FlatStore.Flat, s': FlatStore.Flat, id: ObjectId, off: nat, data: seq<Byte>, eager: bool,
                 r: FlatStore.Reply)
    requires s.shape(id) == map[] && s.alignment == 0 && data != []
             && FlatStore.Step(s, s', FlatStore.Write(id, off, data, eager), r)
    ensures s'.shape(id).Keys == {off + |data| - 1} && s'.shape(id)[off + |data| - 1].offset == off
            && s'.shape(id)[off + |data| - 1].size == |data|
  {
    var m', e := s'.shape(id), off + |data|;
    FlatStore.FreshWriteMakesOne(s, s', FlatStore.Write(id, off, data, eager), r);
    var k :| k in m' && m'[k].offset <= off && e <= m'[k].End();
    assert k == e - 1;
    forall j | j in m' ensures j == k { assert off <= m'[j].offset && m'[j].End() <= e; }
  }

  lemma CopyOverruns(trace: seq<FlatStore.Flat>, replies: seq<FlatStore.Reply>)
    requires FlatStore.Run(trace, Prepare, replies) && IsFresh(trace[0])
    ensures RangeOverruns(trace[2].shape(A), trace[2].shape(B), 0, 1, 2) && trace[2].known == {A, B}
  {
    assert FlatStore.Step(trace[0], trace[1], Prepare[0], replies[0])
        && FlatStore.Step(trace[1], trace[2], Prepare[1], replies[1]);
    OneWrite(trace[0], trace[1], A, 1, [5, 5], true, replies[0]);
    OneWrite(trace[1], trace[2], B, 0, [6, 6], true, replies[1]);
    ShiftedOverruns(trace[2].shape(A), trace[2].shape(B));
  }

  lemma ShiftedOverruns(m: SegmentMap, md: SegmentMap)
    requires m.Keys == {2} && m[2].offset == 1 && m[2].size == 2 && md.Keys == {1} && md[1].offset == 0
             && md[1].size == 2
    ensures RangeOverruns(m, md, 0, 1, 2)
  {
    assert md[1].Has(1) && 1 in md;
    assert LowerBound(md.Keys, 1) == Some(1);
    assert Overruns(md, 0, m[2], 1, 2) && 2 in m && m[2].Overlap(1, 2);
  }

  /** Copying a segment over two destination blocks that start elsewhere writes past the end of a buffer. */
  method RangeCopyOverruns() returns (r: RangeResult)
    ensures r.Overrun?
  {
    hide FlatStore.Run, FlatStore.InScope, Perfect, Inv, IsFresh, View, RangeOverruns;
    var server := Fresh(0, _ => None);
    FreshState(server.heap, server.storage.content);
    NoFailures();
    var replies; ghost var trace, served;
    replies, trace, served := server.RunAll(Prepare);
    if served < 2 { EasyScope(trace[served], Prepare[served]); }
    assert Prepare[..2] == Prepare && replies[..2] == replies;
    CopyOverruns(trace, replies);
    InvShapes(server.objects, server.heap, server.owners, server.alignment);
    BareRangeOverruns(SegmentsOf(server.objects, A), SegmentsOf(server.objects, B), 0, 1, 2);
    var ok; ghost var failed;
    ok, r, failed := server.MakeObjectRangeCow(A, B, true, 1, 2);
  }

  // ---- Failing calls -----------------------------------------------------------------------------------

  /** The first call to the storage fails before its first byte, all others succeed. */
  function FirstFails(n: nat): Outcome { if n == 0 then Some(0) else None }

  /** Without alignment, a write has nothing to load. */
  lemma NoLoad(s: FlatStore.Flat, m: SegmentMap, op: FlatStore.Op)
    requires op.Write? && s.alignment == 0
    ensures !FlatStore.NeedsStorage(s, op) && !NeedsLoad(m, 0, op.off, |op.data|)
  {
  }

  /** Writing to a fresh server leaves one dirty segment. */
  lemma OneDirty(s: FlatStore.Flat, s': FlatStore.Flat, m: SegmentMap, off: nat, data: seq<Byte>, r: FlatStore.Reply)
    requires IsFresh(s) && data != [] && FlatStore.Step(s, s', FlatStore.Write(A, off, data, true), r)
             && s'.shape(A) == Bare(m)
    ensures m.Keys == {off + |data| - 1} && m[off + |data| - 1] == Segment(m[off + |data| - 1].ptr, off, |data|, true)
    ensures r.Ack? && s'.view(A, off) == data[0] && s'.stored(A, off) == 7
    ensures s'.known == {A} && s'.view(B, off) == 7
  {
    hide Indexed, Written;
    OneWrite(s, s', A, off, data, true, r);
    FlatStore.WriteShows(s, s', FlatStore.Write(A, off, data, true), r, off);
    assert Bare(m).Keys == m.Keys;
  }

  /** A write to a fresh server whose first call to the storage is going to fail. The write itself makes no call. */
  method WriteFirst(off: nat, data: seq<Byte>) returns (server: CacheServer, reply: FlatStore.Reply)
    requires data != []
    ensures fresh(server) && fresh(server.storage) && server.alignment == 0 && server.storage.outcome == FirstFails
            && server.storage.calls == 0
    ensures Inv(server.objects, server.heap, server.owners, 0) && reply.Ack? && server.objects.Keys == {A}
    ensures var m, k := SegmentsOf(server.objects, A), off + |data| - 1;
            m.Keys == {k} && m[k] == Segment(m[k].ptr, off, |data|, true)
    ensures View(server.objects, server.heap, server.storage.content, A, off) == data[0]
            && View(server.objects, server.heap, server.storage.content, B, off) == 7
            && server.storage.content(A, off) == 7
  {
    hide FlatStore.Step, FlatStore.InScope, FlatStore.NeedsStorage, Inv, IsFresh, View, NeedsLoad;
    server := Fresh(0, FirstFails);
    FreshState(server.heap, server.storage.content);
    ghost var s := Abstract(server.objects, server.heap, server.storage.content, 0);
    var op := FlatStore.Write(A, off, data, true);
    EasyScope(s, op);
    NoLoad(s, SegmentsOf(server.objects, A), op);
    var alive; ghost var good;
    alive, reply, good := server.Execute(op);
    OneDirty(s, Abstract(server.objects, server.heap, server.storage.content, 0), SegmentsOf(server.objects, A), off,
             data, reply);
  }

  /** The flush of one dirty segment makes one call and stores nothing of it if that call fails at once. */
  lemma OneFailedWrite(m: SegmentMap)
    requires m.Keys == {0} && m[0] == Segment(m[0].ptr, 0, 1, true)
    ensures Writes(m, 0, 0) == 1 && !Quiet(FirstFails, 0, 1) && !Stores(m, 0, 0, FirstFails, 0, 0)
  {
    assert ChosenKeys(m, 0, 0) == {0};
    assert ChosenBefore(m, 0, 0, 0) == {};
    assert FirstFails(0).Some?;
  }

  lemma LaterCallsSucceed(from: nat, upto: nat)
    requires from > 0
    ensures Quiet(FirstFails, from, upto)
  {
  }

  /**
    A write, a flush whose call fails, and another flush: the first flush is refused, the second one is acknowledged,
    and the storage does not hold the data although the second flush met no failure.
   */
  method FailedFlushLosesData() returns (server: CacheServer, replies: seq<FlatStore.Reply>)
    ensures |replies| == 3 && replies[0].Ack? && replies[1].Refused? && replies[2].Ack?
    ensures server.storage.outcome == FirstFails
    ensures Inv(server.objects, server.heap, server.owners, server.alignment)
    ensures View(server.objects, server.heap, server.storage.content, A, 0) == 5 && server.storage.content(A, 0) == 7
  {
    hide FlatStore.Step, FlatStore.InScope, FlatStore.NeedsStorage, Inv, View, Quiet, Stores, Writes, UnderDirty,
         Covered;
    var written, first, second;
    server, written := WriteFirst(0, [5]);
    OneFailedWrite(SegmentsOf(server.objects, A));
    ghost var s1 := Abstract(server.objects, server.heap, server.storage.content, 0);
    EasyScope(s1, FlatStore.Flush(A, 0, 0));
    var alive; ghost var good;
    alive, first, good := server.Execute(FlatStore.Flush(A, 0, 0));
    ghost var s2 := Abstract(server.objects, server.heap, server.storage.content, 0);
    FlushedClean(s1, s2, first, 0);
    FlushReplies(s1, s2, first);
    EasyScope(s2, FlatStore.Flush(A, 0, 0));
    alive, second, good := server.Execute(FlatStore.Flush(A, 0, 0));
    LaterCallsSucceed(1, server.storage.calls);
    FlushSkips(s2, Abstract(server.objects, server.heap, server.storage.content, 0), A, second, 0);
    replies := [written, first, second];
  }

  lemma FlushReplies(s: FlatStore.Flat, s': FlatStore.Flat, r: FlatStore.Reply)
    requires FlatStore.Step(s, s', FlatStore.Flush(A, 0, 0), r)
    ensures (r.Ack? || r.Refused?) && s'.view(A, 0) == s.view(A, 0)
  {
    hide FlushedAll, Selected;
  }

  // ---- A tolerated failed load -------------------------------------------------------------------------

  /** A fresh object has to load the rest of a block of two bytes to write the first of them. */
  lemma RestOfBlock()
    ensures LeftToLoad(map[], 2, 0, 1, 1) && NeedsLoad(map[], 2, 0, 1)
    ensures FreeRange(map[], AlignedBase(0, 2), AlignedEnd(0, 1, 2))
  {
    assert AlignedEnd(0, 1, 2) == 2;
  }

  /**
    A write of one byte to a fresh server with blocks of two, when the first call fails: it is acknowledged, and the
    byte beside it, which nobody wrote, shows what the memory held before.
   */
  method FailedLoadSpoils() returns (server: CacheServer, acks: nat)
    ensures acks == 1 && server.alignment == 2 && server.storage.outcome == FirstFails
    ensures Inv(server.objects, server.heap, server.owners, server.alignment)
    ensures View(server.objects, server.heap, server.storage.content, A, 0) == 5
    ensures View(server.objects, server.heap, server.storage.content, A, 1) == 0 && server.storage.content(A, 1) == 7
  {
    hide Inv, View, NeedsLoad, LeftToLoad, AlignedBase, AlignedSize, FreeRange, PatchedCached;
    server := Fresh(2, FirstFails);
    RestOfBlock();
    ghost var objs, hp := server.objects, server.heap;
    assert SegmentsOf(objs, A) == map[];
    var exact; ghost var clean;
    exact, acks, clean := server.WriteMessage(A, 0, [5], true);
    WrittenByte(objs, hp, server.objects, server.heap, server.storage.content);
    assert SeenFromLoad(View(server.objects, server.heap, server.storage.content, A, 1), server.storage.content, A,
                        Origin(FirstFails, server.former, 0, server.storage.calls), 1);
  }

  lemma WrittenByte(objs: Objects, heap: Heap, objs': Objects, heap': Heap, stored: Stored)
    requires PatchedCached(objs, heap, objs', heap', stored, A, 0, [5])
    ensures View(objs', heap', stored, A, 0) == 5
  {
    hide View;
  }

  // ---- A failed copy -------------------------------------------------------------------------------------

  /** Copying half of a segment into a new object has to load, and can only miss that segment. */
  lemma HalfASegment(m: SegmentMap, failed: set<nat>)
    requires m.Keys == {2} && m[2].offset == 1 && m[2].size == 2 && MayFail(m, map[], 0, 1, 1, failed)
    ensures RangeLoads(m, map[], 0, 1, 1) && !RangeOverruns(m, map[], 0, 1, 1)
    ensures failed != {} ==> failed == {2}
  {
    hide MustCopy;
    FreshNeverOverruns(m, 0, 1, 1);
    PartialMustCopy(m[2]);
    assert !Covered(map[], 1);
    assert m[2].Overlap(1, 1) && CopyLoads(map[], 0, m[2], 1, 1);
    assert failed <= {2};
  }

  lemma PartialMustCopy(s: Segment)
    requires s.offset == 1 && s.size == 2
    ensures MustCopy(map[], s, 1, 1)
  {
  }

  lemma NothingCopied(objs: Objects, heap: Heap, objs': Objects, heap': Heap, stored: Stored)
    requires SegmentsOf(objs, A).Keys == {2} && RangeCowDone(objs, heap, objs', heap', stored, A, B, 1, 1, {2})
    ensures View(objs', heap', stored, B, 1) == View(objs, heap, stored, B, 1)
    ensures View(objs', heap', stored, A, 1) == View(objs, heap, stored, A, 1)
  {
    hide View, DirtyAtEnd, UnderDirty;
  }

  /** A range copy whose load fails is acknowledged, and the copy does not show the data. */
  method FailedCopyAcknowledged() returns (server: CacheServer, acknowledged: bool)
    ensures acknowledged && server.storage.outcome == FirstFails
    ensures Inv(server.objects, server.heap, server.owners, server.alignment)
    ensures View(server.objects, server.heap, server.storage.content, A, 1) == 5
    ensures View(server.objects, server.heap, server.storage.content, B, 1) == 7
  {
    hide Inv, View, RangeCowDone, MayFail, RangeLoads, RangeOverruns;
    var written;
    server, written := WriteFirst(1, [5, 5]);
    ghost var objs, hp, stored := server.objects, server.heap, server.storage.content;
    var r; ghost var failed;
    acknowledged, r, failed := server.MakeObjectRangeCow(A, B, true, 1, 1);
    HalfASegment(SegmentsOf(objs, A), failed);
    assert FirstFails(0).Some?;
    NothingCopied(objs, hp, server.objects, server.heap, stored);
  }

  // ---- Long segments ------------------------------------------------------------------------------------

  lemma LongSegment(m: SegmentMap)
    requires m.Keys == {INT_LIMIT} && m[INT_LIMIT].offset == 0 && m[INT_LIMIT].size == INT_LIMIT + 1
    ensures !CutsFit(m, 0, INT_LIMIT, 1)
  {
    assert m[INT_LIMIT].Overlap(INT_LIMIT, 1) && INT_LIMIT in m;
  }

  lemma FreshCutsFit(s: FlatStore.Flat, data: seq<Byte>)
    requires IsFresh(s)
    ensures FlatStore.InScope(s, FlatStore.Write(A, 0, data, false))
  {
  }

  /** After a write of more than 2^31 bytes by RDMA, a write of its last byte by RDMA is cut wrong. */
  method LongSegmentCutWrong(data: seq<Byte>) returns (exact: bool)
    requires |data| == INT_LIMIT + 1
    ensures !exact
  {
    hide FlatStore.Step, FlatStore.InScope, Perfect, Inv, IsFresh, View, CutsFit;
    var server := Fresh(0, _ => None);
    FreshState(server.heap, server.storage.content);
    NoFailures();
    ghost var s0 := Abstract(server.objects, server.heap, server.storage.content, 0);
    FreshCutsFit(s0, data);
    var alive, reply; ghost var good;
    alive, reply, good := server.Execute(FlatStore.Write(A, 0, data, false));
    ghost var s1 := Abstract(server.objects, server.heap, server.storage.content, 0);
    LongWrite(s0, s1, data, reply);
    BareCutsFit(SegmentsOf(server.objects, A), 0, INT_LIMIT, 1);
    var acks; ghost var clean;
    exact, acks, clean := server.WriteMessage(A, INT_LIMIT, [1], false);
  }

  lemma LongWrite(s: FlatStore.Flat, s': FlatStore.Flat, data: seq<Byte>, r: FlatStore.Reply)
    requires IsFresh(s) && |data| == INT_LIMIT + 1 && FlatStore.Step(s, s', FlatStore.Write(A, 0, data, false), r)
    ensures !CutsFit(s'.shape(A), 0, INT_LIMIT, 1)
  {
    hide FlatStore.Step, CutsFit;
    OneWrite(s, s', A, 0, data, false, r);
    LongSegment(s'.shape(A));
  }
}
