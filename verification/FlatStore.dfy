/**
  The simple thing the cache implements: flat byte objects, of whose caching only the ranges and flags of segments show.
  `Step` says what one request may do to them and which reply it gets; the lemmas say what follows for whole runs.
 */
module FlatStore {
  import opened Basics
  import opened SegmentIndex
  import opened SharedHeap
  import opened Shapes

  /**
    What clients see, what the storage holds, the segments of each object without their buffers, the objects that exist,
    and the alignment of segments.
   */
  datatype Flat = Flat(view: Stored, stored: Stored, shape: ObjectId -> SegmentMap, known: set<ObjectId>,
                       alignment: nat)

  datatype Op =
    | Write(id: ObjectId, off: nat, data: seq<Byte>, eager: bool)  // the data is in the message or at the client
    | Read(id: ObjectId, off: nat, size: nat)
    | Flush(id: ObjectId, off: nat, size: nat)
    | Cow(src: ObjectId, dst: ObjectId, allowExist: bool, off: nat, size: nat)  // a size of 0 asks for the whole object

  /** A reply with the data asked for, one with other bytes, a refusal, a bare acknowledgement, or nothing at all. */
  datatype Reply = Data(bytes: seq<Byte>) | Garbled(junk: seq<Byte>) | Refused | Ack | Silent

  // ---- Steps ---------------------------------------------------------------------------------------

  ghost predicate SameView(s: Flat, s': Flat) {
    forall id, i: nat :: s'.view(id, i) == s.view(id, i)
  }

  ghost predicate SameStored(s: Flat, s': Flat) {
    forall id, i: nat :: s'.stored(id, i) == s.stored(id, i)
  }

  /** All objects but `id` keep their shapes. */
  ghost predicate OtherShapes(s: Flat, s': Flat, id: ObjectId) {
    forall id' | id' != id :: s'.shape(id') == s.shape(id')
  }

  function Begin(s: Flat, off: nat): nat { AlignedBase(off, s.alignment) }

  function Finish(s: Flat, off: nat, size: nat): nat { AlignedEnd(off, size, s.alignment) }

  ghost predicate WriteStep(s: Flat, s': Flat, id: ObjectId, off: nat, data: seq<Byte>, eager: bool, r: Reply) {
    && SameStored(s, s') && OtherShapes(s, s', id)
    && Written(s.shape(id), s'.shape(id), Begin(s, off), Finish(s, off, |data|), off, |data|)
    && (forall id', i: nat :: s'.view(id', i) == if id' == id && off <= i < off + |data|
                              then data[i - off] else s.view(id', i))
    && r == if !eager && NothingThere(s.shape(id), Begin(s, off), Finish(s, off, |data|)) then Silent else Ack
  }

  /** The reply starts with the requested bytes of the last segment, which does not hold the first of them. */
  ghost predicate LastFirst(view: Stored, m: SegmentMap, id: ObjectId, off: nat, size: nat, junk: seq<Byte>) {
    && size > 0
    && exists k ::
         && k in m && off < m[k].offset && m[k].Has(off + size - 1) && off + size - m[k].offset <= |junk|
         && forall i: nat | m[k].offset <= i < off + size :: junk[i - m[k].offset] == view(id, i)
  }

  ghost predicate ReadStep(s: Flat, s': Flat, id: ObjectId, off: nat, size: nat, r: Reply) {
    && SameStored(s, s') && SameView(s, s') && OtherShapes(s, s', id)
    && Filled(s.shape(id), s'.shape(id), Begin(s, off), Finish(s, off, size))
    && (r.Refused? || CoveredRange(s'.shape(id), Begin(s, off), Finish(s, off, size)))
    && (r.Refused? || if ReadExact(s.shape(id), s.alignment, off, size) then r.Data? else r.Garbled?)
    && (r.Data? ==> |r.bytes| == size && forall x | 0 <= x < size :: r.bytes[x] == s.view(id, off + x))
    && (r.Garbled? && size <= EAGER_MAX_READ ==> LastFirst(s.view, s'.shape(id), id, off, size, r.junk))
  }

  /** A flush stores the selected bytes as seen; where it is refused, some of them may still be the old ones. */
  ghost predicate FlushStep(s: Flat, s': Flat, id: ObjectId, off: nat, size: nat, r: Reply) {
    && SameView(s, s') && OtherShapes(s, s', id) && s'.shape(id) == FlushedAll(s.shape(id), off, size)
    && (r.Ack? || r.Refused?)
    && (forall id', i: nat ::
          if id' == id && Selected(s.shape(id), off, size, i)
          then s'.stored(id', i) == s.view(id', i) || (r.Refused? && s'.stored(id', i) == s.stored(id', i))
          else s'.stored(id', i) == s.stored(id', i))
  }

  /** Some byte of the object at or after `i` is cached. */
  ghost predicate BelowCached(s: Flat, id: ObjectId, i: nat) {
    exists j: nat :: i <= j && Covered(s.shape(id), j)
  }

  /**
    The copy shows the source up to its last cached byte and the destination's own stored bytes beyond. It has the
    source's segments, and of what it shows exactly the bytes that are not dirty are stored.
   */
  ghost predicate FullCowStep(s: Flat, s': Flat, src: ObjectId, dst: ObjectId) {
    && OtherShapes(s, s', dst) && s'.shape(dst) == s.shape(src)
    && (forall id, i: nat :: id != dst ==> s'.view(id, i) == s.view(id, i) && s'.stored(id, i) == s.stored(id, i))
    && (forall i: nat :: s'.view(dst, i) == if BelowCached(s, src, i) then s.view(src, i) else s.stored(dst, i))
    && (forall i: nat :: s'.stored(dst, i) == if BelowCached(s, src, i) && !UnderDirty(s.shape(src), i)
                         then s.view(src, i) else s.stored(dst, i))
    && Safe(s', dst)
  }

  /** The copy shows, and caches, what the source has cached of the range. Shared segments bring their flags along. */
  ghost predicate RangeCowStep(s: Flat, s': Flat, src: ObjectId, dst: ObjectId, off: nat, size: nat) {
    && SameStored(s, s') && OtherShapes(s, s', dst) && RangesKept(s.shape(dst), s'.shape(dst))
    && (forall id, i: nat ::
          s'.view(id, i) == if id == dst && off <= i < off + size && Covered(s.shape(src), i)
              then s.view(src, i) else s.view(id, i))
    && (forall i: nat | off <= i < off + size && Covered(s.shape(src), i) :: Covered(s'.shape(dst), i))
    && (forall i: nat :: UnderDirty(s'.shape(dst), i) <==> DirtyAtEnd(s.shape(src), s.shape(dst), off, size, i))
  }

  predicate CowRefused(s: Flat, src: ObjectId, dst: ObjectId, allowExist: bool) {
    src !in s.known || (dst in s.known && !allowExist)
  }

  ghost predicate CowStep(s: Flat, s': Flat, src: ObjectId, dst: ObjectId, allowExist: bool, off: nat, size: nat,
                          r: Reply) {
    if CowRefused(s, src, dst, allowExist) then r.Refused? && s' == s
    else r.Ack? && if size == 0 then FullCowStep(s, s', src, dst) else RangeCowStep(s, s', src, dst, off, size)
  }

  /** The object a request creates if it is new. */
  function Touched(s: Flat, op: Op): set<ObjectId> {
    match op
    case Write(id, _, _, _) => {id}
    case Read(id, _, _) => {id}
    case Flush(id, _, _) => {id}
    case Cow(src, dst, allowExist, _, _) => if CowRefused(s, src, dst, allowExist) then {} else {dst}
  }

  ghost predicate Step(s: Flat, s': Flat, op: Op, r: Reply) {
    && s'.known == s.known + Touched(s, op) && s'.alignment == s.alignment
    && (forall id :: Indexed(s.shape(id)) && Indexed(s'.shape(id)))
    && match op
       case Write(id, off, data, eager) => WriteStep(s, s', id, off, data, eager, r)
       case Read(id, off, size) => ReadStep(s, s', id, off, size, r)
       case Flush(id, off, size) => FlushStep(s, s', id, off, size, r)
       case Cow(src, dst, allowExist, off, size) => CowStep(s, s', src, dst, allowExist, off, size, r)
  }

  /**
    The requests the code serves as described, unless a call to the storage fails: the others cut an iovec entry too
    far, copy an object onto itself, or overrun a buffer.
   */
  ghost predicate InScope(s: Flat, op: Op) {
    match op
    case Write(id, off, data, eager) => eager || CutsFit(s.shape(id), s.alignment, off, |data|)
    case Read(_, _, _) => true
    case Flush(_, _, _) => true
    case Cow(src, dst, allowExist, off, size) =>
      || CowRefused(s, src, dst, allowExist)
      || if size == 0 then src != dst else !RangeOverruns(s.shape(src), s.shape(dst), s.alignment, off, size)
  }

  /**
    The requests that may go wrong unnoticed if a call to the storage fails. A read or a flush is refused in that case,
    and a write or a range copy that has nothing to load does not need the storage.
   */
  ghost predicate NeedsStorage(s: Flat, op: Op) {
    match op
    case Write(id, off, data, _) => NeedsLoad(s.shape(id), s.alignment, off, |data|)
    case Read(_, _, _) => false
    case Flush(_, _, _) => false
    case Cow(src, dst, allowExist, off, size) =>
      && !CowRefused(s, src, dst, allowExist)
      && (size == 0 || RangeLoads(s.shape(src), s.shape(dst), s.alignment, off, size))
  }

  ghost predicate Run(trace: seq<Flat>, ops: seq<Op>, replies: seq<Reply>) {
    && |trace| == |ops| + 1 && |replies| == |ops|
    && forall n | 0 <= n < |ops| :: Step(trace[n], trace[n + 1], ops[n], replies[n])
  }

  // ---- Isolation -----------------------------------------------------------------------------------

  /** The request can change byte `i` of object `id`. */
  predicate Targets(op: Op, id: ObjectId, i: nat) {
    match op
    case Write(id', off, data, _) => id' == id && off <= i < off + |data|
    case Read(_, _, _) => false
    case Flush(_, _, _) => false
    case Cow(_, dst, _, off, size) => dst == id && (size == 0 || off <= i < off + size)
  }

  lemma StepIsolated(s: Flat, s': Flat, op: Op, r: Reply, id: ObjectId, i: nat)
    requires Step(s, s', op, r) && !Targets(op, id, i)
    ensures s'.view(id, i) == s.view(id, i)
  {
  }

  /** Over a whole run, a byte that no request targets keeps its value: objects that share buffers stay isolated. */
  lemma {:induction false} RunIsolated(trace: seq<Flat>, ops: seq<Op>, replies: seq<Reply>, from: nat, upto: nat,
                                       id: ObjectId, i: nat)
    requires Run(trace, ops, replies) && from <= upto <= |ops|
    requires forall n | from <= n < upto :: !Targets(ops[n], id, i)
    ensures trace[upto].view(id, i) == trace[from].view(id, i)
    decreases upto - from
  {
    hide Step;
    if from < upto {
      RunIsolated(trace, ops, replies, from, upto - 1, id, i);
      StepIsolated(trace[upto - 1], trace[upto], ops[upto - 1], replies[upto - 1], id, i);
    }
  }

  lemma WriteShows(s: Flat, s': Flat, op: Op, r: Reply, i: nat)
    requires Step(s, s', op, r) && op.Write? && op.off <= i < op.off + |op.data|
    ensures s'.view(op.id, i) == op.data[i - op.off] && Covered(s'.shape(op.id), i) && UnderDirty(s'.shape(op.id), i)
  {
    hide AlignedBase, AlignedSize, Indexed, GapShaped;
    AlignedRange(op.off, |op.data|, s.alignment);
    var m' := s'.shape(op.id);
    assert Covered(m', i);
    var k :| k in m' && m'[k].Has(i);
    assert m'[k].Overlap(op.off, |op.data|) && m'[k].dirty;
  }

  lemma ReadShows(s: Flat, s': Flat, op: Op, r: Reply, x: nat)
    requires Step(s, s', op, r) && op.Read? && x < op.size && !r.Refused?
    ensures if ReadExact(s.shape(op.id), s.alignment, op.off, op.size)
            then r.Data? && |r.bytes| == op.size && r.bytes[x] == s.view(op.id, op.off + x)
            else r.Garbled?
  {
    hide ReadExact, Filled;
  }

  /**
    A read that is not refused returns at every byte the data of the last write to it, exactly when the segments it
    meets allow an exact reply.
   */
  lemma LastWriteRead(trace: seq<Flat>, ops: seq<Op>, replies: seq<Reply>, w: nat, r: nat, x: nat)
    requires Run(trace, ops, replies) && w < r < |ops| && ops[w].Write? && ops[r].Read? && !replies[r].Refused?
    requires ops[r].id == ops[w].id && x < ops[r].size && ops[w].off <= ops[r].off + x < ops[w].off + |ops[w].data|
    requires forall n | w < n < r :: !Targets(ops[n], ops[w].id, ops[r].off + x)
    ensures if ReadExact(trace[r].shape(ops[r].id), trace[r].alignment, ops[r].off, ops[r].size)
            then replies[r].Data? && x < |replies[r].bytes|
                 && replies[r].bytes[x] == ops[w].data[ops[r].off + x - ops[w].off]
            else replies[r].Garbled?
  {
    hide Step, ReadExact;
    RunIsolated(trace, ops, replies, w + 1, r, ops[w].id, ops[r].off + x);
    WriteShows(trace[w], trace[w + 1], ops[w], replies[w], ops[r].off + x);
    ReadShows(trace[r], trace[r + 1], ops[r], replies[r], x);
  }

  // ---- Segments stay ---------------------------------------------------------------------------------

  /** The request replaces the whole object. */
  predicate Replaces(op: Op, id: ObjectId) { op.Cow? && op.size == 0 && op.dst == id }

  /** `[b, e)` lies in one segment of the object. */
  ghost predicate InOneSegment(s: Flat, id: ObjectId, b: nat, e: nat) {
    exists k :: k in s.shape(id) && s.shape(id)[k].offset <= b && e <= s.shape(id)[k].End()
  }

  lemma StepKeepsRanges(s: Flat, s': Flat, op: Op, r: Reply, id: ObjectId)
    requires Step(s, s', op, r) && !Replaces(op, id)
    ensures RangesKept(s.shape(id), s'.shape(id))
  {
  }

  lemma {:induction false} RunKeepsSegment(trace: seq<Flat>, ops: seq<Op>, replies: seq<Reply>, from: nat, upto: nat,
                                           id: ObjectId, b: nat, e: nat)
    requires Run(trace, ops, replies) && from <= upto <= |ops| && InOneSegment(trace[from], id, b, e)
    requires forall n | from <= n < upto :: !Replaces(ops[n], id)
    ensures InOneSegment(trace[upto], id, b, e)
    decreases upto - from
  {
    hide Step;
    if from < upto {
      RunKeepsSegment(trace, ops, replies, from, upto - 1, id, b, e);
      StepKeepsRanges(trace[upto - 1], trace[upto], ops[upto - 1], replies[upto - 1], id);
      var k :| k in trace[upto - 1].shape(id) && trace[upto - 1].shape(id)[k].offset <= b
          && e <= trace[upto - 1].shape(id)[k].End();
      assert trace[upto].shape(id)[k].offset <= b;
    }
  }

  /** A write into a range without segments makes one segment of the aligned range. */
  lemma FreshWriteMakesOne(s: Flat, s': Flat, op: Op, r: Reply)
    requires Step(s, s', op, r) && op.Write? && op.data != []
             && FreeRange(s.shape(op.id), Begin(s, op.off), Finish(s, op.off, |op.data|))
    ensures InOneSegment(s', op.id, Begin(s, op.off), Finish(s, op.off, |op.data|))
  {
    hide AlignedBase, AlignedEnd, Indexed, Written, FreeRange;
    AlignedSpan(op.off, |op.data|, s.alignment);
    var b, e := Begin(s, op.off), Finish(s, op.off, |op.data|);
    var k := GapFilled(s.shape(op.id), s'.shape(op.id), b, e, op.off, |op.data|);
  }

  lemma GapFilled(m: SegmentMap, m': SegmentMap, b: nat, e: nat, off: nat, size: nat) returns (k: nat)
    requires Indexed(m) && Indexed(m') && FreeRange(m, b, e) && b < e && Written(m, m', b, e, off, size)
    ensures k in m' && m'[k].offset <= b && e <= m'[k].End()
  {
    assert Covered(m', b);
    k :| k in m' && m'[k].Has(b);
    assert k !in m;
    GapIsWhole(m, m', b, e, k);
  }

  lemma GapIsWhole(m: SegmentMap, m': SegmentMap, b: nat, e: nat, k: nat)
    requires Indexed(m) && FreeRange(m, b, e) && GapShaped(m, m', b, e) && k in m' && k !in m && m'[k].size > 0
    ensures m'[k].End() == e
  {
  }

  lemma AlignedSpan(off: nat, size: nat, a: nat)
    requires size > 0
    ensures AlignedBase(off, a) < AlignedEnd(off, size, a)
  {
    AlignedRange(off, size, a);
  }

  /**
    After a write into a range without segments, every later short read within the aligned range is answered exactly
    unless it is refused, whatever ran in between, as long as no full copy replaced the object.
   */
  lemma FreshWriteReads(trace: seq<Flat>, ops: seq<Op>, replies: seq<Reply>, w: nat, r: nat)
    requires Run(trace, ops, replies) && w < r < |ops| && ops[w].Write? && ops[w].data != [] && ops[r].Read?
             && ops[r].id == ops[w].id
    requires FreeRange(trace[w].shape(ops[w].id), Begin(trace[w], ops[w].off),
                       Finish(trace[w], ops[w].off, |ops[w].data|))
    requires Begin(trace[w], ops[w].off) <= Begin(trace[r], ops[r].off)
    requires Finish(trace[r], ops[r].off, ops[r].size) <= Finish(trace[w], ops[w].off, |ops[w].data|)
             && ops[r].size <= EAGER_MAX_READ
    requires forall n | w < n < r :: !Replaces(ops[n], ops[w].id)
    ensures replies[r].Data? || replies[r].Refused?
  {
    hide AlignedBase, AlignedEnd;
    assert Step(trace[w], trace[w + 1], ops[w], replies[w]) && Step(trace[r], trace[r + 1], ops[r], replies[r]);
    var b, e := Begin(trace[w], ops[w].off), Finish(trace[w], ops[w].off, |ops[w].data|);
    FreshWriteMakesOne(trace[w], trace[w + 1], ops[w], replies[w]);
    RunKeepsSegment(trace, ops, replies, w + 1, r, ops[w].id, b, e);
    ReadWithin(trace[r], ops[r], b, e);
  }

  lemma ReadWithin(s: Flat, op: Op, b: nat, e: nat)
    requires op.Read? && InOneSegment(s, op.id, b, e) && b <= Begin(s, op.off) && Finish(s, op.off, op.size) <= e
             && op.size <= EAGER_MAX_READ
    ensures ReadExact(s.shape(op.id), s.alignment, op.off, op.size)
  {
    hide AlignedBase, AlignedEnd;
    var m := s.shape(op.id);
    var k :| k in m && m[k].offset <= b && e <= m[k].End();
    assert m[k].offset <= Begin(s, op.off) && Finish(s, op.off, op.size) <= m[k].End();
  }

  // ---- Copies ----------------------------------------------------------------------------------------

  /** A full copy is a snapshot: later writes to the source do not reach it, nor later writes to it the source. */
  lemma SnapshotStable(trace: seq<Flat>, ops: seq<Op>, replies: seq<Reply>, c: nat, upto: nat, i: nat)
    requires Run(trace, ops, replies) && c < upto <= |ops| && ops[c].Cow? && ops[c].size == 0 && !replies[c].Refused?
             && ops[c].src != ops[c].dst
    ensures (forall n | c < n < upto :: !Targets(ops[n], ops[c].dst, i)) ==>
              trace[upto].view(ops[c].dst, i) == if BelowCached(trace[c], ops[c].src, i)
                  then trace[c].view(ops[c].src, i) else trace[c].stored(ops[c].dst, i)
    ensures (forall n | c < n < upto :: !Targets(ops[n], ops[c].src, i)) ==>
              trace[upto].view(ops[c].src, i) == trace[c].view(ops[c].src, i)
  {
    hide BelowCached, Safe;
    assert Step(trace[c], trace[c + 1], ops[c], replies[c]);
    if forall n | c < n < upto :: !Targets(ops[n], ops[c].dst, i) {
      RunIsolated(trace, ops, replies, c + 1, upto, ops[c].dst, i);
    }
    if forall n | c < n < upto :: !Targets(ops[n], ops[c].src, i) {
      RunIsolated(trace, ops, replies, c + 1, upto, ops[c].src, i);
    }
  }

  lemma {:induction false} RunStaysCached(trace: seq<Flat>, ops: seq<Op>, replies: seq<Reply>, from: nat, upto: nat,
                                          id: ObjectId, i: nat)
    requires Run(trace, ops, replies) && from <= upto <= |ops| && Covered(trace[from].shape(id), i)
    requires forall n | from <= n < upto :: !Replaces(ops[n], id)
    ensures Covered(trace[upto].shape(id), i)
    decreases upto - from
  {
    hide Step, Covered;
    if from < upto {
      RunStaysCached(trace, ops, replies, from, upto - 1, id, i);
      StepKeepsRanges(trace[upto - 1], trace[upto], ops[upto - 1], replies[upto - 1], id);
      CoverKept(trace[upto - 1].shape(id), trace[upto].shape(id), i);
    }
  }

  lemma CopyTakes(s: Flat, s': Flat, op: Op, r: Reply, i: nat)
    requires Step(s, s', op, r) && op.Cow? && !r.Refused? && Targets(op, op.dst, i) && Covered(s.shape(op.src), i)
    ensures s'.view(op.dst, i) == s.view(op.src, i)
  {
    hide Covered, Safe;
  }

  /**
    Every byte written to an object before a full copy, or a range copy over it, is in the copy, whatever ran in
    between.
   */
  lemma LastWriteCopied(trace: seq<Flat>, ops: seq<Op>, replies: seq<Reply>, w: nat, c: nat, upto: nat, i: nat)
    requires Run(trace, ops, replies) && w < c < upto <= |ops|
    requires ops[w].Write? && ops[w].off <= i < ops[w].off + |ops[w].data|
    requires ops[c].Cow? && !replies[c].Refused? && ops[c].src == ops[w].id && Targets(ops[c], ops[c].dst, i)
    requires forall n | w < n < c :: !Targets(ops[n], ops[w].id, i)
    requires forall n | c < n < upto :: !Targets(ops[n], ops[c].dst, i)
    ensures trace[upto].view(ops[c].dst, i) == ops[w].data[i - ops[w].off]
  {
    hide Step;
    assert forall n | w < n < c :: Replaces(ops[n], ops[w].id) ==> Targets(ops[n], ops[w].id, i);
    WriteShows(trace[w], trace[w + 1], ops[w], replies[w], i);
    RunIsolated(trace, ops, replies, w + 1, c, ops[w].id, i);
    RunStaysCached(trace, ops, replies, w + 1, c, ops[w].id, i);
    CopyTakes(trace[c], trace[c + 1], ops[c], replies[c], i);
    RunIsolated(trace, ops, replies, c + 1, upto, ops[c].dst, i);
  }

  // ---- Writing back ----------------------------------------------------------------------------------

  /** The write-back invariant of an object: what is not dirty is stored as seen. */
  ghost predicate Safe(s: Flat, id: ObjectId) {
    forall i: nat :: s.view(id, i) == s.stored(id, i) || UnderDirty(s.shape(id), i)
  }

  /** What a range copy puts into the destination is stored there already or will be written out. */
  ghost predicate CopyIsStored(s: Flat, src: ObjectId, dst: ObjectId, off: nat, size: nat) {
    forall i: nat | off <= i < off + size && Covered(s.shape(src), i) ::
      s.view(src, i) == s.stored(dst, i) || DirtyAtEnd(s.shape(src), s.shape(dst), off, size, i)
  }

  /**
    A range copy keeps the write-back invariant of its destination exactly if what it copies is stored there or dirty.
   */
  lemma RangeCopySafeIff(s: Flat, s': Flat, src: ObjectId, dst: ObjectId, off: nat, size: nat)
    requires RangeCowStep(s, s', src, dst, off, size) && Safe(s, dst)
    ensures Safe(s', dst) <==> CopyIsStored(s, src, dst, off, size)
  {
    hide DirtyAtEnd, Covered, RangesKept;
    forall i: nat ensures UnderDirty(s.shape(dst), i) && !(off <= i < off + size && Covered(s.shape(src), i)) ==>
          UnderDirty(s'.shape(dst), i) {
      OutsideStaysDirty(s.shape(src), s.shape(dst), off, size, i);
    }
    forall i: nat | off <= i < off + size && Covered(s.shape(src), i)
      ensures s'.view(dst, i) == s'.stored(dst, i) || UnderDirty(s'.shape(dst), i) <==>
              s.view(src, i) == s.stored(dst, i) || DirtyAtEnd(s.shape(src), s.shape(dst), off, size, i)
    {
    }
  }

  lemma OutsideStaysDirty(m: SegmentMap, md: SegmentMap, off: nat, size: nat, i: nat)
    ensures UnderDirty(md, i) && !(off <= i < off + size && Covered(m, i)) ==> DirtyAtEnd(m, md, off, size, i)
  {
    forall k: nat | SharedAt(m, md, off, size, k, i) ensures off <= i < off + size && Covered(m, i) {
      assert k in m && m[k].Has(i);
    }
  }

  lemma FlushedDirty(m: SegmentMap, off: nat, size: nat, i: nat)
    requires Indexed(m)
    ensures UnderDirty(FlushedAll(m, off, size), i) <==> UnderDirty(m, i) && !Selected(m, off, size, i)
  {
    var m' := FlushedAll(m, off, size);
    if k :| k in m && m[k].Has(i) && m[k].dirty {
      if j :| j in m && m[j].Has(i) && Chosen(m[j], off, size) { OnlyOneCovers(m, j, k, i); }
      forall j | j in m' && m'[j].Has(i) ensures j == k { OnlyOneCovers(m, j, k, i); }
      assert m'[k].Has(i);
    }
    if k :| k in m' && m'[k].Has(i) && m'[k].dirty { assert m[k].Has(i) && m[k].dirty; }
  }

  /** A flush keeps the invariant exactly if every byte it was to write is stored; an acknowledged one always does. */
  lemma FlushSafeIff(s: Flat, s': Flat, id: ObjectId, off: nat, size: nat, r: Reply)
    requires FlushStep(s, s', id, off, size, r) && Indexed(s.shape(id)) && Safe(s, id)
    ensures Safe(s', id) <==> forall i: nat | Selected(s.shape(id), off, size, i) :: s'.stored(id, i) == s.view(id, i)
    ensures r.Ack? ==> Safe(s', id)
  {
    hide UnderDirty, Selected, FlushedAll;
    forall i: nat
      ensures UnderDirty(s'.shape(id), i) <==> UnderDirty(s.shape(id), i) && !Selected(s.shape(id), off, size, i)
    {
      FlushedDirty(s.shape(id), off, size, i);
    }
  }

  /** What it takes for a step to keep the invariant of object `id`. */
  ghost predicate KeepsSafe(s: Flat, s': Flat, op: Op, r: Reply, id: ObjectId) {
    match op
    case Write(_, _, _, _) => true
    case Read(_, _, _) => true
    case Flush(id', off, size) =>
      id' == id && r.Refused? ==> forall i: nat | Selected(s.shape(id), off, size, i) ::
                                  s'.stored(id, i) == s.view(id, i)
    case Cow(src, dst, _, off, size) => dst == id && r.Ack? && size > 0 ==> CopyIsStored(s, src, dst, off, size)
  }

  lemma WriteStaysSafe(s: Flat, s': Flat, op: Op, r: Reply, id: ObjectId)
    requires Step(s, s', op, r) && Safe(s, id) && op.Write?
    ensures Safe(s', id)
  {
    forall i: nat ensures s'.view(id, i) == s'.stored(id, i) || UnderDirty(s'.shape(id), i) {
      if id == op.id {
        if op.off <= i < op.off + |op.data| {
          WriteShows(s, s', op, r, i);
        } else if k :| k in s.shape(id) && s.shape(id)[k].Has(i) && s.shape(id)[k].dirty {
          assert s'.shape(id)[k].Has(i) && s'.shape(id)[k].dirty;
        }
      }
    }
  }

  lemma ReadStaysSafe(s: Flat, s': Flat, op: Op, r: Reply, id: ObjectId)
    requires Step(s, s', op, r) && Safe(s, id) && op.Read?
    ensures Safe(s', id)
  {
    forall i: nat ensures s'.view(id, i) == s'.stored(id, i) || UnderDirty(s'.shape(id), i) {
      if id == op.id {
        if k :| k in s.shape(id) && s.shape(id)[k].Has(i) && s.shape(id)[k].dirty { assert s'.shape(id)[k].Has(i); }
      }
    }
  }

  /** Over one step, an object that is safe stays so exactly under `KeepsSafe`. */
  lemma StepSafeIff(s: Flat, s': Flat, op: Op, r: Reply, id: ObjectId)
    requires Step(s, s', op, r) && Safe(s, id)
    ensures Safe(s', id) <==> KeepsSafe(s, s', op, r, id)
  {
    hide WriteStep, ReadStep, Safe, CopyIsStored, Selected, UnderDirty, FlushedAll;
    match op
    case Write(_, _, _, _) => WriteStaysSafe(s, s', op, r, id);
    case Read(_, _, _) => ReadStaysSafe(s, s', op, r, id);
    case Flush(id', off, size) =>
      if id' == id { FlushSafeIff(s, s', id, off, size, r); } else { ElsewhereSafe(s, s', id); }
    case Cow(src, dst, allowExist, off, size) =>
      if dst == id && r.Ack? {
        if size > 0 { RangeCopySafeIff(s, s', src, dst, off, size); }
      } else { ElsewhereSafe(s, s', id); }
  }

  lemma ElsewhereSafe(s: Flat, s': Flat, id: ObjectId)
    requires Safe(s, id) && s'.shape(id) == s.shape(id) && forall i: nat ::
             s'.view(id, i) == s.view(id, i) && s'.stored(id, i) == s.stored(id, i)
    ensures Safe(s', id)
  {
  }

  /** Over every run, an object stays safe as long as every step keeps it safe. */
  lemma {:induction false} RunSafe(trace: seq<Flat>, ops: seq<Op>, replies: seq<Reply>, from: nat, upto: nat,
                                   id: ObjectId)
    requires Run(trace, ops, replies) && from <= upto <= |ops| && Safe(trace[from], id)
    requires forall n | from <= n < upto :: KeepsSafe(trace[n], trace[n + 1], ops[n], replies[n], id)
    ensures Safe(trace[upto], id)
    decreases upto - from
  {
    hide Step, Safe, KeepsSafe;
    if from < upto {
      RunSafe(trace, ops, replies, from, upto - 1, id);
      StepSafeIff(trace[upto - 1], trace[upto], ops[upto - 1], replies[upto - 1], id);
    }
  }

  lemma StoredFollows(s: Flat, s': Flat, op: Op, r: Reply, id: ObjectId, i: nat)
    requires Step(s, s', op, r) && !Targets(op, id, i) && s.stored(id, i) == s.view(id, i)
    ensures s'.stored(id, i) == s'.view(id, i)
  {
    hide Safe, Selected;
  }

  /** The byte is stored as seen or will be written out. */
  ghost predicate ByteSafe(s: Flat, id: ObjectId, i: nat) {
    s.view(id, i) == s.stored(id, i) || UnderDirty(s.shape(id), i)
  }

  lemma FlushStores(s: Flat, s': Flat, op: Op, r: Reply, i: nat)
    requires Step(s, s', op, r) && op.Flush? && r.Ack? && ByteSafe(s, op.id, i)
             && (op.size == 0 || op.off <= i < op.off + op.size)
    ensures s'.stored(op.id, i) == s'.view(op.id, i) == s.view(op.id, i)
  {
    if k :| k in s.shape(op.id) && s.shape(op.id)[k].Has(i) && s.shape(op.id)[k].dirty {
      assert Selected(s.shape(op.id), op.off, op.size, i);
    }
  }

  /** Once a safe byte was flushed, it stays durable until a request targets it. */
  lemma {:induction false} DurableAfterFlush(trace: seq<Flat>, ops: seq<Op>, replies: seq<Reply>, f: nat, upto: nat,
                                             i: nat)
    requires Run(trace, ops, replies) && f < upto <= |ops| && ops[f].Flush? && replies[f].Ack?
             && ByteSafe(trace[f], ops[f].id, i)
    requires ops[f].size == 0 || ops[f].off <= i < ops[f].off + ops[f].size
    requires forall n | f < n < upto :: !Targets(ops[n], ops[f].id, i)
    ensures trace[upto].stored(ops[f].id, i) == trace[upto].view(ops[f].id, i) == trace[f].view(ops[f].id, i)
    decreases upto
  {
    hide Step, ByteSafe;
    if upto == f + 1 {
      FlushStores(trace[f], trace[upto], ops[f], replies[f], i);
    } else {
      DurableAfterFlush(trace, ops, replies, f, upto - 1, i);
      StepIsolated(trace[upto - 1], trace[upto], ops[upto - 1], replies[upto - 1], ops[f].id, i);
      StoredFollows(trace[upto - 1], trace[upto], ops[upto - 1], replies[upto - 1], ops[f].id, i);
    }
  }

  // ---- Which flags change ----------------------------------------------------------------------------

  /**
    A write makes the bytes of exactly those segments dirty that it touches; the others stay as they were. An empty
    write touches a segment that has bytes on both sides of it.
   */
  lemma WriteDirties(s: Flat, s': Flat, op: Op, r: Reply, id: ObjectId, k: nat, i: nat)
    requires Step(s, s', op, r) && op.Write? && k in s'.shape(id) && s'.shape(id)[k].Has(i)
    ensures UnderDirty(s'.shape(id), i) <==>
              || UnderDirty(s.shape(id), i)
              || (id == op.id && s'.shape(id)[k].offset < op.off + |op.data| && op.off < s'.shape(id)[k].End())
  {
    hide Written, UnderDirty, Indexed, AlignedBase, AlignedSize;
    if id == op.id {
      WrittenDirties(s.shape(id), s'.shape(id), Begin(s, op.off), Finish(s, op.off, |op.data|), op.off, |op.data|, k,
                     i);
    }
  }

  lemma WrittenDirties(m: SegmentMap, m': SegmentMap, b: nat, e: nat, off: nat, size: nat, k: nat, i: nat)
    requires Written(m, m', b, e, off, size) && Indexed(m') && k in m' && m'[k].Has(i)
    ensures UnderDirty(m', i) <==> UnderDirty(m, i) || (m'[k].offset < off + size && off < m'[k].End())
    ensures UnderDirty(m, i) ==> UnderDirty(m', i)
  {
    hide GapShaped, CoveredRange, Indexed;
    forall j | j in m' && m'[j].Has(i) ensures j == k { OnlyOneCovers(m', j, k, i); }
    if j :| j in m && m[j].Has(i) && m[j].dirty { assert m'[j].Has(i) && m'[j].dirty; }
    assert k in m ==> m[k].Has(i);
  }

  lemma KeptDirty(m: SegmentMap, m': SegmentMap, i: nat)
    requires UnderDirty(m, i) && forall k | k in m :: k in m' && m'[k].offset == m[k].offset && m'[k].size == m[k].size
                                                      && (m[k].dirty ==> m'[k].dirty)
    ensures UnderDirty(m', i)
  {
    var k :| k in m && m[k].Has(i) && m[k].dirty;
    assert m'[k].Has(i) && m'[k].dirty;
  }

  /**
    A flush of a range changes neither the flag nor the stored bytes of a segment that has no byte in it. It cleans
    every other segment and, if it is acknowledged, has stored what was dirty.
   */
  lemma FlushTouches(s: Flat, s': Flat, op: Op, r: Reply, k: nat, i: nat)
    requires Step(s, s', op, r) && op.Flush? && k in s.shape(op.id) && s.shape(op.id)[k].Has(i)
    ensures k in s'.shape(op.id)
    ensures if op.size == 0 || exists j: nat :: s.shape(op.id)[k].Has(j) && op.off <= j < op.off + op.size
            then !s'.shape(op.id)[k].dirty && (r.Ack? && s.shape(op.id)[k].dirty ==>
                                                 s'.stored(op.id, i) == s.view(op.id, i))
            else s'.shape(op.id)[k] == s.shape(op.id)[k] && s'.stored(op.id, i) == s.stored(op.id, i)
  {
    var m := s.shape(op.id);
    if op.size > 0 { OverlapIff(m[k], op.off, op.size); }
    forall j | j in m && m[j].Has(i) ensures j == k { OnlyOneCovers(m, j, k, i); }
    if m[k].dirty && (op.size == 0 || m[k].Overlap(op.off, op.size)) { assert Selected(m, op.off, op.size, i); }
  }

  /**
    The flag of a copied byte: that of its source segment if the segment is in the range and the destination has no
    segment from its start on, or one of the same range; otherwise that of the destination before.
   */
  lemma CopiedFlag(s: Flat, s': Flat, op: Op, r: Reply, k: nat, i: nat)
    requires Step(s, s', op, r) && op.Cow? && op.size > 0 && !r.Refused? && op.off <= i < op.off + op.size
    requires k in s.shape(op.src) && s.shape(op.src)[k].Has(i)
    ensures var m, md := s.shape(op.src), s.shape(op.dst);
            UnderDirty(s'.shape(op.dst), i) <==>
              if && op.off <= m[k].offset && m[k].End() <= op.off + op.size
                 && ((forall j | j in md :: j < m[k].offset)
                     || (k in md && md[k].offset == m[k].offset && md[k].size == m[k].size))
              then m[k].dirty else UnderDirty(md, i)
  {
    hide MustCopy, UnderDirty, DirtyAtEnd;
    DirtyInSegment(s.shape(op.src), s.shape(op.dst), op.off, op.size, k, i);
    MustCopyIff(s.shape(op.dst), s.shape(op.src)[k], op.off, op.size);
  }

  lemma StepStaysDirty(s: Flat, s': Flat, op: Op, r: Reply, id: ObjectId, i: nat)
    requires Step(s, s', op, r) && UnderDirty(s.shape(id), i) && !Targets(op, id, i) && !(op.Flush? && op.id == id)
    ensures UnderDirty(s'.shape(id), i)
  {
    hide DirtyAtEnd, Safe, UnderDirty, Covered, GapShaped, CoveredRange, AlignedBase, AlignedSize, ReadExact, LastFirst,
         BelowCached, FlushedAll, Selected;
    if op.Cow? {
      OutsideStaysDirty(s.shape(op.src), s.shape(op.dst), op.off, op.size, i);
    } else if !op.Flush? && op.id == id {
      KeptDirty(s.shape(id), s'.shape(id), i);
    }
  }

  lemma {:induction false} RunStaysDirty(trace: seq<Flat>, ops: seq<Op>, replies: seq<Reply>, from: nat, upto: nat,
                                         id: ObjectId, i: nat)
    requires Run(trace, ops, replies) && from <= upto <= |ops| && UnderDirty(trace[from].shape(id), i)
    requires forall n | from <= n < upto :: !Targets(ops[n], id, i) && !(ops[n].Flush? && ops[n].id == id)
    ensures UnderDirty(trace[upto].shape(id), i)
    decreases upto - from
  {
    hide Step, UnderDirty;
    if from < upto {
      RunStaysDirty(trace, ops, replies, from, upto - 1, id, i);
      StepStaysDirty(trace[upto - 1], trace[upto], ops[upto - 1], replies[upto - 1], id, i);
    }
  }

  lemma StepByteSafe(s: Flat, s': Flat, op: Op, r: Reply, id: ObjectId, i: nat)
    requires Step(s, s', op, r) && ByteSafe(s, id, i) && !Targets(op, id, i) && (op.Flush? && op.id == id ==> r.Ack?)
    ensures ByteSafe(s', id, i)
  {
    hide WriteStep, ReadStep, UnderDirty, CowStep;
    if s.view(id, i) == s.stored(id, i) {
      StoredFollows(s, s', op, r, id, i);
    } else if op.Flush? && op.id == id {
      FlushedDirty(s.shape(id), op.off, op.size, i);
    } else {
      StepStaysDirty(s, s', op, r, id, i);
    }
  }

  lemma {:induction false} RunByteSafe(trace: seq<Flat>, ops: seq<Op>, replies: seq<Reply>, from: nat, upto: nat,
                                       id: ObjectId, i: nat)
    requires Run(trace, ops, replies) && from <= upto <= |ops| && ByteSafe(trace[from], id, i)
    requires forall n | from <= n < upto ::
               !Targets(ops[n], id, i) && (ops[n].Flush? && ops[n].id == id ==> replies[n].Ack?)
    ensures ByteSafe(trace[upto], id, i)
    decreases upto - from
  {
    hide Step, ByteSafe;
    if from < upto {
      RunByteSafe(trace, ops, replies, from, upto - 1, id, i);
      StepByteSafe(trace[upto - 1], trace[upto], ops[upto - 1], replies[upto - 1], id, i);
    }
  }

  /**
    A byte is written, its whole segment is copied before any flush of the source to an object with no segment from
    there on or with one of the same range, and the copy is flushed: from then on the storage of the copy holds the data
    until the byte is targeted again, whatever else ran in between.
   */
  lemma CopyFlushed(trace: seq<Flat>, ops: seq<Op>, replies: seq<Reply>, w: nat, c: nat, f: nat, upto: nat, i: nat)
    requires Run(trace, ops, replies) && w < c < f < upto <= |ops|
    requires ops[w].Write? && ops[w].off <= i < ops[w].off + |ops[w].data|
    requires forall n | w < n < c ::
               !Targets(ops[n], ops[w].id, i) && !(ops[n].Flush? && ops[n].id == ops[w].id)
    requires ops[c].Cow? && ops[c].src == ops[w].id && !replies[c].Refused?
             && ops[c].off <= i < ops[c].off + ops[c].size
    requires var m, md := trace[c].shape(ops[c].src), trace[c].shape(ops[c].dst);
             forall k | k in m && m[k].Has(i) ::
               && ops[c].off <= m[k].offset && m[k].End() <= ops[c].off + ops[c].size
               && ((forall j | j in md :: j < m[k].offset)
                   || (k in md && md[k].offset == m[k].offset && md[k].size == m[k].size))
    requires forall n | c < n < upto :: !Targets(ops[n], ops[c].dst, i)
    requires forall n | c < n < f && ops[n].Flush? && ops[n].id == ops[c].dst :: replies[n].Ack?
    requires ops[f].Flush? && ops[f].id == ops[c].dst && replies[f].Ack?
             && (ops[f].size == 0 || ops[f].off <= i < ops[f].off + ops[f].size)
    ensures trace[upto].stored(ops[c].dst, i) == trace[upto].view(ops[c].dst, i) == ops[w].data[i - ops[w].off]
  {
    hide Step, UnderDirty;
    WriteShows(trace[w], trace[w + 1], ops[w], replies[w], i);
    RunStaysDirty(trace, ops, replies, w + 1, c, ops[w].id, i);
    var m := trace[c].shape(ops[w].id);
    DirtyHas(m, i);
    var k :| k in m && m[k].Has(i) && m[k].dirty;
    CopiedFlag(trace[c], trace[c + 1], ops[c], replies[c], k, i);
    RunByteSafe(trace, ops, replies, c + 1, f, ops[c].dst, i);
    LastWriteCopied(trace, ops, replies, w, c, f, i);
    DurableAfterFlush(trace, ops, replies, f, upto, i);
  }

  lemma DirtyHas(m: SegmentMap, i: nat)
    requires UnderDirty(m, i)
    ensures exists k :: k in m && m[k].Has(i) && m[k].dirty
  {
  }
}
