/** The iovec path: clamping segments to a request, and gathering exactly the requested bytes. */
module ScatterGather {
  import opened Basics
  import opened SegmentIndex
  import opened SharedHeap
  import opened RequestCover
  import opened Shapes

  /** Conversion of a `size_t` difference to a 32-bit `int`. */
  function Int32(x: int): int {
    var r := x % 0x1_0000_0000;
    if r >= INT_LIMIT then r - 0x1_0000_0000 else r
  }

  datatype IoVec = IoVec(ptr: Ptr, start: int, len: int)

  /** The exact intersection of a segment with `[offset, offset + size)`, as an address and a length. */
  function Clamp(d: Descr, offset: nat, size: nat): IoVec {
    var head := if d.offset < offset then offset - d.offset else 0;
    var tail := if d.End() > offset + size then d.End() - (offset + size) else 0;
    IoVec(d.ptr, head, d.size - head - tail)
  }

  /** What is cut off at either end of the segment fits an `int`. */
  predicate Fits(d: Descr, offset: nat, size: nat) {
    offset - d.offset < INT_LIMIT && d.End() - (offset + size) < INT_LIMIT
  }

  lemma Int32Exact(x: nat)
    ensures Int32(x) == x <==> x < INT_LIMIT
  {
  }

  /** `d` is `x` modulo 2^32, as a 32-bit `int` holds it. */
  predicate Wraps(d: int, x: int) {
    -INT_LIMIT <= d < INT_LIMIT && d % 0x1_0000_0000 == x % 0x1_0000_0000
  }

  /** The entry is the segment without what is cut off at either end, each cut taken as a 32-bit `int`. */
  predicate CutBy(v: IoVec, d: Descr, offset: nat, size: nat) {
    var head, tail := v.start, d.size - v.start - v.len;
    && v.ptr == d.ptr
    && (if d.offset < offset then Wraps(head, offset - d.offset) else head == 0)
    && (if d.End() > offset + size then Wraps(tail, d.End() - (offset + size)) else tail == 0)
  }

  lemma Int32Wraps(x: int)
    ensures Wraps(Int32(x), x)
  {
  }

  /** One round of the loop that builds the iovec array. */
  method BuildEntry(d: Descr, offset: nat, size: nat) returns (v: IoVec)
    ensures v == Clamp(d, offset, size) <==> Fits(d, offset, size)
    ensures CutBy(v, d, offset, size)
  {
    hide Int32, Wraps;
    Int32Wraps(offset - d.offset);
    Int32Wraps(d.End() - (offset + size));
    var start, segOffset, segSize: int := 0, d.offset as int, d.size as int;
    if segOffset < offset {
      var delta := Int32(offset - segOffset);
      Int32Exact(offset - segOffset);
      start, segOffset, segSize := start + delta, segOffset + delta, segSize - delta;
    }
    if segOffset + segSize > offset + size {
      var delta := Int32(segOffset + segSize - (offset + size));
      Int32Exact(segOffset + segSize - (offset + size));
      segSize := segSize - delta;
    }
    v := IoVec(d.ptr, start, segSize);
  }

  /** Builds the iovec array. An entry is the exact intersection if and only if the cut-off parts fit an `int`. */
  method BuildIovec(segs: seq<Descr>, offset: nat, size: nat) returns (iov: seq<IoVec>)
    ensures |iov| == |segs|
    ensures forall j | 0 <= j < |segs| :: iov[j] == Clamp(segs[j], offset, size) <==> Fits(segs[j], offset, size)
    ensures forall j | 0 <= j < |segs| :: CutBy(iov[j], segs[j], offset, size)
  {
    hide Clamp, Fits, CutBy;
    iov := [];
    for j := 0 to |segs|
      invariant |iov| == j
      invariant forall x | 0 <= x < j :: iov[x] == Clamp(segs[x], offset, size) <==> Fits(segs[x], offset, size)
      invariant forall x | 0 <= x < j :: CutBy(iov[x], segs[x], offset, size)
    {
      var v := BuildEntry(segs[j], offset, size);
      iov := iov + [v];
    }
  }

  // ---- Gathering -------------------------------------------------------------------------------

  /** The bytes an iovec entry points at. */
  function Slice(heap: Heap, v: IoVec): seq<Byte> {
    if v.ptr in heap && 0 <= v.start && 0 <= v.len && v.start + v.len <= |heap[v.ptr].bytes|
    then heap[v.ptr].bytes[v.start..v.start + v.len] else []
  }

  function Gather(heap: Heap, iov: seq<IoVec>): seq<Byte> {
    if iov == [] then [] else Gather(heap, iov[..|iov| - 1]) + Slice(heap, iov[|iov| - 1])
  }

  lemma ListedBacked(segs: seq<Descr>, m: SegmentMap, heap: Heap, j: nat)
    requires AllBacked(m, heap) && AllInMap(segs, m) && j < |segs|
    ensures InMap(segs[j], m) && segs[j].size > 0 && Backed(m[segs[j].End() - 1], heap)
  {
    assert segs[j] in segs;
  }

  /** The entry of one segment holds the requested bytes between its neighbours' progress marks. */
  lemma EntryExact(segs: seq<Descr>, m: SegmentMap, heap: Heap, stored: Stored, id: ObjectId, off: nat, size: nat,
                   j: nat)
    requires Indexed(m) && AllBacked(m, heap) && AllInMap(segs, m) && Serves(segs, off, size) && j < |segs|
    ensures var b := Slice(heap, Clamp(segs[j], off, size));
            && Progress(segs, off, size, j) + |b| == Progress(segs, off, size, j + 1)
            && forall x | 0 <= x < |b| :: b[x] == ViewOf(m, heap, stored, id, off + Progress(segs, off, size, j) + x)
  {
    hide Indexed, AllBacked, AllInMap, ViewOf;
    var d := segs[j];
    var k := d.End() - 1;
    ListedBacked(segs, m, heap, j);
    var b, p := Slice(heap, Clamp(d, off, size)), Progress(segs, off, size, j);
    assert j > 0 ==> segs[j - 1].End() == d.offset;
    forall x | 0 <= x < |b| ensures b[x] == ViewOf(m, heap, stored, id, off + p + x) {
      assert m[k].Has(off + p + x);
      ViewCached(m, heap, stored, id, k, off + p + x);
    }
  }

  lemma {:induction false} GatherPrefix(segs: seq<Descr>, m: SegmentMap, heap: Heap, stored: Stored, id: ObjectId,
                                        off: nat, size: nat, iov: seq<IoVec>, j: nat)
    requires Indexed(m) && AllBacked(m, heap) && AllInMap(segs, m) && Serves(segs, off, size) && j <= |segs| == |iov|
    requires forall x | 0 <= x < |iov| :: iov[x] == Clamp(segs[x], off, size)
    ensures |Gather(heap, iov[..j])| == Progress(segs, off, size, j)
    ensures forall x | 0 <= x < Progress(segs, off, size, j) ::
            Gather(heap, iov[..j])[x] == ViewOf(m, heap, stored, id, off + x)
  {
    hide Indexed, AllBacked, AllInMap, ViewOf, Serves, Slice, Clamp, Progress;
    if j > 0 {
      GatherPrefix(segs, m, heap, stored, id, off, size, iov, j - 1);
      EntryExact(segs, m, heap, stored, id, off, size, j - 1);
      assert iov[..j][..j - 1] == iov[..j - 1];
    } else {
      NoProgress(segs, off, size);
    }
  }

  lemma NoProgress(segs: seq<Descr>, off: nat, size: nat)
    ensures Progress(segs, off, size, 0) == 0
  {
  }

  lemma FullProgress(segs: seq<Descr>, off: nat, size: nat)
    requires Serves(segs, off, size)
    ensures Progress(segs, off, size, |segs|) == size
  {
  }

  /** The clamped iovecs hold exactly bytes `[off, off + size)` of the view, in order. */
  lemma GatherExact(segs: seq<Descr>, m: SegmentMap, heap: Heap, stored: Stored, id: ObjectId, off: nat, size: nat,
                    iov: seq<IoVec>)
    requires Indexed(m) && AllBacked(m, heap) && AllInMap(segs, m) && Serves(segs, off, size) && |segs| == |iov|
    requires forall x | 0 <= x < |iov| :: iov[x] == Clamp(segs[x], off, size)
    ensures |Gather(heap, iov)| == size
    ensures forall x | 0 <= x < size :: Gather(heap, iov)[x] == ViewOf(m, heap, stored, id, off + x)
  {
    hide Indexed, AllBacked, AllInMap, ViewOf, Serves, Clamp, Progress, Gather;
    GatherPrefix(segs, m, heap, stored, id, off, size, iov, |segs|);
    FullProgress(segs, off, size);
    assert iov[..|segs|] == iov;
  }

  lemma ShortSegmentsFit(segs: seq<Descr>, off: nat, size: nat, j: nat)
    requires Serves(segs, off, size) && j < |segs| && segs[j].size < INT_LIMIT
    ensures Fits(segs[j], off, size)
  {
    assert j > 0 ==> segs[j - 1].End() == segs[j].offset;
  }

  // ---- The eager reply ---------------------------------------------------------------------------

  /**
    The eager reply fills an array with one fragment per segment but never advances the index: only entry 0 is
    written, by every segment in turn. `initial` is the content of the freshly allocated array.
   */
  method EagerPush(segs: seq<Descr>, off: nat, size: nat, initial: seq<IoVec>) returns (frags: seq<IoVec>)
    requires Serves(segs, off, size) && |initial| == |segs|
    ensures frags == EagerFragments(segs, off, size, initial)
  {
    frags := initial;
    var cur := 0;
    for j := 0 to |segs|
      invariant cur == Progress(segs, off, size, j)
      invariant |frags| == |segs| && (if j == 0 then frags == initial
                                                     else frags == initial[0 := Clamp(segs[j - 1], off, size)])
    {
      assert j > 0 ==> segs[j - 1].End() == segs[j].offset;
      var copySize, offset := segs[j].size, 0;
      if off > segs[j].offset {
        offset := off - segs[j].offset;
        copySize := copySize - offset;
      }
      if cur + copySize > size {
        copySize := size - cur;
      }
      frags := frags[0 := IoVec(segs[j].ptr, offset, copySize)];
      cur := cur + copySize;
    }
  }

  function EagerFragments(segs: seq<Descr>, off: nat, size: nat, initial: seq<IoVec>): seq<IoVec>
    requires |initial| == |segs|
  {
    if segs == [] then initial else initial[0 := Clamp(segs[|segs| - 1], off, size)]
  }

  /** The entries of a right reply. */
  function ClampAll(segs: seq<Descr>, off: nat, size: nat): seq<IoVec> {
    seq(|segs|, j requires 0 <= j < |segs| => Clamp(segs[j], off, size))
  }

  ghost predicate ReplyExact(segs: seq<Descr>, heap: Heap, off: nat, size: nat, initial: seq<IoVec>) {
    |initial| == |segs| ==>
      Gather(heap, EagerFragments(segs, off, size, initial)) == Gather(heap, ClampAll(segs, off, size))
  }

  lemma {:induction false} GatherEmpties(heap: Heap, v: IoVec, n: nat)
    ensures Gather(heap, [v] + seq(n, _ => IoVec(0, 0, 0))) == Slice(heap, v)
  {
    var iov := [v] + seq(n, _ => IoVec(0, 0, 0));
    if n == 0 {
      assert iov[..0] == [];
    } else {
      GatherEmpties(heap, v, n - 1);
      assert iov[..|iov| - 1] == [v] + seq(n - 1, _ => IoVec(0, 0, 0));
      assert iov[|iov| - 1] == IoVec(0, 0, 0);
    }
  }

  /**
    The eager reply is right for every content of the fresh array exactly if at most one segment serves the request.
   */
  lemma EagerReplyExactIff(segs: seq<Descr>, m: SegmentMap, heap: Heap, off: nat, size: nat)
    requires Indexed(m) && AllBacked(m, heap) && AllInMap(segs, m) && Serves(segs, off, size)
    ensures (forall initial :: ReplyExact(segs, heap, off, size, initial)) <==> |segs| <= 1
  {
    hide Indexed, AllBacked, AllInMap, Gather, Slice;
    if |segs| <= 1 {
      forall initial ensures ReplyExact(segs, heap, off, size, initial) {
        if |initial| == |segs| {
          assert EagerFragments(segs, off, size, initial) == ClampAll(segs, off, size);
        }
      }
    } else {
      LastAlone(segs, m, heap, off, size);
    }
  }

  /** If the fresh array is empty, the reply is the last fragment alone. */
  lemma LastAlone(segs: seq<Descr>, m: SegmentMap, heap: Heap, off: nat, size: nat)
    requires Indexed(m) && AllBacked(m, heap) && AllInMap(segs, m) && Serves(segs, off, size) && |segs| > 1
    ensures exists initial :: !ReplyExact(segs, heap, off, size, initial)
  {
    hide Indexed, AllBacked, AllInMap, Gather, Slice, Clamp, Serves, Progress;
    var last := Clamp(segs[|segs| - 1], off, size);
    var initial := [last] + seq(|segs| - 1, _ => IoVec(0, 0, 0));
    GatherEmpties(heap, last, |segs| - 1);
    assert EagerFragments(segs, off, size, initial) == initial;
    var stored: Stored := (id: ObjectId, i: nat) => 0;
    GatherExact(segs, m, heap, stored, ObjectId(0, 0), off, size, ClampAll(segs, off, size));
    EntryExact(segs, m, heap, stored, ObjectId(0, 0), off, size, |segs| - 1);
    FullProgress(segs, off, size);
    SomeProgress(segs, off, size);
    assert !ReplyExact(segs, heap, off, size, initial);
  }

  lemma {:induction false} GatherStarts(heap: Heap, iov: seq<IoVec>)
    requires iov != []
    ensures |Slice(heap, iov[0])| <= |Gather(heap, iov)|
    ensures Gather(heap, iov)[..|Slice(heap, iov[0])|] == Slice(heap, iov[0])
  {
    hide Slice;
    if |iov| > 1 {
      GatherStarts(heap, iov[..|iov| - 1]);
    } else {
      assert iov[..0] == [];
    }
  }

  /** `data` starts with bytes `[lo, hi)` of the view. */
  ghost predicate StartsWith(data: seq<Byte>, m: SegmentMap, heap: Heap, stored: Stored, id: ObjectId, lo: nat,
                             hi: nat)
  {
    && lo <= hi && hi - lo <= |data|
    && forall i | lo <= i < hi :: data[i - lo] == ViewOf(m, heap, stored, id, i)
  }

  /** `data` starts with the requested bytes of the last segment, which does not hold the first of them. */
  ghost predicate LastStarts(data: seq<Byte>, m: SegmentMap, heap: Heap, stored: Stored, id: ObjectId, off: nat,
                             size: nat)
  {
    && size > 0
    && exists k ::
         && k in m && off < m[k].offset && m[k].Has(off + size - 1)
         && StartsWith(data, m, heap, stored, id, m[k].offset, off + size)
  }

  /** With several segments, the eager reply starts with the bytes of the last one. */
  lemma EagerReplyStarts(segs: seq<Descr>, m: SegmentMap, heap: Heap, stored: Stored, id: ObjectId, off: nat, size: nat,
                         initial: seq<IoVec>)
    requires Indexed(m) && AllBacked(m, heap) && AllInMap(segs, m) && Serves(segs, off, size)
    requires |segs| > 1 && |initial| == |segs|
    ensures LastStarts(Gather(heap, EagerFragments(segs, off, size, initial)), m, heap, stored, id, off, size)
  {
    hide Indexed, AllBacked, AllInMap, Gather, Clamp, Slice, ViewOf;
    var n := |segs| - 1;
    var last, data := segs[n], Gather(heap, EagerFragments(segs, off, size, initial));
    ListedBacked(segs, m, heap, n);
    EntryExact(segs, m, heap, stored, id, off, size, n);
    FullProgress(segs, off, size);
    GatherStarts(heap, EagerFragments(segs, off, size, initial));
    assert segs[n - 1].End() == last.offset;
    var b := Slice(heap, Clamp(last, off, size));
    assert off + Progress(segs, off, size, n) == last.offset && |b| == off + size - last.offset;
    forall i | last.offset <= i < off + size ensures data[i - last.offset] == ViewOf(m, heap, stored, id, i) {
      assert data[..|b|][i - last.offset] == b[i - last.offset];
    }
    var k := last.End() - 1;
    assert m[k].offset == last.offset && m[k].Has(off + size - 1);
  }

  lemma SomeProgress(segs: seq<Descr>, off: nat, size: nat)
    requires Serves(segs, off, size) && |segs| >= 2
    ensures Progress(segs, off, size, |segs| - 1) > 0
  {
  }
}
