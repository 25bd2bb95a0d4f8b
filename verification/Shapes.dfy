/**
  What can be told about an object from the ranges and flags of its segments alone: which bytes are cached or dirty, how
  requests change that, and which requests the code serves right.
 */
module Shapes {
  import opened Basics
  import opened SegmentIndex

  /** The segments of an object without their buffers. */
  function Bare(m: SegmentMap): SegmentMap {
    map k | k in m :: m[k].(ptr := 0)
  }

  /** A dirty segment holds byte `i`. */
  ghost predicate UnderDirty(m: SegmentMap, i: nat) {
    exists k :: k in m && m[k].Has(i) && m[k].dirty
  }

  /** Every segment of `m` keeps its range. */
  ghost predicate RangesKept(m: SegmentMap, m': SegmentMap) {
    forall k | k in m :: k in m' && m'[k].offset == m[k].offset && m'[k].size == m[k].size
  }

  /** Segments with keys from `x` on are the same up to buffers and flags. */
  ghost predicate SameFrom(m: SegmentMap, m': SegmentMap, x: nat) {
    && (forall k | k in m && x <= k :: k in m' && m'[k].offset == m[k].offset && m'[k].size == m[k].size)
    && (forall k | k in m' && x <= k :: k in m)
  }

  // ---- How requests change the segments ----------------------------------------------------------

  function Marked(s: Segment, base: nat, size: nat): Segment {
    if s.Overlap(base, size) then s.(dirty := true) else s
  }

  function Flushed(s: Segment, offset: nat, size: nat): Segment {
    if size == 0 || s.Overlap(offset, size) then s.(dirty := false) else s
  }

  /** A flush of the range writes the segment out. */
  predicate Chosen(s: Segment, offset: nat, size: nat) {
    s.dirty && (size == 0 || s.Overlap(offset, size))
  }

  function FlushedAll(m: SegmentMap, offset: nat, size: nat): SegmentMap {
    map k | k in m :: Flushed(m[k], offset, size)
  }

  /** A flush of the range writes byte `i` out. */
  ghost predicate Selected(m: SegmentMap, offset: nat, size: nat, i: nat) {
    exists k :: k in m && m[k].Has(i) && Chosen(m[k], offset, size)
  }

  /** How many segments before key `k` a flush of the range writes out. */
  function Rank(m: SegmentMap, offset: nat, size: nat, k: nat): nat {
    |ChosenBefore(m, offset, size, k)|
  }

  function ChosenBefore(m: SegmentMap, offset: nat, size: nat, k: nat): set<nat> {
    set j | j in m && j < k && Chosen(m[j], offset, size)
  }

  function ChosenKeys(m: SegmentMap, offset: nat, size: nat): set<nat> {
    set j | j in m && Chosen(m[j], offset, size)
  }

  /** How many segments a flush of the range writes out. */
  function Writes(m: SegmentMap, offset: nat, size: nat): nat {
    |ChosenKeys(m, offset, size)|
  }

  /** A flush whose storage calls are numbered from `call` stores byte `i`: the call for its segment gets that far. */
  ghost predicate Stores(m: SegmentMap, offset: nat, size: nat, outcome: nat -> Outcome, call: nat, i: nat) {
    exists k :: k in m && m[k].Has(i) && Chosen(m[k], offset, size) &&
                Reaches(outcome(call + Rank(m, offset, size, k)), i - m[k].offset)
  }

  lemma RankBelowWrites(m: SegmentMap, offset: nat, size: nat, k: nat)
    requires k in m && Chosen(m[k], offset, size)
    ensures Rank(m, offset, size, k) < Writes(m, offset, size)
  {
    SmallerSet(ChosenBefore(m, offset, size, k) + {k}, ChosenKeys(m, offset, size));
  }

  lemma {:induction false} SmallerSet(s: set<nat>, t: set<nat>)
    requires s <= t
    ensures |s| <= |t|
    decreases s
  {
    if s != {} {
      var x :| x in s;
      SmallerSet(s - {x}, t - {x});
    }
  }

  lemma StoresSelected(m: SegmentMap, offset: nat, size: nat, outcome: nat -> Outcome, call: nat, i: nat)
    ensures Stores(m, offset, size, outcome, call, i) ==> Selected(m, offset, size, i)
  {
    hide Rank;
  }

  /** If none of its calls fails, a flush stores every byte it selects. */
  lemma QuietStores(m: SegmentMap, offset: nat, size: nat, outcome: nat -> Outcome, call: nat, i: nat)
    requires Quiet(outcome, call, call + Writes(m, offset, size))
    ensures Stores(m, offset, size, outcome, call, i) <==> Selected(m, offset, size, i)
  {
    hide Rank, Writes;
    if k :| k in m && m[k].Has(i) && Chosen(m[k], offset, size) {
      RankBelowWrites(m, offset, size, k);
      assert outcome(call + Rank(m, offset, size, k)).None?;
    }
  }

  ghost predicate StartsAt(m: SegmentMap, x: nat) {
    exists j :: j in m && m[j].offset == x
  }

  /** A loaded segment stays in the range and ends at the end of the range or where an older segment starts. */
  ghost predicate GapShaped(m: SegmentMap, m': SegmentMap, base: nat, end: nat) {
    forall k | k in m' && k !in m ::
      base <= m'[k].offset && m'[k].End() <= end && (m'[k].End() == end || StartsAt(m, m'[k].End()))
  }

  /** A fetch adds clean segments in the gaps of `[b, e)`. */
  ghost predicate Filled(m: SegmentMap, m': SegmentMap, b: nat, e: nat) {
    && (forall k | k in m :: k in m' && m'[k] == m[k])
    && GapShaped(m, m', b, e)
    && (forall k | k in m' && k !in m :: !m'[k].dirty)
  }

  /** A write fills the gaps of `[b, e)` and marks what it touches. */
  ghost predicate Written(m: SegmentMap, m': SegmentMap, b: nat, e: nat, off: nat, size: nat) {
    && (forall k | k in m :: k in m' && m'[k] == Marked(m[k], off, size))
    && GapShaped(m, m', b, e)
    && (forall k | k in m' && k !in m :: m'[k].dirty <==> m'[k].Overlap(off, size))
    && CoveredRange(m', b, e)
  }

  // ---- Reads and RDMA writes ---------------------------------------------------------------------

  const INT_LIMIT := 0x8000_0000

  /** Longest read that is answered in the reply itself. */
  const EAGER_MAX_READ := 32 * 1024

  /** No segment overlaps `[b, e)`, or one contains it. */
  ghost predicate OneSegment(m: SegmentMap, b: nat, e: nat) {
    FreeRange(m, b, e) || exists k :: k in m && m[k].offset <= b && e <= m[k].End()
  }

  /** The aligned range is empty, and no segment has bytes on both sides of it. */
  ghost predicate NothingThere(m: SegmentMap, b: nat, e: nat) {
    b == e && forall k | k in m :: !(m[k].offset < b < m[k].End())
  }

  /** What is cut off the first and the last segment of a request fits a 32-bit `int`. */
  ghost predicate CutsFit(m: SegmentMap, a: nat, off: nat, size: nat) {
    var b, e := AlignedBase(off, a), AlignedEnd(off, size, a);
    && (forall k | k in m && m[k].Overlap(b, e - b) ::
        off - m[k].offset < INT_LIMIT && m[k].End() - (off + size) < INT_LIMIT)
    && (b < e && !Covered(m, b) ==> off - b < INT_LIMIT)
    && (b < e && !Covered(m, e - 1) ==> e - (off + size) < INT_LIMIT)
  }

  /**
    A write has to load: the aligned range has bytes that are neither cached nor written. They are in its first or in
    its last block.
   */
  ghost predicate NeedsLoad(m: SegmentMap, a: nat, off: nat, size: nat) {
    var b, e := AlignedBase(off, a), AlignedEnd(off, size, a);
    || (b < off && !Covered(m, b))
    || (off + size < e && !Covered(m, e - 1))
  }

  /** Byte `i` is in the aligned range of a write, but neither cached nor written. */
  ghost predicate LeftToLoad(m: SegmentMap, a: nat, off: nat, size: nat, i: nat) {
    AlignedBase(off, a) <= i < AlignedEnd(off, size, a) && !Covered(m, i) && !(off <= i < off + size)
  }

  lemma BlockUncovered(m: SegmentMap, a: nat, b: nat, i: nat, x: nat)
    requires BlockAligned(m, a) && AlignedTo(b, a) && !Covered(m, i)
    requires b <= i && b <= x && (a > 0 ==> i < b + a && x < b + a) && (a == 0 ==> x == i)
    ensures !Covered(m, x)
  {
    hide AlignedTo;
    forall k | k in m ensures !m[k].Has(x) {
      assert !m[k].Has(i);
      if m[k].Has(x) { BlockWhole(m[k], a, b, i, x); }
    }
  }

  lemma BlockWhole(s: Segment, a: nat, b: nat, i: nat, x: nat)
    requires AlignedTo(s.offset, a) && AlignedTo(s.End(), a) && AlignedTo(b, a)
    requires b <= i && b <= x && (a > 0 ==> i < b + a && x < b + a) && (a == 0 ==> x == i) && s.Has(x)
    ensures s.Has(i)
  {
    if a > 0 {
      if s.offset > b { MultiplesApart(s.offset, b, a); }
      if s.End() > b { MultiplesApart(s.End(), b, a); }
    }
  }

  /** Exactly then some byte is left to load. */
  lemma NeedsLoadIff(m: SegmentMap, a: nat, off: nat, size: nat)
    requires BlockAligned(m, a)
    ensures NeedsLoad(m, a, off, size) <==> exists i: nat :: LeftToLoad(m, a, off, size, i)
  {
    hide AlignedBase, AlignedSize, AlignedTo, Covered, BlockAligned;
    AlignedRange(off, size, a);
    var b, e := AlignedBase(off, a), AlignedEnd(off, size, a);
    if NeedsLoad(m, a, off, size) {
      if b < off && !Covered(m, b) {
        assert LeftToLoad(m, a, off, size, b);
      } else {
        assert LeftToLoad(m, a, off, size, e - 1);
      }
    }
    if i: nat :| LeftToLoad(m, a, off, size, i) {
      if i < off {
        FirstBlock(off, a);
        BlockUncovered(m, a, b, i, b);
      } else {
        LastBlock(off, size, a);
        BlockUncovered(m, a, e - a, i, e - 1);
      }
    }
  }

  /** The request starts in the first block of its aligned range. */
  lemma FirstBlock(off: nat, a: nat)
    ensures a > 0 ==> off < AlignedBase(off, a) + a
  {
  }

  /** The request ends in the last block of its aligned range. */
  lemma LastBlock(off: nat, size: nat, a: nat)
    requires off + size < AlignedEnd(off, size, a)
    ensures a > 0 && a <= AlignedEnd(off, size, a) && AlignedTo(AlignedEnd(off, size, a) - a, a)
    ensures AlignedEnd(off, size, a) - a <= off + size
  {
    AlignedRange(off, size, a);
    var e := AlignedEnd(off, size, a);
    var s := size + off % a;
    assert s % a > 0;
    DownToMultiple(s, a);
    MultiplesAdd(AlignedBase(off, a), s - s % a, a);
  }

  /** The reply to a read holds the bytes that were asked for. */
  ghost predicate ReadExact(m: SegmentMap, a: nat, off: nat, size: nat) {
    if size <= EAGER_MAX_READ then OneSegment(m, AlignedBase(off, a), AlignedEnd(off, size, a))
                                   else CutsFit(m, a, off, size)
  }

  // ---- Range copies ------------------------------------------------------------------------------

  function Max(x: nat, y: nat): nat { if x < y then y else x }

  function Min(x: nat, y: nat): nat { if x < y then x else y }

  /** The segment is not fully inside the range, or the first destination segment from its start on is another range. */
  predicate MustCopy(m: SegmentMap, s: Segment, offset: nat, size: nat) {
    || s.offset < offset || offset + size < s.End()
    || (var t := LowerBound(m.Keys, s.offset); t.Some? && (m[t.value].offset != s.offset || m[t.value].size != s.size))
  }

  /**
    A segment is shared exactly if it lies in the range and `m` has no segment that ends at or after its start, or has
    one with exactly its range.
   */
  lemma MustCopyIff(m: SegmentMap, s: Segment, offset: nat, size: nat)
    requires Indexed(m) && s.size > 0
    ensures !MustCopy(m, s, offset, size) <==>
              && offset <= s.offset && s.End() <= offset + size
              && (|| (forall k | k in m :: k < s.offset)
                  || (s.End() - 1 in m && m[s.End() - 1].offset == s.offset && m[s.End() - 1].size == s.size))
  {
    var t := LowerBound(m.Keys, s.offset);
    if t.Some? && s.End() - 1 in m && m[s.End() - 1].offset == s.offset {
      assert t.value <= s.End() - 1 && m[t.value].Has(t.value) && m[s.End() - 1].Has(t.value);
      OnlyOneCovers(m, t.value, s.End() - 1, t.value);
    }
  }

  /** The copy of a segment into `m` has to load: it goes byte by byte, and `m` lacks some of the blocks it touches. */
  ghost predicate CopyLoads(m: SegmentMap, a: nat, s: Segment, offset: nat, size: nat) {
    var lo, hi := Max(s.offset, offset), Min(s.End(), offset + size);
    && MustCopy(m, s, offset, size)
    && !CoveredRange(m, AlignedBase(lo, a), AlignedEnd(lo, if lo <= hi then hi - lo else 0, a))
  }

  /** A copy of the range from `m` to `md` has to load for some segment. */
  ghost predicate RangeLoads(m: SegmentMap, md: SegmentMap, a: nat, offset: nat, size: nat) {
    exists k :: k in m && m[k].Overlap(offset, size) && CopyLoads(md, a, m[k], offset, size)
  }

  /**
    The copy of `n` bytes to `at` stays in its buffers: a segment that already covers the first byte starts there or
    holds the whole copy; if none does, the block of the first byte starts there or no segment starts inside the copy.
   */
  ghost predicate CopyFits(m: SegmentMap, a: nat, at: nat, n: nat) {
    && (forall k | k in m && m[k].Has(at) :: m[k].offset == at || at + n <= m[k].End())
    && (!Covered(m, at) ==> AlignedBase(at, a) == at || forall k | k in m :: !(at < m[k].offset < at + n))
  }

  /** The segment is copied and the copy leaves its buffer. */
  ghost predicate Overruns(m: SegmentMap, a: nat, s: Segment, offset: nat, size: nat) {
    var lo, hi := Max(s.offset, offset), Min(s.End(), offset + size);
    MustCopy(m, s, offset, size) && !CopyFits(m, a, lo, if lo <= hi then hi - lo else 0)
  }

  /** Some segment of the source `m` overruns a buffer of the destination `md`. */
  ghost predicate RangeOverruns(m: SegmentMap, md: SegmentMap, a: nat, offset: nat, size: nat) {
    exists k :: k in m && m[k].Overlap(offset, size) && Overruns(md, a, m[k], offset, size)
  }

  /** The segment of `m` under key `k` holds byte `i` and is shared with the destination `md`. */
  ghost predicate SharedAt(m: SegmentMap, md: SegmentMap, offset: nat, size: nat, k: nat, i: nat) {
    k in m && m[k].Overlap(offset, size) && m[k].Has(i) && !MustCopy(md, m[k], offset, size)
  }

  /** Whether byte `i` of the destination is under a dirty segment once the source segments below `bound` are copied. */
  ghost predicate DirtyAfter(m: SegmentMap, md: SegmentMap, offset: nat, size: nat, bound: nat, i: nat) {
    || (exists k: nat :: k < bound && SharedAt(m, md, offset, size, k, i) && m[k].dirty)
    || (UnderDirty(md, i) && !exists k: nat :: k < bound && SharedAt(m, md, offset, size, k, i))
  }

  /** The same for a whole range copy. */
  ghost predicate DirtyAtEnd(m: SegmentMap, md: SegmentMap, offset: nat, size: nat, i: nat) {
    || (exists k: nat :: SharedAt(m, md, offset, size, k, i) && m[k].dirty)
    || (UnderDirty(md, i) && !exists k: nat :: SharedAt(m, md, offset, size, k, i))
  }

  lemma DirtyInSegment(m: SegmentMap, md: SegmentMap, off: nat, size: nat, k: nat, i: nat)
    requires Indexed(m) && k in m && m[k].Has(i) && off <= i < off + size
    ensures DirtyAtEnd(m, md, off, size, i) <==> if MustCopy(md, m[k], off, size) then UnderDirty(md, i) else m[k].dirty
  {
    hide MustCopy, UnderDirty;
    forall j: nat | SharedAt(m, md, off, size, j, i) ensures j == k { OnlyOneCovers(m, j, k, i); }
    assert !MustCopy(md, m[k], off, size) ==> SharedAt(m, md, off, size, k, i);
  }

  /** Segments with keys below `x` keep their slots. */
  ghost predicate KeptBelow(m: SegmentMap, m': SegmentMap, x: nat) {
    forall k | k in m && k < x :: k in m' && m'[k] == m[k]
  }

  /** Every segment keeps its flag, and new ones are clean. */
  ghost predicate FlagsKept(m: SegmentMap, m': SegmentMap) {
    forall k | k in m' :: m'[k].dirty <==> k in m && m[k].dirty
  }

  // ---- None of this depends on buffers -------------------------------------------------------------

  lemma CoverKept(m: SegmentMap, m': SegmentMap, i: nat)
    requires RangesKept(m, m')
    ensures Covered(m, i) ==> Covered(m', i)
  {
    if k :| k in m && m[k].Has(i) { assert m'[k].Has(i); }
  }

  lemma BareKeeps(m: SegmentMap)
    ensures RangesKept(m, Bare(m)) && RangesKept(Bare(m), m) && SameFrom(m, Bare(m), 0) && SameFrom(Bare(m), m, 0)
    ensures Bare(m).Keys == m.Keys && Bare(map[]) == map[]
  {
  }

  lemma SameBareKept(m: SegmentMap, m': SegmentMap)
    requires Bare(m') == Bare(m)
    ensures RangesKept(m, m')
  {
    assert Bare(m').Keys == m'.Keys;
    forall k | k in m ensures k in m' && m'[k].offset == m[k].offset && m'[k].size == m[k].size {
      assert Bare(m)[k] == Bare(m')[k];
    }
  }

  lemma BareCovered(m: SegmentMap, i: nat)
    ensures Covered(Bare(m), i) <==> Covered(m, i)
    ensures UnderDirty(Bare(m), i) <==> UnderDirty(m, i)
  {
    BareKeeps(m);
    CoverKept(m, Bare(m), i);
    CoverKept(Bare(m), m, i);
    if k :| k in m && m[k].Has(i) && m[k].dirty { assert Bare(m)[k].Has(i); }
  }

  lemma BareSelected(m: SegmentMap, offset: nat, size: nat, i: nat)
    ensures Selected(Bare(m), offset, size, i) <==> Selected(m, offset, size, i)
  {
    if k :| k in m && m[k].Has(i) && Chosen(m[k], offset, size) { assert Bare(m)[k].Has(i); }
  }

  lemma BareRange(m: SegmentMap, lo: nat, hi: nat)
    ensures CoveredRange(Bare(m), lo, hi) <==> CoveredRange(m, lo, hi)
  {
    hide Covered, Bare;
    forall i: nat ensures Covered(Bare(m), i) <==> Covered(m, i) { BareCovered(m, i); }
  }

  lemma BareIndexed(m: SegmentMap)
    requires Indexed(m)
    ensures Indexed(Bare(m))
  {
  }

  lemma BareCutsFit(m: SegmentMap, a: nat, off: nat, size: nat)
    ensures CutsFit(Bare(m), a, off, size) <==> CutsFit(m, a, off, size)
  {
    hide AlignedBase, AlignedSize, Covered;
    var b, e := AlignedBase(off, a), AlignedEnd(off, size, a);
    BareCovered(m, b);
    if b < e { BareCovered(m, e - 1); }
    assert forall k | k in m :: Bare(m)[k].offset == m[k].offset && Bare(m)[k].End() == m[k].End();
  }

  lemma BareNothingThere(m: SegmentMap, b: nat, e: nat)
    ensures NothingThere(Bare(m), b, e) <==> NothingThere(m, b, e)
  {
    assert forall k | k in m :: Bare(m)[k].offset == m[k].offset && Bare(m)[k].End() == m[k].End();
  }

  lemma NeedsLoadSame(m: SegmentMap, m': SegmentMap, a: nat, off: nat, size: nat)
    requires RangesKept(m, m') && RangesKept(m', m)
    ensures NeedsLoad(m', a, off, size) <==> NeedsLoad(m, a, off, size)
  {
    hide AlignedBase, AlignedSize, Covered, RangesKept;
    forall i: nat ensures Covered(m', i) <==> Covered(m, i) {
      CoverKept(m, m', i);
      CoverKept(m', m, i);
    }
  }

  lemma BareNeedsLoad(m: SegmentMap, a: nat, off: nat, size: nat)
    ensures NeedsLoad(Bare(m), a, off, size) <==> NeedsLoad(m, a, off, size)
  {
    hide NeedsLoad, RangesKept, Bare;
    BareKeeps(m);
    NeedsLoadSame(m, Bare(m), a, off, size);
  }

  lemma BareOneSegment(m: SegmentMap, b: nat, e: nat)
    ensures OneSegment(Bare(m), b, e) <==> OneSegment(m, b, e)
  {
    assert forall k | k in m :: Bare(m)[k].offset == m[k].offset && Bare(m)[k].End() == m[k].End();
    if k :| k in m && m[k].offset <= b && e <= m[k].End() { assert Bare(m)[k].offset <= b; }
    if k :| k in Bare(m) && Bare(m)[k].offset <= b && e <= Bare(m)[k].End() { assert m[k].offset <= b; }
  }

  lemma BareReadExact(m: SegmentMap, a: nat, off: nat, size: nat)
    ensures ReadExact(Bare(m), a, off, size) <==> ReadExact(m, a, off, size)
  {
    hide OneSegment, CutsFit, Bare;
    BareOneSegment(m, AlignedBase(off, a), AlignedEnd(off, size, a));
    BareCutsFit(m, a, off, size);
  }

  lemma LowerBoundSame(m: SegmentMap, m': SegmentMap, x: nat)
    requires SameFrom(m, m', x)
    ensures LowerBound(m'.Keys, x) == LowerBound(m.Keys, x)
  {
  }

  lemma MustCopySame(m: SegmentMap, m': SegmentMap, s: Segment, offset: nat, size: nat)
    requires SameFrom(m, m', s.offset)
    ensures MustCopy(m', s, offset, size) <==> MustCopy(m, s, offset, size)
  {
    LowerBoundSame(m, m', s.offset);
  }

  lemma CopyFitsSame(m: SegmentMap, m': SegmentMap, a: nat, at: nat, n: nat, x: nat)
    requires Indexed(m) && Indexed(m') && SameFrom(m, m', x) && x <= at
    ensures CopyFits(m', a, at, n) <==> CopyFits(m, a, at, n)
  {
    hide AlignedBase;
    forall k | k in m && at <= k ensures k in m' && m'[k].offset == m[k].offset && m'[k].End() == m[k].End()
        && m'[k].Has(at) == m[k].Has(at) {
    }
    forall k | k in m' && at <= k ensures k in m {
    }
    assert forall k | k in m && m[k].Has(at) :: at <= k;
    assert forall k | k in m' && m'[k].Has(at) :: at <= k;
    assert forall k | k in m && at < m[k].offset :: at <= k;
    assert forall k | k in m' && at < m'[k].offset :: at <= k;
    CoveredSame(m, m', at, x);
  }

  lemma CoveredSame(m: SegmentMap, m': SegmentMap, i: nat, x: nat)
    requires Indexed(m) && Indexed(m') && SameFrom(m, m', x) && x <= i
    ensures Covered(m', i) <==> Covered(m, i)
  {
    if k :| k in m && m[k].Has(i) { assert m'[k].Has(i); }
    if k :| k in m' && m'[k].Has(i) { assert m[k].Has(i); }
  }

  /** What happens to a source segment depends only on the destination segments from its start on. */
  lemma OverrunsSame(m: SegmentMap, m': SegmentMap, a: nat, s: Segment, offset: nat, size: nat)
    requires Indexed(m) && Indexed(m') && SameFrom(m, m', s.offset)
    ensures Overruns(m', a, s, offset, size) <==> Overruns(m, a, s, offset, size)
  {
    hide MustCopy, CopyFits, SameFrom, Indexed;
    MustCopySame(m, m', s, offset, size);
    var lo, hi := Max(s.offset, offset), Min(s.End(), offset + size);
    CopyFitsSame(m, m', a, lo, if lo <= hi then hi - lo else 0, s.offset);
  }

  lemma SameFromLater(m: SegmentMap, m': SegmentMap, x: nat, y: nat)
    requires SameFrom(m, m', x) && x <= y
    ensures SameFrom(m, m', y)
  {
  }

  lemma SameFromThen(m0: SegmentMap, m: SegmentMap, m': SegmentMap, x: nat, y: nat)
    requires SameFrom(m0, m, x) && SameFrom(m, m', y) && x <= y
    ensures SameFrom(m0, m', y)
  {
  }

  /** The overrun and sharing decisions about a segment are those about its bare form. */
  lemma BareDecisions(md: SegmentMap, a: nat, s: Segment, offset: nat, size: nat)
    requires Indexed(md)
    ensures MustCopy(Bare(md), s.(ptr := 0), offset, size) <==> MustCopy(md, s, offset, size)
    ensures Overruns(Bare(md), a, s.(ptr := 0), offset, size) <==> Overruns(md, a, s, offset, size)
  {
    hide MustCopy, CopyFits, Bare, Indexed, SameFrom;
    BareKeeps(md);
    BareIndexed(md);
    SameFromLater(md, Bare(md), 0, s.offset);
    MustCopySame(md, Bare(md), s, offset, size);
    OverrunsSame(md, Bare(md), a, s, offset, size);
    NamelessMustCopy(Bare(md), s, offset, size);
  }

  lemma NamelessMustCopy(m: SegmentMap, s: Segment, offset: nat, size: nat)
    ensures MustCopy(m, s.(ptr := 0), offset, size) <==> MustCopy(m, s, offset, size)
  {
  }

  lemma BareRangeOverruns(m: SegmentMap, md: SegmentMap, a: nat, offset: nat, size: nat)
    requires Indexed(md)
    ensures RangeOverruns(Bare(m), Bare(md), a, offset, size) <==> RangeOverruns(m, md, a, offset, size)
  {
    hide Overruns, Indexed;
    forall k | k in m ensures Overruns(Bare(md), a, Bare(m)[k], offset, size) <==> Overruns(md, a, m[k], offset, size) {
      BareDecisions(md, a, m[k], offset, size);
    }
    if k :| k in m && m[k].Overlap(offset, size) && Overruns(md, a, m[k], offset, size) {
      assert Bare(m)[k].Overlap(offset, size);
    }
    if k :| k in Bare(m) && Bare(m)[k].Overlap(offset, size) && Overruns(Bare(md), a, Bare(m)[k], offset, size) {
      assert m[k].Overlap(offset, size);
    }
  }

  lemma CopyLoadsSame(m: SegmentMap, m': SegmentMap, a: nat, s: Segment, offset: nat, size: nat)
    requires Indexed(m) && Indexed(m') && SameFrom(m, m', s.offset) && AlignedTo(s.offset, a)
    ensures CopyLoads(m', a, s, offset, size) <==> CopyLoads(m, a, s, offset, size)
  {
    hide MustCopy, SameFrom, Indexed, AlignedTo, AlignedBase, AlignedSize, Covered;
    MustCopySame(m, m', s, offset, size);
    var b := AlignedBase(Max(s.offset, offset), a);
    if s.offset > b { AlignedAbove(Max(s.offset, offset), a, s.offset); }
    forall i: nat | b <= i ensures Covered(m', i) <==> Covered(m, i) { CoveredSame(m, m', i, s.offset); }
  }

  lemma BareRangeLoads(m: SegmentMap, md: SegmentMap, a: nat, offset: nat, size: nat)
    requires Indexed(md)
    ensures RangeLoads(Bare(m), Bare(md), a, offset, size) <==> RangeLoads(m, md, a, offset, size)
  {
    hide CopyLoads, Indexed;
    forall k | k in m
      ensures CopyLoads(Bare(md), a, Bare(m)[k], offset, size) <==> CopyLoads(md, a, m[k], offset, size)
    {
      BareCopyLoads(md, a, m[k], offset, size);
    }
    if k :| k in m && m[k].Overlap(offset, size) && CopyLoads(md, a, m[k], offset, size) {
      assert Bare(m)[k].Overlap(offset, size);
    }
  }

  lemma BareCopyLoads(md: SegmentMap, a: nat, s: Segment, offset: nat, size: nat)
    requires Indexed(md)
    ensures CopyLoads(Bare(md), a, s.(ptr := 0), offset, size) <==> CopyLoads(md, a, s, offset, size)
  {
    hide MustCopy, Indexed, AlignedBase, AlignedSize, CoveredRange, Bare;
    BareDecisions(md, a, s, offset, size);
    var lo, hi := Max(s.offset, offset), Min(s.End(), offset + size);
    BareRange(md, AlignedBase(lo, a), AlignedEnd(lo, if lo <= hi then hi - lo else 0, a));
  }

  lemma BareSharedAt(m: SegmentMap, md: SegmentMap, offset: nat, size: nat, k: nat, i: nat)
    requires Indexed(md)
    ensures SharedAt(Bare(m), Bare(md), offset, size, k, i) <==> SharedAt(m, md, offset, size, k, i)
  {
    hide MustCopy, Indexed;
    if k in m { BareDecisions(md, 0, m[k], offset, size); }
  }

  lemma BareDirtyAtEnd(m: SegmentMap, md: SegmentMap, offset: nat, size: nat, i: nat)
    requires Indexed(md)
    ensures DirtyAtEnd(Bare(m), Bare(md), offset, size, i) <==> DirtyAtEnd(m, md, offset, size, i)
  {
    hide SharedAt, Indexed, UnderDirty;
    BareCovered(md, i);
    forall k: nat ensures SharedAt(Bare(m), Bare(md), offset, size, k, i) <==> SharedAt(m, md, offset, size, k, i) {
      BareSharedAt(m, md, offset, size, k, i);
    }
    forall k: nat | SharedAt(m, md, offset, size, k, i) ensures k in m { SharedIn(m, md, offset, size, k, i); }
  }

  lemma SharedIn(m: SegmentMap, md: SegmentMap, offset: nat, size: nat, k: nat, i: nat)
    requires SharedAt(m, md, offset, size, k, i)
    ensures k in m && m[k].Has(i)
  {
  }
}
