/** When the replies and iovecs of a request are right, told from the segments before the request. */
module RequestExact {
  import opened Basics
  import opened SegmentIndex
  import opened SharedHeap
  import opened SegmentLoading
  import opened RequestCover
  import opened ScatterGather
  import opened Shapes

  /** `segs` tiles `[b, e)` over the segments `m'` that a fetch made of `m`. */
  ghost predicate Completed(segs: seq<Descr>, m: SegmentMap, m': SegmentMap, b: nat, e: nat) {
    && b <= e && Indexed(m) && Indexed(m') && RangesKept(m, m') && GapShaped(m, m', b, e)
    && Tiles(segs, b, e) && Lists(segs, m', b, e - b)
  }

  lemma FetchedCompletes(objs: Objects, heap: Heap, objs': Objects, heap': Heap, stored: Stored, id: ObjectId,
                         clean: bool, forWrite: bool,
                         a: nat, off: nat, size: nat, segs: seq<Descr>)
    requires Fetched(objs, heap, objs', heap', stored, id, clean, forWrite, off, size) && id in objs && id in objs'
    requires Indexed(objs[id]) && Indexed(objs'[id])
             && GapShaped(objs[id], objs'[id], AlignedBase(off, a), AlignedEnd(off, size, a))
    requires Tiles(segs, AlignedBase(off, a), AlignedEnd(off, size, a))
             && Lists(segs, objs'[id], AlignedBase(off, a), AlignedSize(off, size, a))
    ensures Completed(segs, objs[id], objs'[id], AlignedBase(off, a), AlignedEnd(off, size, a))
  {
    hide Indexed, GapShaped, Tiles, Lists, AlignedBase, AlignedSize, NewSegments, BytesKept;
  }

  /** No segment serves a request exactly if its aligned range is empty and lies inside no segment. */
  lemma NothingThereIff(segs: seq<Descr>, m: SegmentMap, m': SegmentMap, b: nat, e: nat)
    requires Completed(segs, m, m', b, e)
    ensures segs == [] <==> NothingThere(m, b, e)
  {
    assert segs != [] ==> segs[0] in segs;
    if b == e {
      forall k | k in m' ensures k in m && m'[k].offset == m[k].offset && m'[k].End() == m[k].End() { }
      if k :| k in m && m[k].offset < b < m[k].End() { assert m'[k].Overlap(b, 0); }
    }
  }

  lemma Neighbours(segs: seq<Descr>, m: SegmentMap, m': SegmentMap, b: nat, e: nat)
    requires Completed(segs, m, m', b, e) && |segs| >= 2
    ensures InMap(segs[0], m') && InMap(segs[1], m') && segs[0].End() == segs[1].offset
    ensures segs[0].offset < e && b < segs[0].End() && segs[1].offset < e && b < segs[1].End()
  {
    hide GapShaped, Indexed;
    assert segs[0] in segs && segs[1] in segs;
  }

  lemma NewInGap(m: SegmentMap, m': SegmentMap, b: nat, e: nat, k: nat)
    requires Indexed(m) && RangesKept(m, m') && GapShaped(m, m', b, e) && FreeRange(m, b, e)
    requires k in m' && m'[k].offset < e && b < m'[k].End()
    ensures m'[k].End() == e
  {
  }

  lemma OldApart(m: SegmentMap, m': SegmentMap, j: nat, k: nat)
    requires Indexed(m') && RangesKept(m, m') && j in m && k in m' && k != j
    ensures m[j].End() <= m'[k].offset || m'[k].End() <= m[j].offset
  {
    assert j in m';
  }

  /** At most one segment serves a request exactly if no older one overlaps the aligned range or one contains it. */
  lemma OneSegmentIff(segs: seq<Descr>, m: SegmentMap, m': SegmentMap, b: nat, e: nat)
    requires Completed(segs, m, m', b, e)
    ensures |segs| <= 1 <==> OneSegment(m, b, e)
  {
    hide Indexed, GapShaped, Lists, RangesKept;
    if |segs| >= 2 {
      Neighbours(segs, m, m', b, e);
      var k0, k1 := segs[0].End() - 1, segs[1].End() - 1;
      if FreeRange(m, b, e) { NewInGap(m, m', b, e, k0); }
      forall k | k in m ensures !(m[k].offset <= b && e <= m[k].End()) {
        if k != k0 { OldApart(m, m', k, k0); }
        if k != k1 { OldApart(m, m', k, k1); }
      }
    } else {
      SingleSegment(segs, m, m', b, e);
    }
  }

  lemma SingleSegment(segs: seq<Descr>, m: SegmentMap, m': SegmentMap, b: nat, e: nat)
    requires Completed(segs, m, m', b, e) && |segs| <= 1
    ensures OneSegment(m, b, e)
  {
    hide GapShaped, Indexed;
    if b < e {
      var d := segs[0];
      assert d in segs && InMap(d, m');
      var k := d.End() - 1;
      if k in m {
        assert m[k].offset <= b && e <= m[k].End();
      } else {
        forall j | j in m ensures m[j].End() <= b || e <= m[j].offset { OldApart(m, m', j, k); }
      }
    } else if j :| j in m && !(m[j].End() <= b || e <= m[j].offset) {
      assert m[j].offset <= b && e <= m[j].End();
    }
  }

  // ---- The cuts of the iovecs ----------------------------------------------------------------------

  lemma ListedNow(segs: seq<Descr>, m: SegmentMap, m': SegmentMap, b: nat, e: nat, j: nat)
    requires Completed(segs, m, m', b, e) && j < |segs|
    ensures InMap(segs[j], m') && segs[j].offset < e && b < segs[j].End()
  {
    assert segs[j] in segs;
  }

  /** A new first segment starts the aligned range. */
  lemma NewStart(segs: seq<Descr>, m: SegmentMap, m': SegmentMap, b: nat, e: nat)
    requires Completed(segs, m, m', b, e) && segs != [] && segs[0].size > 0 && segs[0].End() - 1 !in m
    ensures segs[0].offset == b && b < e && !Covered(m, b)
  {
    hide Indexed, Lists;
    ListedNow(segs, m, m', b, e, 0);
    var k := segs[0].End() - 1;
    forall i | i in m ensures !m[i].Has(b) { OldApart(m, m', i, k); }
  }

  /** A new last segment ends the aligned range. */
  lemma NewEnd(segs: seq<Descr>, m: SegmentMap, m': SegmentMap, b: nat, e: nat)
    requires Completed(segs, m, m', b, e) && segs != [] && segs[|segs| - 1].size > 0 && segs[|segs| - 1].End() - 1 !in m
    ensures segs[|segs| - 1].End() == e && b < e && !Covered(m, e - 1)
  {
    hide Indexed, Lists, StartsAt;
    ListedNow(segs, m, m', b, e, |segs| - 1);
    var k := segs[|segs| - 1].End() - 1;
    assert b < e;
    forall i | i in m ensures !m[i].Has(e - 1) { OldApart(m, m', i, k); }
  }

  /** Listed segments that start at or before the request, and that end after it, are the first and the last one. */
  lemma FirstAndLast(segs: seq<Descr>, off: nat, size: nat, j: nat)
    requires Serves(segs, off, size) && j < |segs|
    ensures segs[j].size > 0 && (segs[j].offset <= off ==> j == 0) && (off + size < segs[j].End() ==> j == |segs| - 1)
  {
    if j > 0 { assert segs[j - 1].End() == segs[j].offset; }
    if j + 1 < |segs| { assert segs[j].End() == segs[j + 1].offset; }
  }

  /** The iovec entries of a request are all exact exactly if the cuts told from the older segments fit. */
  lemma CutsFitIff(segs: seq<Descr>, m: SegmentMap, m': SegmentMap, a: nat, off: nat, size: nat)
    requires Completed(segs, m, m', AlignedBase(off, a), AlignedEnd(off, size, a)) && Serves(segs, off, size)
    ensures (forall j | 0 <= j < |segs| :: Fits(segs[j], off, size)) <==> CutsFit(m, a, off, size)
  {
    hide Completed, Serves, AlignedBase, AlignedEnd, CutsFit;
    if CutsFit(m, a, off, size) {
      forall j | 0 <= j < |segs| ensures Fits(segs[j], off, size) { CutsFitThere(segs, m, m', a, off, size, j); }
    } else if forall j | 0 <= j < |segs| :: Fits(segs[j], off, size) {
      CutsFitHere(segs, m, m', a, off, size);
    }
  }

  lemma CutsFitThere(segs: seq<Descr>, m: SegmentMap, m': SegmentMap, a: nat, off: nat, size: nat, j: nat)
    requires Completed(segs, m, m', AlignedBase(off, a), AlignedEnd(off, size, a)) && Serves(segs, off, size)
    requires CutsFit(m, a, off, size) && j < |segs|
    ensures Fits(segs[j], off, size)
  {
    hide Completed, Serves, AlignedBase, AlignedEnd, Covered;
    var b, e := AlignedBase(off, a), AlignedEnd(off, size, a);
    ListedNow(segs, m, m', b, e, j);
    FirstAndLast(segs, off, size, j);
    var k := segs[j].End() - 1;
    CompletedParts(segs, m, m', b, e);
    if k in m {
      assert m[k].Overlap(b, e - b);
    } else {
      if j == 0 { NewStart(segs, m, m', b, e); }
      if j == |segs| - 1 { NewEnd(segs, m, m', b, e); }
    }
  }

  lemma CompletedParts(segs: seq<Descr>, m: SegmentMap, m': SegmentMap, b: nat, e: nat)
    requires Completed(segs, m, m', b, e)
    ensures b <= e && RangesKept(m, m') && (b < e ==> segs != [])
  {
  }

  lemma CutsFitHere(segs: seq<Descr>, m: SegmentMap, m': SegmentMap, a: nat, off: nat, size: nat)
    requires Completed(segs, m, m', AlignedBase(off, a), AlignedEnd(off, size, a)) && Serves(segs, off, size)
    requires forall j | 0 <= j < |segs| :: Fits(segs[j], off, size)
    ensures CutsFit(m, a, off, size)
  {
    hide Indexed, GapShaped, Serves, AlignedBase, AlignedEnd, Covered;
    var b, e := AlignedBase(off, a), AlignedEnd(off, size, a);
    forall k | k in m && m[k].Overlap(b, e - b) ensures off - m[k].offset < INT_LIMIT
        && m[k].End() - (off + size) < INT_LIMIT {
      assert m'[k].Describe() in segs;
    }
    if b < e {
      ListedNow(segs, m, m', b, e, 0);
      ListedNow(segs, m, m', b, e, |segs| - 1);
      if segs[0].End() - 1 in m { CoveredBy(m, m', segs[0], b); } else { NewStart(segs, m, m', b, e); }
      if segs[|segs| - 1].End() - 1 in m {
        CoveredBy(m, m', segs[|segs| - 1], e - 1);
      } else {
        NewEnd(segs, m, m', b, e);
      }
    }
  }

  lemma CoveredBy(m: SegmentMap, m': SegmentMap, d: Descr, i: nat)
    requires RangesKept(m, m') && InMap(d, m') && d.End() - 1 in m && d.offset <= i < d.End()
    ensures Covered(m, i)
  {
    assert m[d.End() - 1].Has(i);
  }

  /** Segments and aligned requests below 2^31 bytes always fit. */
  lemma ShortCutsFit(m: SegmentMap, a: nat, off: nat, size: nat)
    requires BlockAligned(m, a) && AlignedSize(off, size, a) < INT_LIMIT && forall k | k in m :: m[k].size < INT_LIMIT
    ensures CutsFit(m, a, off, size)
  {
    hide AlignedTo, AlignedBase, AlignedSize, Covered;
    AlignedRange(off, size, a);
    var b, e := AlignedBase(off, a), AlignedEnd(off, size, a);
    forall k | k in m && m[k].Overlap(b, e - b) ensures off - m[k].offset < INT_LIMIT
        && m[k].End() - (off + size) < INT_LIMIT {
      AlignedAbove(off, a, m[k].End());
      if size > 0 {
        AlignedBelow(off, size, a, m[k].offset);
      } else if m[k].offset > off {
        AlignedEmpty(off, a);
        NextBlock(b, a, m[k].offset);
      }
    }
  }
}
