/**
  What a tiling of the aligned range means for the request itself: every segment touches it and together they hold it.
 */
module RequestCover {
  import opened SegmentIndex

  /** Adjacent segments that hold `[off, off + size)`, each touching it; an empty request gets at most one. */
  ghost predicate Serves(segs: seq<Descr>, off: nat, size: nat) {
    && Chain(segs)
    && (forall i | 0 <= i < |segs| :: off < segs[i].End())
    && (segs != [] ==> segs[0].offset <= off)
    && (size > 0 ==> segs != [] && off + size <= segs[|segs| - 1].End() && forall i | 0 <= i < |segs| ::
                     segs[i].offset < off + size)
    && (size == 0 ==> |segs| <= 1)
  }

  /** How many bytes of the request lie before `segs[j]`. */
  function Progress(segs: seq<Descr>, off: nat, size: nat, j: nat): nat
    requires j <= |segs|
  {
    if j == 0 then 0
    else if segs[j - 1].End() >= off + size then size
    else if segs[j - 1].End() >= off then segs[j - 1].End() - off else 0
  }

  lemma AlignedEmpty(base: nat, a: nat)
    ensures (AlignedSize(base, 0, a) == 0 && AlignedBase(base, a) == base) || (a > 0 && AlignedSize(base, 0, a) == a)
  {
    if a > 0 {
      var r := base % a;
      assert r < a;
      SmallMod(r, a);
    }
  }

  lemma ListedAligned(segs: seq<Descr>, m: SegmentMap, a: nat, base: nat, size: nat, i: nat)
    requires Lists(segs, m, base, size) && BlockAligned(m, a) && i < |segs|
    ensures AlignedTo(segs[i].offset, a) && AlignedTo(segs[i].End(), a)
  {
    assert segs[i] in segs && InMap(segs[i], m);
  }

  /** The tiling of the aligned range serves the request that was aligned. */
  lemma TilesServe(segs: seq<Descr>, m: SegmentMap, a: nat, off: nat, size: nat)
    requires BlockAligned(m, a)
    requires Tiles(segs, AlignedBase(off, a), AlignedEnd(off, size, a))
    requires Lists(segs, m, AlignedBase(off, a), AlignedSize(off, size, a))
    ensures Serves(segs, off, size)
  {
    hide AlignedTo, AlignedBase, AlignedSize, BlockAligned, Lists;
    var b, e := AlignedBase(off, a), AlignedEnd(off, size, a);
    AlignedRange(off, size, a);
    forall i | 0 <= i < |segs| ensures off < segs[i].End() && (size > 0 ==> segs[i].offset < off + size) {
      ListedAligned(segs, m, a, b, e - b, i);
      AlignedAbove(off, a, segs[i].End());
      if size > 0 { AlignedBelow(off, size, a, segs[i].offset); }
    }
    if size == 0 {
      AlignedEmpty(off, a);
      if |segs| >= 2 {
        ListedAligned(segs, m, a, b, e - b, 1);
        assert segs[0].End() == segs[1].offset;
        NextBlock(b, a, segs[1].offset);
      }
    }
  }

  lemma NextBlock(b: nat, a: nat, x: nat)
    requires AlignedTo(b, a) && AlignedTo(x, a) && x > b
    ensures x >= b + a
  {
    if a > 0 { MultiplesApart(x, b, a); }
  }
}
