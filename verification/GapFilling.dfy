/**
  Completing a listing of overlapping segments: the gaps between them, and after the last one, are free,
  and loading one segment per gap turns the listing into an exact listing of a fully covered range.
 */
module GapFilling {
  import opened SegmentIndex

  ghost predicate Extends(m1: SegmentMap, m: SegmentMap) {
    forall k | k in m1 :: k in m && m[k] == m1[k]
  }

  /** Every segment added to `m1` lies in `[base, last)` and is listed in `tmp`. */
  ghost predicate AddedListed(m1: SegmentMap, m: SegmentMap, tmp: seq<Descr>, base: nat, last: nat) {
    forall k | k in m && k !in m1 :: base <= m[k].offset && m[k].End() <= last && m[k].Describe() in tmp
  }

  ghost predicate ListedAdded(m1: SegmentMap, m: SegmentMap, tmp: seq<Descr>) {
    forall d | d in tmp :: InMap(d, m) && d.End() - 1 !in m1
  }

  /** State of the completion loop: `m1` is the map before loading, `m` the current one, `tmp` what was loaded. */
  ghost predicate Filling(m1: SegmentMap, m: SegmentMap, tmp: seq<Descr>, base: nat, last: nat) {
    && Indexed(m1) && Indexed(m)
    && base <= last
    && Extends(m1, m)
    && AddedListed(m1, m, tmp, base, last)
    && ListedAdded(m1, m, tmp)
    && OffsetsDistinct(tmp)
    && CoveredRange(m, base, last)
  }

  /** Where the gap before `segs[j]` ends; the last gap runs to the end of the range. */
  function GapEnd(segs: seq<Descr>, j: nat, end: nat): nat
    requires j <= |segs|
  {
    if j < |segs| then segs[j].offset else end
  }

  /** Where the completion loop stands before it looks at `segs[j]`. */
  function GapStart(segs: seq<Descr>, j: nat, base: nat): nat
    requires j <= |segs|
  {
    if j == 0 then base else segs[j - 1].End()
  }

  lemma GapInRange(segs: seq<Descr>, m1: SegmentMap, base: nat, size: nat, j: nat)
    requires Lists(segs, m1, base, size) && j <= |segs|
    ensures base <= GapStart(segs, j, base) && GapEnd(segs, j, base + size) <= base + size
  {
    assert j > 0 ==> segs[j - 1] in segs;
    assert j < |segs| ==> segs[j] in segs;
  }

  lemma ListedBesideGap(segs: seq<Descr>, m1: SegmentMap, base: nat, size: nat, j: nat, x: nat)
    requires Indexed(m1) && Sorted(segs) && Lists(segs, m1, base, size) && j <= |segs| && x < |segs|
    ensures segs[x].End() <= GapStart(segs, j, base) || GapEnd(segs, j, base + size) <= segs[x].offset
  {
    hide Indexed, AllInMap;
    if x < j - 1 {
      ListedBefore(m1, segs, x, j - 1);
      assert segs[j - 1].offset <= segs[j - 1].End();
    }
  }

  lemma GapIsFree(segs: seq<Descr>, m1: SegmentMap, base: nat, size: nat, j: nat)
    requires Indexed(m1) && Sorted(segs) && Lists(segs, m1, base, size) && j <= |segs|
    ensures FreeRange(m1, GapStart(segs, j, base), GapEnd(segs, j, base + size))
  {
    hide Indexed, Sorted, GapStart, GapEnd;
    GapInRange(segs, m1, base, size, j);
    var lo, hi := GapStart(segs, j, base), GapEnd(segs, j, base + size);
    forall k | k in m1 ensures m1[k].End() <= lo || hi <= m1[k].offset {
      if m1[k].Overlap(base, size) {
        var d := m1[k].Describe();
        assert d in segs;
        var x :| 0 <= x < |segs| && segs[x] == d;
        ListedBesideGap(segs, m1, base, size, j, x);
      }
    }
  }

  lemma GapFreeAfterLoads(m1: SegmentMap, m: SegmentMap, tmp: seq<Descr>, base: nat, last: nat, hi: nat)
    requires Extends(m1, m) && AddedListed(m1, m, tmp, base, last) && FreeRange(m1, last, hi)
    ensures FreeRange(m, last, hi)
  {
    forall k | k in m ensures m[k].End() <= last || hi <= m[k].offset {
      if k in m1 { assert m1[k] == m[k]; }
    }
  }

  lemma CoverAfterInsert(m: SegmentMap, s: Segment, base: nat)
    requires CoveredRange(m, base, s.offset) && s.size > 0 && s.End() - 1 !in m
    ensures CoveredRange(m[s.End() - 1 := s], base, s.End())
  {
    var m' := m[s.End() - 1 := s];
    forall i | base <= i < s.End() ensures Covered(m', i) {
      if i < s.offset {
        assert Covered(m, i);
        var k :| k in m && m[k].Has(i);
        assert k in m' && m'[k].Has(i);
      } else {
        assert m'[s.End() - 1].Has(i);
      }
    }
  }

  lemma AddedListedAfterInsert(m1: SegmentMap, m: SegmentMap, tmp: seq<Descr>, base: nat, s: Segment)
    requires AddedListed(m1, m, tmp, base, s.offset) && base <= s.offset && s.size > 0
    ensures AddedListed(m1, m[s.End() - 1 := s], tmp + [s.Describe()], base, s.End())
  {
    var tmp' := tmp + [s.Describe()];
    assert tmp'[|tmp|] == s.Describe();
    assert forall d | d in tmp :: d in tmp';
  }

  lemma ListedAddedAfterInsert(m1: SegmentMap, m: SegmentMap, tmp: seq<Descr>, s: Segment)
    requires ListedAdded(m1, m, tmp) && s.size > 0 && s.End() - 1 !in m && s.End() - 1 !in m1
    ensures ListedAdded(m1, m[s.End() - 1 := s], tmp + [s.Describe()])
  {
    forall d | d in tmp + [s.Describe()] ensures InMap(d, m[s.End() - 1 := s]) && d.End() - 1 !in m1 {
      if d in tmp { assert InMap(d, m); }
    }
  }

  lemma DistinctAfterInsert(m1: SegmentMap, m: SegmentMap, tmp: seq<Descr>, base: nat, s: Segment)
    requires AddedListed(m1, m, tmp, base, s.offset) && ListedAdded(m1, m, tmp) && OffsetsDistinct(tmp)
    ensures OffsetsDistinct(tmp + [s.Describe()])
  {
    forall i | 0 <= i < |tmp| ensures tmp[i].offset < s.offset {
      assert tmp[i] in tmp;
      assert InMap(tmp[i], m);
    }
  }

  lemma AddGap(m1: SegmentMap, m: SegmentMap, tmp: seq<Descr>, base: nat, last: nat, s: Segment)
    requires Filling(m1, m, tmp, base, last)
    requires s.offset == last && s.size > 0 && FreeRange(m1, last, s.End())
    ensures FreeRange(m, last, s.End()) && s.End() - 1 !in m
    ensures Filling(m1, m[s.End() - 1 := s], tmp + [s.Describe()], base, s.End())
  {
    GapFreeAfterLoads(m1, m, tmp, base, last, s.End());
    InsertKeepsIndex(m, s);
    CoverAfterInsert(m, s, base);
    AddedListedAfterInsert(m1, m, tmp, base, s);
    ListedAddedAfterInsert(m1, m, tmp, s);
    DistinctAfterInsert(m1, m, tmp, base, s);
  }

  lemma SkipListed(m1: SegmentMap, m: SegmentMap, tmp: seq<Descr>, base: nat, last: nat, d: Descr)
    requires Filling(m1, m, tmp, base, last)
    requires InMap(d, m1) && d.offset <= last <= d.End()
    ensures Filling(m1, m, tmp, base, d.End())
  {
    var k := d.End() - 1;
    assert m[k] == m1[k];
    forall i | base <= i < d.End() ensures Covered(m, i) {
      if i >= last { assert m[k].Has(i); }
    }
  }

  lemma DifferentSlotsDifferentOffsets(m: SegmentMap, d: Descr, e: Descr)
    requires Indexed(m) && InMap(d, m) && InMap(e, m) && d.End() != e.End()
    ensures d.offset != e.offset
  {
  }

  lemma CompletedDistinct(segs: seq<Descr>, m1: SegmentMap, m: SegmentMap, tmp: seq<Descr>)
    requires Indexed(m) && Extends(m1, m) && ListedAdded(m1, m, tmp) && OffsetsDistinct(tmp)
    requires Sorted(segs) && AllInMap(segs, m1)
    ensures OffsetsDistinct(segs + tmp)
  {
    var all := segs + tmp;
    forall i, j | 0 <= i < j < |all| ensures all[i].offset != all[j].offset {
      if i < |segs| <= j {
        assert all[i] in segs && all[j] in tmp;
        DifferentSlotsDifferentOffsets(m, all[i], all[j]);
      }
    }
  }

  /** The completed listing is exact: it names every overlapping segment once. */
  lemma CompletedListing(segs: seq<Descr>, m1: SegmentMap, m: SegmentMap, tmp: seq<Descr>, base: nat, size: nat,
                         last: nat)
    requires Extends(m1, m) && AddedListed(m1, m, tmp, base, last) && ListedAdded(m1, m, tmp)
    requires Lists(segs, m1, base, size) && forall d | d in tmp :: d.offset < base + size
    ensures Lists(segs + tmp, m, base, size)
  {
    var all := segs + tmp;
    forall d | d in all ensures InMap(d, m) && d.offset < base + size && base < d.End() {
      if d in segs { assert InMap(d, m1); } else { assert d in tmp; }
    }
    forall k | k in m && m[k].Overlap(base, size) ensures m[k].Describe() in all {
      if k in m1 { assert m1[k].Describe() in segs; }
    }
  }
}
