/**
  The end-keyed segment index of a cached object, as a value: which segments overlap a range, in which
  order the `lower_bound` walk meets them, and when a sorted listing of segments tiles a range.
 */
module SegmentIndex {
  import opened Basics

  /** What a caller of `GetBuffers` receives for each segment. */
  datatype Descr = Descr(ptr: Ptr, offset: nat, size: nat) {
    function End(): nat { offset + size }
  }

  datatype Segment = Segment(ptr: Ptr, offset: nat, size: nat, dirty: bool) {
    function End(): nat { offset + size }

    predicate Has(i: nat) { offset <= i < offset + size }

    predicate Overlap(base: nat, len: nat) { offset < base + len && offset + size > base }

    function Describe(): Descr { Descr(ptr, offset, size) }
  }

  type SegmentMap = map<nat, Segment>

  // ---- Alignment -------------------------------------------------------------------------------

  predicate AlignedTo(x: nat, a: nat) { a == 0 || x % a == 0 }

  function AlignedBase(base: nat, a: nat): nat {
    if a == 0 then base else base - base % a
  }

  function AlignedSize(base: nat, size: nat, a: nat): nat {
    if a == 0 then size else
      var s := size + base % a;
      if s % a > 0 then s + (a - s % a) else s
  }

  function AlignedEnd(base: nat, size: nat, a: nat): nat {
    AlignedBase(base, a) + AlignedSize(base, size, a)
  }

  lemma ScaleAtLeast(a: nat, d: int)
    requires a > 0 && d >= 1
    ensures a * d >= a
  {
  }

  lemma MultipleMod(a: nat, q: int)
    requires a > 0
    ensures (a * q) % a == 0
  {
    var x := a * q;
    var d := q - x / a;
    assert x == a * (x / a) + x % a;
    assert a * d == x % a;
    if d >= 1 { ScaleAtLeast(a, d); }
    if d <= -1 { ScaleAtLeast(a, -d); }
  }

  lemma MultiplesApart(x: nat, y: nat, a: nat)
    requires a > 0 && x % a == 0 && y % a == 0 && x > y
    ensures x >= y + a
  {
    var d := x / a - y / a;
    assert x == a * (x / a) && y == a * (y / a);
    assert x - y == a * d;
    if d >= 1 {
      ScaleAtLeast(a, d);
    }
  }

  lemma MultiplesAdd(x: nat, y: nat, a: nat)
    requires a > 0 && x % a == 0 && y % a == 0
    ensures (x + y) % a == 0
  {
    assert x == a * (x / a) && y == a * (y / a);
    var q := x / a + y / a;
    assert x + y == a * q;
    MultipleMod(a, q);
  }

  lemma SmallMod(r: nat, a: nat)
    requires r < a
    ensures r % a == r
  {
  }

  lemma DownToMultiple(x: nat, a: nat)
    requires a > 0
    ensures 0 <= x % a <= x
    ensures (x - x % a) % a == 0
  {
    var q := x / a;
    assert x - x % a == a * q;
    assert a * q >= 0;
    MultipleMod(a, q);
  }

  lemma AlignedEndIsMultiple(b: nat, s: nat, a: nat)
    requires a > 0 && b % a == 0
    ensures (b + if s % a > 0 then s + (a - s % a) else s) % a == 0
  {
    DownToMultiple(s, a);
    var down := s - s % a;
    MultiplesAdd(b, down, a);
    MultipleMod(a, 1);
    MultiplesAdd(b + down, a, a);
  }

  /** The aligned range contains the request. */
  lemma AlignedRange(base: nat, size: nat, a: nat)
    ensures AlignedTo(AlignedBase(base, a), a)
    ensures AlignedTo(AlignedBase(base, a) + AlignedSize(base, size, a), a)
    ensures AlignedBase(base, a) <= base
    ensures base + size <= AlignedBase(base, a) + AlignedSize(base, size, a)
    ensures a == 0 ==> AlignedBase(base, a) == base && AlignedSize(base, size, a) == size
  {
    if a > 0 {
      DownToMultiple(base, a);
      AlignedEndIsMultiple(AlignedBase(base, a), size + base % a, a);
    }
  }

  /** The aligned range reaches no block the request does not touch: a boundary above its start is above `base`. */
  lemma AlignedAbove(base: nat, a: nat, x: nat)
    requires AlignedTo(x, a) && x > AlignedBase(base, a)
    ensures x > base
  {
    if a > 0 {
      DownToMultiple(base, a);
      MultiplesApart(x, AlignedBase(base, a), a);
    }
  }

  /** ... and a boundary below its end is below the end of the request. */
  lemma AlignedBelow(base: nat, size: nat, a: nat, x: nat)
    requires size > 0 && AlignedTo(x, a) && x < AlignedBase(base, a) + AlignedSize(base, size, a)
    ensures x < base + size
  {
    AlignedRange(base, size, a);
    if a > 0 {
      MultiplesApart(AlignedBase(base, a) + AlignedSize(base, size, a), x, a);
      DownToMultiple(size + base % a, a);
    }
  }

  // ---- The index -------------------------------------------------------------------------------

  /** Keys are last bytes; segments are non-empty and disjoint. */
  ghost predicate Indexed(m: SegmentMap) {
    && (forall k | k in m :: m[k].size > 0 && k == m[k].offset + m[k].size - 1)
    && (forall j, k | j in m && k in m && j < k :: j < m[k].offset)
  }

  /** Segments start and end on block boundaries. */
  ghost predicate BlockAligned(m: SegmentMap, a: nat) {
    forall k | k in m :: AlignedTo(m[k].offset, a) && AlignedTo(m[k].End(), a)
  }

  ghost predicate Covered(m: SegmentMap, i: nat) {
    exists k :: k in m && m[k].Has(i)
  }

  ghost predicate FreeRange(m: SegmentMap, lo: nat, hi: nat) {
    forall k | k in m :: m[k].End() <= lo || hi <= m[k].offset
  }

  /** Overlap is having a byte in common. */
  lemma OverlapIff(s: Segment, base: nat, len: nat)
    requires s.size > 0 && len > 0
    ensures s.Overlap(base, len) <==> exists i: nat :: s.Has(i) && base <= i < base + len
  {
    if s.Overlap(base, len) {
      var i := if s.offset < base then base else s.offset;
      assert s.Has(i);
    }
  }

  lemma OnlyOneCovers(m: SegmentMap, j: nat, k: nat, i: nat)
    requires Indexed(m) && j in m && k in m && m[j].Has(i) && m[k].Has(i)
    ensures j == k
  {
  }

  lemma InsertKeepsIndex(m: SegmentMap, s: Segment)
    requires Indexed(m) && s.size > 0 && FreeRange(m, s.offset, s.End())
    ensures s.End() - 1 !in m
    ensures Indexed(m[s.End() - 1 := s])
  {
    var k0 := s.End() - 1;
    var m' := m[k0 := s];
    forall j, k | j in m' && k in m' && j < k ensures j < m'[k].offset {
      if j == k0 { assert m[k].End() <= s.offset || s.End() <= m[k].offset; }
    }
  }

  predicate IsLeast(keys: set<nat>, x: nat, k: nat) {
    k in keys && x <= k && forall j | j in keys && x <= j :: k <= j
  }

  lemma {:induction false} LeastExists(keys: set<nat>, x: nat) returns (least: nat)
    requires exists k :: k in keys && x <= k
    ensures IsLeast(keys, x, least)
    decreases keys
  {
    var k :| k in keys && x <= k;
    var rest := keys - {k};
    least := k;
    if exists j :: j in rest && x <= j {
      var l := LeastExists(rest, x);
      least := if l < k then l else k;
    }
    forall j | j in keys && x <= j ensures least <= j { assert j == k || j in rest; }
  }

  lemma SomeLeast(keys: set<nat>, x: nat)
    requires exists k :: k in keys && x <= k
    ensures exists k :: IsLeast(keys, x, k)
  {
    var least := LeastExists(keys, x);
  }

  /** `std::map::lower_bound` on the key set. */
  function LowerBound(keys: set<nat>, x: nat): (r: Option<nat>)
    ensures r.None? ==> forall k | k in keys :: k < x
    ensures r.Some? ==> r.value in keys && x <= r.value && forall k | k in keys && x <= k :: r.value <= k
  {
    if forall k | k in keys :: k < x then None
    else
      SomeLeast(keys, x);
      var k :| k in keys && IsLeast(keys, x, k);
      Some(k)
  }

  /** What the iterator has yet to meet. */
  ghost function Ahead(keys: set<nat>, it: Option<nat>): set<nat> {
    set k | k in keys && it.Some? && it.value <= k
  }

  lemma AheadShrinks(keys: set<nat>, k: nat)
    requires k in keys
    ensures Ahead(keys, LowerBound(keys, k + 1)) < Ahead(keys, Some(k))
  {
    assert k in Ahead(keys, Some(k)) && k !in Ahead(keys, LowerBound(keys, k + 1));
  }

  /** Every key the walk has passed when it stands at `it`, having started at `base`. */
  ghost predicate Passed(it: Option<nat>, base: nat, k: nat) {
    base <= k && (it.Some? ==> k < it.value)
  }

  /** Once the walk meets a segment that does not overlap, no later one does. */
  lemma WalkEnds(m: SegmentMap, base: nat, size: nat, it: Option<nat>)
    requires Indexed(m)
    requires it.Some? ==> it.value in m && base <= it.value && !m[it.value].Overlap(base, size)
    ensures forall k | k in m && m[k].Overlap(base, size) :: Passed(it, base, k)
  {
    forall k | k in m && m[k].Overlap(base, size) ensures Passed(it, base, k) {
      assert k == m[k].End() - 1;
      if it.Some? { assert m[it.value].offset >= base + size; }
    }
  }

  // ---- Listings --------------------------------------------------------------------------------

  ghost predicate Sorted(s: seq<Descr>) {
    forall i, j | 0 <= i < j < |s| :: s[i].offset < s[j].offset
  }

  ghost predicate OffsetsDistinct(s: seq<Descr>) {
    forall i, j | 0 <= i < j < |s| :: s[i].offset != s[j].offset
  }

  ghost predicate InMap(d: Descr, m: SegmentMap) {
    d.size > 0 && d.End() - 1 in m && m[d.End() - 1].Describe() == d
  }

  ghost predicate AllInMap(s: seq<Descr>, m: SegmentMap) {
    forall d | d in s :: InMap(d, m)
  }

  function InsertByOffset(d: Descr, s: seq<Descr>): (r: seq<Descr>)
    requires Sorted(s) && forall x | x in s :: x.offset != d.offset
    ensures Sorted(r) && |r| == |s| + 1
    ensures forall x :: x in r <==> x == d || x in s
  {
    if s == [] then [d]
    else if d.offset < s[0].offset then
      assert forall x :: x in [d] + s <==> x == d || x in s;
      [d] + s
    else
      var t := InsertByOffset(d, s[1..]);
      assert forall x :: x in s <==> x == s[0] || x in s[1..];
      assert forall x :: x in [s[0]] + t <==> x == s[0] || x in t;
      assert forall i | 0 <= i < |t| :: t[i] in t;
      [s[0]] + t
  }

  /** `ObjectSegmentList::sort`, ordering by offset. */
  function SortByOffset(s: seq<Descr>): (r: seq<Descr>)
    requires OffsetsDistinct(s)
    ensures Sorted(r) && |r| == |s|
    ensures forall x :: x in r <==> x in s
  {
    if s == [] then []
    else
      var t := SortByOffset(s[1..]);
      assert forall x :: x in s <==> x == s[0] || x in s[1..];
      InsertByOffset(s[0], t)
  }

  /** Consecutive segments are exactly adjacent. */
  ghost predicate Chain(s: seq<Descr>) {
    && (forall i | 0 <= i < |s| :: s[i].size > 0)
    && (forall i, j | 0 <= i < j < |s| && j == i + 1 :: s[i].End() == s[j].offset)
  }

  /** A chain that starts at or before `lo`, ends at or after `hi`, and has no segment outside. */
  ghost predicate Tiles(s: seq<Descr>, lo: nat, hi: nat) {
    && Chain(s)
    && (forall i | 0 <= i < |s| :: s[i].offset < hi && lo < s[i].End())
    && (lo < hi ==> s != [] && s[0].offset <= lo && hi <= s[|s| - 1].End())
  }

  ghost predicate CoveredRange(m: SegmentMap, lo: nat, hi: nat) {
    forall i | lo <= i < hi :: Covered(m, i)
  }

  /** `s` lists exactly the segments of `m` that overlap `[base, base + size)`. */
  ghost predicate Lists(s: seq<Descr>, m: SegmentMap, base: nat, size: nat) {
    && AllInMap(s, m)
    && (forall d | d in s :: d.offset < base + size && base < d.End())
    && (forall k | k in m && m[k].Overlap(base, size) :: m[k].Describe() in s)
  }

  lemma DescrOrder(m: SegmentMap, d: Descr, e: Descr)
    requires Indexed(m) && InMap(d, m) && InMap(e, m) && d.offset < e.offset
    ensures d.End() <= e.offset
  {
    assert d.End() - 1 != e.End() - 1;
  }

  lemma ListedCover(s: seq<Descr>, m: SegmentMap, base: nat, size: nat, i: nat) returns (x: int)
    requires Lists(s, m, base, size) && Covered(m, i) && base <= i < base + size
    ensures 0 <= x < |s| && s[x].offset <= i < s[x].End()
  {
    var k :| k in m && m[k].Has(i);
    assert m[k].Describe() in s;
    x :| 0 <= x < |s| && s[x] == m[k].Describe();
  }

  lemma ListedBefore(m: SegmentMap, s: seq<Descr>, x: nat, i: nat)
    requires Indexed(m) && Sorted(s) && AllInMap(s, m) && x < |s| && i < |s|
    ensures x < i ==> s[x].End() <= s[i].offset
  {
    if x < i { DescrOrder(m, s[x], s[i]); }
  }

  lemma ListingAdjacent(s: seq<Descr>, m: SegmentMap, base: nat, size: nat, i: nat)
    requires Indexed(m) && Sorted(s) && Lists(s, m, base, size) && CoveredRange(m, base, base + size)
    requires i + 1 < |s|
    ensures s[i].End() == s[i + 1].offset
  {
    hide Indexed, AllInMap, Covered;
    var d, e := s[i], s[i + 1];
    assert d in s && e in s;
    ListedBefore(m, s, i, i + 1);
    if d.End() < e.offset {
      var x := ListedCover(s, m, base, size, d.End());
      ListedBefore(m, s, x, i);
      assert false;
    }
  }

  lemma ListingStart(s: seq<Descr>, m: SegmentMap, base: nat, size: nat)
    requires Sorted(s) && Lists(s, m, base, size) && CoveredRange(m, base, base + size)
    requires size > 0
    ensures s != [] && s[0].offset <= base
  {
    var x := ListedCover(s, m, base, size, base);
    assert x > 0 ==> s[0].offset < s[x].offset;
  }

  lemma ListingEnd(s: seq<Descr>, m: SegmentMap, base: nat, size: nat)
    requires Indexed(m) && Sorted(s) && Lists(s, m, base, size) && CoveredRange(m, base, base + size)
    requires size > 0
    ensures s != [] && base + size <= s[|s| - 1].End()
  {
    var y := ListedCover(s, m, base, size, base + size - 1);
    var d, e := s[y], s[|s| - 1];
    assert d in s && e in s;
    if d.offset < e.offset {
      DescrOrder(m, d, e);
    }
  }

  /** A sorted exact listing of a fully covered range is a tiling of it. */
  lemma ListingTiles(s: seq<Descr>, m: SegmentMap, base: nat, size: nat)
    requires Indexed(m) && Sorted(s) && Lists(s, m, base, size) && CoveredRange(m, base, base + size)
    ensures Tiles(s, base, base + size)
  {
    assert forall i | 0 <= i < |s| :: s[i] in s;
    forall i, j | 0 <= i < j < |s| && j == i + 1 ensures s[i].End() == s[j].offset {
      ListingAdjacent(s, m, base, size, i);
    }
    if size > 0 { ListingStart(s, m, base, size); ListingEnd(s, m, base, size); }
  }

  // ---- The walk from `lower_bound` --------------------------------------------------------------

  /** `segs` names exactly the segments passed so far, all of which overlap. */
  ghost predicate WalkListed(segs: seq<Descr>, m: SegmentMap, it: Option<nat>, base: nat, size: nat) {
    && Sorted(segs)
    && (forall d | d in segs :: InMap(d, m) && Passed(it, base, d.End() - 1) && d.offset < base + size)
    && (forall k | k in m && Passed(it, base, k) :: m[k].Describe() in segs)
  }

  lemma WalkStarts(m: SegmentMap, base: nat, size: nat)
    ensures WalkListed([], m, LowerBound(m.Keys, base), base, size)
  {
  }

  ghost predicate VisitedOnly(m: SegmentMap, m': SegmentMap, k: nat) {
    && m.Keys == m'.Keys && k in m
    && (forall j | j in m && j != k :: m'[j] == m[j])
    && m'[k] == m[k].(ptr := m'[k].ptr)
  }

  /** Segments outside the range keep their slots, and all of them do unless the range will be written. */
  ghost predicate SlotsKept(m: SegmentMap, m': SegmentMap, base: nat, size: nat, write: bool) {
    forall k | k in m && (!write || !m[k].Overlap(base, size)) :: k in m' && m'[k] == m[k]
  }

  lemma KeptSlots(m: SegmentMap, m': SegmentMap, base: nat, size: nat)
    requires SlotsKept(m, m', base, size, false)
    ensures forall k | k in m :: k in m' && m'[k] == m[k]
  {
  }

  lemma SlotsKeptAll(m: SegmentMap, base: nat, size: nat, write: bool)
    ensures SlotsKept(m, m, base, size, write)
  {
  }

  lemma SlotsKeptNext(m0: SegmentMap, m: SegmentMap, m': SegmentMap, k: nat, base: nat, size: nat, write: bool)
    requires SlotsKept(m0, m, base, size, write) && VisitedOnly(m, m', k) && m[k].Overlap(base, size)
    requires m0.Keys == m.Keys && (!write ==> m' == m)
    ensures SlotsKept(m0, m', base, size, write)
  {
  }

  lemma SlotsKeptThen(m0: SegmentMap, m: SegmentMap, m': SegmentMap, base: nat, size: nat, write: bool)
    requires SlotsKept(m0, m, base, size, write) && forall k | k in m :: k in m' && m'[k] == m[k]
    ensures SlotsKept(m0, m', base, size, write)
  {
  }

  /** Changing the buffer of the segment the walk stands on does not disturb what was passed. */
  lemma WalkUnaffected(segs: seq<Descr>, m: SegmentMap, m': SegmentMap, k: nat, base: nat, size: nat)
    requires WalkListed(segs, m, Some(k), base, size) && m.Keys == m'.Keys
    requires forall j | j in m && j != k :: m'[j] == m[j]
    ensures WalkListed(segs, m', Some(k), base, size)
  {
    forall d | d in segs ensures InMap(d, m') { assert InMap(d, m); }
  }

  lemma WalkSorted(segs: seq<Descr>, m: SegmentMap, k: nat, base: nat, size: nat)
    requires Indexed(m) && WalkListed(segs, m, Some(k), base, size) && k in m
    ensures Sorted(segs + [m[k].Describe()])
  {
    forall i | 0 <= i < |segs| ensures segs[i].offset < m[k].offset {
      assert segs[i] in segs;
      assert InMap(segs[i], m) && Passed(Some(k), base, segs[i].End() - 1);
    }
  }

  lemma WalkAppends(segs: seq<Descr>, m: SegmentMap, k: nat, base: nat, size: nat)
    requires k in m && WalkListed(segs, m, Some(k), base, size) && Sorted(segs + [m[k].Describe()])
    requires base <= k && m[k].Overlap(base, size) && InMap(m[k].Describe(), m) && m[k].End() == k + 1
    ensures WalkListed(segs + [m[k].Describe()], m, LowerBound(m.Keys, k + 1), base, size)
  {
    var it, d := LowerBound(m.Keys, k + 1), m[k].Describe();
    var segs' := segs + [d];
    forall e | e in segs' ensures InMap(e, m) && Passed(it, base, e.End() - 1) && e.offset < base + size {
      assert e in segs || e == d;
    }
    forall j | j in m && Passed(it, base, j) ensures m[j].Describe() in segs' {
      if j == k { assert segs'[|segs|] == d; } else { assert Passed(Some(k), base, j); }
    }
  }

  lemma DescribedInMap(m: SegmentMap, k: nat)
    requires Indexed(m) && k in m
    ensures InMap(m[k].Describe(), m) && m[k].End() == k + 1
  {
  }

  /** Visiting the segment the walk stands on, whose buffer may have been replaced. */
  lemma WalkStep(segs: seq<Descr>, m: SegmentMap, m': SegmentMap, k: nat, base: nat, size: nat)
    requires Indexed(m) && Indexed(m') && WalkListed(segs, m, Some(k), base, size) && VisitedOnly(m, m', k)
    requires base <= k && m[k].Overlap(base, size)
    ensures WalkListed(segs + [m'[k].Describe()], m', LowerBound(m'.Keys, k + 1), base, size)
  {
    hide WalkListed, LowerBound, Sorted, Indexed, InMap;
    WalkUnaffected(segs, m, m', k, base, size);
    WalkSorted(segs, m', k, base, size);
    DescribedInMap(m', k);
    WalkAppends(segs, m', k, base, size);
  }

  /** The walk stops with exactly the overlapping segments, as a linear scan would find them. */
  lemma WalkDone(segs: seq<Descr>, m: SegmentMap, it: Option<nat>, base: nat, size: nat)
    requires Indexed(m) && WalkListed(segs, m, it, base, size)
    requires it.Some? ==> it.value in m && base <= it.value && !m[it.value].Overlap(base, size)
    ensures Sorted(segs) && Lists(segs, m, base, size)
  {
    WalkEnds(m, base, size, it);
  }
}
