/** The registered-memory index of the network domain: regions keyed by their last byte, found by `lower_bound`. */
module MemoryRegions {
  import opened Basics
  import opened SegmentIndex

  /** The entry `lower_bound` finds holds the address exactly if some registered region does. */
  lemma FoundIffRegistered(m: SegmentMap, x: nat)
    requires Indexed(m)
    ensures var it := LowerBound(m.Keys, x);
            (it.Some? && m[it.value].Has(x)) <==> Covered(m, x)
    ensures var it := LowerBound(m.Keys, x);
            forall k | k in m && m[k].Has(x) :: it == Some(k)
  {
    var it := LowerBound(m.Keys, x);
    forall k | k in m && m[k].Has(x) ensures it == Some(k) {
      assert x <= k && it.Some? && it.value <= k;
    }
  }

  ghost predicate AllKept(m: SegmentMap, m': SegmentMap) {
    forall k | k in m :: k in m' && m'[k] == m[k]
  }

  /**
    A new entry whose first byte is free keeps the index and every registered region exactly if it overlaps none of
    them.
   */
  lemma RegisterKeepsIff(m: SegmentMap, s: Segment)
    requires Indexed(m) && s.size > 0 && !Covered(m, s.offset)
    ensures Indexed(m[s.End() - 1 := s]) && AllKept(m, m[s.End() - 1 := s]) <==> FreeRange(m, s.offset, s.End())
  {
    var m' := m[s.End() - 1 := s];
    if FreeRange(m, s.offset, s.End()) {
      InsertKeepsIndex(m, s);
    } else {
      var k :| k in m && !(m[k].End() <= s.offset || s.End() <= m[k].offset);
      if k == s.End() - 1 {
        assert !m[k].Has(s.offset);
        assert m'[k] != m[k];
      } else {
        assert m'[k] == m[k] && m'[s.End() - 1] == s;
      }
    }
  }

  /** The check made at registration, that the first byte is free, does not rule out an overlap further on. */
  lemma StartCheckIsNotEnough() returns (m: SegmentMap, s: Segment)
    ensures Indexed(m) && s.size > 0 && !Covered(m, s.offset)
            && !(Indexed(m[s.End() - 1 := s]) && AllKept(m, m[s.End() - 1 := s]))
  {
    m := map[19 := Segment(1, 10, 10, false)];
    s := Segment(2, 5, 10, false);
    RegisterKeepsIff(m, s);
    assert 19 in m;
  }

  // ---- Lookup --------------------------------------------------------------------------------------

  /** The region that `getMR` finds. */
  function Lookup(m: SegmentMap, x: nat): Option<Segment> {
    var it := LowerBound(m.Keys, x);
    if it.Some? && m[it.value].Has(x) then Some(m[it.value]) else None
  }

  /** Every address of the region is looked up to it. */
  ghost predicate Found(m: SegmentMap, s: Segment) {
    forall x: nat | s.Has(x) :: Lookup(m, x) == Some(s)
  }

  /** The entry of the region is in place, and no other region ends inside it. */
  ghost predicate Alone(m: SegmentMap, s: Segment) {
    && s.size > 0 && s.End() - 1 in m && m[s.End() - 1] == s
    && forall k | k in m && s.offset <= k < s.End() :: k == s.End() - 1
  }

  /** A region kept under its last byte is found at all of its addresses exactly if no other one ends inside. */
  lemma FoundIffAlone(m: SegmentMap, s: Segment)
    requires s.size > 0 && (forall k | k in m && m[k] == s :: k == s.End() - 1)
    ensures Found(m, s) <==> Alone(m, s)
  {
    if Alone(m, s) {
      forall x: nat | s.Has(x) ensures Lookup(m, x) == Some(s) {
        assert LowerBound(m.Keys, x) == Some(s.End() - 1);
      }
    }
    if Found(m, s) {
      assert s.Has(s.End() - 1) && Lookup(m, s.End() - 1) == Some(s);
      forall k | k in m && s.offset <= k < s.End() ensures k == s.End() - 1 {
        assert s.Has(k) && Lookup(m, k) == Some(s);
        assert LowerBound(m.Keys, k) == Some(k);
      }
    }
  }

  // ---- Runs ----------------------------------------------------------------------------------------

  datatype Event = Register(handle: Ptr, ptr: nat, size: nat) | Unregister(at: nat)

  /** A registration whose first byte is not found, or the removal of the region that is found. */
  ghost predicate Step(m: SegmentMap, ev: Event, m': SegmentMap) {
    match ev
    case Register(handle, ptr, size) =>
      size > 0 && Lookup(m, ptr).None? && m' == m[ptr + size - 1 := Segment(handle, ptr, size, false)]
    case Unregister(at) =>
      exists k :: k in m && Last(m, at, k) && m[k].Has(at) && m' == m - {k}
  }

  /** The entry under which the lookup of `at` ends. */
  predicate Last(m: SegmentMap, at: nat, k: nat) { LowerBound(m.Keys, at) == Some(k) }

  ghost predicate Run(run: seq<SegmentMap>, events: seq<Event>) {
    |run| == |events| + 1 && forall n | 0 <= n < |events| :: Step(run[n], events[n], run[n + 1])
  }

  /** A step that does not disturb region `s`: registering one that ends outside it, or removing another one. */
  predicate Spares(ev: Event, s: Segment) {
    match ev
    case Register(_, ptr, size) => !(s.offset < ptr + size <= s.End())
    case Unregister(at) => !s.Has(at)
  }

  /** Over one step, a region stays found exactly if the step spares it. */
  lemma StepFoundIff(m: SegmentMap, ev: Event, m': SegmentMap, s: Segment)
    requires Step(m, ev, m') && Alone(m, s)
    ensures Alone(m', s) <==> Spares(ev, s)
  {
    AloneFound(m, s);
    match ev
    case Register(handle, ptr, size) =>
      assert m'[ptr + size - 1] == Segment(handle, ptr, size, false);
    case Unregister(at) =>
      if s.Has(at) { assert LowerBound(m.Keys, at) == Some(s.End() - 1); }
  }

  /** After a registration that no region ends in, the region is found at all of its addresses. */
  lemma RegisteredFound(m: SegmentMap, handle: Ptr, ptr: nat, size: nat, m': SegmentMap)
    requires Step(m, Register(handle, ptr, size), m') && forall k | k in m :: !(ptr <= k < ptr + size)
    ensures Alone(m', Segment(handle, ptr, size, false)) && Found(m', Segment(handle, ptr, size, false))
  {
    hide Lookup;
    AloneFound(m', Segment(handle, ptr, size, false));
  }

  lemma AloneFound(m: SegmentMap, s: Segment)
    requires Alone(m, s)
    ensures Found(m, s)
  {
    forall x: nat | s.Has(x) ensures Lookup(m, x) == Some(s) {
      assert LowerBound(m.Keys, x) == Some(s.End() - 1);
    }
  }

  /**
    Over every run after the registration of a region that no other one ends in, its own handle, base and size are found
    at each of its addresses, through any registrations that do not end in it and any removals elsewhere.
   */
  lemma {:induction false} RegionStays(run: seq<SegmentMap>, events: seq<Event>, r: nat, n: nat)
    requires Run(run, events) && r < n <= |events| && events[r].Register?
    requires forall k | k in run[r] :: !(events[r].ptr <= k < events[r].ptr + events[r].size)
    requires forall i | r < i < n :: Spares(events[i], Segment(events[r].handle, events[r].ptr, events[r].size, false))
    ensures Alone(run[n], Segment(events[r].handle, events[r].ptr, events[r].size, false))
    ensures Found(run[n], Segment(events[r].handle, events[r].ptr, events[r].size, false))
    decreases n
  {
    hide Alone, Found, Step;
    var s := Segment(events[r].handle, events[r].ptr, events[r].size, false);
    if n == r + 1 {
      RegisteredFound(run[r], s.ptr, s.offset, s.size, run[n]);
    } else {
      RegionStays(run, events, r, n - 1);
      SparedStays(run[n - 1], events[n - 1], run[n], s);
      AloneFound(run[n], s);
    }
  }

  lemma SparedStays(m: SegmentMap, ev: Event, m': SegmentMap, s: Segment)
    requires Step(m, ev, m') && Alone(m, s) && Spares(ev, s)
    ensures Alone(m', s)
  {
  }

  // ---- The domain ----------------------------------------------------------------------------------

  class LibfabricDomain {
    /** Regions as segments: `ptr` is the registration handle, `offset` the base address. */
    var segments: SegmentMap

    constructor ()
      ensures segments == map[] && Indexed(segments)
    {
      segments := map[];
    }

    /** The region that holds the first byte of the buffer, if any. */
    method GetMR(ptr: nat) returns (r: Option<Segment>)
      ensures r == Lookup(segments, ptr)
      ensures Indexed(segments) ==> (r.Some? <==> Covered(segments, ptr))
      ensures Indexed(segments) ==> forall k | k in segments && segments[k].Has(ptr) :: r == Some(segments[k])
    {
      hide Indexed, Covered;
      if Indexed(segments) { FoundIffRegistered(segments, ptr); }
      var it := LowerBound(segments.Keys, ptr);
      if it.Some? && segments[it.value].offset <= ptr && segments[it.value].End() > ptr {
        return Some(segments[it.value]);
      }
      return None;
    }

    /** Adds a region unless its first byte is found in one already, which stops the process. */
    method RegisterSegment(handle: Ptr, ptr: nat, size: nat) returns (ok: bool)
      requires size > 0
      modifies this
      ensures ok <==> Lookup(old(segments), ptr).None?
      ensures !ok ==> segments == old(segments)
      ensures ok ==> segments == old(segments)[ptr + size - 1 := Segment(handle, ptr, size, false)]
      ensures ok ==> Step(old(segments), Register(handle, ptr, size), segments)
      ensures old(Indexed(segments)) ==> (ok <==> !old(Covered(segments, ptr)))
      ensures ok && old(Indexed(segments)) ==>
                (Indexed(segments) && AllKept(old(segments), segments) <==> old(FreeRange(segments, ptr, ptr + size)))
      ensures ok && old(Indexed(segments)) && old(FreeRange(segments, ptr, ptr + size)) ==>
                forall x: nat :: Lookup(segments, x) == if ptr <= x < ptr + size
                                 then Some(Segment(handle, ptr, size, false)) else Lookup(old(segments), x)
    {
      hide Indexed, FreeRange, Covered, AllKept, Lookup;
      var found := GetMR(ptr);
      if found.Some? { return false; }
      var s := Segment(handle, ptr, size, false);
      ghost var before := segments;
      segments := segments[ptr + size - 1 := s];
      ok := true;
      if Indexed(before) {
        RegisterKeepsIff(before, s);
        if FreeRange(before, ptr, ptr + size) {
          forall x: nat ensures Lookup(segments, x) == if s.Has(x) then Some(s) else Lookup(before, x) {
            LookupInsert(before, s, x);
          }
        }
      }
    }

    /** Removes the region that is found at `ptr`; if there is none the process stops. */
    method UnregisterSegment(ptr: nat) returns (ok: bool)
      modifies this
      ensures ok <==> Lookup(old(segments), ptr).Some?
      ensures !ok ==> segments == old(segments)
      ensures ok ==> Step(old(segments), Unregister(ptr), segments)
      ensures old(Indexed(segments)) ==> Indexed(segments) && (ok <==> old(Covered(segments, ptr)))
      ensures ok && old(Indexed(segments)) ==>
                exists k :: k in old(segments) && old(segments)[k].Has(ptr) && segments == old(segments) - {k}
    {
      if Indexed(segments) { FoundIffRegistered(segments, ptr); }
      var it := LowerBound(segments.Keys, ptr);
      if it.None? { return false; }
      if !(segments[it.value].offset <= ptr && segments[it.value].End() > ptr) { return false; }
      segments := segments - {it.value};
      ok := true;
      assert Last(old(segments), ptr, it.value);
      assert old(segments)[it.value].Has(ptr);
    }
  }

  lemma LookupInsert(m: SegmentMap, s: Segment, x: nat)
    requires Indexed(m) && s.size > 0 && FreeRange(m, s.offset, s.End())
    ensures Lookup(m[s.End() - 1 := s], x) == if s.Has(x) then Some(s) else Lookup(m, x)
  {
    var m' := m[s.End() - 1 := s];
    InsertKeepsIndex(m, s);
    FoundIffRegistered(m, x);
    FoundIffRegistered(m', x);
    assert m'[s.End() - 1] == s;
    if !s.Has(x) {
      if k :| k in m && m[k].Has(x) { assert m'[k].Has(x); }
      if k :| k in m' && m'[k].Has(x) { assert m[k].Has(x); }
    }
  }
}
