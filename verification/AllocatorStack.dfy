/** The allocator stack: a balancing backend over free-list caches over mappings of NVDIMM files. */
module AllocatorStack {
  import opened Basics
  import opened NvdimmGrowth

  /** Chunks by address, with their sizes. */
  type Chunks = map<Ptr, nat>

  function Plus(m: Chunks, p: Ptr, size: nat): Chunks { m[p := size] }

  /** A free-list cache: free chunks per size, and every chunk it ever obtained from below. */
  datatype CacheBackend = CacheBackend(freeLists: map<nat, seq<Ptr>>, tracker: Chunks)

  /** The kernel never hands out overlapping mappings. */
  ghost predicate DisjointSpace(space: Chunks) {
    && (forall p | p in space :: p > 0 && space[p] > 0)
    && (forall p, q | p in space && q in space && p < q :: p + space[p] <= q)
  }

  function FreeList(c: CacheBackend, size: nat): seq<Ptr> {
    if size in c.freeLists then c.freeLists[size] else []
  }

  ghost predicate NoRepeat(s: seq<Ptr>) {
    forall i, j | 0 <= i < j < |s| :: s[i] != s[j]
  }

  /** Free chunks have the size of their list and are held by no caller. */
  ghost predicate FreeOk(c: CacheBackend, live: Chunks) {
    forall size | size in c.freeLists :: NoRepeat(c.freeLists[size]) && FreeListOk(c, live, size)
  }

  ghost predicate FreeListOk(c: CacheBackend, live: Chunks, size: nat)
    requires size in c.freeLists
  {
    forall p | p in c.freeLists[size] :: p in c.tracker && c.tracker[p] == size && p !in live
  }

  /** Every tracked chunk is held by a caller or on the free list of its size. */
  ghost predicate Accounted(c: CacheBackend, live: Chunks) {
    forall p | p in c.tracker :: p in live || p in FreeList(c, c.tracker[p])
  }

  ghost predicate CacheOk(c: CacheBackend, live: Chunks, space: Chunks) {
    && (forall p | p in c.tracker :: p in space && space[p] == c.tracker[p])
    && (forall p | p in live :: p in c.tracker && c.tracker[p] == live[p])
    && FreeOk(c, live)
    && Accounted(c, live)
  }

  // ---- Steps of one cache ------------------------------------------------------------------------

  function Pop(c: CacheBackend, size: nat): CacheBackend {
    c.(freeLists := c.freeLists[size := if FreeList(c, size) == [] then [] else FreeList(c, size)[1..]])
  }

  function Push(c: CacheBackend, p: Ptr, size: nat): CacheBackend {
    c.(freeLists := c.freeLists[size := [p] + FreeList(c, size)])
  }

  lemma HeadIsFree(c: CacheBackend, live: Chunks, size: nat)
    requires FreeOk(c, live) && FreeList(c, size) != []
    ensures var p := FreeList(c, size)[0]; p !in live && p in c.tracker && c.tracker[p] == size
  {
    assert FreeListOk(c, live, size) && FreeList(c, size)[0] in c.freeLists[size];
  }

  lemma PopFree(c: CacheBackend, live: Chunks, size: nat)
    requires FreeOk(c, live) && FreeList(c, size) != []
    ensures FreeOk(Pop(c, size), live[FreeList(c, size)[0] := size])
  {
    var l := FreeList(c, size);
    var p := l[0];
    var c', live' := Pop(c, size), live[p := size];
    assert FreeListOk(c, live, size) && p in c.freeLists[size];
    forall s | s in c'.freeLists ensures NoRepeat(c'.freeLists[s]) && FreeListOk(c', live', s) {
      if s == size {
        assert forall q | q in l[1..] :: q in l && q != p;
      } else {
        assert NoRepeat(c.freeLists[s]) && FreeListOk(c, live, s);
        assert p !in c.freeLists[s];
      }
    }
  }

  lemma PopAccounted(c: CacheBackend, live: Chunks, size: nat)
    requires Accounted(c, live) && FreeList(c, size) != []
    ensures Accounted(Pop(c, size), live[FreeList(c, size)[0] := size])
  {
    var l := FreeList(c, size);
    var p := l[0];
    var c', live' := Pop(c, size), live[p := size];
    forall q | q in c'.tracker ensures q in live' || q in FreeList(c', c'.tracker[q]) {
      assert q in live || q in FreeList(c, c.tracker[q]);
      if q in l { assert q == p || q in l[1..]; }
    }
  }

  /** Reuse of the most recently freed chunk of the size. */
  lemma PopOk(c: CacheBackend, live: Chunks, space: Chunks, size: nat)
    requires CacheOk(c, live, space) && FreeList(c, size) != []
    ensures var p := FreeList(c, size)[0];
            p !in live && p in space && space[p] == size && CacheOk(Pop(c, size), live[p := size], space)
  {
    hide FreeOk, Accounted;
    var p := FreeList(c, size)[0];
    assert p !in live && p in c.tracker && c.tracker[p] == size by { HeadIsFree(c, live, size); }
    PopFree(c, live, size);
    PopAccounted(c, live, size);
  }

  /** A tracked chunk of the size that nobody holds. */
  ghost predicate Spare(c: CacheBackend, live: Chunks, size: nat, p: Ptr) {
    p in c.tracker && c.tracker[p] == size && p !in live
  }

  /** The free list of a size has exactly the spare chunks of that size. */
  lemma SpareIff(c: CacheBackend, live: Chunks, space: Chunks, size: nat, p: Ptr)
    requires CacheOk(c, live, space)
    ensures p in FreeList(c, size) <==> Spare(c, live, size, p)
  {
    if p in FreeList(c, size) { assert FreeListOk(c, live, size); }
  }

  /** A new chunk from below. */
  lemma FreshOk(c: CacheBackend, live: Chunks, space: Chunks, p: Ptr, size: nat)
    requires CacheOk(c, live, space) && FreeList(c, size) == [] && p !in space
    ensures CacheOk(Pop(c, size).(tracker := c.tracker[p := size]), live[p := size], space[p := size])
  {
    hide FreeOk, Accounted;
    FreshFree(c, live, p, size);
    FreshAccounted(c, live, p, size);
  }

  lemma FreshFree(c: CacheBackend, live: Chunks, p: Ptr, size: nat)
    requires FreeOk(c, live) && FreeList(c, size) == [] && p !in c.tracker
    ensures FreeOk(Pop(c, size).(tracker := c.tracker[p := size]), live[p := size])
  {
    var c', live' := Pop(c, size).(tracker := c.tracker[p := size]), live[p := size];
    forall s | s in c'.freeLists ensures NoRepeat(c'.freeLists[s]) && FreeListOk(c', live', s) {
      if s in c.freeLists { assert FreeListOk(c, live, s) && NoRepeat(c.freeLists[s]); }
    }
  }

  lemma FreshAccounted(c: CacheBackend, live: Chunks, p: Ptr, size: nat)
    requires Accounted(c, live) && FreeList(c, size) == [] && p !in c.tracker
    ensures Accounted(Pop(c, size).(tracker := c.tracker[p := size]), live[p := size])
  {
    forall q | q in c.tracker && q !in live ensures q in FreeList(c, c.tracker[q]) && c.tracker[q] != size {
    }
  }

  lemma PushOk(c: CacheBackend, live: Chunks, space: Chunks, p: Ptr)
    requires CacheOk(c, live, space) && p in live
    ensures CacheOk(Push(c, p, live[p]), live - {p}, space)
  {
    var size := live[p];
    var l := FreeList(c, size);
    var c', live' := Push(c, p, size), live - {p};
    forall s | s in c'.freeLists ensures NoRepeat(c'.freeLists[s]) && FreeListOk(c', live', s) {
      if s in c.freeLists { assert FreeListOk(c, live, s) && NoRepeat(c.freeLists[s]); }
    }
    forall q | q in c'.tracker ensures q in live' || q in FreeList(c', c'.tracker[q]) {
      assert q in live || q in FreeList(c, c.tracker[q]);
      if q == p { assert ([p] + l)[0] == p; } else if q in l { assert q in [p] + l; }
    }
  }

  /** A larger address space does not disturb a cache. */
  lemma SpaceGrows(c: CacheBackend, live: Chunks, space: Chunks, space': Chunks)
    requires CacheOk(c, live, space) && forall p | p in space :: p in space' && space'[p] == space[p]
    ensures CacheOk(c, live, space')
  {
  }

  // ---- Sums ------------------------------------------------------------------------------------

  ghost function Sum(m: Chunks): nat
    decreases |m|
  {
    if m == map[] then 0 else var p :| p in m; m[p] + Sum(m - {p})
  }

  lemma {:induction false} SumRemove(m: Chunks, p: Ptr)
    requires p in m
    ensures Sum(m) == m[p] + Sum(m - {p})
    decreases |m|
  {
    var q :| q in m && Sum(m) == m[q] + Sum(m - {q});
    if q != p {
      SumRemove(m - {q}, p);
      SumRemove(m - {p}, q);
      assert m - {q} - {p} == m - {p} - {q};
    }
  }

  lemma SumAdd(m: Chunks, p: Ptr, size: nat)
    requires p !in m
    ensures Sum(m[p := size]) == Sum(m) + size
  {
    SumRemove(m[p := size], p);
    assert m[p := size] - {p} == m;
  }

  // ---- Conservation ----------------------------------------------------------------------------

  ghost function FreeCount(lists: map<nat, seq<Ptr>>): nat
    decreases |lists|
  {
    if lists == map[] then 0 else var s :| s in lists; |lists[s]| + FreeCount(lists - {s})
  }

  ghost function FreeSet(lists: map<nat, seq<Ptr>>): set<Ptr> {
    set s, p | s in lists && p in lists[s] :: p
  }

  ghost function Elements(s: seq<Ptr>): set<Ptr> { set p | p in s }

  lemma {:induction false} ListSize(s: seq<Ptr>)
    requires NoRepeat(s)
    ensures |Elements(s)| == |s|
  {
    if s != [] {
      var n := |s| - 1;
      ListSize(s[..n]);
      assert Elements(s) == Elements(s[..n]) + {s[n]} by {
        assert s == s[..n] + [s[n]];
      }
      assert s[n] !in s[..n];
    }
  }

  /** Lists without repetition and without common elements. */
  ghost predicate Separate(lists: map<nat, seq<Ptr>>) {
    && (forall s | s in lists :: NoRepeat(lists[s]))
    && (forall s, t, p | s in lists && t in lists && p in lists[s] && p in lists[t] :: s == t)
  }

  lemma FreeSetSplit(lists: map<nat, seq<Ptr>>, s: nat)
    requires Separate(lists) && s in lists
    ensures Separate(lists - {s})
    ensures FreeSet(lists) == Elements(lists[s]) + FreeSet(lists - {s}) && Elements(lists[s]) !! FreeSet(lists - {s})
  {
    var rest := lists - {s};
    forall p ensures p in FreeSet(lists) <==> p in Elements(lists[s]) + FreeSet(rest) {
      if p in FreeSet(lists) {
        var t :| t in lists && p in lists[t];
        assert t == s || (t in rest && p in rest[t]);
      }
      if p in FreeSet(rest) {
        var t :| t in rest && p in rest[t];
        assert t in lists && p in lists[t];
      }
    }
  }

  lemma {:induction false} FreeCountIsSize(lists: map<nat, seq<Ptr>>)
    requires Separate(lists)
    ensures FreeCount(lists) == |FreeSet(lists)|
    decreases |lists|
  {
    if lists == map[] {
      assert FreeSet(lists) == {};
    } else {
      var s :| s in lists && FreeCount(lists) == |lists[s]| + FreeCount(lists - {s});
      hide FreeSet, Elements, NoRepeat;
      FreeSetSplit(lists, s);
      FreeCountIsSize(lists - {s});
      ListSize(lists[s]);
    }
  }

  lemma FreeAreTracked(c: CacheBackend, live: Chunks, space: Chunks)
    requires CacheOk(c, live, space)
    ensures Separate(c.freeLists) && FreeSet(c.freeLists) == c.tracker.Keys - live.Keys
  {
    forall s, p | s in c.freeLists && p in c.freeLists[s] ensures p in c.tracker && c.tracker[p] == s && p !in live {
      assert FreeListOk(c, live, s);
    }
    forall p | p in c.tracker.Keys - live.Keys ensures p in FreeSet(c.freeLists) {
      assert p in FreeList(c, c.tracker[p]);
    }
  }

  /** Tracked chunks are the held ones plus the free ones; the destructor's check passes exactly if none is held. */
  lemma Conservation(c: CacheBackend, live: Chunks, space: Chunks)
    requires CacheOk(c, live, space)
    ensures |c.tracker| == |live| + FreeCount(c.freeLists)
    ensures FreeCount(c.freeLists) == |c.tracker| <==> live == map[]
  {
    FreeAreTracked(c, live, space);
    FreeCountIsSize(c.freeLists);
    assert live.Keys <= c.tracker.Keys;
    assert |c.tracker.Keys| == |live.Keys| + |c.tracker.Keys - live.Keys|;
    assert |c.tracker.Keys| == |c.tracker| && |live.Keys| == |live|;
  }

  // ---- The balancing backend ---------------------------------------------------------------------

  ghost predicate TrackersDisjoint(backends: seq<CacheBackend>) {
    forall a, b, p | 0 <= a < b < |backends| && p in backends[a].tracker :: p !in backends[b].tracker
  }

  /** Each backend's counter is the total size of the chunks callers hold from it. */
  ghost predicate CountersOk(mem: seq<nat>, live: seq<Chunks>) {
    |mem| == |live| && forall a | 0 <= a < |live| :: mem[a] == Sum(live[a])
  }

  ghost predicate IndexOk(index: map<Ptr, nat>, live: seq<Chunks>) {
    && (forall p | p in index :: index[p] < |live| && p in live[index[p]])
    && (forall a, p | 0 <= a < |live| && p in live[a] :: p in index && index[p] == a)
  }

  ghost predicate CachesOk(backends: seq<CacheBackend>, live: seq<Chunks>, space: Chunks) {
    |backends| == |live| && forall a | 0 <= a < |live| :: CacheOk(backends[a], live[a], space)
  }

  /** Chunks held by callers do not overlap, within and across backends. */
  lemma LiveDisjoint(backends: seq<CacheBackend>, live: seq<Chunks>, space: Chunks, a: nat, p: Ptr, b: nat, q: Ptr)
    requires DisjointSpace(space) && CachesOk(backends, live, space) && TrackersDisjoint(backends)
    requires a < |live| && b < |live| && p in live[a] && q in live[b] && (a, p) != (b, q)
    ensures p + live[a][p] <= q || q + live[b][q] <= p
  {
    assert CacheOk(backends[a], live[a], space) && CacheOk(backends[b], live[b], space);
    assert p != q;
  }

  lemma CachesUpdate(backends: seq<CacheBackend>, live: seq<Chunks>, space: Chunks, space': Chunks, a: nat,
                     c: CacheBackend, l: Chunks)
    requires CachesOk(backends, live, space) && a < |live| && CacheOk(c, l, space')
    requires forall p | p in space :: p in space' && space'[p] == space[p]
    ensures CachesOk(backends[a := c], live[a := l], space')
  {
    hide CacheOk;
    forall b | 0 <= b < |live| && b != a ensures CacheOk(backends[b], live[b], space') {
      SpaceGrows(backends[b], live[b], space, space');
    }
  }

  lemma TrackersSame(backends: seq<CacheBackend>, a: nat, c: CacheBackend)
    requires TrackersDisjoint(backends) && a < |backends| && c.tracker == backends[a].tracker
    ensures TrackersDisjoint(backends[a := c])
  {
  }

  lemma TrackersFresh(backends: seq<CacheBackend>, live: seq<Chunks>, space: Chunks, a: nat, c: CacheBackend, p: Ptr,
                      size: nat)
    requires TrackersDisjoint(backends) && CachesOk(backends, live, space) && a < |backends| && p !in space
             && c.tracker == backends[a].tracker[p := size]
    ensures TrackersDisjoint(backends[a := c])
  {
    forall b | 0 <= b < |backends| ensures p !in backends[b].tracker { assert CacheOk(backends[b], live[b], space); }
  }

  lemma CountersAdd(mem: seq<nat>, live: seq<Chunks>, a: nat, p: Ptr, size: nat)
    requires CountersOk(mem, live) && a < |live| && p !in live[a]
    ensures CountersOk(mem[a := mem[a] + size], live[a := Plus(live[a], p, size)])
  {
    SumAdd(live[a], p, size);
  }

  lemma CountersRemove(mem: seq<nat>, live: seq<Chunks>, a: nat, p: Ptr)
    requires CountersOk(mem, live) && a < |live| && p in live[a]
    ensures mem[a] >= live[a][p] && CountersOk(mem[a := mem[a] - live[a][p]], live[a := live[a] - {p}])
  {
    SumRemove(live[a], p);
  }

  lemma IndexAdd(index: map<Ptr, nat>, backends: seq<CacheBackend>, live: seq<Chunks>, space: Chunks, a: nat, p: Ptr,
                 size: nat)
    requires IndexOk(index, live) && a < |live| && forall b | 0 <= b < |live| :: p !in live[b]
    ensures IndexOk(index[p := a], live[a := Plus(live[a], p, size)])
  {
  }

  lemma IndexRemove(index: map<Ptr, nat>, live: seq<Chunks>, p: Ptr)
    requires IndexOk(index, live) && p in index
    ensures IndexOk(index - {p}, live[index[p] := live[index[p]] - {p}])
  {
  }

  /** A chunk tracked by one cache is held from no other. */
  lemma HeldNowhereElse(backends: seq<CacheBackend>, live: seq<Chunks>, space: Chunks, a: nat, p: Ptr)
    requires CachesOk(backends, live, space) && TrackersDisjoint(backends) && a < |live| && p !in live[a]
    requires p in backends[a].tracker || p !in space
    ensures forall b | 0 <= b < |live| :: p !in live[b]
  {
    forall b | 0 <= b < |live| ensures p !in live[b] { assert CacheOk(backends[b], live[b], space); }
  }

  lemma {:induction false} RoomAbove(space: Chunks) returns (top: nat)
    ensures top > 0 && forall p | p in space :: p + space[p] <= top
    decreases |space|
  {
    top := 1;
    if space != map[] {
      var q :| q in space;
      top := RoomAbove(space - {q});
      if top < q + space[q] { top := q + space[q]; }
      forall p | p in space ensures p + space[p] <= top { assert p == q || p in space - {q}; }
    }
  }

  predicate Fits(space: Chunks, p: Ptr, size: nat) {
    p > 0 && forall q | q in space :: q + space[q] <= p || p + size <= q
  }

  lemma MappedDisjoint(space: Chunks, p: Ptr, size: nat)
    requires DisjointSpace(space) && Fits(space, p, size) && size > 0
    ensures p !in space && DisjointSpace(space[p := size])
  {
  }

  /** The first index of a smallest element. */
  predicate FirstMin(s: seq<nat>, m: nat) {
    && m < |s| && (forall j | 0 <= j < |s| :: s[m] <= s[j]) && (forall j | 0 <= j < m :: s[m] < s[j])
  }

  // ---- Backing files -------------------------------------------------------------------------------

  /** For every mapping, the backend it came from and the number of its chunk there. */
  type Backing = map<Ptr, (nat, nat)>

  ghost predicate Distinct(lower: seq<MemoryBackendNvdimm>) {
    forall a, b | 0 <= a < b < |lower| :: lower[a] != lower[b]
  }

  ghost function PlacedOf(lower: seq<MemoryBackendNvdimm>): (r: seq<seq<Place>>)
    reads lower
    ensures |r| == |lower| && forall a | 0 <= a < |lower| :: r[a] == lower[a].placed
  {
    if lower == [] then [] else PlacedOf(lower[..|lower| - 1]) + [lower[|lower| - 1].placed]
  }

  /** Every mapping has its own chunk of its own size in a file of some low-level backend. */
  ghost predicate BackingOk(placed: seq<seq<Place>>, space: Chunks, backing: Backing) {
    && backing.Keys == space.Keys
    && (forall p | p in space :: backing[p].0 < |placed| && backing[p].1 < |placed[backing[p].0]|
                                 && placed[backing[p].0][backing[p].1].size == space[p])
    && (forall p, q | p in space && q in space && backing[p] == backing[q] :: p == q)
  }

  ghost predicate AllValid(lower: seq<MemoryBackendNvdimm>)
    reads lower
  {
    forall a | 0 <= a < |lower| :: lower[a].Valid()
  }

  ghost predicate Stacked(lower: seq<MemoryBackendNvdimm>, space: Chunks, backing: Backing)
    reads lower
  {
    Distinct(lower) && AllValid(lower) && BackingOk(PlacedOf(lower), space, backing)
  }

  lemma BackingAdd(placed: seq<seq<Place>>, space: Chunks, backing: Backing, id: nat, place: Place, p: Ptr)
    requires BackingOk(placed, space, backing) && id < |placed| && p !in space
    ensures BackingOk(placed[id := placed[id] + [place]], space[p := place.size], backing[p := (id, |placed[id]|)])
  {
  }

  lemma BackingMore(placed: seq<seq<Place>>, space: Chunks, backing: Backing)
    requires BackingOk(placed, space, backing)
    ensures BackingOk(placed + [[]], space, backing)
  {
  }

  lemma StackedMore(lower: seq<MemoryBackendNvdimm>, nvdimm: MemoryBackendNvdimm, space: Chunks, backing: Backing)
    requires Stacked(lower, space, backing) && nvdimm !in lower && nvdimm.Valid() && nvdimm.placed == []
    ensures Stacked(lower + [nvdimm], space, backing)
  {
    hide BackingOk, MemoryBackendNvdimm.Valid;
    BackingMore(PlacedOf(lower), space, backing);
    assert PlacedOf(lower + [nvdimm]) == PlacedOf(lower) + [[]];
  }

  /**
    The bytes of two mappings are different bytes of the NVDIMMs: different devices, different files, or disjoint pages
    of one file.
   */
  lemma BackingApart(lower: seq<MemoryBackendNvdimm>, space: Chunks, backing: Backing, p: Ptr, q: Ptr)
    requires Stacked(lower, space, backing) && p in space && q in space && p != q
    ensures p in backing && q in backing && backing[p].0 < |lower| && backing[q].0 < |lower|
    ensures backing[p].1 < |lower[backing[p].0].placed| && backing[q].1 < |lower[backing[q].0].placed|
    ensures backing[p].0 != backing[q].0 ||
            MemoryBackendNvdimm.Apart(lower[backing[p].0].placed[backing[p].1],
                                      lower[backing[q].0].placed[backing[q].1])
  {
    assert lower[backing[p].0].Valid();
    assert backing[p] != backing[q];
  }

  class MemoryBackendBalance {
    var backends: seq<CacheBackend>
    /** The low-level backend under each cache. */
    var lower: seq<MemoryBackendNvdimm>
    var backendMem: seq<nat>
    var backendOfMem: map<Ptr, nat>
    /** The mappings of the process, as the kernel knows them. */
    var space: Chunks
    /** History: which chunks callers hold from each backend. */
    ghost var live: seq<Chunks>
    ghost var backing: Backing

    ghost predicate Valid()
      reads this, lower
    {
      && |backends| == |backendMem| == |lower| && Stacked(lower, space, backing)
      && DisjointSpace(space) && CachesOk(backends, live, space) && TrackersDisjoint(backends)
      && CountersOk(backendMem, live) && IndexOk(backendOfMem, live)
    }

    constructor ()
      ensures Valid() && backends == [] && live == [] && space == map[]
    {
      backends, lower, backendMem, backendOfMem, space, live, backing := [], [], [], map[], map[], [], map[];
    }

    /** Adds a cache over a new low-level backend, as `setNvdimm` does for each path. */
    method RegisterBackend()
      requires Valid()
      modifies this
      ensures Valid() && live == old(live) + [map[]] && backends == old(backends) + [CacheBackend(map[], map[])]
      ensures backendMem == old(backendMem) + [0] && backendOfMem == old(backendOfMem) && space == old(space)
      ensures |lower| == |old(lower)| + 1 && lower == old(lower) + [lower[|old(lower)|]] && fresh(lower[|old(lower)|])
    {
      hide CachesOk, CountersOk, IndexOk, Stacked, DisjointSpace, TrackersDisjoint, MemoryBackendNvdimm.Valid;
      BackendAdded(backends, backendMem, backendOfMem, live, space);
      var nvdimm := new MemoryBackendNvdimm();
      StackedMore(lower, nvdimm, space, backing);
      lower := lower + [nvdimm];
      backends := backends + [CacheBackend(map[], map[])];
      backendMem := backendMem + [0];
      live := live + [map[]];
    }

    /** The low-level backend places the chunk in its file and maps it at any address that overlaps no mapping. */
    method Map(id: nat, size: nat) returns (p: Ptr)
      requires Stacked(lower, space, backing) && DisjointSpace(space) && id < |lower| && size > 0 && size % PAGE == 0
      modifies this`space, this`backing, lower[id]
      ensures p !in old(space) && space == old(space)[p := size] && DisjointSpace(space)
              && Stacked(lower, space, backing)
    {
      hide DisjointSpace, BackingOk, MemoryBackendNvdimm.Valid;
      ghost var top := RoomAbove(space);
      assert Fits(space, top, size);
      p :| Fits(space, p, size);
      MappedDisjoint(space, p, size);
      ghost var placed := PlacedOf(lower);
      ghost var place := lower[id].Allocate(size);
      BackingAdd(placed, space, backing, id, place, p);
      assert PlacedOf(lower) == placed[id := placed[id] + [place]];
      space := space[p := size];
      backing := backing[p := (id, |placed[id]|)];
    }

    /** Search of the least used backend. */
    method LeastUsed() returns (id: nat)
      requires backendMem != []
      ensures FirstMin(backendMem, id)
      ensures id < |backendMem| && (forall j | 0 <= j < |backendMem| :: backendMem[id] <= backendMem[j])
              && forall j | 0 <= j < id :: backendMem[id] < backendMem[j]
    {
      id := 0;
      var min := backendMem[0];
      for i := 1 to |backendMem|
        invariant id < |backendMem| && min == backendMem[id] && id < i
        invariant forall j | 0 <= j < i :: min <= backendMem[j]
        invariant forall j | 0 <= j < id :: min < backendMem[j]
      {
        if backendMem[i] < min {
          id, min := i, backendMem[i];
        }
      }
    }

    /**
      A chunk from the cache of a backend: the one given back last if a spare one has the size, a new mapping otherwise.
     */
    method CacheAllocate(id: nat, size: nat) returns (p: Ptr, c: CacheBackend)
      requires Valid() && id < |backends| && id < |lower| && id < |live| && size > 0 && size % PAGE == 0
      modifies this`space, this`backing, lower[id]
      ensures Stacked(lower, space, backing) && DisjointSpace(space) && TrackersDisjoint(backends[id := c])
      ensures CachesOk(backends[id := c], live[id := Plus(live[id], p, size)], space)
      ensures forall a | 0 <= a < |live| :: p !in live[a]
      ensures if exists q :: Spare(backends[id], live[id], size, q)
              then Spare(backends[id], live[id], size, p) && space == old(space) && unchanged(lower[id])
              else p !in old(space) && space == old(space)[p := size]
      ensures forall s :: FreeList(backends[id], s) ==
                          (if s == size && FreeList(backends[id], s) != [] then [p] else []) + FreeList(c, s)
    {
      hide CacheOk, DisjointSpace, TrackersDisjoint, CountersOk, IndexOk, Stacked, Spare;
      forall q ensures q in FreeList(backends[id], size) <==> Spare(backends[id], live[id], size, q) {
        SpareIff(backends[id], live[id], space, size, q);
      }
      c := backends[id];
      ghost var space0 := space;
      if FreeList(c, size) == [] {
        p := Map(id, size);
        FreshOk(c, live[id], space0, p, size);
        HeldNowhere(backends, live, space0, id, p);
        c := Pop(c, size).(tracker := c.tracker[p := size]);
        TrackersFresh(backends, live, space0, id, c, p, size);
      } else {
        p := FreeList(c, size)[0];
        assert p in FreeList(c, size);
        PopOk(c, live[id], space0, size);
        FreeIsTracked(c, live[id], space0, size);
        HeldNowhereElse(backends, live, space0, id, p);
        c := Pop(c, size);
        TrackersSame(backends, id, c);
      }
      CachesUpdate(backends, live, space0, space, id, c, Plus(live[id], p, size));
    }

    /** A chunk from the cache of the least used backend. */
    method Allocate(size: nat) returns (p: Ptr)
      requires Valid() && backends != [] && size > 0 && size % PAGE == 0
      modifies this, lower
      ensures Valid() && lower == old(lower) && |live| == |old(live)| && |backends| == |old(backends)|
      ensures p in backendOfMem && FirstMin(old(backendMem), backendOfMem[p])
      ensures forall a | 0 <= a < |old(live)| :: p !in old(live)[a]
      ensures live == old(live)[backendOfMem[p] := Plus(old(live)[backendOfMem[p]], p, size)]
      ensures backendMem == old(backendMem)[backendOfMem[p] := old(backendMem)[backendOfMem[p]] + size]
      ensures if exists q :: Spare(old(backends)[backendOfMem[p]], old(live)[backendOfMem[p]], size, q)
              then Spare(old(backends)[backendOfMem[p]], old(live)[backendOfMem[p]], size, p) && space == old(space)
                   && forall o | o in old(lower) :: unchanged(o)
              else p !in old(space) && space == old(space)[p := size]
                   && forall o | o in old(lower) && o != old(lower)[backendOfMem[p]] :: unchanged(o)
      ensures forall s :: FreeList(old(backends)[backendOfMem[p]], s) ==
                          (if s == size && FreeList(old(backends)[backendOfMem[p]], s) != [] then [p] else [])
                          + FreeList(backends[backendOfMem[p]], s)
      ensures forall a | 0 <= a < |backends| && a != backendOfMem[p] :: backends[a] == old(backends)[a]
    {
      hide CacheOk, CachesOk, DisjointSpace, TrackersDisjoint, CountersOk, IndexOk, Stacked, Spare, FreeList;
      LiveShape(backendMem, live);
      var id := LeastUsed();
      var c;
      p, c := CacheAllocate(id, size);
      CountersAdd(backendMem, live, id, p, size);
      IndexAdd(backendOfMem, backends, live, space, id, p, size);
      backends := backends[id := c];
      backendMem := backendMem[id := backendMem[id] + size];
      backendOfMem := backendOfMem[p := id];
      live := live[id := Plus(live[id], p, size)];
    }

    /** Returns a chunk to the free list of the backend it came from; an unknown address stops the process. */
    method Deallocate(p: Ptr, size: nat) returns (ok: bool)
      requires Valid() && (forall a | 0 <= a < |live| && p in live[a] :: size == live[a][p])
      modifies this
      ensures ok <==> p in old(backendOfMem)
      ensures !ok ==> unchanged(this)
      ensures ok ==> Valid() && lower == old(lower) && p !in backendOfMem && old(backendOfMem)[p] < |old(live)|
      ensures ok ==> live == old(live)[old(backendOfMem)[p] := old(live)[old(backendOfMem)[p]] - {p}]
      ensures ok ==> |old(backendMem)| == |old(live)|
                     && backendMem == old(backendMem)[old(backendOfMem)[p] := backendMem[old(backendOfMem)[p]]]
      ensures ok ==> backendMem[old(backendOfMem)[p]] + size == old(backendMem)[old(backendOfMem)[p]]
      ensures ok ==> |backends| == |old(backends)| && space == old(space)
                     && forall a | 0 <= a < |backends| && a != old(backendOfMem)[p] :: backends[a] == old(backends)[a]
      ensures ok ==> backends[old(backendOfMem)[p]].tracker == old(backends)[old(backendOfMem)[p]].tracker
      ensures ok ==> forall s :: FreeList(backends[old(backendOfMem)[p]], s) ==
                                 (if s == size then [p] else []) + FreeList(old(backends)[old(backendOfMem)[p]], s)
    {
      hide CacheOk, DisjointSpace, TrackersDisjoint, CountersOk, IndexOk, Stacked;
      if p !in backendOfMem { return false; }
      var id := backendOfMem[p];
      HolderKnown(backendOfMem, live, p);
      LiveShape(backendMem, live);
      var c := Push(backends[id], p, size);
      PushOk(backends[id], live[id], space, p);
      TrackersSame(backends, id, c);
      CachesUpdate(backends, live, space, space, id, c, live[id] - {p});
      CountersRemove(backendMem, live, id, p);
      IndexRemove(backendOfMem, live, p);
      backends := backends[id := c];
      backendOfMem := backendOfMem - {p};
      backendMem := backendMem[id := backendMem[id] - size];
      live := live[id := live[id] - {p}];
      ok := true;
    }
  }

  lemma BackendAdded(backends: seq<CacheBackend>, mem: seq<nat>, index: map<Ptr, nat>, live: seq<Chunks>, space: Chunks)
    requires CachesOk(backends, live, space) && TrackersDisjoint(backends) && CountersOk(mem, live)
             && IndexOk(index, live)
    ensures var backends', live' := backends + [CacheBackend(map[], map[])], live + [map[]];
            CachesOk(backends', live', space) && TrackersDisjoint(backends') && CountersOk(mem + [0], live')
                && IndexOk(index, live')
  {
    hide CacheOk;
    EmptyCacheOk(space);
  }

  lemma HolderKnown(index: map<Ptr, nat>, live: seq<Chunks>, p: Ptr)
    requires IndexOk(index, live) && p in index
    ensures index[p] < |live| && p in live[index[p]]
  {
  }

  lemma EmptyCacheOk(space: Chunks)
    ensures CacheOk(CacheBackend(map[], map[]), map[], space)
  {
  }

  lemma LiveShape(mem: seq<nat>, live: seq<Chunks>)
    requires CountersOk(mem, live)
    ensures |mem| == |live|
  {
  }

  lemma FreeIsTracked(c: CacheBackend, live: Chunks, space: Chunks, size: nat)
    requires CacheOk(c, live, space) && FreeList(c, size) != []
    ensures FreeList(c, size)[0] in c.tracker
  {
    assert FreeListOk(c, live, size) && FreeList(c, size)[0] in c.freeLists[size];
  }

  lemma HeldNowhere(backends: seq<CacheBackend>, live: seq<Chunks>, space: Chunks, a: nat, p: Ptr)
    requires CachesOk(backends, live, space) && p !in space
    ensures forall b | 0 <= b < |live| :: p !in live[b]
  {
    forall b | 0 <= b < |live| ensures p !in live[b] { assert CacheOk(backends[b], live[b], space); }
  }

  // ---- Reuse ---------------------------------------------------------------------------------------

  /** A chunk that is given back is the next one of its size that its backend hands out. */
  method Recycle(b: MemoryBackendBalance, p: Ptr, size: nat) returns (q: Ptr)
    requires b.Valid() && p in b.backendOfMem && size > 0 && size % PAGE == 0
    requires forall a | 0 <= a < |b.live| && p in b.live[a] :: size == b.live[a][p]
    requires var id := b.backendOfMem[p];
             id < |b.backendMem| && size <= b.backendMem[id]
             && FirstMin(b.backendMem[id := b.backendMem[id] - size], id)
    modifies b, b.lower
    ensures q == p && b.space == old(b.space) && b.backendMem == old(b.backendMem)
    ensures b.Valid() && b.backends != [] && forall o | o in old(b.lower) :: unchanged(o)
  {
    hide MemoryBackendBalance.Valid, CacheOk, FirstMin, Spare;
    ghost var id := b.backendOfMem[p];
    Shapes(b);
    var ok := b.Deallocate(p, size);
    Shapes(b);
    assert FreeList(b.backends[id], size)[0] == p;
    SpareIff(b.backends[id], b.live[id], b.space, size, p);
    ghost var mem, list := b.backendMem, FreeList(b.backends[id], size);
    q := b.Allocate(size);
    OneFirstMin(mem, id, b.backendOfMem[q]);
    assert list[0] == q;
  }

  /** The next chunk of a size of which a single backend has spare ones. */
  method TakeAgain(b: MemoryBackendBalance, size: nat) returns (q: Ptr)
    requires b.Valid() && |b.backends| == 1 && size > 0 && size % PAGE == 0 && FreeList(b.backends[0], size) != []
    modifies b, b.lower
    ensures b.Valid() && |b.backends| == 1 && b.space == old(b.space) && b.lower == old(b.lower)
    ensures q == old(FreeList(b.backends[0], size)[0])
    ensures FreeList(b.backends[0], size) == old(FreeList(b.backends[0], size)[1..])
  {
    hide MemoryBackendBalance.Valid, CacheOk, Spare, FreeList;
    Shapes(b);
    ghost var list := FreeList(b.backends[0], size);
    SpareIff(b.backends[0], b.live[0], b.space, size, list[0]);
    q := b.Allocate(size);
    Shapes(b);
    assert list == [q] + FreeList(b.backends[0], size);
  }

  /** Gives chunks of one size back to a single backend. */
  method GiveBackAll(b: MemoryBackendBalance, ps: seq<Ptr>, size: nat)
    requires b.Valid() && |b.backends| == 1 && |b.live| == 1 && NoRepeat(ps)
    requires forall i | 0 <= i < |ps| :: ps[i] in b.live[0] && b.live[0][ps[i]] == size
    modifies b
    ensures b.Valid() && |b.backends| == 1 && b.space == old(b.space) && b.lower == old(b.lower)
    ensures FreeList(b.backends[0], size) == Turned(ps) + old(FreeList(b.backends[0], size))
  {
    hide MemoryBackendBalance.Valid, FreeList, Turned;
    ghost var rest := FreeList(b.backends[0], size);
    TurnedNone(ps);
    for i := 0 to |ps|
      invariant b.Valid() && |b.backends| == 1 && |b.live| == 1 && b.space == old(b.space) && b.lower == old(b.lower)
      invariant forall j | i <= j < |ps| :: ps[j] in b.live[0] && b.live[0][ps[j]] == size
      invariant FreeList(b.backends[0], size) == Turned(ps[..i]) + rest
    {
      HeldAt(b, ps[i]);
      var ok := b.Deallocate(ps[i], size);
      TurnedNext(ps, i);
    }
    assert ps[..|ps|] == ps;
  }

  /** Chunks of one size given back to a single backend come out again in the reverse order, without any new mapping. */
  method RecycleAll(b: MemoryBackendBalance, ps: seq<Ptr>, size: nat) returns (qs: seq<Ptr>)
    requires b.Valid() && |b.backends| == 1 && |b.live| == 1 && size > 0 && size % PAGE == 0 && NoRepeat(ps)
    requires forall i | 0 <= i < |ps| :: ps[i] in b.live[0] && b.live[0][ps[i]] == size
    modifies b, b.lower
    ensures b.Valid() && b.space == old(b.space) && |qs| == |ps|
    ensures forall i | 0 <= i < |ps| :: qs[i] == ps[|ps| - 1 - i]
  {
    hide MemoryBackendBalance.Valid, FreeList, Turned, NoRepeat;
    ghost var rest := FreeList(b.backends[0], size);
    GiveBackAll(b, ps, size);
    assert ps[..|ps|] == ps;
    qs := [];
    for i := 0 to |ps|
      invariant b.Valid() && |b.backends| == 1 && b.space == old(b.space) && |qs| == i && b.lower == old(b.lower)
      invariant forall j | 0 <= j < i :: qs[j] == ps[|ps| - 1 - j]
      invariant FreeList(b.backends[0], size) == Turned(ps[..|ps| - i]) + rest
    {
      TurnedNext(ps, |ps| - i - 1);
      assert FreeList(b.backends[0], size) == [ps[|ps| - i - 1]] + (Turned(ps[..|ps| - i - 1]) + rest);
      var q := TakeAgain(b, size);
      qs := qs + [q];
    }
  }

  function Turned(ps: seq<Ptr>): seq<Ptr> {
    if ps == [] then [] else [ps[|ps| - 1]] + Turned(ps[..|ps| - 1])
  }

  lemma TurnedNone(ps: seq<Ptr>)
    ensures Turned(ps[..0]) == []
  {
  }

  lemma TurnedNext(ps: seq<Ptr>, i: nat)
    requires i < |ps|
    ensures Turned(ps[..i + 1]) == [ps[i]] + Turned(ps[..i])
  {
    assert ps[..i + 1][..i] == ps[..i];
  }

  lemma HeldAt(b: MemoryBackendBalance, p: Ptr)
    requires b.Valid() && |b.live| == 1 && p in b.live[0]
    ensures p in b.backendOfMem && b.backendOfMem[p] == 0
  {
    hide CachesOk, Stacked, CountersOk, DisjointSpace, TrackersDisjoint;
    assert p in b.live[0];
  }

  lemma Shapes(b: MemoryBackendBalance)
    requires b.Valid()
    ensures |b.backends| == |b.backendMem| == |b.live|
    ensures forall a | 0 <= a < |b.backends| :: CacheOk(b.backends[a], b.live[a], b.space)
  {
    hide CacheOk;
  }

  lemma OneFirstMin(s: seq<nat>, m: nat, n: nat)
    requires FirstMin(s, m) && FirstMin(s, n)
    ensures m == n
  {
    assert s[m] <= s[n] && s[n] <= s[m];
  }

  // ---- Greedy balance ----------------------------------------------------------------------------

  ghost predicate WithinBound(mem: seq<nat>, bound: nat) {
    forall a, b | 0 <= a < |mem| && 0 <= b < |mem| :: mem[a] <= mem[b] + bound
  }

  /** One allocation, charged to a least used backend. */
  ghost predicate Charged(mem: seq<nat>, mem': seq<nat>, size: nat) {
    exists m: nat :: FirstMin(mem, m) && mem' == mem[m := mem[m] + size]
  }

  ghost predicate Allocations(run: seq<seq<nat>>, sizes: seq<nat>) {
    |run| == |sizes| + 1 && forall n | 0 <= n < |sizes| :: Charged(run[n], run[n + 1], sizes[n])
  }

  /** Over every allocation-only run from equal counters, two backends differ by at most the largest request so far. */
  lemma {:induction false} GreedyBound(run: seq<seq<nat>>, sizes: seq<nat>, n: nat, bound: nat)
    requires Allocations(run, sizes) && n <= |sizes| && WithinBound(run[0], 0) && forall i | 0 <= i < n ::
             sizes[i] <= bound
    ensures WithinBound(run[n], bound)
  {
    if n > 0 {
      GreedyBound(run, sizes, n - 1, bound);
      assert Charged(run[n - 1], run[n], sizes[n - 1]);
    }
  }
}
