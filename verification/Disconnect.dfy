/**
  Range locks under client disconnection: the network thread handles messages while the TCP thread removes a client from
  the registry and then walks over all objects. Handling one message is one step; the disconnect is many.
 */
module Disconnect {
  import opened RangeLocks

  datatype Tracker = Tracker(ranges: seq<Range>, nextId: int)

  /**
    `registry` holds the authenticated clients, `leaving[c]` the first object key the disconnect of `c` has not visited,
    `nextClient` the next client identifier. `checked` is used by the finer model only: clients whose message passed the
    authentication check but has not been executed.
   */
  datatype Server = Server(registry: set<nat>, leaving: map<nat, nat>, trackers: map<nat, Tracker>, nextClient: nat,
                           checked: multiset<nat>)

  const FRESH := Tracker([], 1)

  function TrackerOf(s: Server, obj: nat): Tracker {
    if obj in s.trackers then s.trackers[obj] else FRESH
  }

  ghost predicate Collides(t: Tracker, offset: nat, size: nat, mode: Mode) {
    exists i :: 0 <= i < |t.ranges| && Conflict(t.ranges[i], offset, size, mode)
  }

  /** A tracker refuses a range exactly if it meets a registered one and one of the two is for writing. */
  lemma CollidesExact(t: Tracker, offset: nat, size: nat, mode: Mode)
    ensures Collides(t, offset, size, mode) <==> exists i ::
                && 0 <= i < |t.ranges|
                && (|| ShareByte(offset, size, t.ranges[i].offset, t.ranges[i].size)
                    || (size == 0 && InRange(offset, t.ranges[i].offset, t.ranges[i].size))
                    || (t.ranges[i].size == 0 && InRange(t.ranges[i].offset, offset, size)))
                && (mode.WriteMode? || t.ranges[i].mode.WriteMode?)
  {
    hide ShareByte, Conflict;
    forall i | 0 <= i < |t.ranges|
      ensures Conflict(t.ranges[i], offset, size, mode) <==>
                && (|| ShareByte(offset, size, t.ranges[i].offset, t.ranges[i].size)
                    || (size == 0 && InRange(offset, t.ranges[i].offset, t.ranges[i].size))
                    || (t.ranges[i].size == 0 && InRange(t.ranges[i].offset, offset, size)))
                && (mode.WriteMode? || t.ranges[i].mode.WriteMode?)
    {
      ConflictExact(t.ranges[i], offset, size, mode);
    }
  }

  // ---- Steps -----------------------------------------------------------------------------------

  ghost predicate Connect(s: Server, s': Server) {
    s' == s.(registry := s.registry + {s.nextClient}, nextClient := s.nextClient + 1)
  }

  /** `getObject` and `registerRange`; the object is created if it is new. */
  ghost predicate Registers(s: Server, s': Server, c: nat, obj: nat, offset: nat, size: nat, mode: Mode) {
    var t := TrackerOf(s, obj);
    s'.(checked := s.checked) ==
      s.(trackers := s.trackers[obj := if Collides(t, offset, size, mode)
                                then t else Tracker(t.ranges + [Range(c, t.nextId, offset, size, mode)], t.nextId + 1)])
  }

  /** Authentication check and registration in one step. */
  ghost predicate Register(s: Server, s': Server, c: nat, obj: nat, offset: nat, size: nat, mode: Mode) {
    c in s.registry && s'.checked == s.checked && Registers(s, s', c, obj, offset, size, mode)
  }

  ghost predicate Unregister(s: Server, s': Server, c: nat, obj: nat, i: nat) {
    && c in s.registry && obj in s.trackers && i < |s.trackers[obj].ranges| && s.trackers[obj].ranges[i].client == c
    && s' == s.(trackers := s.trackers[obj := s.trackers[obj].(ranges := Removed(s.trackers[obj].ranges, i))])
  }

  /** `disconnectClient` on the registry; the walk over the objects starts at the first one. */
  ghost predicate Leave(s: Server, s': Server, c: nat) {
    c in s.registry && s' == s.(registry := s.registry - {c}, leaving := s.leaving[c := 0])
  }

  /** The walk visits the next object in key order; objects created behind the iterator are not visited. */
  ghost predicate Visit(s: Server, s': Server, c: nat, obj: nat) {
    && c in s.leaving && obj in s.trackers && s.leaving[c] <= obj
        && (forall o | o in s.trackers && s.leaving[c] <= o :: obj <= o)
    && s' == s.(trackers := s.trackers[obj := s.trackers[obj].(ranges := Without(s.trackers[obj].ranges, c))],
                leaving := s.leaving[c := obj + 1])
  }

  ghost predicate Gone(s: Server, s': Server, c: nat) {
    c in s.leaving && (forall o | o in s.trackers :: o < s.leaving[c]) && s' == s.(leaving := s.leaving - {c})
  }

  ghost predicate Next(s: Server, s': Server) {
    || Connect(s, s')
    || (exists c, obj, offset, size, mode :: Register(s, s', c, obj, offset, size, mode))
    || (exists c, obj, i :: Unregister(s, s', c, obj, i))
    || (exists c :: Leave(s, s', c))
    || (exists c, obj :: Visit(s, s', c, obj))
    || (exists c :: Gone(s, s', c))
  }

  ghost predicate Init(s: Server) {
    s == Server({}, map[], map[], 0, multiset{})
  }

  ghost predicate Run(run: seq<Server>) {
    run != [] && Init(run[0]) && forall i | 0 <= i < |run| - 1 :: Next(run[i], run[i + 1])
  }

  // ---- The invariant ---------------------------------------------------------------------------

  /** A range belongs to a registered client, or to a leaving one whose walk has yet to reach the object. */
  ghost predicate Owned(s: Server, obj: nat, r: Range) {
    r.client in s.registry || (r.client in s.leaving && s.leaving[r.client] <= obj)
  }

  ghost predicate AllOwned(s: Server, obj: nat, t: Tracker) {
    forall i | 0 <= i < |t.ranges| :: Owned(s, obj, t.ranges[i])
  }

  ghost predicate Clients(s: Server) {
    && (forall c | c in s.registry :: c < s.nextClient && c !in s.leaving)
    && (forall c | c in s.leaving :: c < s.nextClient)
  }

  ghost predicate Locked(t: Tracker) {
    0 < t.nextId && Exclusive(t.ranges) && IdsOk(t.ranges, t.nextId)
  }

  ghost predicate Inv(s: Server) {
    Clients(s) && forall obj | obj in s.trackers :: Locked(s.trackers[obj]) && AllOwned(s, obj, s.trackers[obj])
  }

  lemma RegisterLocked(t: Tracker, c: nat, offset: nat, size: nat, mode: Mode)
    requires Locked(t) && !Collides(t, offset, size, mode)
    ensures Locked(Tracker(t.ranges + [Range(c, t.nextId, offset, size, mode)], t.nextId + 1))
  {
  }

  lemma ConnectOk(s: Server, s': Server)
    requires Inv(s) && Connect(s, s')
    ensures Inv(s')
  {
    hide Locked;
    forall obj | obj in s'.trackers ensures AllOwned(s', obj, s'.trackers[obj]) {
      assert AllOwned(s, obj, s.trackers[obj]);
    }
  }

  lemma RegisterOk(s: Server, s': Server, c: nat, obj: nat, offset: nat, size: nat, mode: Mode)
    requires Inv(s) && Register(s, s', c, obj, offset, size, mode)
    ensures Inv(s')
  {
    hide Collides;
    var t := TrackerOf(s, obj);
    assert Locked(t) && AllOwned(s, obj, t);
    if !Collides(t, offset, size, mode) { RegisterLocked(t, c, offset, size, mode); }
    hide Locked;
    forall o | o in s'.trackers ensures Locked(s'.trackers[o]) && AllOwned(s', o, s'.trackers[o]) {
      if o != obj { assert Locked(s.trackers[o]) && AllOwned(s, o, s.trackers[o]); }
    }
  }

  lemma UnregisterOk(s: Server, s': Server, c: nat, obj: nat, i: nat)
    requires Inv(s) && Unregister(s, s', c, obj, i)
    ensures Inv(s')
  {
    var t := s.trackers[obj];
    assert Locked(t) && AllOwned(s, obj, t);
    RemovedKeeps(t.ranges, i, t.nextId);
    hide Exclusive, IdsOk;
    forall o | o in s'.trackers ensures Locked(s'.trackers[o]) && AllOwned(s', o, s'.trackers[o]) {
      if o != obj { assert Locked(s.trackers[o]) && AllOwned(s, o, s.trackers[o]); }
    }
  }

  lemma LeaveOk(s: Server, s': Server, c: nat)
    requires Inv(s) && Leave(s, s', c)
    ensures Inv(s')
  {
    hide Locked;
    forall obj | obj in s'.trackers ensures AllOwned(s', obj, s'.trackers[obj]) {
      assert AllOwned(s, obj, s.trackers[obj]);
    }
  }

  lemma VisitOk(s: Server, s': Server, c: nat, obj: nat)
    requires Inv(s) && Visit(s, s', c, obj)
    ensures Inv(s')
  {
    hide Exclusive, IdsOk;
    var t := s.trackers[obj];
    assert Locked(t) && AllOwned(s, obj, t);
    WithoutKeeps(t.ranges, c, t.nextId);
    forall o | o in s'.trackers ensures Locked(s'.trackers[o]) && AllOwned(s', o, s'.trackers[o]) {
      if o == obj {
        VisitedOwned(s, s', c, obj);
      } else {
        assert Locked(s.trackers[o]) && AllOwned(s, o, s.trackers[o]);
      }
    }
  }

  lemma VisitedOwned(s: Server, s': Server, c: nat, obj: nat)
    requires Visit(s, s', c, obj) && AllOwned(s, obj, s.trackers[obj])
    ensures AllOwned(s', obj, s'.trackers[obj])
  {
    var t, t' := s.trackers[obj], s'.trackers[obj];
    forall i | 0 <= i < |t'.ranges| ensures Owned(s', obj, t'.ranges[i]) {
      WithoutContents(t.ranges, c, t'.ranges[i]);
      var j :| 0 <= j < |t.ranges| && t.ranges[j] == t'.ranges[i];
      assert Owned(s, obj, t.ranges[j]);
    }
  }

  lemma GoneOk(s: Server, s': Server, c: nat)
    requires Inv(s) && Gone(s, s', c)
    ensures Inv(s')
  {
    hide Locked;
    forall obj | obj in s'.trackers ensures AllOwned(s', obj, s'.trackers[obj]) {
      assert AllOwned(s, obj, s.trackers[obj]);
    }
  }

  lemma NextOk(s: Server, s': Server)
    requires Inv(s) && Next(s, s')
    ensures Inv(s')
  {
    hide Inv, Connect, Register, Unregister, Leave, Visit, Gone;
    if Connect(s, s') {
      ConnectOk(s, s');
    } else if c, obj, offset, size, mode :| Register(s, s', c, obj, offset, size, mode) {
      RegisterOk(s, s', c, obj, offset, size, mode);
    } else if c, obj, i :| Unregister(s, s', c, obj, i) { UnregisterOk(s, s', c, obj, i); }
    else if c :| Leave(s, s', c) { LeaveOk(s, s', c); }
    else if c, obj :| Visit(s, s', c, obj) { VisitOk(s, s', c, obj); }
    else { var c :| Gone(s, s', c); GoneOk(s, s', c); }
  }

  lemma {:induction false} RunOk(run: seq<Server>, n: nat)
    requires Run(run) && n < |run|
    ensures Inv(run[n])
  {
    hide Inv, Next;
    if n == 0 { InitOk(run[0]); } else {
      RunOk(run, n - 1);
      NextOk(run[n - 1], run[n]);
    }
  }

  lemma InitOk(s: Server)
    requires Init(s)
    ensures Inv(s)
  {
  }

  /** In every run, once the disconnect of a client has finished, none of its ranges remains in any object. */
  lemma NoLeftovers(run: seq<Server>, n: nat, obj: nat, i: nat)
    requires Run(run) && n < |run| && obj in run[n].trackers && i < |run[n].trackers[obj].ranges|
    ensures var c := run[n].trackers[obj].ranges[i].client; c in run[n].registry || c in run[n].leaving
  {
    hide Run, Locked;
    RunOk(run, n);
    assert AllOwned(run[n], obj, run[n].trackers[obj]);
    assert Owned(run[n], obj, run[n].trackers[obj].ranges[i]);
  }

  /**
    In every run, with any clients coming and going, a byte locked for writing is locked once, and identifiers are
    unique.
   */
  lemma LocksHold(run: seq<Server>, n: nat, obj: nat, i: nat, j: nat, b: nat)
    requires Run(run) && n < |run| && obj in run[n].trackers && i < j < |run[n].trackers[obj].ranges|
    ensures var r, q := run[n].trackers[obj].ranges[i], run[n].trackers[obj].ranges[j];
            && r.id != q.id
            && (InRange(b, r.offset, r.size) && InRange(b, q.offset, q.size) ==> r.mode.ReadMode? && q.mode.ReadMode?)
  {
    hide Run, AllOwned;
    RunOk(run, n);
    var t := run[n].trackers[obj];
    assert Locked(t);
    if InRange(b, t.ranges[i].offset, t.ranges[i].size) && InRange(b, t.ranges[j].offset, t.ranges[j].size) {
      WritersExclusive(t.ranges, i, j, b);
    }
  }

  /** Readers share: a client that locks a range for reading gets it if no range of the object is for writing. */
  lemma ReadersShare(s: Server, s': Server, c: nat, obj: nat, offset: nat, size: nat)
    requires Register(s, s', c, obj, offset, size, ReadMode)
    requires forall i | 0 <= i < |TrackerOf(s, obj).ranges| :: TrackerOf(s, obj).ranges[i].mode.ReadMode?
    ensures obj in s'.trackers
    ensures s'.trackers[obj].ranges ==
            TrackerOf(s, obj).ranges + [Range(c, TrackerOf(s, obj).nextId, offset, size, ReadMode)]
  {
    hide Collides;
    CollidesExact(TrackerOf(s, obj), offset, size, ReadMode);
  }

  /** A range that meets a registered one, one of the two being for writing, leaves the locks of the object alone. */
  lemma ConflictRefused(s: Server, s': Server, c: nat, obj: nat, offset: nat, size: nat, mode: Mode, i: nat)
    requires Register(s, s', c, obj, offset, size, mode) && i < |TrackerOf(s, obj).ranges|
    requires ShareByte(offset, size, TrackerOf(s, obj).ranges[i].offset, TrackerOf(s, obj).ranges[i].size)
    requires mode.WriteMode? || TrackerOf(s, obj).ranges[i].mode.WriteMode?
    ensures obj in s'.trackers && s'.trackers[obj] == TrackerOf(s, obj)
  {
    hide Collides, ShareByte;
    CollidesExact(TrackerOf(s, obj), offset, size, mode);
  }

  // ---- The check and the registration as two steps -----------------------------------------------

  ghost predicate Check(s: Server, s': Server, c: nat) {
    c in s.registry && s' == s.(checked := s.checked + multiset{c})
  }

  ghost predicate LateRegister(s: Server, s': Server, c: nat, obj: nat, offset: nat, size: nat, mode: Mode) {
    c in s.checked && s'.checked == s.checked - multiset{c} && Registers(s, s', c, obj, offset, size, mode)
  }

  ghost predicate FineNext(s: Server, s': Server) {
    || Next(s, s')
    || (exists c :: Check(s, s', c))
    || (exists c, obj, offset, size, mode :: LateRegister(s, s', c, obj, offset, size, mode))
  }

  ghost predicate FineRun(run: seq<Server>) {
    run != [] && Init(run[0]) && forall i | 0 <= i < |run| - 1 :: FineNext(run[i], run[i + 1])
  }

  /**
    Executing a message that was checked earlier keeps the invariant exactly if the client is still registered, its walk
    has yet to reach the object, or the range is refused.
   */
  lemma LateRegisterIff(s: Server, s': Server, c: nat, obj: nat, offset: nat, size: nat, mode: Mode)
    requires Inv(s) && LateRegister(s, s', c, obj, offset, size, mode)
    ensures Inv(s') <==> c in s.registry || (c in s.leaving && s.leaving[c] <= obj)
                         || Collides(TrackerOf(s, obj), offset, size, mode)
  {
    hide Collides, Locked;
    var t := TrackerOf(s, obj);
    FreshLocked();
    assert Locked(t) && AllOwned(s, obj, t);
    forall o | o in s'.trackers && o != obj ensures Locked(s'.trackers[o]) && AllOwned(s', o, s'.trackers[o]) {
      assert Locked(s.trackers[o]) && AllOwned(s, o, s.trackers[o]);
    }
    if !Collides(t, offset, size, mode) {
      RegisterLocked(t, c, offset, size, mode);
      var t' := s'.trackers[obj];
      assert t'.ranges[|t.ranges|].client == c;
      assert Inv(s') ==> Owned(s', obj, t'.ranges[|t.ranges|]);
    }
  }

  lemma FreshLocked()
    ensures Locked(FRESH)
  {
  }

  /** The range belongs to a client that is neither registered nor leaving. */
  ghost predicate Orphan(s: Server, obj: nat, r: Range) {
    && obj in s.trackers && r in s.trackers[obj].ranges
    && r.client !in s.registry && r.client !in s.leaving && r.client < s.nextClient
  }

  lemma RemovedOther(ranges: seq<Range>, i: nat, r: Range)
    requires i < |ranges| && r in ranges && ranges[i] != r
    ensures r in Removed(ranges, i)
  {
    var j :| 0 <= j < |ranges| && ranges[j] == r;
    if j < i { assert Removed(ranges, i)[j] == r; } else { assert Removed(ranges, i)[j - 1] == r; }
  }

  lemma OrphanRegisters(s: Server, s': Server, c: nat, obj: nat, offset: nat, size: nat, mode: Mode, o: nat, r: Range)
    requires Orphan(s, o, r) && Registers(s, s', c, obj, offset, size, mode)
    ensures Orphan(s', o, r)
  {
    hide Collides;
    assert s'.registry == s.registry && s'.leaving == s.leaving && s'.nextClient == s.nextClient;
  }

  lemma OrphanStep(s: Server, s': Server, o: nat, r: Range)
    requires Orphan(s, o, r) && FineNext(s, s')
    ensures Orphan(s', o, r)
  {
    hide Registers, Removed, Without;
    if Connect(s, s') {
    } else if c, obj, offset, size, mode :| Register(s, s', c, obj, offset, size, mode) {
      OrphanRegisters(s, s', c, obj, offset, size, mode, o, r);
    } else if c, obj, i :| Unregister(s, s', c, obj, i) {
      if obj == o { RemovedOther(s.trackers[obj].ranges, i, r); }
    }
    else if c :| Leave(s, s', c) { }
    else if c, obj :| Visit(s, s', c, obj) {
      if obj == o { WithoutContents(s.trackers[obj].ranges, c, r); }
    }
    else if c :| Gone(s, s', c) { }
    else if c :| Check(s, s', c) { }
    else {
      var c, obj, offset, size, mode :| LateRegister(s, s', c, obj, offset, size, mode);
      OrphanRegisters(s, s', c, obj, offset, size, mode, o, r);
    }
  }

  /** Such a range stays for ever: no step of any continuation removes it, and its client never comes back. */
  lemma {:induction false} OrphanStays(run: seq<Server>, m: nat, n: nat, obj: nat, r: Range)
    requires m <= n < |run| && (forall i | 0 <= i < |run| - 1 :: FineNext(run[i], run[i + 1])) && Orphan(run[m], obj, r)
    ensures Orphan(run[n], obj, r)
  {
    hide FineNext, Orphan;
    if m < n {
      OrphanStays(run, m, n - 1, obj, r);
      OrphanStep(run[n - 1], run[n], obj, r);
    }
  }

  /** If the client may leave between the check of its message and its execution, its range is left behind. */
  lemma SplitCheckLeaks() returns (run: seq<Server>)
    ensures FineRun(run)
    ensures run != [] && Orphan(run[|run| - 1], 0, Range(0, 1, 0, 1, WriteMode))
  {
    hide FineNext;
    var s0 := Server({}, map[], map[], 0, multiset{});
    var s1 := Server({0}, map[], map[], 1, multiset{});
    var s2 := Server({0}, map[], map[], 1, multiset{0});
    var s3 := Server({}, map[0 := 0], map[], 1, multiset{0});
    var s4 := Server({}, map[], map[], 1, multiset{0});
    var s5 := Server({}, map[], map[0 := Tracker([Range(0, 1, 0, 1, WriteMode)], 2)], 1, multiset{});
    run := [s0, s1, s2, s3, s4, s5];
    FineStep(s0, s1, 0);
    FineStep(s1, s2, 0);
    FineStep(s2, s3, 0);
    FineStep(s3, s4, 0);
    LeakingStep(s4, s5);
  }

  lemma FineStep(s: Server, s': Server, c: nat)
    requires Connect(s, s') || Check(s, s', c) || Leave(s, s', c) || Gone(s, s', c)
    ensures FineNext(s, s')
  {
  }

  lemma LeakingStep(s: Server, s': Server)
    requires s == Server({}, map[], map[], 1, multiset{0})
             && s' == Server({}, map[], map[0 := Tracker([Range(0, 1, 0, 1, WriteMode)], 2)], 1, multiset{})
    ensures FineNext(s, s')
  {
    assert [] + [Range(0, 1, 0, 1, WriteMode)] == [Range(0, 1, 0, 1, WriteMode)];
    assert s.trackers[0 := Tracker([Range(0, 1, 0, 1, WriteMode)], 2)] == s'.trackers;
    assert LateRegister(s, s', 0, 0, 0, 1, WriteMode);
  }
}
