/**
  The client connection pool as interleaved steps: a semaphore of eight permits, a mutex around a non-atomic scan of the
  `used` flags, and a release that clears the flag without the mutex.
 */
module ConnectionPool {
  import opened Basics

  const MAX_CONN := 8

  type Tid = nat

  /**
    Where a thread stands. `Scanning` also remembers, for the proof only, which connections were in use when the scan
    began; no step reads it.
   */
  datatype Pc =
    | Idle
    | HasPermit
    | Scanning(i: nat, atStart: set<nat>)
    | Found(i: nat)
    | Creating
    | Holding(c: nat)
    | Released

  /** `used[c]` is the flag of connection `c`; `finiTaken` counts the permits `ioc_client_fini` has collected. */
  datatype Pool = Pool(permits: nat, mutex: Option<Tid>, used: seq<bool>, threads: map<Tid, Pc>, finiTaken: nat)

  ghost function InUse(used: seq<bool>): set<nat> {
    set c: nat | c < |used| && used[c]
  }

  function At(p: Pool, t: Tid, pc: Pc): Pool { p.(threads := p.threads[t := pc]) }

  // ---- Steps -----------------------------------------------------------------------------------

  ghost predicate SemWait(p: Pool, p': Pool, t: Tid) {
    t in p.threads && p.threads[t].Idle? && p.permits > 0 && p' == At(p, t, HasPermit).(permits := p.permits - 1)
  }

  ghost predicate Lock(p: Pool, p': Pool, t: Tid) {
    t in p.threads && p.threads[t].HasPermit? && p.mutex.None?
        && p' == At(p, t, Scanning(0, InUse(p.used))).(mutex := Some(t))
  }

  /** Reads one flag. */
  ghost predicate Look(p: Pool, p': Pool, t: Tid) {
    && t in p.threads && p.threads[t].Scanning? && p.threads[t].i < |p.used|
    && p' == At(p, t, if p.used[p.threads[t].i] then Scanning(p.threads[t].i + 1, p.threads[t].atStart)
                                                     else Found(p.threads[t].i))
  }

  /** Sets the flag that was read as free, and unlocks. */
  ghost predicate Claim(p: Pool, p': Pool, t: Tid) {
    && t in p.threads && p.threads[t].Found? && p.threads[t].i < |p.used|
    && p' == At(p, t, Holding(p.threads[t].i)).(used := p.used[p.threads[t].i := true], mutex := None)
  }

  ghost predicate EndScan(p: Pool, p': Pool, t: Tid) {
    t in p.threads && p.threads[t].Scanning? && p.threads[t].i == |p.used| && p' == At(p, t, Creating)
  }

  ghost predicate Create(p: Pool, p': Pool, t: Tid) {
    && t in p.threads && p.threads[t].Creating?
    && p' == At(p, t, Holding(|p.used|)).(used := p.used + [true], mutex := None)
  }

  /** `setUsed(false)`, outside the mutex. */
  ghost predicate Release(p: Pool, p': Pool, t: Tid) {
    && t in p.threads && p.threads[t].Holding? && p.threads[t].c < |p.used|
    && p' == At(p, t, Released).(used := p.used[p.threads[t].c := false])
  }

  ghost predicate SemPost(p: Pool, p': Pool, t: Tid) {
    t in p.threads && p.threads[t].Released? && p' == At(p, t, Idle).(permits := p.permits + 1)
  }

  ghost predicate FiniTakes(p: Pool, p': Pool) {
    p.permits > 0 && p' == p.(permits := p.permits - 1, finiTaken := p.finiTaken + 1)
  }

  ghost predicate ThreadStep(p: Pool, p': Pool, t: Tid) {
    SemWait(p, p', t) || Lock(p, p', t) || Look(p, p', t) || Claim(p, p', t) || EndScan(p, p', t) || Create(p, p', t)
        || Release(p, p', t) || SemPost(p, p', t)
  }

  ghost predicate Next(p: Pool, p': Pool) {
    FiniTakes(p, p') || exists t :: ThreadStep(p, p', t)
  }

  ghost predicate Init(p: Pool) {
    p.permits == MAX_CONN && p.mutex.None? && p.used == [] && p.finiTaken == 0 && forall t | t in p.threads ::
        p.threads[t].Idle?
  }

  ghost predicate Run(run: seq<Pool>) {
    run != [] && Init(run[0]) && forall i | 0 <= i < |run| - 1 :: Next(run[i], run[i + 1])
  }

  // ---- The invariant ---------------------------------------------------------------------------

  ghost function Permitted(threads: map<Tid, Pc>): set<Tid> {
    set t | t in threads && !threads[t].Idle?
  }

  predicate InCritical(pc: Pc) { pc.Scanning? || pc.Found? || pc.Creating? }

  ghost predicate PermitsOk(p: Pool) {
    p.permits + |Permitted(p.threads)| + p.finiTaken == MAX_CONN
  }

  ghost predicate MutexOk(p: Pool) {
    forall t | t in p.threads :: InCritical(p.threads[t]) <==> p.mutex == Some(t)
  }

  ghost predicate MutexHeld(p: Pool) {
    p.mutex.Some? ==> p.mutex.value in p.threads
  }

  /** Flags and holders agree, and no connection has two holders. */
  ghost predicate HoldersOk(p: Pool) {
    && (forall t | t in p.threads && p.threads[t].Holding? :: p.threads[t].c < |p.used| && p.used[p.threads[t].c])
    && (forall t, u | t in p.threads && u in p.threads && p.threads[t].Holding? && p.threads[u].Holding?
        && p.threads[t].c == p.threads[u].c :: t == u)
    && (forall c: nat | c < |p.used| && p.used[c] :: HeldBySomeone(p, c))
  }

  ghost predicate HeldBySomeone(p: Pool, c: nat) {
    exists t :: t in p.threads && p.threads[t] == Holding(c)
  }

  /** The scanner has seen only connections that were in use when it started, of which there were at most seven. */
  ghost predicate ScanOk(p: Pool) {
    forall t | t in p.threads ::
      match p.threads[t]
      case Scanning(i, atStart) =>
        i <= |p.used| && |atStart| < MAX_CONN && InUse(p.used) <= atStart && (forall j: nat | j < i :: j in atStart)
      case Found(i) => i < |p.used| && !p.used[i]
      case Creating => |p.used| < MAX_CONN
      case _ => true
  }

  ghost predicate Inv(p: Pool) {
    PermitsOk(p) && MutexOk(p) && MutexHeld(p) && HoldersOk(p) && ScanOk(p) && |p.used| <= MAX_CONN
  }

  // ---- Counting --------------------------------------------------------------------------------

  lemma PermittedAfter(threads: map<Tid, Pc>, t: Tid, pc: Pc)
    requires t in threads
    ensures Permitted(threads[t := pc]) == Permitted(threads) - {t} + (if pc.Idle? then {} else {t})
  {
  }

  /** There are at most as many connections in use as threads other than `t` that own a permit. */
  lemma {:induction false} HoldersBound(threads: map<Tid, Pc>, cs: set<nat>, owners: set<Tid>)
    requires forall c | c in cs :: exists t :: t in owners && t in threads && threads[t] == Holding(c)
    ensures |cs| <= |owners|
    decreases cs
  {
    if cs != {} {
      var c :| c in cs;
      var t :| t in owners && t in threads && threads[t] == Holding(c);
      var cs', owners' := cs - {c}, owners - {t};
      forall c' | c' in cs' ensures exists t' :: t' in owners' && t' in threads && threads[t'] == Holding(c') {
        var t' :| t' in owners && t' in threads && threads[t'] == Holding(c');
        assert t' in owners';
      }
      HoldersBound(threads, cs', owners');
    }
  }

  /** When a thread with a permit starts its scan, at most seven connections are in use. */
  lemma InUseAtLock(p: Pool, t: Tid)
    requires Inv(p) && t in p.threads && p.threads[t].HasPermit?
    ensures |InUse(p.used)| < MAX_CONN
  {
    var owners := Permitted(p.threads) - {t};
    assert t in Permitted(p.threads);
    forall c | c in InUse(p.used) ensures exists u :: u in owners && u in p.threads && p.threads[u] == Holding(c) {
      assert HeldBySomeone(p, c);
      var u :| u in p.threads && p.threads[u] == Holding(c);
      assert u in owners;
    }
    HoldersBound(p.threads, InUse(p.used), owners);
  }

  /** A thread goes on to create a connection only if every existing one was in use when its scan began. */
  lemma NewOnlyIfBusy(p: Pool, p': Pool, t: Tid, c: nat)
    requires Inv(p) && EndScan(p, p', t) && c < |p.used|
    ensures c in p.threads[t].atStart
  {
    assert ScanOk(p);
  }

  lemma {:induction false} FirstNumbers(n: nat, s: set<nat>)
    requires forall j: nat | j < n :: j in s
    ensures n <= |s|
  {
    if n > 0 { FirstNumbers(n - 1, s - {n - 1}); }
  }

  // ---- Every step keeps the invariant ------------------------------------------------------------

  lemma SemWaitOk(p: Pool, p': Pool, t: Tid)
    requires Inv(p) && SemWait(p, p', t)
    ensures Inv(p')
  {
    PermittedAfter(p.threads, t, HasPermit);
    assert t !in Permitted(p.threads);
    HoldersFollow(p, p', t);
  }

  /** Moving a thread that holds nothing to a place where it holds nothing. */
  lemma HoldersFollow(p: Pool, p': Pool, t: Tid)
    requires HoldersOk(p) && t in p.threads && t in p'.threads && p'.used == p.used
             && p'.threads == p.threads[t := p'.threads[t]]
    requires !p.threads[t].Holding? && !p'.threads[t].Holding?
    ensures HoldersOk(p')
  {
    forall c: nat | c < |p'.used| && p'.used[c] ensures HeldBySomeone(p', c) {
      assert HeldBySomeone(p, c);
      var u :| u in p.threads && p.threads[u] == Holding(c);
      assert p'.threads[u] == Holding(c);
    }
  }

  lemma LockOk(p: Pool, p': Pool, t: Tid)
    requires Inv(p) && Lock(p, p', t)
    ensures Inv(p')
  {
    PermitsSame(p, p', t);
    HoldersFollow(p, p', t);
    InUseAtLock(p, t);
  }

  lemma LookOk(p: Pool, p': Pool, t: Tid)
    requires Inv(p) && Look(p, p', t)
    ensures Inv(p')
  {
    hide HoldersOk, ScanOk, Permitted, InUse;
    PermitsSame(p, p', t);
    HoldersFollow(p, p', t);
    LookScan(p, p', t);
  }

  lemma PermitsSame(p: Pool, p': Pool, t: Tid)
    requires PermitsOk(p) && t in p.threads && !p.threads[t].Idle? && t in p'.threads && !p'.threads[t].Idle?
    requires p'.threads == p.threads[t := p'.threads[t]] && p'.permits == p.permits && p'.finiTaken == p.finiTaken
    ensures PermitsOk(p')
  {
    PermittedAfter(p.threads, t, p'.threads[t]);
    assert t in Permitted(p.threads);
    assert Permitted(p'.threads) == Permitted(p.threads);
  }

  lemma LookScan(p: Pool, p': Pool, t: Tid)
    requires ScanOk(p) && Look(p, p', t)
    ensures ScanOk(p')
  {
    if p.used[p.threads[t].i] { assert p.threads[t].i in InUse(p.used); }
    hide InUse;
  }

  lemma ClaimOk(p: Pool, p': Pool, t: Tid)
    requires Inv(p) && Claim(p, p', t)
    ensures Inv(p')
  {
    PermitsSame(p, p', t);
    var i := p.threads[t].i;
    forall c: nat | c < |p'.used| && p'.used[c] ensures HeldBySomeone(p', c) {
      if c == i {
        assert p'.threads[t] == Holding(c);
      } else {
        assert HeldBySomeone(p, c);
        var u :| u in p.threads && p.threads[u] == Holding(c);
        assert p'.threads[u] == Holding(c);
      }
    }
  }

  lemma EndScanOk(p: Pool, p': Pool, t: Tid)
    requires Inv(p) && EndScan(p, p', t)
    ensures Inv(p')
  {
    PermitsSame(p, p', t);
    HoldersFollow(p, p', t);
    FirstNumbers(|p.used|, p.threads[t].atStart);
  }

  lemma CreateOk(p: Pool, p': Pool, t: Tid)
    requires Inv(p) && Create(p, p', t)
    ensures Inv(p')
  {
    PermitsSame(p, p', t);
    forall c: nat | c < |p'.used| && p'.used[c] ensures HeldBySomeone(p', c) {
      if c == |p.used| {
        assert p'.threads[t] == Holding(c);
      } else {
        assert HeldBySomeone(p, c);
        var u :| u in p.threads && p.threads[u] == Holding(c);
        assert p'.threads[u] == Holding(c);
      }
    }
  }

  lemma ReleaseOk(p: Pool, p': Pool, t: Tid)
    requires Inv(p) && Release(p, p', t)
    ensures Inv(p')
  {
    PermitsSame(p, p', t);
    forall c: nat | c < |p'.used| && p'.used[c] ensures HeldBySomeone(p', c) {
      assert HeldBySomeone(p, c);
      var u :| u in p.threads && p.threads[u] == Holding(c);
      assert p'.threads[u] == Holding(c);
    }
    assert InUse(p'.used) <= InUse(p.used);
  }

  lemma SemPostOk(p: Pool, p': Pool, t: Tid)
    requires Inv(p) && SemPost(p, p', t)
    ensures Inv(p')
  {
    PermittedAfter(p.threads, t, Idle);
    assert t in Permitted(p.threads);
    HoldersFollow(p, p', t);
  }

  lemma NextOk(p: Pool, p': Pool)
    requires Inv(p) && Next(p, p')
    ensures Inv(p')
  {
    hide Inv, SemWait, Lock, Look, Claim, EndScan, Create, Release, SemPost, FiniTakes;
    if FiniTakes(p, p') {
      FiniOk(p, p');
    } else {
      var t :| ThreadStep(p, p', t);
      if SemWait(p, p', t) { SemWaitOk(p, p', t); }
      else if Lock(p, p', t) { LockOk(p, p', t); }
      else if Look(p, p', t) { LookOk(p, p', t); }
      else if Claim(p, p', t) { ClaimOk(p, p', t); }
      else if EndScan(p, p', t) { EndScanOk(p, p', t); }
      else if Create(p, p', t) { CreateOk(p, p', t); }
      else if Release(p, p', t) { ReleaseOk(p, p', t); }
      else { SemPostOk(p, p', t); }
    }
  }

  lemma FiniOk(p: Pool, p': Pool)
    requires Inv(p) && FiniTakes(p, p')
    ensures Inv(p')
  {
    HoldersSame(p, p');
  }

  lemma HoldersSame(p: Pool, p': Pool)
    requires HoldersOk(p) && p'.threads == p.threads && p'.used == p.used
    ensures HoldersOk(p')
  {
    forall c: nat | c < |p'.used| && p'.used[c] ensures HeldBySomeone(p', c) {
      assert HeldBySomeone(p, c);
    }
  }

  lemma InitOk(p: Pool)
    requires Init(p)
    ensures Inv(p)
  {
    assert Permitted(p.threads) == {};
  }

  lemma {:induction false} RunOk(run: seq<Pool>, i: nat)
    requires Run(run) && i < |run|
    ensures Inv(run[i])
  {
    hide Inv, Init, Next;
    if i == 0 {
      InitOk(run[0]);
    } else {
      RunOk(run, i - 1);
      NextOk(run[i - 1], run[i]);
    }
  }

  /** In every interleaving: never more than eight connections, and no connection held by two threads. */
  lemma PoolSafe(run: seq<Pool>, i: nat, t: Tid, u: Tid)
    requires Run(run) && i < |run|
    ensures |run[i].used| <= MAX_CONN
    ensures t in run[i].threads && u in run[i].threads && t != u && run[i].threads[t].Holding?
            && run[i].threads[u].Holding? ==>
              run[i].threads[t].c != run[i].threads[u].c
    ensures t in run[i].threads && run[i].threads[t].Holding? ==>
              run[i].threads[t].c < |run[i].used| && run[i].used[run[i].threads[t].c]
  {
    hide Run;
    RunOk(run, i);
  }

  /** Once `ioc_client_fini` has all eight permits, no connection is in use and no thread is inside the pool. */
  lemma FiniSeesAllIdle(run: seq<Pool>, i: nat)
    requires Run(run) && i < |run| && run[i].finiTaken == MAX_CONN
    ensures forall c | 0 <= c < |run[i].used| :: !run[i].used[c]
    ensures forall t | t in run[i].threads :: run[i].threads[t].Idle?
    ensures run[i].mutex.None?
  {
    hide Run;
    RunOk(run, i);
    var p := run[i];
    assert Permitted(p.threads) == {};
    assert forall t | t in p.threads && !p.threads[t].Idle? :: t in Permitted(p.threads);
    assert forall c: nat | c < |p.used| && p.used[c] :: HeldBySomeone(p, c);
  }
}
