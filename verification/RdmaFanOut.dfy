/**
  An RDMA transfer split into groups of at most four iovecs: where each group lands, and the shared counter whose last
  decrement sends the single acknowledgement, whatever the order of issues and completions.
 */
module RdmaFanOut {
  import opened Basics

  const MAX_RDMA_SEGS := 4

  /** One `rdmaWritev`: pieces gathered into contiguous remote memory. */
  datatype Transfer = Transfer(addr: nat, pieces: seq<seq<Byte>>) {
    function Bytes(): seq<Byte> { Flat(pieces) }
  }

  function Flat(pieces: seq<seq<Byte>>): seq<Byte> {
    if pieces == [] then [] else Flat(pieces[..|pieces| - 1]) + pieces[|pieces| - 1]
  }

  lemma {:induction false} FlatAppend(a: seq<seq<Byte>>, b: seq<seq<Byte>>)
    ensures Flat(a + b) == Flat(a) + Flat(b)
  {
    if b == [] {
      assert a + b == a;
    } else {
      FlatAppend(a, b[..|b| - 1]);
      assert (a + b)[..|a + b| - 1] == a + b[..|b| - 1];
    }
  }

  /** What the first groups of a plan carry. */
  function Carried(plan: seq<Transfer>): seq<Byte> {
    if plan == [] then [] else Carried(plan[..|plan| - 1]) + plan[|plan| - 1].Bytes()
  }

  /** Each group lands right after the bytes of the groups before it. */
  ghost predicate Contiguous(plan: seq<Transfer>, base: nat) {
    forall g | 0 <= g < |plan| :: plan[g].addr == base + |Carried(plan[..g])|
  }

  lemma ContiguousAppend(plan: seq<Transfer>, base: nat, t: Transfer)
    requires Contiguous(plan, base) && t.addr == base + |Carried(plan)|
    ensures Contiguous(plan + [t], base) && Carried(plan + [t]) == Carried(plan) + t.Bytes()
  {
    var plan' := plan + [t];
    assert plan'[..|plan|] == plan;
    forall g | 0 <= g < |plan'| ensures plan'[g].addr == base + |Carried(plan'[..g])| {
      assert plan'[..g] == plan[..g];
    }
  }

  /** Groups of at most four entries that `n` entries make. */
  function Groups(n: nat): nat { (n + MAX_RDMA_SEGS - 1) / MAX_RDMA_SEGS }

  /** First loop of the hooks: the value the shared counter starts with. */
  method CountGroups(n: nat) returns (ops: nat)
    ensures ops == Groups(n)
  {
    ops := 0;
    var i := 0;
    while i < n
      invariant i == 4 * ops && i < n + 4
    {
      ops, i := ops + 1, i + MAX_RDMA_SEGS;
    }
  }

  /** The two loops of the hooks: count the groups, then issue them at increasing remote addresses. */
  method BuildPlan(pieces: seq<seq<Byte>>, base: nat) returns (ops: nat, plan: seq<Transfer>)
    ensures ops == |plan| && (plan == [] <==> pieces == [])
    ensures forall g | 0 <= g < |plan| :: 0 < |plan[g].pieces| <= MAX_RDMA_SEGS
    ensures forall g | 0 <= g < |plan| - 1 :: |plan[g].pieces| == MAX_RDMA_SEGS
    ensures Contiguous(plan, base) && Carried(plan) == Flat(pieces)
  {
    hide Contiguous, Carried, Flat;
    ops := CountGroups(|pieces|);
    NothingCarried(base);
    plan := [];
    var i := 0;
    var offset: nat := 0;
    while i < |pieces|
      invariant i == 4 * |plan| && i < |pieces| + 4
      invariant forall g | 0 <= g < |plan| :: 0 < |plan[g].pieces| <= MAX_RDMA_SEGS
      invariant forall g | 0 <= g < |plan| && MAX_RDMA_SEGS * (g + 1) <= |pieces| :: |plan[g].pieces| == MAX_RDMA_SEGS
      invariant Contiguous(plan, base) && offset == |Carried(plan)|
      invariant Carried(plan) == Flat(pieces[..if i < |pieces| then i else |pieces|])
    {
      var cnt := if |pieces| - i > MAX_RDMA_SEGS then MAX_RDMA_SEGS else |pieces| - i;
      var t := Transfer(base + offset, pieces[i..i + cnt]);
      ContiguousAppend(plan, base, t);
      FlatAppend(pieces[..i], pieces[i..i + cnt]);
      assert pieces[..i] + pieces[i..i + cnt] == pieces[..i + cnt];
      plan := plan + [t];
      var group := SumLengths(pieces[i..i + cnt]);
      offset := offset + group;
      i := i + MAX_RDMA_SEGS;
    }
    assert pieces[..|pieces|] == pieces;
  }

  lemma NothingCarried(base: nat)
    ensures Contiguous([], base) && Carried([]) == [] && Flat([]) == []
  {
  }

  /** Inner loop of the hooks: how far a group moves the remote address. */
  method SumLengths(pieces: seq<seq<Byte>>) returns (n: nat)
    ensures n == |Flat(pieces)|
  {
    n := 0;
    assert pieces[..0] == [];
    for j := 0 to |pieces|
      invariant n == |Flat(pieces[..j])|
    {
      assert pieces[..j + 1][..j] == pieces[..j];
      n := n + |pieces[j]|;
    }
    assert pieces[..|pieces|] == pieces;
  }

  // ---- Where every byte lands ------------------------------------------------------------------

  predicate Lands(t: Transfer, x: nat) { t.addr <= x < t.addr + |t.Bytes()| }

  lemma {:induction false} CarriedMonotone(plan: seq<Transfer>, g: nat, h: nat)
    requires g < h <= |plan|
    ensures |Carried(plan[..g])| + |plan[g].Bytes()| <= |Carried(plan[..h])|
    ensures forall k | 0 <= k < |plan[g].Bytes()| :: Carried(plan[..h])[|Carried(plan[..g])| + k] == plan[g].Bytes()[k]
    decreases h
  {
    assert plan[..h][..h - 1] == plan[..h - 1];
    if g < h - 1 { CarriedMonotone(plan, g, h - 1); }
  }

  /** No two groups overlap on the remote side. */
  lemma LandOnce(plan: seq<Transfer>, base: nat, g: nat, h: nat, x: nat)
    requires Contiguous(plan, base) && g < |plan| && h < |plan| && Lands(plan[g], x) && Lands(plan[h], x)
    ensures g == h
  {
    if g < h { CarriedMonotone(plan, g, h); }
    if h < g { CarriedMonotone(plan, h, g); }
  }

  /** Every byte of the data lands in some group, at its own place. */
  lemma {:induction false} LandSomewhere(plan: seq<Transfer>, base: nat, n: nat, k: nat) returns (g: nat)
    requires Contiguous(plan, base) && n <= |plan| && k < |Carried(plan[..n])|
    ensures g < n && Lands(plan[g], base + k) && plan[g].Bytes()[base + k - plan[g].addr] == Carried(plan[..n])[k]
    decreases n
  {
    assert plan[..n][..n - 1] == plan[..n - 1];
    if k < |Carried(plan[..n - 1])| {
      g := LandSomewhere(plan, base, n - 1, k);
    } else {
      g := n - 1;
    }
  }

  // ---- The counter -----------------------------------------------------------------------------

  /**
    Groups issued, in flight and finished; the heap-allocated counter (`live` until deleted); acknowledgements sent.
   */
  datatype Fan = Fan(ops: int, live: bool, issued: nat, inFlight: set<nat>, done: set<nat>, acks: nat,
                     remote: nat -> Byte)

  function Start(plan: seq<Transfer>, remote: nat -> Byte): Fan {
    Fan(|plan|, true, 0, {}, {}, 0, remote)
  }

  function Place(remote: nat -> Byte, t: Transfer): nat -> Byte {
    (x: nat) => if Lands(t, x) then t.Bytes()[x - t.addr] else remote(x)
  }

  function Issue(s: Fan): Fan {
    s.(issued := s.issued + 1, inFlight := s.inFlight + {s.issued})
  }

  /** The completion callback: decrement, and on zero acknowledge and delete the counter. */
  function Complete(plan: seq<Transfer>, s: Fan, g: nat): Fan
    requires g < |plan|
  {
    var ops := s.ops - 1;
    Fan(ops, s.live && ops != 0, s.issued, s.inFlight - {g}, s.done + {g}, if ops == 0
        then s.acks + 1 else s.acks, Place(s.remote, plan[g]))
  }

  ghost predicate Next(plan: seq<Transfer>, s: Fan, s': Fan) {
    || (s.issued < |plan| && s' == Issue(s))
    || (exists g :: g in s.inFlight && g < |plan| && s' == Complete(plan, s, g))
  }

  ghost predicate Run(plan: seq<Transfer>, remote: nat -> Byte, run: seq<Fan>) {
    run != [] && run[0] == Start(plan, remote) && forall i | 0 <= i < |run| - 1 :: Next(plan, run[i], run[i + 1])
  }

  ghost predicate Finished(plan: seq<Transfer>, s: Fan) {
    plan != [] && |s.done| == |plan|
  }

  ghost predicate Counted(plan: seq<Transfer>, s: Fan) {
    && s.issued <= |plan|
    && (forall g | g in s.inFlight :: g < s.issued)
    && (forall g | g in s.done :: g < s.issued)
    && s.inFlight !! s.done && |s.inFlight| + |s.done| == s.issued
    && s.ops == |plan| - |s.done|
    && (s.live <==> !Finished(plan, s))
    && s.acks == if Finished(plan, s) then 1 else 0
  }

  ghost predicate Delivered(plan: seq<Transfer>, remote: nat -> Byte, s: Fan) {
    && (forall g, x: nat | g in s.done && g < |plan| && Lands(plan[g], x) ::
        s.remote(x) == plan[g].Bytes()[x - plan[g].addr])
    && (forall x: nat | !exists g :: g in s.done && g < |plan| && Lands(plan[g], x) :: s.remote(x) == remote(x))
  }

  lemma CountedIssue(plan: seq<Transfer>, s: Fan)
    requires Counted(plan, s) && s.issued < |plan|
    ensures Counted(plan, Issue(s))
  {
    assert s.issued !in s.inFlight && s.issued !in s.done;
  }

  lemma CountedComplete(plan: seq<Transfer>, s: Fan, g: nat)
    requires Counted(plan, s) && g in s.inFlight && g < |plan|
    ensures Counted(plan, Complete(plan, s, g))
  {
    hide Place, Carried, Flat;
    var s' := Complete(plan, s, g);
    assert g !in s.done;
    assert |s'.done| == |s.done| + 1;
    assert |s'.inFlight| == |s.inFlight| - 1;
  }

  lemma CountedStep(plan: seq<Transfer>, s: Fan, s': Fan)
    requires Counted(plan, s) && Next(plan, s, s')
    ensures Counted(plan, s')
  {
    hide Counted, Issue, Complete;
    if s.issued < |plan| && s' == Issue(s) {
      CountedIssue(plan, s);
    } else {
      var g :| g in s.inFlight && g < |plan| && s' == Complete(plan, s, g);
      CountedComplete(plan, s, g);
    }
  }

  lemma DeliveredStep(plan: seq<Transfer>, base: nat, remote: nat -> Byte, s: Fan, s': Fan)
    requires Contiguous(plan, base) && Delivered(plan, remote, s) && Next(plan, s, s')
    ensures Delivered(plan, remote, s')
  {
    hide Contiguous;
    if s.issued < |plan| && s' == Issue(s) {
    } else {
      var h :| h in s.inFlight && h < |plan| && s' == Complete(plan, s, h);
      forall g, x: nat | g in s'.done && g < |plan| && Lands(plan[g], x)
          ensures s'.remote(x) == plan[g].Bytes()[x - plan[g].addr] {
        if Lands(plan[h], x) { LandOnce(plan, base, g, h, x); }
      }
      forall x: nat | !exists g :: g in s'.done && g < |plan| && Lands(plan[g], x) ensures s'.remote(x) == remote(x) {
        assert h in s'.done;
      }
    }
  }

  lemma {:induction false} RunInvariant(plan: seq<Transfer>, base: nat, remote: nat -> Byte, run: seq<Fan>, i: nat)
    requires Contiguous(plan, base) && Run(plan, remote, run) && i < |run|
    ensures Counted(plan, run[i]) && Delivered(plan, remote, run[i])
  {
    hide Contiguous, Next, Counted, Delivered;
    if i == 0 {
      StartOk(plan, remote);
    } else {
      RunInvariant(plan, base, remote, run, i - 1);
      CountedStep(plan, run[i - 1], run[i]);
      DeliveredStep(plan, base, remote, run[i - 1], run[i]);
    }
  }

  lemma StartOk(plan: seq<Transfer>, remote: nat -> Byte)
    ensures Counted(plan, Start(plan, remote)) && Delivered(plan, remote, Start(plan, remote))
  {
  }

  /**
    In every run, at most one acknowledgement is sent, and it is sent exactly when all groups have finished and there
    was at least one: an empty transfer is never acknowledged. The counter is never touched after its deletion.
   */
  lemma SingleAck(plan: seq<Transfer>, base: nat, remote: nat -> Byte, run: seq<Fan>, i: nat)
    requires Contiguous(plan, base) && Run(plan, remote, run) && i < |run|
    ensures run[i].acks <= 1
    ensures run[i].acks == 1 <==> plan != [] && run[i].issued == |plan| && run[i].inFlight == {}
    ensures run[i].inFlight != {} || run[i].issued < |plan| ==> run[i].live
  {
    hide Contiguous, Delivered, Run;
    RunInvariant(plan, base, remote, run, i);
    var s := run[i];
    if s.inFlight != {} { assert |s.inFlight| > 0; }
  }

  lemma {:induction false} AllDone(n: nat, done: set<nat>)
    requires |done| == n && forall g | g in done :: g < n
    ensures forall g | 0 <= g < n :: g in done
  {
    if n > 0 {
      if n - 1 !in done { BelowBound(n - 1, done); }
      var rest := done - {n - 1};
      AllDone(n - 1, rest);
      forall g | 0 <= g < n ensures g in done { assert g == n - 1 || g in rest; }
    }
  }

  lemma {:induction false} BelowBound(n: nat, s: set<nat>)
    requires forall g | g in s :: g < n
    ensures |s| <= n
  {
    if n > 0 {
      BelowBound(n - 1, s - {n - 1});
    } else {
      assert s == {};
    }
  }

  lemma AckAllDone(plan: seq<Transfer>, base: nat, remote: nat -> Byte, run: seq<Fan>, i: nat)
    requires Contiguous(plan, base) && Run(plan, remote, run) && i < |run| && run[i].acks == 1
    ensures Delivered(plan, remote, run[i]) && forall g | 0 <= g < |plan| :: g in run[i].done
  {
    hide Contiguous, Run, Delivered;
    RunInvariant(plan, base, remote, run, i);
    var s := run[i];
    assert forall g | g in s.done :: g < |plan|;
    AllDone(|plan|, s.done);
  }

  /** When the acknowledgement goes out, the client memory holds exactly the data, and no other byte of it changed. */
  lemma AckMeansDelivered(plan: seq<Transfer>, base: nat, remote: nat -> Byte, run: seq<Fan>, i: nat, x: nat)
    requires Contiguous(plan, base) && Run(plan, remote, run) && i < |run| && run[i].acks == 1
    ensures run[i].remote(x) == if base <= x < base + |Carried(plan)| then Carried(plan)[x - base] else remote(x)
  {
    hide Contiguous, Run, Carried, Lands;
    AckAllDone(plan, base, remote, run, i);
    assert plan[..|plan|] == plan;
    if base <= x < base + |Carried(plan)| {
      var g := LandSomewhere(plan, base, |plan|, x - base);
      assert g in run[i].done;
    } else {
      forall g | g in run[i].done && g < |plan| ensures !Lands(plan[g], x) {
        if Lands(plan[g], x) { LandInside(plan, base, g, x); }
      }
    }
  }

  lemma LandInside(plan: seq<Transfer>, base: nat, g: nat, x: nat)
    requires Contiguous(plan, base) && g < |plan| && Lands(plan[g], x)
    ensures base <= x < base + |Carried(plan)|
  {
    CarriedMonotone(plan, g, |plan|);
    assert plan[..|plan|] == plan;
  }
}
