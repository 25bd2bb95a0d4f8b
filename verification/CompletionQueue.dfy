/**
  Completion accounting of a connection: completions drained into a cache when a send finds no room, polling from the
  cache first, and the counter of pending actions.
 */
module CompletionQueue {
  import opened Basics

  /** A received message, a completed operation with a callback, or one sent without wake-up. */
  datatype Entry = Recv(id: nat) | Action(id: nat) | NoWakeup(id: nat)

  function NonRecv(s: seq<Entry>): nat {
    if s == [] then 0 else NonRecv(s[..|s| - 1]) + (if s[|s| - 1].Recv? then 0 else 1)
  }

  lemma {:induction false} NonRecvAppend(a: seq<Entry>, b: seq<Entry>)
    ensures NonRecv(a + b) == NonRecv(a) + NonRecv(b)
  {
    if b == [] {
      assert a + b == a;
    } else {
      NonRecvAppend(a, b[..|b| - 1]);
      assert (a + b)[..|a + b| - 1] == a + b[..|b| - 1];
    }
  }

  lemma NonRecvOne(a: seq<Entry>, e: Entry)
    ensures NonRecv(a + [e]) == NonRecv(a) + if e.Recv? then 0 else 1
  {
    assert (a + [e])[..|a|] == a;
  }

  // ---- The connection as a value ---------------------------------------------------------------------

  /**
    Completions the fabric holds and the ones drained into the cache, oldest first, and the counter; with the history of
    what the fabric produced, what was handled, and how many operations were issued.
   */
  datatype Conn = Conn(cq: seq<Entry>, cache: seq<Entry>, pending: int, produced: seq<Entry>, handled: seq<Entry>,
                       issued: nat) {
    function Waiting(): seq<Entry> { cache + cq }
  }

  /** An operation is issued, after draining the fabric if it had no room. */
  function Sent(c: Conn, drained: bool): Conn {
    if drained then c.(cache := c.cache + c.cq, cq := [], pending := c.pending + 1, issued := c.issued + 1)
    else c.(pending := c.pending + 1, issued := c.issued + 1)
  }

  /** The operations a callback or a message hook issues, one after the other. */
  function AllSent(c: Conn, sends: seq<bool>): Conn {
    if sends == [] then c else Sent(AllSent(c, sends[..|sends| - 1]), sends[|sends| - 1])
  }

  /** The oldest completion is taken, from the cache if it has one. */
  function Taken(c: Conn): Conn
    requires c.Waiting() != []
  {
    if c.cache != [] then c.(cache := c.cache[1..], handled := c.handled + [c.cache[0]])
    else c.(cq := c.cq[1..], handled := c.handled + [c.cq[0]])
  }

  /** `pollMessage` forgets to count down for a completion without wake-up. */
  predicate CountsDown(e: Entry, forMessage: bool) { e.Action? || (e.NoWakeup? && !forMessage) }

  /**
    What can happen: the fabric completes an operation or delivers a message, an operation is issued, or `poll` (or
    `pollMessage`) makes a round, in which the callback or hook issues operations before the counter goes down.
   */
  datatype Event = Produce(e: Entry) | Send(drained: bool) | Round(forMessage: bool, sends: seq<bool>)

  ghost predicate Next(c: Conn, ev: Event, c': Conn) {
    match ev
    case Produce(e) => (e.Recv? || NonRecv(c.produced) < c.issued)
        && c' == c.(cq := c.cq + [e], produced := c.produced + [e])
    case Send(drained) => c' == Sent(c, drained)
    case Round(forMessage, sends) =>
      if c.Waiting() == [] then c' == c && sends == []
      else
        var e, after := c.Waiting()[0], AllSent(Taken(c), sends);
        && (e.NoWakeup? ==> sends == [])
        && c' == after.(pending := after.pending - if CountsDown(e, forMessage) then 1 else 0)
  }

  /** The round takes a completion without wake-up and does not count it. */
  predicate Misses(c: Conn, ev: Event) {
    ev.Round? && ev.forMessage && c.Waiting() != [] && c.Waiting()[0].NoWakeup?
  }

  const START := Conn([], [], 0, [], [], 0)

  ghost predicate Run(run: seq<Conn>, events: seq<Event>) {
    && |run| == |events| + 1 && run[0] == START
    && forall n | 0 <= n < |events| :: Next(run[n], events[n], run[n + 1])
  }

  /** How many completions were missed in the first `n` steps. */
  ghost function Missed(run: seq<Conn>, events: seq<Event>, n: nat): nat
    requires n <= |events| && n <= |run|
  {
    if n == 0 then 0 else Missed(run, events, n - 1) + if Misses(run[n - 1], events[n - 1]) then 1 else 0
  }

  /** Nothing is lost, duplicated or reordered; the counter is off by the missed completions. */
  ghost predicate Accounts(c: Conn, missed: nat) {
    && c.produced == c.handled + c.Waiting()
    && NonRecv(c.produced) <= c.issued
    && c.pending == c.issued - NonRecv(c.handled) + missed
  }

  lemma SentAccounts(c: Conn, drained: bool, missed: nat)
    requires Accounts(c, missed)
    ensures Accounts(Sent(c, drained), missed) && Sent(c, drained).Waiting() == c.Waiting()
  {
    assert Sent(c, drained).Waiting() == c.Waiting();
  }

  lemma {:induction false} AllSentKeeps(c: Conn, sends: seq<bool>)
    ensures var d := AllSent(c, sends);
            && d.Waiting() == c.Waiting() && d.handled == c.handled && d.produced == c.produced
            && d.pending == c.pending + |sends| && d.issued == c.issued + |sends|
  {
    if sends != [] {
      AllSentKeeps(c, sends[..|sends| - 1]);
      var d := AllSent(c, sends[..|sends| - 1]);
      assert Sent(d, sends[|sends| - 1]).Waiting() == d.Waiting();
    }
  }

  lemma TakenKeeps(c: Conn)
    requires c.Waiting() != [] && c.produced == c.handled + c.Waiting()
    ensures var d := Taken(c);
            d.Waiting() == c.Waiting()[1..] && d.handled == c.handled + [c.Waiting()[0]]
                && d.produced == d.handled + d.Waiting()
  {
    assert c.Waiting() == [c.Waiting()[0]] + c.Waiting()[1..];
    assert Taken(c).Waiting() == c.Waiting()[1..];
  }

  lemma NextAccounts(c: Conn, ev: Event, c': Conn, missed: nat)
    requires Accounts(c, missed) && Next(c, ev, c')
    ensures Accounts(c', missed + if Misses(c, ev) then 1 else 0)
  {
    hide NonRecv;
    match ev
    case Produce(e) =>
      NonRecvOne(c.produced, e);
      assert c'.Waiting() == c.Waiting() + [e];
    case Send(drained) => SentAccounts(c, drained, missed);
    case Round(forMessage, sends) =>
      if c.Waiting() != [] {
        TakenKeeps(c);
        AllSentKeeps(Taken(c), sends);
        NonRecvOne(c.handled, c.Waiting()[0]);
      }
  }

  lemma {:induction false} RunAccounts(run: seq<Conn>, events: seq<Event>, n: nat)
    requires Run(run, events) && n <= |events|
    ensures Accounts(run[n], Missed(run, events, n))
  {
    hide Accounts, Next;
    if n == 0 {
      StartAccounts();
    } else {
      RunAccounts(run, events, n - 1);
      NextAccounts(run[n - 1], events[n - 1], run[n], Missed(run, events, n - 1));
    }
  }

  lemma StartAccounts()
    ensures Accounts(START, 0)
  {
  }

  lemma {:induction false} MissedNone(run: seq<Conn>, events: seq<Event>, n: nat)
    requires n <= |events| && n <= |run|
    ensures Missed(run, events, n) == 0 <==> forall m | 0 <= m < n :: !Misses(run[m], events[m])
  {
    hide Misses;
    if n > 0 { MissedNone(run, events, n - 1); }
  }

  lemma HandledBound(c: Conn, missed: nat)
    requires Accounts(c, missed)
    ensures NonRecv(c.handled) <= c.issued
  {
    NonRecvAppend(c.handled, c.Waiting());
  }

  /**
    In every run, completions are handled once each and in the order the fabric produced them, and the counter never
    goes negative.
   */
  lemma HandledInOrder(run: seq<Conn>, events: seq<Event>, n: nat)
    requires Run(run, events) && n <= |events|
    ensures run[n].produced == run[n].handled + run[n].cache + run[n].cq
    ensures run[n].pending >= 0
  {
    hide Next;
    RunAccounts(run, events, n);
    HandledBound(run[n], Missed(run, events, n));
    assert run[n].handled + (run[n].cache + run[n].cq) == run[n].handled + run[n].cache + run[n].cq;
  }

  /**
    In every run, the counter is the number of operations still to be handled exactly if no round of `pollMessage`
    before took a completion without wake-up.
   */
  lemma CounterExactIff(run: seq<Conn>, events: seq<Event>, n: nat)
    requires Run(run, events) && n <= |events|
    ensures run[n].pending == run[n].issued - NonRecv(run[n].handled) <==>
              forall m | 0 <= m < n :: !Misses(run[m], events[m])
  {
    hide Next, Misses;
    RunAccounts(run, events, n);
    MissedNone(run, events, n);
  }

  /**
    After such a round the counter stays positive in every continuation, even when every operation has been handled.
   */
  lemma WaitNeverEnds(run: seq<Conn>, events: seq<Event>, m: nat, n: nat)
    requires Run(run, events) && m < n <= |events| && Misses(run[m], events[m])
    ensures run[n].pending > 0
  {
    hide Next, Misses;
    RunAccounts(run, events, n);
    MissedNone(run, events, n);
    HandledBound(run[n], Missed(run, events, n));
  }

  const LOST := NoWakeup(0)
  const ISSUED := Conn([], [], 1, [], [], 1)
  const COMPLETED := Conn([LOST], [], 1, [LOST], [], 1)
  const FORGOTTEN := Conn([], [], 1, [LOST], [LOST], 1)

  lemma ForgottenSteps()
    ensures Next(START, Event.Send(false), ISSUED) && Next(ISSUED, Event.Produce(LOST), COMPLETED)
            && Next(COMPLETED, Event.Round(true, []), FORGOTTEN)
    ensures Misses(COMPLETED, Event.Round(true, [])) && NonRecv(FORGOTTEN.handled) == 1 && FORGOTTEN.Waiting() == []
  {
    hide NonRecv;
    assert NonRecv([]) == 0 by { NothingCounted(); }
    assert [] + [LOST] == [LOST] && [LOST][1..] == [];
    NonRecvOne([], LOST);
    assert COMPLETED.Waiting() == [LOST] && Taken(COMPLETED) == FORGOTTEN;
  }

  lemma NothingCounted()
    ensures NonRecv([]) == 0
  {
  }

  /**
    One operation without wake-up, completed and taken by `pollMessage`: nothing is outstanding and the counter is one.
   */
  lemma CounterGoesWrong() returns (run: seq<Conn>, events: seq<Event>)
    ensures Run(run, events) && |events| == 3 && Misses(run[2], events[2])
    ensures run[3].issued == NonRecv(run[3].handled) == 1 && run[3].Waiting() == [] && run[3].pending == 1
  {
    hide Next, NonRecv, Misses;
    ForgottenSteps();
    events := [Event.Send(false), Event.Produce(LOST), Event.Round(true, [])];
    run := [START, ISSUED, COMPLETED, FORGOTTEN];
  }

  // ---- The connection --------------------------------------------------------------------------------

  class Connection {
    var cq: seq<Entry>
    var cqEntries: seq<Entry>
    var pendingAction: int
    /** History: everything the fabric produced, everything handled, and operations issued. */
    ghost var produced: seq<Entry>
    ghost var handled: seq<Entry>
    ghost var issued: nat

    ghost function State(): Conn
      reads this
    {
      Conn(cq, cqEntries, pendingAction, produced, handled, issued)
    }

    constructor ()
      ensures State() == START
    {
      cq, cqEntries, pendingAction, produced, handled, issued := [], [], 0, [], [], 0;
    }

    /** The fabric completes an operation that was issued, or delivers a message. */
    method Produce(e: Entry)
      requires e.Recv? || NonRecv(produced) < issued
      modifies this`cq, this`produced
      ensures Next(old(State()), Event.Produce(e), State())
    {
      produced, cq := produced + [e], cq + [e];
    }

    /** `pollForCompletion`: the oldest cached entry if allowed, else the oldest one of the fabric. */
    method PollForCompletion(acceptCache: bool) returns (r: Option<Entry>)
      modifies this`cq, this`cqEntries
      ensures acceptCache && old(cqEntries) != [] ==>
                r == Some(old(cqEntries)[0]) && cqEntries == old(cqEntries)[1..] && cq == old(cq)
      ensures !(acceptCache && old(cqEntries) != []) ==> cqEntries == old(cqEntries)
      ensures !(acceptCache && old(cqEntries) != []) && old(cq) != [] ==> r == Some(old(cq)[0]) && cq == old(cq)[1..]
      ensures !(acceptCache && old(cqEntries) != []) && old(cq) == [] ==> r == None && cq == old(cq)
    {
      if acceptCache && cqEntries != [] {
        r := Some(cqEntries[0]);
        cqEntries := cqEntries[1..];
      } else if cq != [] {
        r := Some(cq[0]);
        cq := cq[1..];
      } else {
        r := None;
      }
    }

    /** Drains the fabric into the cache to free its resources. */
    method PollAllCqInCache()
      modifies this`cq, this`cqEntries
      ensures cq == [] && cqEntries == old(cqEntries) + old(cq)
    {
      ghost var n := 0;
      var r := PollForCompletion(false);
      assert old(cq)[..0] == [];
      while r.Some?
        invariant n <= |old(cq)| && cqEntries == old(cqEntries) + old(cq)[..n]
        invariant if n < |old(cq)| then r == Some(old(cq)[n]) && cq == old(cq)[n + 1..] else r.None? && cq == []
        decreases |old(cq)| - n
      {
        assert old(cq)[..n + 1] == old(cq)[..n] + [r.value];
        cqEntries := cqEntries + [r.value];
        n := n + 1;
        r := PollForCompletion(false);
      }
      assert old(cq)[..n] == old(cq);
    }

    /** A send, an RDMA read or an RDMA write: refused `retries` times, draining the fabric each time, then issued. */
    method Send(retries: nat)
      modifies this`cq, this`cqEntries, this`pendingAction, this`issued
      ensures State() == Sent(old(State()), retries > 0)
      ensures pendingAction == old(pendingAction) + 1 && issued == old(issued) + 1
      ensures if retries == 0 then cq == old(cq) && cqEntries == old(cqEntries)
              else cq == [] && cqEntries == old(cqEntries) + old(cq)
    {
      for i := 0 to retries
        invariant issued == old(issued) && pendingAction == old(pendingAction)
        invariant if i == 0 then cq == old(cq) && cqEntries == old(cqEntries)
                                 else cq == [] && cqEntries == old(cqEntries) + old(cq)
      {
        PollAllCqInCache();
      }
      pendingAction := pendingAction + 1;
      issued := issued + 1;
    }

    /**
      One round of `poll` (or of `pollMessage`): takes the oldest completion, runs its callback or hook, and accounts
      for it. `post` tells which operations the callback issues, by how often each is refused first.
     */
    method Round(forMessage: bool, post: Entry -> seq<nat>) returns (r: Option<Entry>, ghost sends: seq<bool>)
      modifies this`cq, this`cqEntries, this`pendingAction, this`handled, this`issued
      ensures Next(old(State()), Event.Round(forMessage, sends), State())
      ensures r == if old(State()).Waiting() == [] then None else Some(old(State()).Waiting()[0])
      ensures r.Some? && !r.value.NoWakeup? ==>
                |sends| == |post(r.value)| && forall i | 0 <= i < |sends| :: sends[i] <==> post(r.value)[i] > 0
      ensures pendingAction == old(pendingAction) + |sends|
                               - if r.Some? && (r.value.Action? || (r.value.NoWakeup? && !forMessage)) then 1 else 0
    {
      ghost var c := State();
      sends := [];
      r := PollForCompletion(true);
      if r.Some? {
        var e := r.value;
        handled := handled + [e];
        assert State() == Taken(c) && e == c.Waiting()[0];
        if !e.NoWakeup? {
          var retries := post(e);
          for i := 0 to |retries|
            invariant |sends| == i && State() == AllSent(Taken(c), sends)
            invariant forall j | 0 <= j < i :: sends[j] <==> retries[j] > 0
          {
            Send(retries[i]);
            assert (sends + [retries[i] > 0])[..i] == sends;
            sends := sends + [retries[i] > 0];
          }
        }
        AllSentKeeps(Taken(c), sends);
        if CountsDown(e, forMessage) {
          pendingAction := pendingAction - 1;
        }
      }
    }
  }
}
