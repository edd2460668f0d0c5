/** When the broadcast accepts, puts and delivers messages, counted off the actions of a run. */
module Deliveries {
  import opened Common
  import opened Broadcast

  // ----- Room in the queue and in the pools -----

  function Dequeues(actions: seq<Action>): nat {
    if actions == [] then 0 else
      Dequeues(actions[..|actions| - 1]) + if actions[|actions| - 1].Dequeue? then 1 else 0
  }

  /** How many messages the writer of `id` has taken, and whether its pool has been closed. */
  function Receipts(actions: seq<Action>, id: Id): nat {
    if actions == [] then 0 else
      Receipts(actions[..|actions| - 1], id) + if actions[|actions| - 1] == Client(id, Receive) then 1 else 0
  }

  ghost predicate Closed(actions: seq<Action>, id: Id) {
    Client(id, ClosePool) in actions
  }

  lemma {:induction false} QueueCounts(states: seq<State>, actions: seq<Action>, n: nat)
    requires Run(states, actions) && n <= |actions|
    ensures |states[n].queue| + Dequeues(actions[..n]) == |Enqueued(actions[..n])|
  {
    if n > 0 {
      QueueCounts(states, actions, n - 1);
      assert actions[..n][..n - 1] == actions[..n - 1];
    }
  }

  /** The next message is accepted exactly when fewer than ten are waiting to be taken from the queue. */
  lemma AcceptedExactly(states: seq<State>, actions: seq<Action>, m: Message)
    requires Run(states, actions)
    ensures Enabled(states[|actions|], Enqueue(m)) <==> |Enqueued(actions)| - Dequeues(actions) < 10
  {
    QueueCounts(states, actions, |actions|);
    assert actions[..|actions|] == actions;
  }

  /** What a connection shows of the run: its writer's receipts, and whether its pool is closed. */
  ghost predicate Shows(s: State, id: Id, receipts: nat, closed: bool) {
    if id in s.conns then |s.conns[id].received| == receipts && PoolOpen(s.conns[id]) == !closed
    else receipts == 0 && !closed
  }

  lemma LocalShows(c: Conn, a: Local)
    requires LocalOk(c) && LocalEnabled(c, a)
    ensures var c' := LocalStep(c, a);
            && |c'.received| == |c.received| + (if a.Receive? then 1 else 0)
            && (PoolOpen(c') <==> PoolOpen(c) && !a.ClosePool?)
  {
  }

  lemma ShowsMore(s: State, a: Action, id: Id, receipts: nat, closed: bool)
    requires Inv(s) && Enabled(s, a) && Shows(s, id, receipts, closed)
    ensures Shows(Apply(s, a), id, receipts + (if a == Client(id, Receive) then 1 else 0),
                  closed || a == Client(id, ClosePool))
  {
    match a
    case Client(k, local) =>
      if k == id {
        assert ConnOk(s, id);
        LocalShows(s.conns[id], local);
      }
    case _ =>
  }

  lemma {:induction false} RunShows(states: seq<State>, actions: seq<Action>, n: nat, id: Id)
    requires Run(states, actions) && n <= |actions|
    ensures Shows(states[n], id, Receipts(actions[..n], id), Closed(actions[..n], id))
  {
    if n > 0 {
      var m := n - 1;
      RunShows(states, actions, m, id);
      ReachableInv(states, actions, m);
      ShowsMore(states[m], actions[m], id, Receipts(actions[..m], id), Closed(actions[..m], id));
      assert actions[..n] == actions[..m] + [actions[m]] && actions[..n][..m] == actions[..m];
    }
  }

  /**
   The message in hand is put for the client whose turn it is exactly while its pool is open and holds
   fewer than five, and the send fails exactly when the pool is closed.
   */
  lemma SendExactly(states: seq<State>, actions: seq<Action>)
    requires Run(states, actions) && states[|actions|].caster.Sending?
    ensures var n := |actions|; var s, id := states[n], states[n].caster.to;
            && (Enabled(s, Put) <==> !Closed(actions, id)
                                     && |Puts(states[..n], actions, id)| - Receipts(actions, id) < 5)
            && (Enabled(s, Fail) <==> Closed(actions, id))
  {
    var n := |actions|;
    var s, id := states[n], states[n].caster.to;
    assert actions[..n] == actions;
    ReachableInv(states, actions, n);
    assert ConnOk(s, id);
    RunShows(states, actions, n, id);
    HistoryIsRun(states, actions, n, id);
    SendEnabled(s);
  }

  lemma SendEnabled(s: State)
    requires s.caster.Sending? && s.log != [] && s.caster.to in s.conns && LocalOk(s.conns[s.caster.to])
    ensures var c := s.conns[s.caster.to];
            && (Enabled(s, Put) <==> PoolOpen(c) && |c.put| - |c.received| < 5)
            && (Enabled(s, Fail) <==> !PoolOpen(c))
  {
  }

  // ----- Who is a client -----

  ghost predicate Registered(actions: seq<Action>, id: Id) {
    Register(id) in actions
  }

  lemma {:induction false} ConnsAreRegistered(states: seq<State>, actions: seq<Action>, n: nat, id: Id)
    requires Run(states, actions) && n <= |actions|
    ensures id in states[n].conns <==> Registered(actions[..n], id)
  {
    if n > 0 {
      ConnsAreRegistered(states, actions, n - 1, id);
      assert actions[..n] == actions[..n - 1] + [actions[n - 1]];
    }
  }

  /**
   Unless one is being removed, the clients are those registered whose sends have not failed; the others
   have been told to close.
   */
  lemma ClientsExactly(states: seq<State>, actions: seq<Action>, id: Id)
    requires Run(states, actions) && !states[|actions|].caster.Unregistering?
    ensures var n := |actions|; var s := states[n];
            && (id in s.clients <==> Registered(actions, id) && FirstFail(states[..n], actions, id).None?)
            && (id in s.conns && id !in s.clients ==> s.conns[id].cancelled)
  {
    var n := |actions|;
    assert actions[..n] == actions;
    ReachableInv(states, actions, n);
    ConnsAreRegistered(states, actions, n, id);
    FailedIsFirstFail(states, actions, n, id);
    if id in states[n].conns {
      assert ConnOk(states[n], id);
    }
  }

  // ----- A closing connection -----

  function LocalSteps(c: Conn, ls: seq<Local>): Option<Conn>
    decreases |ls|
  {
    if ls == [] then Some(c)
    else if LocalEnabled(c, ls[0]) then LocalSteps(LocalStep(c, ls[0]), ls[1..])
    else None
  }

  lemma StepsOf(c: Conn, a: Local, ls: seq<Local>)
    requires LocalEnabled(c, a)
    ensures LocalSteps(c, [a] + ls) == LocalSteps(LocalStep(c, a), ls)
  {
    assert ([a] + ls)[1..] == ls;
  }

  /** A connection told to close, or one whose reader or writer has failed, closes pool and socket in three steps. */
  lemma ConnectionCloses(c: Conn) returns (first: Local)
    requires LocalOk(c) && c.serve.Running? && (c.cancelled || c.writer.Failing? || c.reader.ReadFailed?)
    ensures !Failure(first)
    ensures var closed := LocalSteps(c, [first, ClosePool, CloseConn]);
            closed.Some? && closed.value.connClosed && !PoolOpen(closed.value) && closed.value.put == c.put
  {
    first := if c.cancelled then SeeCancel else if c.writer.Failing? then TakeWriteError else TakeReadError;
    var c1 := LocalStep(c, first);
    var c2 := LocalStep(c1, ClosePool);
    StepsOf(c, first, [ClosePool, CloseConn]);
    StepsOf(c1, ClosePool, [CloseConn]);
    StepsOf(c2, CloseConn, []);
  }

  // ----- Every message can be delivered -----

  ghost predicate ReachedBy(actions: seq<Action>, s: State) {
    exists states :: Run(states, actions) && states[|actions|] == s
  }

  lemma ReachedMore(actions: seq<Action>, s: State, a: Action)
    requires ReachedBy(actions, s) && Enabled(s, a)
    ensures ReachedBy(actions + [a], Apply(s, a))
  {
    var states :| Run(states, actions) && states[|actions|] == s;
    assert Run(states + [Apply(s, a)], actions + [a]);
  }

  function Wrapped(ms: seq<Message>): seq<Item> {
    seq(|ms|, i requires 0 <= i < |ms| => Real(ms[i]))
  }

  /** One client; `log` has been taken from the queue, `put` put for the client, `written` on its socket. */
  function Serving(queue: seq<Message>, log: seq<Message>, caster: Caster, writer: Writer, pool: seq<Message>,
                   put: seq<Message>, received: seq<Item>, written: seq<Item>): State {
    State(log + queue, queue, log, caster, {0},
          map[0 := Conn(Running, writer, Reading, pool, false, true, false,
                        0, false, false, put, received, written, None)])
  }

  function Served(ms: seq<Message>): State {
    Serving([], ms, Idle, Receiving, [], ms, Wrapped(ms), Wrapped(ms))
  }

  lemma Queued(ms: seq<Message>, m: Message)
    ensures Enabled(Served(ms), Enqueue(m))
    ensures Apply(Served(ms), Enqueue(m)) == Serving([m], ms, Idle, Receiving, [], ms, Wrapped(ms), Wrapped(ms))
  {
    assert ms + [] == ms;
  }

  lemma Unqueued(ms: seq<Message>, m: Message)
    ensures var s := Serving([m], ms, Idle, Receiving, [], ms, Wrapped(ms), Wrapped(ms));
            Enabled(s, Dequeue)
            && Apply(s, Dequeue) == Serving([], ms + [m], Range({0}, {}), Receiving, [], ms, Wrapped(ms), Wrapped(ms))
  {
    assert (ms + [m]) + [] == ms + [m] && [m][1..] == [];
  }

  lemma Taken(actions: seq<Action>, ms: seq<Message>, m: Message)
    requires ReachedBy(actions, Served(ms))
    ensures ReachedBy(actions + [Enqueue(m), Dequeue, Pick(0)],
                      Serving([], ms + [m], Sending({0}, {0}, 0), Receiving, [], ms, Wrapped(ms), Wrapped(ms)))
  {
    var w := Wrapped(ms);
    Queued(ms, m);
    ReachedMore(actions, Served(ms), Enqueue(m));
    Unqueued(ms, m);
    ReachedMore(actions + [Enqueue(m)], Serving([m], ms, Idle, Receiving, [], ms, w, w), Dequeue);
    assert {} + {0} == {0};
    var s := Serving([], ms + [m], Range({0}, {}), Receiving, [], ms, w, w);
    ReachedMore(actions + [Enqueue(m)] + [Dequeue], s, Pick(0));
    assert actions + [Enqueue(m)] + [Dequeue] + [Pick(0)] == actions + [Enqueue(m), Dequeue, Pick(0)];
  }

  lemma Given(actions: seq<Action>, ms: seq<Message>, m: Message)
    requires ReachedBy(actions, Serving([], ms + [m], Sending({0}, {0}, 0), Receiving, [], ms,
                                        Wrapped(ms), Wrapped(ms)))
    ensures ReachedBy(actions + [Put, Finish],
                      Serving([], ms + [m], Idle, Receiving, [m], ms + [m], Wrapped(ms), Wrapped(ms)))
  {
    var w, none: seq<Message> := Wrapped(ms), [];
    var s0 := Serving([], ms + [m], Sending({0}, {0}, 0), Receiving, [], ms, w, w);
    var s1 := Serving([], ms + [m], Range({0}, {0}), Receiving, [m], ms + [m], w, w);
    assert none + [m] == [m];
    assert Apply(s0, Put).conns == s1.conns;
    assert Apply(s0, Put) == s1;
    ReachedMore(actions, s0, Put);
    ReachedMore(actions + [Put], s1, Finish);
    assert actions + [Put] + [Finish] == actions + [Put, Finish];
  }

  lemma Sent(actions: seq<Action>, ms: seq<Message>, m: Message)
    requires ReachedBy(actions, Serving([], ms + [m], Idle, Receiving, [m], ms + [m], Wrapped(ms), Wrapped(ms)))
    ensures ReachedBy(actions + [Client(0, Receive), Client(0, WriteOk)], Served(ms + [m]))
  {
    var w := Wrapped(ms);
    var s0 := Serving([], ms + [m], Idle, Receiving, [m], ms + [m], w, w);
    var s1 := Serving([], ms + [m], Idle, Writing(Real(m)), [], ms + [m], w + [Real(m)], w);
    assert Wrapped(ms + [m]) == w + [Real(m)] && [m][1..] == [];
    assert Apply(s0, Client(0, Receive)).conns == s1.conns;
    assert Apply(s1, Client(0, WriteOk)).conns == Served(ms + [m]).conns;
    ReachedMore(actions, s0, Client(0, Receive));
    ReachedMore(actions + [Client(0, Receive)], s1, Client(0, WriteOk));
    assert actions + [Client(0, Receive)] + [Client(0, WriteOk)] == actions + [Client(0, Receive), Client(0, WriteOk)];
  }

  lemma Connected()
    ensures ReachedBy([Register(0), Client(0, Start)], Served([]))
  {
    var s1 := Apply(INIT, Register(0));
    assert Run([INIT], []);
    ReachedMore([], INIT, Register(0));
    assert [] + [Register(0)] == [Register(0)];
    assert s1.conns == map[0 := Fresh(INIT)] && s1.clients == {0};
    assert Wrapped([]) == [];
    assert Apply(s1, Client(0, Start)).conns == Served([]).conns;
    ReachedMore([Register(0)], s1, Client(0, Start));
    assert [Register(0)] + [Client(0, Start)] == [Register(0), Client(0, Start)];
  }

  lemma {:induction false} ServedReached(ms: seq<Message>) returns (actions: seq<Action>)
    ensures ReachedBy(actions, Served(ms)) && Register(0) in actions
  {
    if ms == [] {
      Connected();
      actions := [Register(0), Client(0, Start)];
    } else {
      var earlier, m := ms[..|ms| - 1], ms[|ms| - 1];
      actions := ServedReached(earlier);
      Taken(actions, earlier, m);
      Given(actions + [Enqueue(m), Dequeue, Pick(0)], earlier, m);
      Sent(actions + [Enqueue(m), Dequeue, Pick(0)] + [Put, Finish], earlier, m);
      actions := actions + [Enqueue(m), Dequeue, Pick(0)] + [Put, Finish] + [Client(0, Receive), Client(0, WriteOk)];
      assert earlier + [m] == ms;
    }
  }

  /** Any messages can be sent: a run enqueues exactly those, and a client gets each of them, in order. */
  lemma EverythingDelivered(ms: seq<Message>)
    ensures exists states, actions ::
              Run(states, actions) && Register(0) in actions
              && Enqueued(actions) == ms && Writes(states[..|actions|], actions, 0) == Wrapped(ms)
  {
    var actions := ServedReached(ms);
    var states :| Run(states, actions) && states[|actions|] == Served(ms);
    assert actions[..|actions|] == actions;
    AcceptedIsEnqueued(states, actions, |actions|);
    HistoryIsRun(states, actions, |actions|, 0);
    assert ms + [] == ms;
  }

  // ----- Failures -----

  predicate HasFailed(actions: seq<Action>, id: Id) {
    Client(id, PingFails) in actions || Client(id, ReadFails) in actions || Client(id, WriteFails) in actions
  }

  /** The connection is on its way out, or about to be told to go. */
  predicate Leaving(c: Conn) {
    c.serve.Returning? || !PoolOpen(c) || c.writer.Failing? || c.reader.ReadFailed? || c.cancelled
  }

  ghost predicate LeavesAfter(s: State, id: Id, failed: bool) {
    id in s.conns && Leaving(s.conns[id]) ==> failed
  }

  lemma LocalLeaves(c: Conn, a: Local)
    requires LocalEnabled(c, a) && !Leaving(c) && !Failure(a)
    ensures !Leaving(LocalStep(c, a))
  {
  }

  lemma OthersLeave(s: State, a: Action, id: Id)
    requires Inv(s) && Enabled(s, a) && !(a.Client? && a.id == id) && id in Apply(s, a).conns
    ensures Leaving(Apply(s, a).conns[id]) ==> id in s.conns && Leaving(s.conns[id])
  {
    if id in s.conns {
      assert ConnOk(s, id);
    }
  }

  lemma LeavesMore(s: State, a: Action, id: Id, failed: bool)
    requires Inv(s) && Enabled(s, a) && LeavesAfter(s, id, failed)
    ensures LeavesAfter(Apply(s, a), id, failed || HasFailed([a], id))
  {
    if a.Client? && a.id == id {
      if !Leaving(s.conns[id]) && !Failure(a.local) {
        LocalLeaves(s.conns[id], a.local);
      }
    } else if id in Apply(s, a).conns {
      OthersLeave(s, a, id);
    }
  }

  lemma {:induction false} LeavingHasFailed(states: seq<State>, actions: seq<Action>, n: nat, id: Id)
    requires Run(states, actions) && n <= |actions|
    ensures LeavesAfter(states[n], id, HasFailed(actions[..n], id))
  {
    if n > 0 {
      var m := n - 1;
      LeavingHasFailed(states, actions, m, id);
      ReachableInv(states, actions, m);
      LeavesMore(states[m], actions[m], id, HasFailed(actions[..m], id));
      assert actions[..n] == actions[..m] + [actions[m]];
    }
  }

  /** No client loses its pool, its registration or its socket unless its own ping, read or write has failed. */
  lemma DroppedAfterFailure(states: seq<State>, actions: seq<Action>, id: Id)
    requires Run(states, actions) && id in states[|actions|].conns
    ensures var s := states[|actions|];
            Closed(actions, id) || id !in s.clients || s.conns[id].connClosed ==> HasFailed(actions, id)
  {
    var n := |actions|;
    ReachableInv(states, actions, n);
    assert ConnOk(states[n], id) && actions[..n] == actions;
    LeavingHasFailed(states, actions, n, id);
    RunShows(states, actions, n, id);
  }

  /** The socket of the one client is closed, and no step but `failure` failed. */
  ghost predicate DroppedBy(failure: Local) {
    exists actions: seq<Action>, s: State ::
      ReachedBy(actions, s) && 0 in s.conns && s.conns[0].connClosed
      && forall a :: a in actions && a.Client? && Failure(a.local) ==> a.local == failure
  }

  lemma {:induction false} ReachedLocal(actions: seq<Action>, s: State, ls: seq<Local>) returns (s': State)
    requires ReachedBy(actions, s) && 0 in s.conns && LocalSteps(s.conns[0], ls).Some?
    ensures ReachedBy(actions + Locals(ls), s') && 0 in s'.conns && s'.conns[0] == LocalSteps(s.conns[0], ls).value
    decreases |ls|
  {
    if ls == [] {
      s' := s;
      assert actions + [] == actions;
    } else {
      var a := Client(0, ls[0]);
      ReachedMore(actions, s, a);
      s' := ReachedLocal(actions + [a], Apply(s, a), ls[1..]);
      assert actions + Locals(ls) == actions + [a] + Locals(ls[1..]);
    }
  }

  function Locals(ls: seq<Local>): seq<Action> {
    if ls == [] then [] else [Client(0, ls[0])] + Locals(ls[1..])
  }

  lemma PingDrops(c: Conn)
    requires LocalOk(c) && c.serve.Running?
    ensures var end := LocalSteps(c, [PingFails, ClosePool, CloseConn]); end.Some? && end.value.connClosed
  {
    var c1 := LocalStep(c, PingFails);
    var c2 := LocalStep(c1, ClosePool);
    StepsOf(c, PingFails, [ClosePool, CloseConn]);
    StepsOf(c1, ClosePool, [CloseConn]);
    StepsOf(c2, CloseConn, []);
  }

  lemma ReadDrops(c: Conn)
    requires LocalOk(c) && c.serve.Running? && c.reader.Reading?
    ensures var end := LocalSteps(c, [ReadFails, TakeReadError, ClosePool, CloseConn]);
            end.Some? && end.value.connClosed
  {
    var c1 := LocalStep(c, ReadFails);
    var c2 := LocalStep(c1, TakeReadError);
    var c3 := LocalStep(c2, ClosePool);
    StepsOf(c, ReadFails, [TakeReadError, ClosePool, CloseConn]);
    StepsOf(c1, TakeReadError, [ClosePool, CloseConn]);
    StepsOf(c2, ClosePool, [CloseConn]);
    StepsOf(c3, CloseConn, []);
  }

  lemma WriteDrops(c: Conn)
    requires c.serve.Running? && c.writer.Receiving? && c.pool != []
    ensures var end := LocalSteps(c, [Receive, WriteFails, TakeWriteError, ClosePool, CloseConn]);
            end.Some? && end.value.connClosed
  {
    var c1 := LocalStep(c, Receive);
    var c2 := LocalStep(c1, WriteFails);
    var c3 := LocalStep(c2, TakeWriteError);
    var c4 := LocalStep(c3, ClosePool);
    StepsOf(c, Receive, [WriteFails, TakeWriteError, ClosePool, CloseConn]);
    StepsOf(c1, WriteFails, [TakeWriteError, ClosePool, CloseConn]);
    StepsOf(c2, TakeWriteError, [ClosePool, CloseConn]);
    StepsOf(c3, ClosePool, [CloseConn]);
    StepsOf(c4, CloseConn, []);
  }

  lemma {:induction false} LocalsAre(ls: seq<Local>)
    ensures forall a :: a in Locals(ls) ==> a.Client? && a.local in ls
  {
    if ls != [] {
      LocalsAre(ls[1..]);
    }
  }

  predicate NothingFails(actions: seq<Action>) {
    forall a :: a in actions && a.Client? ==> !Failure(a.local)
  }

  lemma Drops(actions: seq<Action>, s: State, ls: seq<Local>, failure: Local)
    requires ReachedBy(actions, s) && 0 in s.conns && NothingFails(actions)
    requires LocalSteps(s.conns[0], ls).Some? && LocalSteps(s.conns[0], ls).value.connClosed
    requires forall l :: l in ls && Failure(l) ==> l == failure
    ensures DroppedBy(failure)
  {
    var s' := ReachedLocal(actions, s, ls);
    LocalsAre(ls);
    assert ReachedBy(actions + Locals(ls), s');
  }

  lemma WaitingToWrite() returns (actions: seq<Action>, s: State)
    ensures ReachedBy(actions, s) && NothingFails(actions) && 0 in s.conns
    ensures s.conns[0].serve.Running? && s.conns[0].writer.Receiving? && s.conns[0].pool != []
  {
    Connected();
    var start, none: seq<Message> := [Register(0), Client(0, Start)], [];
    Taken(start, none, "");
    Given(start + [Enqueue(""), Dequeue, Pick(0)], none, "");
    actions := start + [Enqueue(""), Dequeue, Pick(0)] + [Put, Finish];
    s := Serving([], none + [""], Idle, Receiving, [""], none + [""], Wrapped(none), Wrapped(none));
  }

  lemma ServingDrops(actions: seq<Action>, s: State)
    requires ReachedBy(actions, s) && 0 in s.conns && NothingFails(actions)
    requires LocalOk(s.conns[0]) && s.conns[0].serve.Running? && s.conns[0].reader.Reading?
    ensures DroppedBy(PingFails) && DroppedBy(ReadFails)
  {
    PingDrops(s.conns[0]);
    Drops(actions, s, [PingFails, ClosePool, CloseConn], PingFails);
    ReadDrops(s.conns[0]);
    Drops(actions, s, [ReadFails, TakeReadError, ClosePool, CloseConn], ReadFails);
  }

  lemma WaitingDrops(actions: seq<Action>, s: State)
    requires ReachedBy(actions, s) && 0 in s.conns && NothingFails(actions)
    requires s.conns[0].serve.Running? && s.conns[0].writer.Receiving? && s.conns[0].pool != []
    ensures DroppedBy(WriteFails)
  {
    WriteDrops(s.conns[0]);
    Drops(actions, s, [Receive, WriteFails, TakeWriteError, ClosePool, CloseConn], WriteFails);
  }

  /** Each of the three failures alone is enough to have a client dropped. */
  lemma AnyFailureDrops()
    ensures DroppedBy(PingFails) && DroppedBy(ReadFails) && DroppedBy(WriteFails)
  {
    Connected();
    ServingDrops([Register(0), Client(0, Start)], Served([]));
    var actions, waiting := WaitingToWrite();
    WaitingDrops(actions, waiting);
  }

  // ----- A client that registers while a message is in hand -----

  function InHand(m: Message): State {
    State([m], [], [m], Range({}, {}), {0}, map[0 := Conn(NotStarted, NoWriter, NoReader, [], false, false, false,
                                                            1, true, false, [], [], [], None)])
  }

  lemma RegisteredInHand(m: Message)
    ensures ReachedBy([Enqueue(m), Dequeue, Register(0)], InHand(m))
  {
    assert Run([INIT], []);
    ReachedMore([], INIT, Enqueue(m));
    var s1 := Apply(INIT, Enqueue(m));
    assert [] + [Enqueue(m)] == [Enqueue(m)];
    ReachedMore([Enqueue(m)], s1, Dequeue);
    var s2 := Apply(s1, Dequeue);
    assert [Enqueue(m)] + [Dequeue] == [Enqueue(m), Dequeue];
    ReachedMore([Enqueue(m), Dequeue], s2, Register(0));
    assert [Enqueue(m), Dequeue] + [Register(0)] == [Enqueue(m), Dequeue, Register(0)];
    assert [m][1..] == [] && {} + {0} == {0};
    assert Apply(s2, Register(0)).conns == InHand(m).conns;
  }

  /** It may still get that message, or miss it. */
  lemma BothStarts(m: Message)
    ensures exists s :: ReachedBy([Enqueue(m), Dequeue, Register(0), Pick(0), Put], s) && s.caster.Range?
                        && 0 in s.conns && s.conns[0].put == [m]
    ensures exists s :: ReachedBy([Enqueue(m), Dequeue, Register(0), Finish], s) && s.caster.Idle?
                        && 0 in s.conns && s.conns[0].put == []
  {
    RegisteredInHand(m);
    var actions, s := [Enqueue(m), Dequeue, Register(0)], InHand(m);
    ReachedMore(actions, s, Finish);
    assert actions + [Finish] == [Enqueue(m), Dequeue, Register(0), Finish];
    ReachedMore(actions, s, Pick(0));
    var s1 := Apply(s, Pick(0));
    ReachedMore(actions + [Pick(0)], s1, Put);
    assert actions + [Pick(0)] + [Put] == [Enqueue(m), Dequeue, Register(0), Pick(0), Put];
    assert Apply(s1, Put).conns[0].put == [m];
  }
}
