/**
 The broadcast of redirect/websocket_server.go and redirect/websocket_conn.go as a state machine.
 The serve loop, the broadcaster and, for each connection, its Serve loop, its reader and its writer
 take atomic steps in any order; channels are buffered as in the source, or rendezvous. The model
 runs with a positive heartbeat and stops at the cancellation of the server's context.
 */
module Broadcast {
  import opened Common

  type Message = string
  type Id = nat

  const QUEUE := 10
  const POOL := 5

  /** What a writer receives: a message, or the zero value of a closed and drained pool. */
  datatype Item = Real(m: Message) | Zero

  datatype Serve = NotStarted | Running | Returning | PoolClosed | Done
  datatype Writer = NoWriter | Receiving | Writing(item: Item) | Failing | Gone
  datatype Reader = NoReader | Reading | ReadFailed | ReaderGone

  /**
   A connection. The last fields are its history: the length of the dequeue log and whether a message
   was in hand when it registered, whether that very message was offered to it, what was put in its
   pool, received by its writer and written to its socket, and the log position of its failed send.
   */
  datatype Conn = Conn(serve: Serve, writer: Writer, reader: Reader, pool: seq<Message>,
                       connClosed: bool, cancelSet: bool, cancelled: bool,
                       joined: nat, inHand: bool, early: bool, put: seq<Message>,
                       received: seq<Item>, written: seq<Item>, failed: Option<nat>)

  /** `start` are the entries a range must still visit if they stay, `done` those it has visited. */
  datatype Caster =
    | Idle
    | Range(start: set<Id>, done: set<Id>)
    | Sending(start: set<Id>, done: set<Id>, to: Id)
    | Unregistering(start: set<Id>, done: set<Id>, to: Id)

  datatype State = State(accepted: seq<Message>, queue: seq<Message>, log: seq<Message>, caster: Caster,
                         clients: set<Id>, conns: map<Id, Conn>)

  const INIT := State([], [], [], Idle, {}, map[])

  // ----- Steps of one connection -----

  datatype Local = Start | SeeCancel | TakeWriteError | TakeReadError | PingFails | ReadFails
                 | ClosePool | CloseConn | Receive | WriteOk | WriteFails

  predicate PoolOpen(c: Conn) {
    c.serve.NotStarted? || c.serve.Running? || c.serve.Returning?
  }

  predicate LocalEnabled(c: Conn, a: Local) {
    match a
    case Start => c.serve.NotStarted?
    case SeeCancel => c.serve.Running? && c.cancelled
    case TakeWriteError => c.serve.Running? && c.writer.Failing?
    case TakeReadError => c.serve.Running? && c.reader.ReadFailed?
    case PingFails => c.serve.Running?
    case ReadFails => c.reader.Reading?
    case ClosePool => c.serve.Returning?
    case CloseConn => c.serve.PoolClosed?
    case Receive => c.writer.Receiving? && (c.pool != [] || !PoolOpen(c))
    case WriteOk => c.writer.Writing? && !c.connClosed
    case WriteFails => c.writer.Writing?
  }

  function LocalStep(c: Conn, a: Local): Conn
    requires LocalEnabled(c, a)
  {
    match a
    case Start => c.(serve := Running, writer := Receiving, reader := Reading, cancelSet := true)
    case SeeCancel => c.(serve := Returning)
    case TakeWriteError => c.(serve := Returning, writer := Gone)
    case TakeReadError => c.(serve := Returning, reader := ReaderGone)
    case PingFails => c.(serve := Returning)
    case ReadFails => c.(reader := ReadFailed)
    case ClosePool => c.(serve := PoolClosed)
    case CloseConn => c.(serve := Done, connClosed := true)
    case Receive =>
      if c.pool != [] then
        var item := Real(c.pool[0]);
        c.(writer := Writing(item), received := c.received + [item], pool := c.pool[1..])
      else c.(writer := Writing(Zero), received := c.received + [Zero])
    case WriteOk => c.(writer := Receiving, written := c.written + [c.writer.item])
    case WriteFails => c.(writer := Failing)
  }

  // ----- Steps of the system -----

  datatype Action = Enqueue(m: Message) | Register(id: Id) | Dequeue | Pick(id: Id) | Put | Fail | Finish
                  | Unregister | Client(id: Id, local: Local)

  function Fresh(s: State): Conn {
    Conn(NotStarted, NoWriter, NoReader, [], false, false, false, |s.log|, !s.caster.Idle?, false, [], [], [], None)
  }

  /** Close of a connection: cancel its context if Serve has set one, else close the socket. */
  function CloseOf(c: Conn): Conn {
    if c.cancelSet then c.(cancelled := true) else c.(connClosed := true)
  }

  /** The current message goes into the pool. */
  function Offer(c: Conn, log: seq<Message>): Conn
    requires log != []
  {
    var m := log[|log| - 1];
    c.(pool := c.pool + [m], put := c.put + [m], early := c.early || c.joined == |log|)
  }

  /** Sending on a closed pool panics, which the send turns into an error. */
  function Refuse(c: Conn, log: seq<Message>): Conn
    requires log != []
  {
    c.(failed := Some(|log| - 1), early := c.early || c.joined == |log|)
  }

  predicate Enabled(s: State, a: Action) {
    match a
    case Enqueue(m) => |s.queue| < QUEUE
    case Register(id) => id !in s.conns
    case Dequeue => s.caster.Idle? && s.queue != []
    case Pick(id) => s.caster.Range? && id in s.clients && id !in s.caster.done && id in s.conns
    case Put =>
      s.caster.Sending? && s.log != [] && s.caster.to in s.conns
      && PoolOpen(s.conns[s.caster.to]) && |s.conns[s.caster.to].pool| < POOL
    case Fail => s.caster.Sending? && s.log != [] && s.caster.to in s.conns && !PoolOpen(s.conns[s.caster.to])
    case Finish => s.caster.Range? && s.caster.start * s.clients <= s.caster.done
    case Unregister => s.caster.Unregistering? && s.caster.to in s.conns
    case Client(id, local) => id in s.conns && LocalEnabled(s.conns[id], local)
  }

  function Apply(s: State, a: Action): State
    requires Enabled(s, a)
  {
    match a
    case Enqueue(m) => s.(accepted := s.accepted + [m], queue := s.queue + [m])
    case Register(id) => s.(clients := s.clients + {id}, conns := s.conns[id := Fresh(s)])
    case Dequeue => s.(queue := s.queue[1..], log := s.log + [s.queue[0]], caster := Range(s.clients, {}))
    case Pick(id) => s.(caster := Sending(s.caster.start, s.caster.done + {id}, id))
    case Put =>
      s.(caster := Range(s.caster.start, s.caster.done),
         conns := s.conns[s.caster.to := Offer(s.conns[s.caster.to], s.log)])
    case Fail =>
      s.(caster := Unregistering(s.caster.start, s.caster.done, s.caster.to),
         conns := s.conns[s.caster.to := Refuse(s.conns[s.caster.to], s.log)])
    case Finish => s.(caster := Idle)
    case Unregister =>
      var id := s.caster.to;
      s.(caster := Range(s.caster.start, s.caster.done), clients := s.clients - {id},
         conns := s.conns[id := CloseOf(s.conns[id])])
    case Client(id, local) => s.(conns := s.conns[id := LocalStep(s.conns[id], local)])
  }

  ghost predicate Run(states: seq<State>, actions: seq<Action>) {
    && |states| == |actions| + 1 && states[0] == INIT
    && forall i :: 0 <= i < |actions| ==>
         Enabled(states[i], actions[i]) && states[i + 1] == Apply(states[i], actions[i])
  }

  // ----- Invariant -----

  function Expected(c: Conn, i: nat): Item {
    if i < |c.put| then Real(c.put[i]) else Zero
  }

  /** The writer has received the pool's messages in order, zero values only once all are received. */
  ghost predicate ReceivedInOrder(c: Conn) {
    && (forall i :: 0 <= i < |c.received| ==> c.received[i] == Expected(c, i))
    && (if |c.received| <= |c.put| then c.pool == c.put[|c.received|..] else c.pool == [] && !PoolOpen(c))
  }

  /** The socket has got all but the item in the writer's hands or lost to a failed write. */
  ghost predicate WrittenInOrder(c: Conn) {
    match c.writer
    case NoWriter => c.received == [] && c.written == []
    case Receiving => c.written == c.received
    case Writing(item) => c.received == c.written + [item]
    case _ => |c.received| == |c.written| + 1 && c.written == c.received[..|c.written|]
  }

  ghost predicate LocalOk(c: Conn) {
    && |c.pool| <= POOL
    && (c.serve.NotStarted? <==> c.writer.NoWriter?) && (c.serve.NotStarted? <==> c.reader.NoReader?)
    && c.cancelSet == !c.serve.NotStarted? && c.connClosed == c.serve.Done?
    && (c.writer.Gone? || c.reader.ReaderGone? ==> !c.serve.Running?)
    && ReceivedInOrder(c) && WrittenInOrder(c)
  }

  /** Where in the log the connection's messages start. */
  function First(c: Conn): int {
    if c.early then c.joined - 1 else c.joined
  }

  /** The current message, if any, has been offered to `id`. */
  predicate Offered(caster: Caster, id: Id) {
    caster.Idle? || (id in caster.done && !(caster.Sending? && caster.to == id))
  }

  /** The messages put so far are one contiguous block of the log, from `First` on. */
  ghost predicate Block(log: seq<Message>, c: Conn) {
    && c.joined <= |log| && (c.early ==> c.inHand && c.joined > 0)
    && First(c) + |c.put| <= |log|
    && c.put == log[First(c)..First(c) + |c.put|]
  }

  /** How far the block reaches, and when the connection leaves the clients. */
  ghost predicate Reach(log: seq<Message>, caster: Caster, registered: bool, id: Id, c: Conn) {
    && (c.failed.Some? ==>
          && c.failed.value == First(c) + |c.put| < |log| && !PoolOpen(c)
          && (registered ==> caster.Unregistering? && caster.to == id))
    && (!registered ==> c.cancelled)
    && (c.failed.None? ==>
          && registered && !c.cancelled
          && First(c) + |c.put| == if Offered(caster, id) || c.joined == |log| then |log| else |log| - 1)
    && (!Offered(caster, id) && c.joined == |log| ==> c.put == [] && !c.early)
    && (!caster.Idle? ==> (c.joined == |log| ==> c.inHand) && (registered && c.joined < |log| ==> id in caster.start))
  }

  ghost predicate Placed(log: seq<Message>, caster: Caster, registered: bool, id: Id, c: Conn) {
    Block(log, c) && Reach(log, caster, registered, id, c)
  }

  ghost predicate ConnOk(s: State, id: Id)
    requires id in s.conns
  {
    LocalOk(s.conns[id]) && Placed(s.log, s.caster, id in s.clients, id, s.conns[id])
  }

  ghost predicate CasterOk(s: State) {
    && (!s.caster.Idle? ==> s.log != [] && s.caster.done <= s.conns.Keys)
    && (s.caster.Sending? || s.caster.Unregistering? ==>
          s.caster.to in s.clients && s.caster.to in s.caster.done && s.caster.to in s.conns)
    && (s.caster.Sending? ==> s.conns[s.caster.to].failed.None?)
    && (s.caster.Unregistering? ==> s.conns[s.caster.to].failed.Some?)
  }

  ghost predicate Inv(s: State) {
    && s.accepted == s.log + s.queue && |s.queue| <= QUEUE && s.clients <= s.conns.Keys
    && CasterOk(s)
    && forall id :: id in s.conns ==> ConnOk(s, id)
  }

  /** The parts of a connection its own steps leave alone; a closed pool stays closed. */
  predicate SamePlace(c: Conn, c': Conn) {
    && c'.joined == c.joined && c'.inHand == c.inHand && c'.early == c.early && c'.put == c.put
    && c'.failed == c.failed && c'.cancelled == c.cancelled && (!PoolOpen(c) ==> !PoolOpen(c'))
  }

  lemma LocalKeepsOk(c: Conn, a: Local)
    requires LocalOk(c) && LocalEnabled(c, a)
    ensures LocalOk(LocalStep(c, a)) && SamePlace(c, LocalStep(c, a))
  {
  }

  lemma SamePlacePlaced(log: seq<Message>, caster: Caster, registered: bool, id: Id, c: Conn, c': Conn)
    requires Placed(log, caster, registered, id, c) && SamePlace(c, c')
    ensures Placed(log, caster, registered, id, c')
  {
  }

  lemma ReplaceKeepsInv(s: State, id: Id, c': Conn)
    requires Inv(s) && id in s.conns && SamePlace(s.conns[id], c')
    requires LocalOk(c') && Placed(s.log, s.caster, id in s.clients, id, c')
    ensures Inv(s.(conns := s.conns[id := c']))
  {
    var s' := s.(conns := s.conns[id := c']);
    forall k | k in s'.conns ensures ConnOk(s', k) {
      if k != id {
        assert ConnOk(s, k) && s'.conns[k] == s.conns[k];
      }
    }
  }

  lemma OfferPlaces(log: seq<Message>, start: set<Id>, done: set<Id>, id: Id, c: Conn)
    requires Placed(log, Sending(start, done, id), true, id, c) && c.failed.None? && log != [] && id in done
    ensures Placed(log, Range(start, done), true, id, Offer(c, log))
  {
    var c', n := Offer(c, log), |log|;
    if c.joined == n {
      assert c'.put == [log[n - 1]] == log[n - 1..n];
    } else {
      assert log[First(c)..n] == log[First(c)..n - 1] + [log[n - 1]];
    }
  }

  lemma OfferLocalOk(c: Conn, log: seq<Message>)
    requires LocalOk(c) && PoolOpen(c) && |c.pool| < POOL && log != []
    ensures LocalOk(Offer(c, log))
  {
  }

  lemma RefusePlaces(log: seq<Message>, start: set<Id>, done: set<Id>, id: Id, c: Conn)
    requires Placed(log, Sending(start, done, id), true, id, c) && c.failed.None?
    requires !PoolOpen(c) && log != [] && id in done
    ensures Placed(log, Unregistering(start, done, id), true, id, Refuse(c, log))
  {
    assert Refuse(c, log).put == [] ==> log[First(Refuse(c, log))..First(Refuse(c, log))] == [];
  }

  lemma OtherPlaced(log: seq<Message>, caster: Caster, caster': Caster, registered: bool, id: Id, c: Conn)
    requires Placed(log, caster, registered, id, c) && !caster.Idle? && !caster'.Idle?
    requires caster'.start == caster.start && caster'.done == caster.done
    requires caster.Sending? || caster.Unregistering? ==> caster.to != id
    requires caster'.Sending? || caster'.Unregistering? ==> caster'.to != id
    ensures Placed(log, caster', registered, id, c)
  {
  }

  lemma SendKeepsInv(s: State, a: Action)
    requires Inv(s) && (a.Put? || a.Fail?) && Enabled(s, a)
    ensures Inv(Apply(s, a))
  {
    var s', to := Apply(s, a), s.caster.to;
    assert ConnOk(s, to);
    if a.Put? {
      OfferPlaces(s.log, s.caster.start, s.caster.done, to, s.conns[to]);
      OfferLocalOk(s.conns[to], s.log);
    } else {
      RefusePlaces(s.log, s.caster.start, s.caster.done, to, s.conns[to]);
    }
    forall k | k in s'.conns ensures ConnOk(s', k) {
      assert ConnOk(s, k);
      if k != to {
        OtherPlaced(s.log, s.caster, s'.caster, k in s.clients, k, s.conns[k]);
      }
    }
  }

  lemma CloseKeepsOk(log: seq<Message>, start: set<Id>, done: set<Id>, id: Id, c: Conn)
    requires LocalOk(c) && c.failed.Some? && id in done && log != []
    requires Placed(log, Unregistering(start, done, id), true, id, c)
    ensures LocalOk(CloseOf(c)) && Placed(log, Range(start, done), false, id, CloseOf(c))
  {
  }

  lemma UnregisterKeepsInv(s: State)
    requires Inv(s) && Enabled(s, Unregister)
    ensures Inv(Apply(s, Unregister))
  {
    var s', to := Apply(s, Unregister), s.caster.to;
    assert ConnOk(s, to);
    CloseKeepsOk(s.log, s.caster.start, s.caster.done, to, s.conns[to]);
    forall k | k in s'.conns ensures ConnOk(s', k) {
      if k != to {
        assert ConnOk(s, k);
        OtherPlaced(s.log, s.caster, s'.caster, k in s.clients, k, s.conns[k]);
      }
    }
  }

  lemma PickKeepsInv(s: State, id: Id)
    requires Inv(s) && Enabled(s, Pick(id))
    ensures Inv(Apply(s, Pick(id)))
  {
    var s' := Apply(s, Pick(id));
    forall k | k in s'.conns ensures ConnOk(s', k) {
      assert ConnOk(s, k);
    }
  }

  lemma FinishKeepsInv(s: State)
    requires Inv(s) && Enabled(s, Finish)
    ensures Inv(Apply(s, Finish))
  {
    var s' := Apply(s, Finish);
    forall k | k in s'.conns ensures ConnOk(s', k) {
      assert ConnOk(s, k);
      if k in s.caster.start && k in s.clients {
        assert k in s.caster.start * s.clients;
      }
    }
  }

  lemma DequeuePlaces(log: seq<Message>, m: Message, clients: set<Id>, id: Id, c: Conn)
    requires Placed(log, Idle, id in clients, id, c)
    ensures Placed(log + [m], Range(clients, {}), id in clients, id, c)
  {
    var n := First(c);
    assert (log + [m])[n..n + |c.put|] == log[n..n + |c.put|];
  }

  lemma DequeueKeepsInv(s: State)
    requires Inv(s) && Enabled(s, Dequeue)
    ensures Inv(Apply(s, Dequeue))
  {
    var s' := Apply(s, Dequeue);
    forall k | k in s'.conns ensures ConnOk(s', k) {
      assert ConnOk(s, k);
      DequeuePlaces(s.log, s.queue[0], s.clients, k, s.conns[k]);
    }
  }

  lemma ArrivalKeepsInv(s: State, a: Action)
    requires Inv(s) && (a.Enqueue? || a.Register?) && Enabled(s, a)
    ensures Inv(Apply(s, a))
  {
    var s' := Apply(s, a);
    forall k | k in s'.conns ensures ConnOk(s', k) {
      if k in s.conns {
        assert ConnOk(s, k);
      }
    }
  }

  lemma StepKeepsInv(s: State, a: Action)
    requires Inv(s) && Enabled(s, a)
    ensures Inv(Apply(s, a))
  {
    match a
    case Enqueue(_) => ArrivalKeepsInv(s, a);
    case Register(_) => ArrivalKeepsInv(s, a);
    case Dequeue => DequeueKeepsInv(s);
    case Pick(id) => PickKeepsInv(s, id);
    case Put => SendKeepsInv(s, a);
    case Fail => SendKeepsInv(s, a);
    case Finish => FinishKeepsInv(s);
    case Unregister => UnregisterKeepsInv(s);
    case Client(id, local) =>
      assert ConnOk(s, id);
      LocalKeepsOk(s.conns[id], local);
      SamePlacePlaced(s.log, s.caster, id in s.clients, id, s.conns[id], LocalStep(s.conns[id], local));
      ReplaceKeepsInv(s, id, LocalStep(s.conns[id], local));
  }

  lemma {:induction false} ReachableInv(states: seq<State>, actions: seq<Action>, i: nat)
    requires Run(states, actions) && i <= |actions|
    ensures Inv(states[i])
  {
    if i > 0 {
      ReachableInv(states, actions, i - 1);
      StepKeepsInv(states[i - 1], actions[i - 1]);
    }
  }

  // ----- Order -----

  /** What a run enqueues, and what it puts in the pool of `id`, read off its actions. */
  function Enqueued(actions: seq<Action>): seq<Message> {
    if actions == [] then [] else
      var a := actions[|actions| - 1];
      Enqueued(actions[..|actions| - 1]) + if a.Enqueue? then [a.m] else []
  }

  function PutFor(s: State, a: Action, id: Id): seq<Message> {
    if a.Put? && s.caster.Sending? && s.caster.to == id && s.log != [] then [s.log[|s.log| - 1]] else []
  }

  function Puts(states: seq<State>, actions: seq<Action>, id: Id): seq<Message>
    requires |states| >= |actions|
  {
    if actions == [] then [] else
      var n := |actions| - 1;
      Puts(states[..n], actions[..n], id) + PutFor(states[n], actions[n], id)
  }

  function WrittenBy(s: State, a: Action, id: Id): seq<Item> {
    if a == Client(id, WriteOk) && id in s.conns && s.conns[id].writer.Writing? then [s.conns[id].writer.item] else []
  }

  function Writes(states: seq<State>, actions: seq<Action>, id: Id): seq<Item>
    requires |states| >= |actions|
  {
    if actions == [] then [] else
      var n := |actions| - 1;
      Writes(states[..n], actions[..n], id) + WrittenBy(states[n], actions[n], id)
  }

  lemma LocalHistory(c: Conn, a: Local)
    requires LocalEnabled(c, a)
    ensures var c' := LocalStep(c, a);
            && c'.put == c.put && c'.joined == c.joined && c'.inHand == c.inHand
            && c'.written == if a.WriteOk? then c.written + [c.writer.item] else c.written
  {
    match a
    case WriteOk =>
    case _ =>
  }

  /** `c'` is `c` after more puts and writes. */
  ghost predicate Later(c: Conn, c': Conn, puts: seq<Message>, writes: seq<Item>) {
    && c'.joined == c.joined && c'.inHand == c.inHand
    && c'.put == c.put + puts && c'.written == c.written + writes
  }

  lemma KnownHistory(s: State, a: Action, id: Id)
    requires Enabled(s, a) && id in s.conns
    ensures id in Apply(s, a).conns && Later(s.conns[id], Apply(s, a).conns[id], PutFor(s, a, id), WrittenBy(s, a, id))
  {
    var c := s.conns[id];
    assert c.put + [] == c.put && c.written + [] == c.written;
    match a
    case Client(k, local) =>
      if k == id {
        LocalHistory(c, local);
      }
    case _ =>
  }

  lemma NewHistory(s: State, a: Action, id: Id)
    requires Enabled(s, a) && id !in s.conns && s.clients <= s.conns.Keys
    ensures PutFor(s, a, id) == [] && WrittenBy(s, a, id) == []
    ensures id in Apply(s, a).conns ==> a == Register(id) && Apply(s, a).conns[id] == Fresh(s)
  {
  }

  lemma {:induction false} AcceptedIsEnqueued(states: seq<State>, actions: seq<Action>, n: nat)
    requires Run(states, actions) && n <= |actions|
    ensures states[n].accepted == Enqueued(actions[..n])
  {
    if n > 0 {
      AcceptedIsEnqueued(states, actions, n - 1);
      assert actions[..n][..n - 1] == actions[..n - 1];
    }
  }

  /** The history `id` carries in `s` is `puts` and `writes`; an unknown connection has none. */
  ghost predicate Carries(s: State, id: Id, puts: seq<Message>, writes: seq<Item>) {
    if id in s.conns then s.conns[id].put == puts && s.conns[id].written == writes else puts == [] && writes == []
  }

  lemma CarriesMore(s: State, a: Action, id: Id, puts: seq<Message>, writes: seq<Item>)
    requires Inv(s) && Enabled(s, a) && Carries(s, id, puts, writes)
    ensures Carries(Apply(s, a), id, puts + PutFor(s, a, id), writes + WrittenBy(s, a, id))
  {
    if id in s.conns {
      KnownHistory(s, a, id);
    } else {
      NewHistory(s, a, id);
    }
  }

  /** The history a connection carries is what the run did to it. */
  lemma {:induction false} HistoryIsRun(states: seq<State>, actions: seq<Action>, n: nat, id: Id)
    requires Run(states, actions) && n <= |actions|
    ensures Carries(states[n], id, Puts(states[..n], actions[..n], id), Writes(states[..n], actions[..n], id))
  {
    if n > 0 {
      var m := n - 1;
      HistoryIsRun(states, actions, m, id);
      ReachableInv(states, actions, m);
      assert states[..n][..m] == states[..m] && actions[..n][..m] == actions[..m];
      CarriesMore(states[m], actions[m], id,
                  Puts(states[..m], actions[..m], id), Writes(states[..m], actions[..m], id));
    }
  }

  /** The log position of the first message whose send to `id` failed. */
  function FirstFail(states: seq<State>, actions: seq<Action>, id: Id): Option<nat>
    requires |states| >= |actions|
  {
    if actions == [] then None else
      var n := |actions| - 1;
      var earlier := FirstFail(states[..n], actions[..n], id);
      if earlier.None? && FailsFor(states[n], actions[n], id) then Some(|states[n].log| - 1) else earlier
  }

  predicate FailsFor(s: State, a: Action, id: Id) {
    a.Fail? && s.caster.Sending? && s.caster.to == id && s.log != []
  }

  ghost predicate FailedAs(s: State, id: Id, failed: Option<nat>) {
    if id in s.conns then s.conns[id].failed == failed else failed.None?
  }

  lemma FailedStep(s: State, a: Action, id: Id, failed: Option<nat>)
    requires Inv(s) && Enabled(s, a) && FailedAs(s, id, failed)
    ensures FailsFor(s, a, id) ==> failed.None?
    ensures FailedAs(Apply(s, a), id, if FailsFor(s, a, id) then Some(|s.log| - 1) else failed)
  {
    match a
    case Client(k, local) =>
      if k == id {
        assert ConnOk(s, k);
        LocalKeepsOk(s.conns[k], local);
      }
    case _ =>
  }

  lemma FirstFailMore(states: seq<State>, actions: seq<Action>, m: nat, id: Id)
    requires m < |actions| <= |states|
    ensures var earlier := FirstFail(states[..m], actions[..m], id);
            FirstFail(states[..m + 1], actions[..m + 1], id)
            == if earlier.None? && FailsFor(states[m], actions[m], id) then Some(|states[m].log| - 1) else earlier
  {
    assert states[..m + 1][..m] == states[..m] && actions[..m + 1][..m] == actions[..m];
  }

  lemma {:induction false} FailedIsFirstFail(states: seq<State>, actions: seq<Action>, n: nat, id: Id)
    requires Run(states, actions) && n <= |actions|
    ensures FailedAs(states[n], id, FirstFail(states[..n], actions[..n], id))
  {
    if n > 0 {
      var m := n - 1;
      FailedIsFirstFail(states, actions, m, id);
      ReachableInv(states, actions, m);
      FirstFailMore(states, actions, m, id);
      FailedStep(states[m], actions[m], id, FirstFail(states[..m], actions[..m], id));
    }
  }

  /** A connection keeps the log length and the hand it found when it registered. */
  lemma {:induction false} RegisteredAt(states: seq<State>, actions: seq<Action>, i: nat, n: nat)
    requires Run(states, actions) && i < n <= |actions| && actions[i].Register?
    ensures var id := actions[i].id;
            id in states[n].conns && states[n].conns[id].joined == |states[i].log|
            && states[n].conns[id].inHand == !states[i].caster.Idle?
    decreases n
  {
    if n > i + 1 {
      RegisteredAt(states, actions, i, n - 1);
      KnownHistory(states[n - 1], actions[n - 1], actions[i].id);
    }
  }

  /** `puts`, for a client registered in `start`, is the block of the log of `s` from `a` to its first failed send. */
  ghost predicate BlockFrom(start: State, s: State, puts: seq<Message>, failed: Option<nat>, a: nat) {
    && (a == |start.log| || (a + 1 == |start.log| && !start.caster.Idle?))
    && a + |puts| <= |s.log| && puts == s.log[a..a + |puts|]
    && (failed.Some? ==> failed.value == a + |puts|)
    && (failed.None? && s.caster.Idle? ==> a + |puts| == |s.log|)
  }

  /**
   In every interleaving, the messages put in a client's pool are one contiguous, in-order block of
   the dequeue log, itself a prefix of what was enqueued. The block starts at the next message when
   the client registers, or at the one then in hand; it ends where the first send fails, and while
   the broadcaster is idle a client that has not failed has received everything up to now.
   */
  lemma BroadcastOrder(states: seq<State>, actions: seq<Action>, i: nat)
    requires Run(states, actions) && i < |actions| && actions[i].Register?
    ensures var n, id := |actions|, actions[i].id;
            && states[n].log + states[n].queue == Enqueued(actions)
            && exists a :: BlockFrom(states[i], states[n], Puts(states[..n], actions, id),
                                     FirstFail(states[..n], actions, id), a)
  {
    var n, id := |actions|, actions[i].id;
    var s := states[n];
    RegisteredAt(states, actions, i, n);
    ReachableInv(states, actions, n);
    HistoryIsRun(states, actions, n, id);
    FailedIsFirstFail(states, actions, n, id);
    AcceptedIsEnqueued(states, actions, n);
    assert actions[..n] == actions;
    PlacedIsBlock(states[i], s, id);
  }

  lemma PlacedIsBlock(start: State, s: State, id: Id)
    requires id in s.conns && ConnOk(s, id)
    requires s.conns[id].joined == |start.log| && s.conns[id].inHand == !start.caster.Idle?
    ensures exists a :: BlockFrom(start, s, s.conns[id].put, s.conns[id].failed, a)
  {
    assert BlockFrom(start, s, s.conns[id].put, s.conns[id].failed, First(s.conns[id]));
  }

  /** What reaches the socket is a prefix of what was put, followed at most by zero values. */
  lemma SocketOrder(states: seq<State>, actions: seq<Action>, id: Id)
    requires Run(states, actions)
    ensures var n := |actions|;
            var puts, writes := Puts(states[..n], actions, id), Writes(states[..n], actions, id);
            forall k :: 0 <= k < |writes| ==> writes[k] == if k < |puts| then Real(puts[k]) else Zero
  {
    var n := |actions|;
    HistoryIsRun(states, actions, n, id);
    ReachableInv(states, actions, n);
    assert actions[..n] == actions;
    if id in states[n].conns {
      assert ConnOk(states[n], id);
    }
  }

  // ----- Empty messages -----

  /** The writer's next successful write can be that of `item`. */
  predicate CanWrite(c: Conn, item: Item) {
    if c.writer.Writing? then LocalEnabled(c, WriteOk) && c.writer.item == item
    else
      LocalEnabled(c, Receive) && LocalStep(c, Receive).writer == Writing(item)
      && LocalEnabled(LocalStep(c, Receive), WriteOk)
  }

  /**
   In a reachable state an empty message can be written next exactly when the pool is closed, the
   socket is still open, the writer is at work and everything put for the client has been written.
   */
  lemma EmptyWriteExactly(states: seq<State>, actions: seq<Action>, id: Id)
    requires Run(states, actions) && id in states[|actions|].conns
    ensures var n := |actions|; var c := states[n].conns[id];
            CanWrite(c, Zero)
            <==> c.serve.PoolClosed? && (c.writer.Receiving? || c.writer.Writing?)
                 && |Puts(states[..n], actions, id)| <= |Writes(states[..n], actions, id)|
  {
    var n := |actions|;
    HistoryIsRun(states, actions, n, id);
    ReachableInv(states, actions, n);
    assert actions[..n] == actions;
    assert ConnOk(states[n], id);
    EmptyWriteOf(states[n].conns[id]);
  }

  lemma EmptyWriteOf(c: Conn)
    requires LocalOk(c)
    ensures CanWrite(c, Zero)
            <==> c.serve.PoolClosed? && (c.writer.Receiving? || c.writer.Writing?) && |c.put| <= |c.written|
  {
    if c.writer.Writing? {
      assert c.received[|c.written|] == c.writer.item == Expected(c, |c.written|);
    }
  }

  /** A client that was sent nothing, at some point of its life. */
  function Lone(serve: Serve, writer: Writer, written: seq<Item>): Conn {
    Conn(serve, writer, if serve.NotStarted? then NoReader else Reading, [], false, !serve.NotStarted?, false,
         0, false, false, [], written + if writer.Writing? then [writer.item] else [], written, None)
  }

  function Alone(c: Conn): State {
    State([], [], [], Idle, {0}, map[0 := c])
  }

  lemma AloneSteps(c: Conn, a: Local)
    requires LocalEnabled(c, a)
    ensures Enabled(Alone(c), Client(0, a)) && Apply(Alone(c), Client(0, a)) == Alone(LocalStep(c, a))
  {
    assert map[0 := c][0 := LocalStep(c, a)] == map[0 := LocalStep(c, a)];
  }

  function HangUp(): seq<Action> {
    [Register(0), Client(0, Start), Client(0, PingFails), Client(0, ClosePool), Client(0, Receive), Client(0, WriteOk)]
  }

  function HangUpStates(): seq<State> {
    [INIT, Alone(Lone(NotStarted, NoWriter, [])), Alone(Lone(Running, Receiving, [])),
     Alone(Lone(Returning, Receiving, [])), Alone(Lone(PoolClosed, Receiving, [])),
     Alone(Lone(PoolClosed, Writing(Zero), [])), Alone(Lone(PoolClosed, Receiving, [Zero]))]
  }

  lemma HangUpStep(i: nat)
    requires i < 6
    ensures Enabled(HangUpStates()[i], HangUp()[i]) && HangUpStates()[i + 1] == Apply(HangUpStates()[i], HangUp()[i])
  {
    if i == 0 {
      assert map[][0 := Fresh(INIT)] == map[0 := Fresh(INIT)] && {} + {0} == {0};
    } else {
      var none: seq<Item> := [];
      assert [Zero] + none == [Zero] == none + [Zero];
      AloneSteps(HangUpStates()[i].conns[0], HangUp()[i].local);
    }
  }

  /** A failed ping is enough for an empty message to a client that was sent nothing. */
  lemma EmptyMessageSent()
    ensures var states, actions := HangUpStates(), HangUp();
            Run(states, actions) && Puts(states[..6], actions, 0) == [] && Writes(states[..6], actions, 0) == [Zero]
  {
    var states, actions := HangUpStates(), HangUp();
    forall i | 0 <= i < 6 ensures Enabled(states[i], actions[i]) && states[i + 1] == Apply(states[i], actions[i]) {
      HangUpStep(i);
    }
    HistoryIsRun(states, actions, 6, 0);
    assert actions[..6] == actions;
  }

  // ----- Progress -----

  predicate Failure(a: Local) {
    a.PingFails? || a.ReadFails? || a.WriteFails?
  }

  /** Steps the system takes by itself; the rest are arrivals and failures from outside. */
  predicate Internal(a: Action) {
    !a.Enqueue? && !a.Register? && (a.Client? ==> !Failure(a.local))
  }

  /** The broadcaster waits for room in an open, full pool. */
  predicate Blocked(s: State, id: Id) {
    s.caster.Sending? && s.caster.to == id && id in s.conns && PoolOpen(s.conns[id]) && |s.conns[id].pool| >= POOL
  }

  /** A connection whose pool is full and open can always take a step of its own. */
  lemma FullPoolCanStep(c: Conn) returns (a: Local)
    requires LocalOk(c) && PoolOpen(c) && c.pool != []
    ensures LocalEnabled(c, a) && !Failure(a)
  {
    if c.serve.NotStarted? {
      a := Start;
    } else if c.serve.Returning? {
      a := ClosePool;
    } else {
      match c.writer
      case Receiving => a := Receive;
      case Writing(_) => a := WriteOk;
      case _ => a := TakeWriteError;
    }
  }

  /** The clients the current message must still be offered to. */
  function Todo(s: State): set<Id> {
    if s.caster.Idle? then {} else s.caster.start * s.clients - s.caster.done
  }

  /** No reachable state with a message queued or in hand is stuck. */
  lemma NoDeadlock(s: State) returns (a: Action)
    requires Inv(s) && (s.queue != [] || !s.caster.Idle?)
    ensures Internal(a) && Enabled(s, a)
    ensures a.Client? <==> s.caster.Sending? && Blocked(s, s.caster.to)
    ensures a.Client? ==> a.id == s.caster.to
    ensures a.Pick? ==> a.id in Todo(s)
  {
    match s.caster
    case Idle => a := Dequeue;
    case Range(start, done) =>
      if id :| id in start * s.clients && id !in done {
        a := Pick(id);
      } else {
        a := Finish;
      }
    case Sending(_, _, to) =>
      assert ConnOk(s, to);
      if !PoolOpen(s.conns[to]) {
        a := Fail;
      } else if |s.conns[to].pool| < POOL {
        a := Put;
      } else {
        var local := FullPoolCanStep(s.conns[to]);
        a := Client(to, local);
      }
    case Unregistering(_, _, _) => a := Unregister;
  }

  lemma NoReachableDeadlock(states: seq<State>, actions: seq<Action>, i: nat)
    requires Run(states, actions) && i <= |actions| && (states[i].queue != [] || !states[i].caster.Idle?)
    ensures exists a :: Internal(a) && Enabled(states[i], a)
  {
    ReachableInv(states, actions, i);
    var a := NoDeadlock(states[i]);
  }

  /** Bounds the steps a connection with a full pool can take before the pool has room or is closed. */
  function Rank(c: Conn): nat {
    3 * (match c.serve case NotStarted => 3 case Running => 2 case Returning => 1 case _ => 0)
    + (match c.writer case Writing(_) => 2 case Receiving => 1 case Failing => 1 case _ => 0)
    + (if c.reader.Reading? then 1 else 0)
  }

  lemma OwnStepLowersRank(c: Conn, a: Local)
    requires LocalOk(c) && LocalEnabled(c, a) && PoolOpen(c) && |c.pool| == POOL
    ensures var c' := LocalStep(c, a); PoolOpen(c') && |c'.pool| == POOL ==> Rank(c') < Rank(c)
  {
  }

  function RankAt(s: State, id: Id): nat {
    if id in s.conns then Rank(s.conns[id]) else 0
  }

  function OwnStep(a: Action, id: Id): nat {
    if a.Client? && a.id == id then 1 else 0
  }

  /** While a send waits, only the connection it waits for changes that, and each such step counts down. */
  lemma BlockedStep(s: State, a: Action, id: Id)
    requires Inv(s) && Blocked(s, id) && Enabled(s, a)
    ensures Blocked(Apply(s, a), id) ==> RankAt(Apply(s, a), id) + OwnStep(a, id) <= RankAt(s, id)
    ensures OwnStep(a, id) == 0 ==> Blocked(Apply(s, a), id)
  {
    assert ConnOk(s, id);
    match a
    case Client(k, local) =>
      if k == id {
        OwnStepLowersRank(s.conns[id], local);
      }
    case _ =>
  }

  function OwnSteps(actions: seq<Action>, id: Id): nat {
    if actions == [] then 0 else
      OwnSteps(actions[..|actions| - 1], id) + OwnStep(actions[|actions| - 1], id)
  }

  lemma BlockedAt(states: seq<State>, actions: seq<Action>, k: nat, id: Id)
    requires Run(states, actions) && k < |actions| && Blocked(states[k], id) && Blocked(states[k + 1], id)
    ensures RankAt(states[k + 1], id) + OwnStep(actions[k], id) <= RankAt(states[k], id)
  {
    ReachableInv(states, actions, k);
    BlockedStep(states[k], actions[k], id);
  }

  lemma RankIsSmall(states: seq<State>, actions: seq<Action>, k: nat, id: Id)
    requires Run(states, actions) && k <= |actions|
    ensures RankAt(states[k], id) <= 9
  {
    ReachableInv(states, actions, k);
    assert id in states[k].conns ==> ConnOk(states[k], id);
  }

  lemma OwnStepsMore(actions: seq<Action>, i: nat, j: nat, id: Id)
    requires i < j <= |actions|
    ensures OwnSteps(actions[i..j], id) == OwnSteps(actions[i..j - 1], id) + OwnStep(actions[j - 1], id)
  {
    assert actions[i..j][..j - i - 1] == actions[i..j - 1];
  }

  /** The action at `k` lowers the rank of `id` if it is its own, and does not raise it otherwise. */
  ghost predicate CountsDown(states: seq<State>, actions: seq<Action>, k: nat, id: Id)
    requires k < |actions| && k + 1 < |states|
  {
    RankAt(states[k + 1], id) + OwnStep(actions[k], id) <= RankAt(states[k], id)
  }

  lemma {:induction false} CountedSteps(states: seq<State>, actions: seq<Action>, i: nat, j: nat, id: Id)
    requires |states| == |actions| + 1 && i <= j <= |actions|
    requires forall k :: i <= k < j ==> CountsDown(states, actions, k, id)
    ensures OwnSteps(actions[i..j], id) + RankAt(states[j], id) <= RankAt(states[i], id)
    decreases j
  {
    if i < j {
      CountedSteps(states, actions, i, j - 1, id);
      assert CountsDown(states, actions, j - 1, id);
      OwnStepsMore(actions, i, j, id);
    }
  }

  /** In every run a blocked send outlasts at most nine steps of the connection it waits for. */
  lemma BlockedBriefly(states: seq<State>, actions: seq<Action>, i: nat, j: nat, id: Id)
    requires Run(states, actions) && i <= j <= |actions|
    requires forall k :: i <= k <= j ==> Blocked(states[k], id)
    ensures OwnSteps(actions[i..j], id) <= 9
  {
    forall k | i <= k < j ensures CountsDown(states, actions, k, id) {
      BlockedAt(states, actions, k, id);
    }
    CountedSteps(states, actions, i, j, id);
    RankIsSmall(states, actions, i, id);
  }

  // ----- Draining -----

  ghost predicate Steps(s: State, actions: seq<Action>, s': State)
    decreases |actions|
  {
    if actions == [] then s' == s
    else Enabled(s, actions[0]) && Internal(actions[0]) && Steps(Apply(s, actions[0]), actions[1..], s')
  }

  /** How far the broadcaster is with one client, and how long a send may still wait. */
  function Stage(s: State): nat {
    match s.caster
    case Sending(_, _, _) => 2
    case Unregistering(_, _, _) => 1
    case _ => 0
  }

  function Wait(s: State): nat {
    if s.caster.Sending? && Blocked(s, s.caster.to) then 1 + RankAt(s, s.caster.to) else 0
  }

  /** Fewer messages, then the end of the current one, fewer clients, a later stage, a shorter wait. */
  ghost predicate Nearer(s: State, s': State) {
    || |s'.queue| < |s.queue|
    || (s'.queue == s.queue && s'.caster.Idle? && !s.caster.Idle?)
    || (s'.queue == s.queue && s'.caster.Idle? == s.caster.Idle? && |Todo(s')| < |Todo(s)|)
    || (s'.queue == s.queue && s'.caster.Idle? == s.caster.Idle? && Todo(s') == Todo(s) && Stage(s') < Stage(s))
    || (s'.queue == s.queue && s'.caster == s.caster && Todo(s') == Todo(s) && Wait(s') < Wait(s))
  }

  lemma PickDrains(s: State, id: Id)
    requires Enabled(s, Pick(id)) && id in Todo(s)
    ensures Nearer(s, Apply(s, Pick(id)))
  {
    assert Todo(s) == Todo(Apply(s, Pick(id))) + {id};
  }

  lemma UnregisterDrains(s: State)
    requires Inv(s) && Enabled(s, Unregister)
    ensures Nearer(s, Apply(s, Unregister))
  {
    assert Todo(Apply(s, Unregister)) == Todo(s);
  }

  lemma WaitDrains(s: State, a: Action)
    requires Inv(s) && Enabled(s, a) && a.Client? && s.caster.Sending? && s.caster.to == a.id && Blocked(s, a.id)
    ensures Nearer(s, Apply(s, a))
  {
    BlockedStep(s, a, a.id);
  }

  /** The step chosen in a state that is not drained brings the end nearer. */
  lemma StepDrains(s: State, a: Action)
    requires Inv(s) && Enabled(s, a) && Internal(a) && (a.Pick? ==> a.id in Todo(s))
    requires a.Client? ==> s.caster.Sending? && s.caster.to == a.id && Blocked(s, a.id)
    ensures Nearer(s, Apply(s, a))
  {
    match a
    case Pick(id) => PickDrains(s, id);
    case Client(_, _) => WaitDrains(s, a);
    case Unregister => UnregisterDrains(s);
    case _ =>
  }

  lemma NextStep(s: State) returns (a: Action)
    requires Inv(s) && (s.queue != [] || !s.caster.Idle?)
    ensures Internal(a) && Enabled(s, a)
    ensures Inv(Apply(s, a)) && Nearer(s, Apply(s, a)) && Apply(s, a).accepted == s.accepted
  {
    a := NoDeadlock(s);
    StepKeepsInv(s, a);
    StepDrains(s, a);
  }

  /** The system can always empty its queue by steps of its own, offering every message to every client. */
  lemma {:induction false} Drain(s: State) returns (actions: seq<Action>, s': State)
    requires Inv(s)
    ensures Steps(s, actions, s') && s'.caster.Idle? && s'.queue == [] && s'.accepted == s.accepted && Inv(s')
    decreases |s.queue|, !s.caster.Idle?, |Todo(s)|, Stage(s), Wait(s)
  {
    if s.caster.Idle? && s.queue == [] {
      actions, s' := [], s;
    } else {
      var a := NextStep(s);
      var rest;
      rest, s' := Drain(Apply(s, a));
      actions := [a] + rest;
    }
  }

  /** Every reachable state can be drained; then everything enqueued so far has been broadcast. */
  lemma ReachableDrains(states: seq<State>, actions: seq<Action>)
    requires Run(states, actions)
    ensures exists more, s' :: Steps(states[|actions|], more, s') && s'.caster.Idle? && s'.log == Enqueued(actions)
  {
    ReachableInv(states, actions, |actions|);
    AcceptedIsEnqueued(states, actions, |actions|);
    assert actions[..|actions|] == actions;
    var more, s' := Drain(states[|actions|]);
    assert s'.accepted == s'.log + s'.queue && s'.log + [] == s'.log;
  }

  // ----- Every schedule -----

  /** A step of the broadcaster itself. */
  predicate IsCaster(a: Action) {
    a.Dequeue? || a.Pick? || a.Put? || a.Fail? || a.Finish? || a.Unregister?
  }

  predicate IsArrival(a: Action) {
    a.Enqueue? || a.Register?
  }

  /** At most this many steps for one message, and for what is left of the current one. */
  function PerMessage(s: State): nat {
    2 + 3 * |s.clients|
  }

  function Current(s: State): nat {
    if s.caster.Idle? then 0 else 1 + 3 * |s.clients - s.caster.done| + Stage(s)
  }

  function Work(s: State): nat {
    |s.queue| * PerMessage(s) + Current(s)
  }

  lemma FewerPerMessage(n: nat, a: nat, b: nat)
    requires a <= b
    ensures n * a <= n * b
  {
  }

  lemma PickWorks(s: State, id: Id)
    requires Enabled(s, Pick(id))
    ensures Current(Apply(s, Pick(id))) + 1 == Current(s)
  {
    var s' := Apply(s, Pick(id));
    assert s.clients - s.caster.done == (s'.clients - s'.caster.done) + {id};
  }

  lemma UnregisterWorks(s: State)
    requires Inv(s) && Enabled(s, Unregister)
    ensures Work(Apply(s, Unregister)) + 1 <= Work(s)
  {
    var s' := Apply(s, Unregister);
    assert s'.clients - s'.caster.done == s.clients - s.caster.done;
    assert s.clients == s'.clients + {s.caster.to};
    FewerPerMessage(|s.queue|, PerMessage(s'), PerMessage(s));
  }

  lemma DequeueWorks(s: State)
    requires Enabled(s, Dequeue)
    ensures Work(Apply(s, Dequeue)) + 1 == Work(s)
  {
    var s' := Apply(s, Dequeue);
    assert s'.clients - s'.caster.done == s.clients;
    assert |s.queue| == |s'.queue| + 1;
    assert |s.queue| * PerMessage(s) == |s'.queue| * PerMessage(s') + PerMessage(s);
  }

  function CasterStep(a: Action): nat {
    if IsCaster(a) then 1 else 0
  }

  lemma SameQueueWorks(s: State, s': State, n: nat)
    requires s'.queue == s.queue && s'.clients == s.clients && Current(s') + n <= Current(s)
    ensures Work(s') + n <= Work(s)
  {
  }

  lemma SendWorks(s: State, a: Action)
    requires Enabled(s, a) && (a.Put? || a.Fail? || a.Finish?)
    ensures Work(Apply(s, a)) + 1 <= Work(s)
  {
    SameQueueWorks(s, Apply(s, a), 1);
  }

  /** Every step of the broadcaster, whichever is taken, uses up work, and only arrivals make more. */
  lemma StepWorks(s: State, a: Action)
    requires Inv(s) && Enabled(s, a) && !IsArrival(a)
    ensures Work(Apply(s, a)) + CasterStep(a) <= Work(s)
  {
    match a
    case Dequeue => DequeueWorks(s);
    case Pick(id) =>
      PickWorks(s, id);
      SameQueueWorks(s, Apply(s, a), 1);
    case Unregister => UnregisterWorks(s);
    case Client(_, _) => SameQueueWorks(s, Apply(s, a), 0);
    case _ => SendWorks(s, a);
  }

  function CasterSteps(actions: seq<Action>): nat {
    if actions == [] then 0 else CasterSteps(actions[..|actions| - 1]) + CasterStep(actions[|actions| - 1])
  }

  lemma CasterStepsMore(actions: seq<Action>, i: nat, j: nat)
    requires i < j <= |actions|
    ensures CasterSteps(actions[i..j]) == CasterSteps(actions[i..j - 1]) + CasterStep(actions[j - 1])
  {
    assert actions[i..j][..j - i - 1] == actions[i..j - 1];
  }

  lemma WorkAt(states: seq<State>, actions: seq<Action>, k: nat)
    requires Run(states, actions) && k < |actions| && !IsArrival(actions[k])
    ensures Work(states[k + 1]) + CasterStep(actions[k]) <= Work(states[k])
  {
    ReachableInv(states, actions, k);
    StepWorks(states[k], actions[k]);
  }

  lemma {:induction false} WorkBounds(states: seq<State>, actions: seq<Action>, i: nat, j: nat)
    requires Run(states, actions) && i <= j <= |actions|
    requires forall k :: i <= k < j ==> !IsArrival(actions[k])
    ensures CasterSteps(actions[i..j]) + Work(states[j]) <= Work(states[i])
    decreases j
  {
    if i < j {
      WorkBounds(states, actions, i, j - 1);
      WorkAt(states, actions, j - 1);
      CasterStepsMore(actions, i, j);
    }
  }

  /**
   Every schedule: without arrivals the broadcaster takes at most `Work` steps of its own, and when it
   has taken them the queue is empty and the last message offered.
   */
  lemma BroadcasterBounded(states: seq<State>, actions: seq<Action>, i: nat, j: nat)
    requires Run(states, actions) && i <= j <= |actions|
    requires forall k :: i <= k < j ==> !IsArrival(actions[k])
    ensures CasterSteps(actions[i..j]) <= |states[i].queue| * (2 + 3 * |states[i].clients|) + Current(states[i])
    ensures CasterSteps(actions[i..j]) == Work(states[i]) ==> states[j].caster.Idle? && states[j].queue == []
  {
    WorkBounds(states, actions, i, j);
    NoWorkLeft(states[j]);
  }

  lemma NoWorkLeft(s: State)
    ensures Work(s) == 0 <==> s.caster.Idle? && s.queue == []
  {
    if s.queue != [] {
      FewerPerMessage(PerMessage(s), 1, |s.queue|);
    }
  }

  /** Until then it can always step, or it waits for a connection, which BlockedBriefly bounds. */
  lemma BroadcasterStepsOrWaits(states: seq<State>, actions: seq<Action>, i: nat)
    requires Run(states, actions) && i <= |actions| && Work(states[i]) > 0
    ensures (exists a :: IsCaster(a) && Enabled(states[i], a))
            <==> !(states[i].caster.Sending? && Blocked(states[i], states[i].caster.to))
  {
    var s := states[i];
    NoWorkLeft(s);
    ReachableInv(states, actions, i);
    var a := NoDeadlock(s);
    assert !a.Client? ==> IsCaster(a);
  }
}
