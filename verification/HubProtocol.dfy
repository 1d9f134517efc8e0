/** WebSocket hub: every interleaving of the hub goroutine, one writer goroutine per client and
    the publishers, over bounded Go channels. One action is one channel operation. */
module HubProtocol {
  import opened Options

  type Id = nat
  type Message = string

  /** Buffer size of a client's channel and of the hub's broadcast channel. */
  const CAPACITY: nat := 256

  datatype Channel = Channel(buffer: seq<Message>, closed: bool)

  /** What Go makes fatal (the first two) or what would hang or corrupt a writer (the last two). */
  datatype Fault = SendOnClosed | CloseOfClosed | ReceiveBlocks | ReadPastClose

  datatype Result = Done(channel: Channel) | Full | Fails(fault: Fault)

  function TrySend(ch: Channel, m: Message): Result {
    if ch.closed then Fails(SendOnClosed)
    else if |ch.buffer| < CAPACITY then Done(ch.(buffer := ch.buffer + [m]))
    else Full
  }

  function Close(ch: Channel): Result {
    if ch.closed then Fails(CloseOfClosed) else Done(ch.(closed := true))
  }

  /** A blocking receive that the caller needs to succeed. */
  function MustReceive(ch: Channel): Result {
    if ch.buffer != [] then Done(ch.(buffer := ch.buffer[1..]))
    else if ch.closed then Fails(ReadPastClose)
    else Fails(ReceiveBlocks)
  }

  /** Where a writer goroutine stands: at its select, just past a first message, draining a counted
      backlog, or returned (after seeing the channel closed, or because the connection failed). */
  datatype Writer = AtSelect | Opened | Draining(left: nat) | Returned(sawClose: bool)

  datatype Client = Client(
    send: Channel,
    writer: Writer,
    received: seq<Message>,
    joinedAt: nat,
    leftAt: Option<nat>)

  datatype HubPhase = Select | Ranging(message: Message, rest: set<Id>)

  datatype State = State(
    clients: map<Id, Client>,
    registered: set<Id>,
    phase: HubPhase,
    queue: seq<Message>,
    log: seq<Message>,
    fault: Option<Fault>)

  datatype Action =
    | Publish(message: Message)
    | Register(id: Id)
    | Unregister(id: Id)
    | TakeBroadcast
    | Offer(id: Id)
    | EndRange
    | Receive(id: Id)
    | CountBacklog(id: Id)
    | DrainOne(id: Id)
    | EndDrain(id: Id)
    | ConnectionFails(id: Id)

  predicate Enabled(s: State, a: Action) {
    s.fault.None? &&
    match a
    case Publish(_) => |s.queue| < CAPACITY
    case Register(id) => s.phase.Select? && id !in s.clients
    case Unregister(id) => s.phase.Select? && id in s.clients
    case TakeBroadcast => s.phase.Select? && s.queue != []
    case Offer(id) => s.phase.Ranging? && id in s.phase.rest && id in s.clients
    case EndRange => s.phase.Ranging? && s.phase.rest == {}
    case Receive(id) =>
      id in s.clients && s.clients[id].writer.AtSelect? &&
      (s.clients[id].send.buffer != [] || s.clients[id].send.closed)
    case CountBacklog(id) => id in s.clients && s.clients[id].writer.Opened?
    case DrainOne(id) => id in s.clients && s.clients[id].writer.Draining? && s.clients[id].writer.left > 0
    case EndDrain(id) => id in s.clients && s.clients[id].writer == Draining(0)
    case ConnectionFails(id) => id in s.clients && !s.clients[id].writer.Returned?
  }

  function Put(s: State, id: Id, c: Client): State {
    s.(clients := s.clients[id := c])
  }

  /** Closing a client's channel and dropping it from the hub's map. */
  function Drop(s: State, id: Id, at: nat): State
    requires id in s.clients
  {
    var c := s.clients[id];
    match Close(c.send)
    case Done(ch) => Put(s, id, c.(send := ch, leftAt := Some(at))).(registered := s.registered - {id})
    case Full => s
    case Fails(f) => s.(fault := Some(f))
  }

  function OfferTo(s: State, id: Id): State
    requires id in s.clients && s.phase.Ranging? && id in s.phase.rest
  {
    var c, m := s.clients[id], s.phase.message;
    var s' := s.(phase := Ranging(m, s.phase.rest - {id}));
    match TrySend(c.send, m)
    case Done(ch) => Put(s', id, c.(send := ch))
    case Full => Drop(s', id, if |s.log| > 0 then |s.log| - 1 else 0)
    case Fails(f) => s.(fault := Some(f))
  }

  function ReceiveBy(s: State, id: Id): State
    requires id in s.clients
  {
    var c := s.clients[id];
    if c.send.buffer == [] then Put(s, id, c.(writer := Returned(true)))
    else Put(s, id, c.(send := c.send.(buffer := c.send.buffer[1..]),
                       received := c.received + [c.send.buffer[0]], writer := Opened))
  }

  function DrainBy(s: State, id: Id): State
    requires id in s.clients && s.clients[id].writer.Draining? && s.clients[id].writer.left > 0
  {
    var c := s.clients[id];
    match MustReceive(c.send)
    case Done(ch) =>
      Put(s, id, c.(send := ch, received := c.received + c.send.buffer[..1], writer := Draining(c.writer.left - 1)))
    case Full => s
    case Fails(f) => s.(fault := Some(f))
  }

  function Step(s: State, a: Action): State
    requires Enabled(s, a)
  {
    match a
    case Publish(m) => s.(queue := s.queue + [m])
    case Register(id) =>
      Put(s, id, Client(Channel([], false), AtSelect, [], |s.log|, None)).(registered := s.registered + {id})
    case Unregister(id) => if id in s.registered then Drop(s, id, |s.log|) else s
    case TakeBroadcast =>
      s.(queue := s.queue[1..], log := s.log + [s.queue[0]], phase := Ranging(s.queue[0], s.registered))
    case Offer(id) => OfferTo(s, id)
    case EndRange => s.(phase := Select)
    case Receive(id) => ReceiveBy(s, id)
    case CountBacklog(id) => Put(s, id, s.clients[id].(writer := Draining(|s.clients[id].send.buffer|)))
    case DrainOne(id) => DrainBy(s, id)
    case EndDrain(id) => Put(s, id, s.clients[id].(writer := AtSelect))
    case ConnectionFails(id) => Put(s, id, s.clients[id].(writer := Returned(false)))
  }

  const INITIAL: State := State(map[], {}, Select, [], [], None)

  /** The state a sequence of actions leads to, if each is enabled where it happens. */
  function Run(run: seq<Action>): Option<State> {
    if run == [] then Some(INITIAL)
    else
      match Run(run[..|run| - 1])
      case None => None
      case Some(s) => if Enabled(s, run[|run| - 1]) then Some(Step(s, run[|run| - 1])) else None
  }

  /** The messages published along a run, in order. */
  function Published(run: seq<Action>): seq<Message> {
    if run == [] then []
    else
      var a := run[|run| - 1];
      Published(run[..|run| - 1]) + if a.Publish? then [a.message] else []
  }

  /** How far into the log an open client has been served: all of it, except that while the hub
      ranges over its clients the ones still to come lack the current message. */
  function ServedTo(s: State, id: Id): int {
    if s.phase.Ranging? && id in s.phase.rest then |s.log| - 1 else |s.log|
  }

  ghost predicate ClientInv(s: State, id: Id, c: Client) {
    var end := match c.leftAt case Some(k) => k as int case None => ServedTo(s, id);
    && |c.send.buffer| <= CAPACITY
    && c.joinedAt <= end <= |s.log|
    && c.received + c.send.buffer == s.log[c.joinedAt..end]
    && (c.leftAt.Some? <==> c.send.closed)
    && (c.writer.Draining? ==> c.writer.left <= |c.send.buffer|)
    && (c.writer == Returned(true) ==> c.send.closed && c.send.buffer == [])
  }

  ghost predicate Inv(s: State) {
    && s.fault.None?
    && (forall id :: id in s.registered <==> id in s.clients && !s.clients[id].send.closed)
    && (forall id :: id in s.clients ==> ClientInv(s, id, s.clients[id]))
    && (s.phase.Ranging? ==> |s.log| > 0 && s.phase.message == s.log[|s.log| - 1] && s.phase.rest <= s.registered)
  }

  /** What an offer leaves of the client's channel, given that it was open: the message queued,
      or the channel closed because it was full. */
  function Offered(ch: Channel, m: Message): Channel {
    if |ch.buffer| < CAPACITY then ch.(buffer := ch.buffer + [m]) else ch.(closed := true)
  }

  function OfferedClient(c: Client, m: Message, at: nat): Client {
    c.(send := Offered(c.send, m), leftAt := if |c.send.buffer| < CAPACITY then c.leftAt else Some(at))
  }

  lemma OfferEffect(s: State, id: Id)
    requires Enabled(s, Offer(id)) && !s.clients[id].send.closed && |s.log| > 0
    ensures var c, s' := s.clients[id], OfferTo(s, id);
            && s'.clients == s.clients[id := OfferedClient(c, s.phase.message, |s.log| - 1)]
            && s'.registered == (if |c.send.buffer| < CAPACITY then s.registered else s.registered - {id})
            && s'.phase == Ranging(s.phase.message, s.phase.rest - {id})
            && s'.log == s.log && s'.queue == s.queue && s'.fault == s.fault
  {
  }

  lemma OfferKeepsInv(s: State, id: Id)
    requires Inv(s) && Enabled(s, Offer(id))
    ensures Inv(OfferTo(s, id))
  {
    OfferEffect(s, id);
    var c, s', n := s.clients[id], OfferTo(s, id), |s.log|;
    assert ClientInv(s, id, c);
    if |c.send.buffer| < CAPACITY {
      assert s.log[c.joinedAt..n] == s.log[c.joinedAt..n - 1] + [s.log[n - 1]];
      assert c.received + (c.send.buffer + [s.phase.message]) == (c.received + c.send.buffer) + [s.phase.message];
    }
    assert ClientInv(s', id, s'.clients[id]);
    forall other | other in s'.clients && other != id ensures ClientInv(s', other, s'.clients[other]) {
      assert ClientInv(s, other, s.clients[other]);
    }
  }

  lemma TakeKeepsInv(s: State)
    requires Inv(s) && Enabled(s, TakeBroadcast)
    ensures Inv(Step(s, TakeBroadcast))
  {
  }

  /** A step of one writer, given what it does to that client's own record. */
  lemma WriterKeepsInv(s: State, id: Id, c: Client)
    requires Inv(s) && id in s.clients
    requires var was := s.clients[id];
      && c.send.closed == was.send.closed && c.joinedAt == was.joinedAt && c.leftAt == was.leftAt
      && |c.send.buffer| <= |was.send.buffer|
      && c.received + c.send.buffer == was.received + was.send.buffer
      && (c.writer.Draining? ==> c.writer.left <= |c.send.buffer|)
      && (c.writer == Returned(true) ==> c.send.closed && c.send.buffer == [])
    ensures Inv(Put(s, id, c))
  {
    var s' := Put(s, id, c);
    forall other | other in s'.clients ensures ClientInv(s', other, s'.clients[other]) {
      assert ClientInv(s, other, s.clients[other]);
    }
  }

  lemma MoveHead(received: seq<Message>, buffer: seq<Message>)
    requires buffer != []
    ensures (received + [buffer[0]]) + buffer[1..] == received + buffer
  {
  }

  lemma HubKeepsInv(s: State, a: Action)
    requires Inv(s) && Enabled(s, a) && (a.Publish? || a.Register? || a.EndRange?)
    ensures Inv(Step(s, a))
  {
  }

  lemma UnregisterKeepsInv(s: State, id: Id)
    requires Inv(s) && Enabled(s, Unregister(id))
    ensures Inv(Step(s, Unregister(id)))
  {
  }

  lemma StepKeepsInv(s: State, a: Action)
    requires Inv(s) && Enabled(s, a)
    ensures Inv(Step(s, a))
  {
    match a
    case Offer(id) => OfferKeepsInv(s, id);
    case TakeBroadcast => TakeKeepsInv(s);
    case Unregister(id) => UnregisterKeepsInv(s, id);
    case Receive(id) =>
      var c := s.clients[id];
      if c.send.buffer != [] {
        MoveHead(c.received, c.send.buffer);
      }
      WriterKeepsInv(s, id, ReceiveBy(s, id).clients[id]);
    case DrainOne(id) =>
      var c := s.clients[id];
      assert ClientInv(s, id, c);
      MoveHead(c.received, c.send.buffer);
      assert c.send.buffer[..1] == [c.send.buffer[0]];
      WriterKeepsInv(s, id, DrainBy(s, id).clients[id]);
    case CountBacklog(id) => WriterKeepsInv(s, id, Step(s, a).clients[id]);
    case EndDrain(id) => WriterKeepsInv(s, id, Step(s, a).clients[id]);
    case ConnectionFails(id) => WriterKeepsInv(s, id, Step(s, a).clients[id]);
    case _ => HubKeepsInv(s, a);
  }

  lemma {:induction false} RunKeepsInv(run: seq<Action>, s: State)
    requires Run(run) == Some(s)
    ensures Inv(s)
    ensures s.log + s.queue == Published(run)
  {
    if run != [] {
      var front, a := run[..|run| - 1], run[|run| - 1];
      var before := Run(front).value;
      RunKeepsInv(front, before);
      StepKeepsInv(before, a);
      StepKeepsPublished(before, a, Published(front));
    }
  }

  lemma StepKeepsPublished(s: State, a: Action, published: seq<Message>)
    requires Enabled(s, a) && s.log + s.queue == published
    ensures Step(s, a).log + Step(s, a).queue == published + if a.Publish? then [a.message] else []
  {
  }

  /** MAIN RESULT. In every interleaving no channel is sent to or closed after it was closed, and
      the counted inner receives of a writer neither block nor read past a closed channel. */
  lemma NoFaultEver(run: seq<Action>, s: State)
    requires Run(run) == Some(s)
    ensures s.fault.None?
    ensures forall id :: id in s.registered <==> id in s.clients && !s.clients[id].send.closed
    ensures forall id :: id in s.clients && s.clients[id].writer.Draining? && s.clients[id].writer.left > 0 ==>
              MustReceive(s.clients[id].send).Done?
  {
    RunKeepsInv(run, s);
    forall id | id in s.clients && s.clients[id].writer.Draining? ensures ClientInv(s, id, s.clients[id]) {
    }
  }

  lemma SliceOfPrefix<T>(a: seq<T>, b: seq<T>, i: nat, j: nat)
    requires i <= j <= |a|
    ensures (a + b)[i..j] == a[i..j]
  {
  }

  /** MAIN RESULT. What a client has received followed by what is buffered for it is a contiguous,
      in-order piece of everything published, starting where it registered: up to the last
      broadcast served to it while it is registered, and up to a fixed point once it is not. */
  lemma DeliveryIsContiguous(run: seq<Action>, s: State, id: Id)
    requires Run(run) == Some(s) && id in s.clients
    ensures var c := s.clients[id];
            var end := if id in s.registered then ServedTo(s, id) else c.leftAt.GetOr(0);
            && |c.send.buffer| <= 256
            && c.joinedAt <= end <= |Published(run)|
            && c.received + c.send.buffer == Published(run)[c.joinedAt..end]
            && (id in s.registered && s.phase.Select? ==> end == |Published(run)| - |s.queue|)
  {
    RunKeepsInv(run, s);
    var c := s.clients[id];
    assert ClientInv(s, id, c);
    var end := if id in s.registered then ServedTo(s, id) else c.leftAt.GetOr(0);
    SliceOfPrefix(s.log, s.queue, c.joinedAt, end);
  }

  /** Clients that registered together are served the same messages: what one has is a prefix of
      what the other has, in order. */
  lemma ClientsAgree(run: seq<Action>, s: State, a: Id, b: Id)
    requires Run(run) == Some(s) && a in s.clients && b in s.clients
    requires s.clients[a].joinedAt == s.clients[b].joinedAt
    ensures var x := s.clients[a].received + s.clients[a].send.buffer;
            var y := s.clients[b].received + s.clients[b].send.buffer;
            x <= y || y <= x
  {
    DeliveryIsContiguous(run, s, a);
    DeliveryIsContiguous(run, s, b);
  }

  /** A writer that returns because it saw the close has received everything ever accepted for
      its client: closing loses nothing that was buffered. */
  lemma CloseLosesNothing(run: seq<Action>, s: State, id: Id)
    requires Run(run) == Some(s) && id in s.clients && s.clients[id].writer == Returned(true)
    ensures var c := s.clients[id];
            && c.leftAt.Some? && c.joinedAt <= c.leftAt.value <= |Published(run)|
            && c.received == Published(run)[c.joinedAt..c.leftAt.value]
  {
    DeliveryIsContiguous(run, s, id);
    RunKeepsInv(run, s);
    var c := s.clients[id];
    assert ClientInv(s, id, c);
    assert c.received + [] == c.received;
  }

  /** A client leaves the hub only by unregistering or when a broadcast finds exactly 256
      messages it has not taken; what it then misses starts with that very broadcast. */
  lemma LeavingExactly(run: seq<Action>, s: State, a: Action, id: Id)
    requires Run(run) == Some(s) && Enabled(s, a) && id in s.registered
    ensures id !in Step(s, a).registered <==>
            a == Unregister(id) || (a == Offer(id) && |s.clients[id].send.buffer| == 256)
    ensures id !in Step(s, a).registered && a.Offer? ==> Step(s, a).clients[id].leftAt == Some(|s.log| - 1)
  {
    RunKeepsInv(run, s);
    assert ClientInv(s, id, s.clients[id]);
  }

  /** The hub may range over its clients in any order: two offers commute. */
  lemma OffersCommute(s: State, a: Id, b: Id)
    requires a != b && Enabled(s, Offer(a)) && Enabled(s, Offer(b)) && |s.log| > 0
    requires !s.clients[a].send.closed && !s.clients[b].send.closed
    ensures Enabled(OfferTo(s, a), Offer(b)) && Enabled(OfferTo(s, b), Offer(a))
    ensures OfferTo(OfferTo(s, a), b) == OfferTo(OfferTo(s, b), a)
  {
    OfferEffect(s, a);
    OfferEffect(s, b);
    OfferEffect(OfferTo(s, a), b);
    OfferEffect(OfferTo(s, b), a);
    var ab, ba := OfferTo(OfferTo(s, a), b), OfferTo(OfferTo(s, b), a);
    assert ab.phase == ba.phase by { assert s.phase.rest - {a} - {b} == s.phase.rest - {b} - {a}; }
    assert ab.registered == ba.registered by { assert s.registered - {a} - {b} == s.registered - {b} - {a}; }
    assert ab.clients == ba.clients;
  }
}
