/** WebSocket hub: what the hub's and the writers' state says about the actions that led to it, and
    what every reachable state can still do. */
module HubHistory {
  import opened Options
  import opened HubProtocol

  // ---- who is registered

  /** The action takes the client out of the hub: it unregisters, or is offered a message while 256
      wait for it. */
  ghost predicate Leaves(s: State, a: Action, id: Id) {
    a == Unregister(id) || (a == Offer(id) && id in s.clients && |s.clients[id].send.buffer| == 256)
  }

  ghost predicate LeavesAt(run: seq<Action>, j: nat, id: Id)
    requires j < |run|
  {
    Run(run[..j]).Some? && Leaves(Run(run[..j]).value, run[j], id)
  }

  /** The client registered at that position and has not left since. */
  ghost predicate JoinedAt(run: seq<Action>, i: nat, id: Id) {
    && i < |run| && run[i] == Register(id)
    && forall j :: i < j < |run| ==> !LeavesAt(run, j, id)
  }

  /** How often a message was taken from the broadcast channel. */
  function Broadcasts(run: seq<Action>): nat {
    if run == [] then 0 else Broadcasts(run[..|run| - 1]) + if run[|run| - 1].TakeBroadcast? then 1 else 0
  }

  lemma RegisteredNext(s: State, a: Action, id: Id)
    requires Inv(s) && Enabled(s, a)
    ensures id in Step(s, a).registered <==> a == Register(id) || (id in s.registered && !Leaves(s, a, id))
    ensures a == Register(id) ==> Step(s, a).clients[id].joinedAt == |s.log|
    ensures id in s.clients ==> id in Step(s, a).clients && Step(s, a).clients[id].joinedAt == s.clients[id].joinedAt
    ensures id in Step(s, a).clients ==> id in s.clients || a == Register(id)
    ensures |Step(s, a).log| == |s.log| + if a.TakeBroadcast? then 1 else 0
  {
    if id in s.clients {
      assert ClientInv(s, id, s.clients[id]);
    }
    if a.Offer? {
      assert ClientInv(s, a.id, s.clients[a.id]);
    }
  }

  lemma JoinedNext(run: seq<Action>, i: nat, id: Id)
    requires run != []
    ensures var n := |run| - 1;
            JoinedAt(run, i, id) <==>
              if i < n then JoinedAt(run[..n], i, id) && !LeavesAt(run, n, id) else i == n && run[n] == Register(id)
  {
    var n := |run| - 1;
    assert forall j: nat :: j < n ==> run[..n][..j] == run[..j];
    if i < n && JoinedAt(run[..n], i, id) && !LeavesAt(run, n, id) {
      forall j | i < j < |run| ensures !LeavesAt(run, j, id) {
        assert j < n ==> !LeavesAt(run[..n], j, id);
      }
    }
    if i < n && JoinedAt(run, i, id) {
      forall j | i < j < n ensures !LeavesAt(run[..n], j, id) {
        assert !LeavesAt(run, j, id);
      }
    }
  }

  /** MAIN RESULT. In every interleaving a client is registered exactly if it registered at some
      point and neither unregistered since nor was offered a message with 256 waiting; what it is
      served starts with the broadcasts taken up to that point. */
  lemma {:induction false} RegisteredExactly(run: seq<Action>, s: State, id: Id)
    requires Run(run) == Some(s)
    ensures id in s.registered <==> exists i :: JoinedAt(run, i, id)
    ensures |s.log| == Broadcasts(run)
    ensures forall i: nat :: i < |run| && run[i] == Register(id) ==>
              id in s.clients && s.clients[id].joinedAt == Broadcasts(run[..i])
  {
    if run != [] {
      var n := |run| - 1;
      var before := Run(run[..n]).value;
      RegisteredExactly(run[..n], before, id);
      RunKeepsInv(run[..n], before);
      RegisteredNext(before, run[n], id);
      forall i: nat ensures JoinedAt(run, i, id) <==>
          if i < n then JoinedAt(run[..n], i, id) && !LeavesAt(run, n, id) else i == n && run[n] == Register(id)
      {
        JoinedNext(run, i, id);
      }
      assert forall i: nat :: i <= n ==> run[..n][..i] == run[..i];
      if i: nat :| JoinedAt(run[..n], i, id) && !LeavesAt(run, n, id) {
        assert JoinedAt(run, i, id);
      }
      if run[n] == Register(id) {
        assert JoinedAt(run, n, id);
      }
      forall i: nat | i < |run| && run[i] == Register(id)
        ensures id in s.clients && s.clients[id].joinedAt == Broadcasts(run[..i])
      {
        assert i < n ==> run[..n][i] == Register(id);
      }
    }
  }

  // ---- what can be done from any reachable state

  /** One action, if it is enabled. */
  function Next(s: State, a: Action): Option<State> {
    if Enabled(s, a) then Some(Step(s, a)) else None
  }

  /** The state that a sequence of actions leads to, by any partial transition function. */
  function Fold<S, A>(next: (S, A) -> Option<S>, s: S, more: seq<A>): Option<S>
    decreases more
  {
    if more == [] then Some(s)
    else match next(s, more[0])
      case None => None
      case Some(t) => Fold(next, t, more[1..])
  }

  lemma {:induction false} FoldBoth<S, A>(next: (S, A) -> Option<S>, s: S, more: seq<A>, later: seq<A>)
    ensures Fold(next, s, more + later) ==
            match Fold(next, s, more) case None => None case Some(t) => Fold(next, t, later)
    decreases more
  {
    if more == [] {
      assert more + later == later;
    } else {
      assert (more + later)[0] == more[0] && (more + later)[1..] == more[1..] + later;
      if next(s, more[0]).Some? {
        FoldBoth(next, next(s, more[0]).value, more[1..], later);
      }
    }
  }

  lemma FoldOne<S, A>(next: (S, A) -> Option<S>, s: S, a: A)
    ensures Fold(next, s, [a]) == next(s, a)
  {
    assert [a][1..] == [];
  }

  lemma FoldFirst<S, A>(next: (S, A) -> Option<S>, s: S, a: A, more: seq<A>)
    ensures Fold(next, s, [a] + more) == match next(s, a) case None => None case Some(t) => Fold(next, t, more)
  {
    FoldOne(next, s, a);
    FoldBoth(next, s, [a], more);
  }

  lemma {:induction false} RunIsFold(run: seq<Action>)
    ensures Run(run) == Fold(Next, INITIAL, run)
  {
    if run != [] {
      var front, a := run[..|run| - 1], run[|run| - 1];
      RunIsFold(front);
      assert run == front + [a];
      FoldBoth(Next, INITIAL, front, [a]);
      if Run(front).Some? {
        FoldOne(Next, Run(front).value, a);
      }
    }
  }

  /** What a state reached by a run leads to, the longer run leads to. */
  lemma RunOfBoth(run: seq<Action>, s: State, more: seq<Action>)
    requires Run(run) == Some(s)
    ensures Run(run + more) == Fold(Next, s, more)
  {
    RunIsFold(run);
    RunIsFold(run + more);
    FoldBoth(Next, INITIAL, run, more);
  }

  lemma RunOfOne(run: seq<Action>, s: State, a: Action)
    requires Run(run) == Some(s)
    ensures Run(run + [a]) == Next(s, a)
  {
    assert (run + [a])[..|run|] == run;
  }

  function Drains(id: Id, n: nat): seq<Action> {
    if n == 0 then [] else [DrainOne(id)] + Drains(id, n - 1)
  }

  function WithClient(s: State, id: Id, c: Client): State {
    s.(clients := s.clients[id := c])
  }

  /** The client after its writer has taken everything buffered. */
  function Emptied(c: Client, w: Writer): Client {
    c.(send := c.send.(buffer := []), received := c.received + c.send.buffer, writer := w)
  }

  /** A counted drain takes that many messages, in order. */
  lemma {:induction false} DrainsTake(s: State, id: Id, n: nat)
    requires s.fault.None? && id in s.clients && s.clients[id].writer == Draining(n) && n == |s.clients[id].send.buffer|
    ensures Fold(Next, s, Drains(id, n)) == Some(WithClient(s, id, Emptied(s.clients[id], Draining(0))))
    decreases n
  {
    var c := s.clients[id];
    if n == 0 {
      assert c.received + c.send.buffer == c.received && c.send == c.send.(buffer := []);
      assert s.clients == s.clients[id := c];
    } else {
      var s' := Step(s, DrainOne(id));
      FoldFirst(Next, s, DrainOne(id), Drains(id, n - 1));
      DrainsTake(s', id, n - 1);
      TakenInTwo(s, s', id, Draining(n - 1));
    }
  }

  /** Taking the head of a client's buffer and then the rest is taking it all. */
  lemma TakenInTwo(s: State, s': State, id: Id, w: Writer)
    requires id in s.clients && s.clients[id].send.buffer != []
    requires var c := s.clients[id];
             s' == WithClient(s, id, c.(send := c.send.(buffer := c.send.buffer[1..]),
                                        received := c.received + c.send.buffer[..1], writer := w))
    ensures WithClient(s', id, Emptied(s'.clients[id], Draining(0))) ==
            WithClient(s, id, Emptied(s.clients[id], Draining(0)))
  {
    var c := s.clients[id];
    var b := c.send.buffer;
    assert b == b[..1] + b[1..];
    assert (c.received + b[..1]) + b[1..] == c.received + b;
    assert s'.clients[id := Emptied(s'.clients[id], Draining(0))] == s.clients[id := Emptied(c, Draining(0))];
  }

  /** One round of a writer: a first message, and then the backlog it counts. */
  function Round(id: Id, backlog: nat): seq<Action> {
    ([Receive(id)] + [CountBacklog(id)]) + (Drains(id, backlog) + [EndDrain(id)])
  }

  lemma RoundStarts(s: State, id: Id)
    requires s.fault.None? && id in s.clients && s.clients[id].writer.AtSelect? && s.clients[id].send.buffer != []
    ensures var c := s.clients[id]; var b := c.send.buffer;
            Fold(Next, s, [Receive(id)] + [CountBacklog(id)]) ==
            Some(WithClient(s, id, c.(send := c.send.(buffer := b[1..]), received := c.received + b[..1],
                                      writer := Draining(|b| - 1))))
  {
    var s1 := Step(s, Receive(id));
    var s2 := Step(s1, CountBacklog(id));
    FoldFirst(Next, s, Receive(id), [CountBacklog(id)]);
    FoldOne(Next, s1, CountBacklog(id));
    assert s2.clients == s.clients[id := s2.clients[id]];
    assert s.clients[id].send.buffer[..1] == [s.clients[id].send.buffer[0]];
  }

  lemma RoundEnds(s: State, id: Id, n: nat)
    requires s.fault.None? && id in s.clients && s.clients[id].writer == Draining(n) && n == |s.clients[id].send.buffer|
    ensures Fold(Next, s, Drains(id, n) + [EndDrain(id)]) == Some(WithClient(s, id, Emptied(s.clients[id], AtSelect)))
  {
    DrainsTake(s, id, n);
    var s2 := Fold(Next, s, Drains(id, n)).value;
    var s3 := Step(s2, EndDrain(id));
    FoldOne(Next, s2, EndDrain(id));
    FoldBoth(Next, s, Drains(id, n), [EndDrain(id)]);
    assert s3.clients == s.clients[id := s3.clients[id]];
  }

  lemma RoundTakesAll(s: State, id: Id)
    requires s.fault.None? && id in s.clients && s.clients[id].writer.AtSelect? && s.clients[id].send.buffer != []
    ensures Fold(Next, s, Round(id, |s.clients[id].send.buffer| - 1)) ==
            Some(WithClient(s, id, Emptied(s.clients[id], AtSelect)))
  {
    var c, n := s.clients[id], |s.clients[id].send.buffer| - 1;
    RoundStarts(s, id);
    var s1 := Fold(Next, s, [Receive(id)] + [CountBacklog(id)]).value;
    RoundEnds(s1, id, n);
    FoldBoth(Next, s, [Receive(id)] + [CountBacklog(id)], Drains(id, n) + [EndDrain(id)]);
    TakenInTwo(s, s1, id, Draining(n));
    assert s1.clients[id := Emptied(s1.clients[id], AtSelect)] == s.clients[id := Emptied(c, AtSelect)];
  }

  /** MAIN RESULT. From every reachable state a waiting writer with messages can go once round, which
      takes everything buffered, in order, leaves it waiting again and changes nothing else. */
  lemma WriterTakesAll(run: seq<Action>, s: State, id: Id)
    requires Run(run) == Some(s) && id in s.clients
    requires s.clients[id].writer.AtSelect? && s.clients[id].send.buffer != []
    ensures Run(run + Round(id, |s.clients[id].send.buffer| - 1)) ==
            Some(WithClient(s, id, Emptied(s.clients[id], AtSelect)))
  {
    NoFaultEver(run, s);
    RoundTakesAll(s, id);
    RunOfBoth(run, s, Round(id, |s.clients[id].send.buffer| - 1));
  }

  /** A waiting writer whose channel is closed and empty can only return, and knows why. */
  lemma WriterSeesClose(run: seq<Action>, s: State, id: Id)
    requires Run(run) == Some(s) && id in s.clients
    requires s.clients[id].writer.AtSelect? && s.clients[id].send == Channel([], true)
    ensures Run(run + [Receive(id)]) == Some(WithClient(s, id, s.clients[id].(writer := Returned(true))))
  {
    NoFaultEver(run, s);
    RunOfOne(run, s, Receive(id));
  }

  /** A writer whose connection fails returns at any point, and no writer that has returned acts again. */
  lemma FailedWriterStops(run: seq<Action>, s: State, id: Id)
    requires Run(run) == Some(s) && id in s.clients
    ensures if s.clients[id].writer.Returned? then
              forall a :: a in [Receive(id), CountBacklog(id), DrainOne(id), EndDrain(id), ConnectionFails(id)] ==>
                !Enabled(s, a)
            else
              Run(run + [ConnectionFails(id)]) == Some(WithClient(s, id, s.clients[id].(writer := Returned(false))))
  {
    NoFaultEver(run, s);
    if !s.clients[id].writer.Returned? {
      RunOfOne(run, s, ConnectionFails(id));
    }
  }

  lemma {:induction false} QueueIsBounded(run: seq<Action>, s: State)
    requires Run(run) == Some(s)
    ensures |s.queue| <= 256
  {
    if run != [] {
      QueueIsBounded(run[..|run| - 1], Run(run[..|run| - 1]).value);
    }
  }

  /** Publishers are held up exactly by 256 messages the hub has not taken. */
  lemma PublishesExactly(run: seq<Action>, s: State, m: Message)
    requires Run(run) == Some(s)
    ensures Run(run + [Publish(m)]) == if |s.queue| == 256 then None else Some(s.(queue := s.queue + [m]))
  {
    NoFaultEver(run, s);
    QueueIsBounded(run, s);
    RunOfOne(run, s, Publish(m));
  }

  /** At its select the hub takes any new client: it is registered with an empty open channel, its
      writer waiting, and is served from here on. */
  lemma RegistersAlways(run: seq<Action>, s: State, id: Id)
    requires Run(run) == Some(s) && s.phase.Select? && id !in s.clients
    ensures Run(run + [Register(id)]) ==
            Some(s.(clients := s.clients[id := Client(Channel([], false), AtSelect, [], |s.log|, None)],
                    registered := s.registered + {id}))
  {
    NoFaultEver(run, s);
    RunOfOne(run, s, Register(id));
  }

  /** At its select the hub takes any known client's departure: a registered one is closed with what is
      buffered kept for its writer, for one that is gone already nothing happens. */
  lemma UnregistersAlways(run: seq<Action>, s: State, id: Id)
    requires Run(run) == Some(s) && s.phase.Select? && id in s.clients
    ensures var c := s.clients[id];
            Run(run + [Unregister(id)]) ==
            Some(if id !in s.registered then s
                 else s.(clients := s.clients[id := c.(send := Channel(c.send.buffer, true), leftAt := Some(|s.log|))],
                         registered := s.registered - {id}))
  {
    NoFaultEver(run, s);
    RunOfOne(run, s, Unregister(id));
  }

  /** The faults that never happen would show: sending on or closing a closed channel, and a counted
      receive from an empty one, open or closed. */
  lemma FaultsWouldShow(s: State, id: Id)
    requires s.fault.None? && id in s.clients
    ensures Enabled(s, Offer(id)) && s.clients[id].send.closed ==> Step(s, Offer(id)).fault == Some(SendOnClosed)
    ensures Enabled(s, Unregister(id)) && id in s.registered && s.clients[id].send.closed ==>
              Step(s, Unregister(id)).fault == Some(CloseOfClosed)
    ensures Enabled(s, DrainOne(id)) && s.clients[id].send.buffer == [] ==>
              Step(s, DrainOne(id)).fault == Some(if s.clients[id].send.closed then ReadPastClose else ReceiveBlocks)
  {
  }

  // ---- a whole broadcast

  function Offers(order: seq<Id>): seq<Action> {
    if order == [] then [] else [Offer(order[0])] + Offers(order[1..])
  }

  /** The clients after those listed have been offered the message: queued, or closed when full. */
  function AfterOffers(clients: map<Id, Client>, order: seq<Id>, m: Message, at: nat): map<Id, Client> {
    map id | id in clients :: if id !in order then clients[id]
      else if |clients[id].send.buffer| < 256 then
        clients[id].(send := Channel(clients[id].send.buffer + [m], clients[id].send.closed))
      else clients[id].(send := Channel(clients[id].send.buffer, true), leftAt := Some(at))
  }

  function StillIn(s: State, order: seq<Id>): set<Id> {
    set id | id in s.registered && !(id in order && id in s.clients && |s.clients[id].send.buffer| >= 256)
  }

  ghost predicate CanOffer(s: State, order: seq<Id>) {
    && s.fault.None? && s.phase.Ranging? && |s.log| > 0
    && (forall i :: 0 <= i < |order| ==>
          order[i] in s.phase.rest && order[i] in s.clients && !s.clients[order[i]].send.closed)
    && (forall i, j :: 0 <= i < j < |order| ==> order[i] != order[j])
  }

  lemma {:induction false} OffersServe(s: State, order: seq<Id>)
    requires CanOffer(s, order)
    ensures Fold(Next, s, Offers(order)).Some?
    ensures var s' := Fold(Next, s, Offers(order)).value;
            && s'.clients == AfterOffers(s.clients, order, s.phase.message, |s.log| - 1)
            && s'.registered == StillIn(s, order)
            && s'.phase == Ranging(s.phase.message, s.phase.rest - set id | id in order)
            && s'.queue == s.queue && s'.log == s.log && s'.fault.None?
    decreases order
  {
    if order != [] {
      var id, rest := order[0], order[1..];
      OfferEffect(s, id);
      var s1 := Step(s, Offer(id));
      FoldFirst(Next, s, Offer(id), Offers(rest));
      assert id !in rest && forall x :: x in order <==> x == id || x in rest;
      OffersServe(s1, rest);
      OfferThenRest(s, s1, order, |s.log| - 1);
    }
  }

  lemma OfferThenRest(s: State, s1: State, order: seq<Id>, at: nat)
    requires order != [] && CanOffer(s, order) && at == |s.log| - 1
    requires var c := s.clients[order[0]];
             && s1.clients == s.clients[order[0] := OfferedClient(c, s.phase.message, at)]
             && s1.registered == if |c.send.buffer| < CAPACITY then s.registered else s.registered - {order[0]}
    ensures AfterOffers(s1.clients, order[1..], s.phase.message, at) ==
            AfterOffers(s.clients, order, s.phase.message, at)
    ensures StillIn(s1, order[1..]) == StillIn(s, order)
  {
    var id, rest := order[0], order[1..];
    assert id !in rest && forall x :: x in order <==> x == id || x in rest;
  }

  ghost predicate Lists(order: seq<Id>, ids: set<Id>) {
    && (forall id :: id in order <==> id in ids)
    && forall i, j :: 0 <= i < j < |order| ==> order[i] != order[j]
  }

  lemma RangeEnds(s: State, order: seq<Id>)
    requires CanOffer(s, order) && s.phase.rest == set id | id in order
    ensures Fold(Next, s, Offers(order) + [EndRange]) ==
            Some(State(AfterOffers(s.clients, order, s.phase.message, |s.log| - 1), StillIn(s, order), Select,
                       s.queue, s.log, None))
  {
    OffersServe(s, order);
    var s' := Fold(Next, s, Offers(order)).value;
    assert s'.phase.rest == {};
    FoldOne(Next, s', EndRange);
    FoldBoth(Next, s, Offers(order), [EndRange]);
  }

  function Served(s: State, order: seq<Id>): State
    requires s.queue != []
  {
    State(AfterOffers(s.clients, order, s.queue[0], |s.log|), StillIn(s, order), Select,
          s.queue[1..], s.log + [s.queue[0]], None)
  }

  lemma RangeFromSelect(s: State, order: seq<Id>)
    requires s.fault.None? && s.phase.Select? && s.queue != [] && Lists(order, s.registered)
    requires forall id :: id in s.registered ==> id in s.clients && !s.clients[id].send.closed
    ensures Fold(Next, s, [TakeBroadcast] + (Offers(order) + [EndRange])) == Some(Served(s, order))
  {
    var s1 := Step(s, TakeBroadcast);
    assert s1.phase.rest == set id | id in order;
    RangeEnds(s1, order);
    assert StillIn(s1, order) == StillIn(s, order);
    FoldFirst(Next, s, TakeBroadcast, Offers(order) + [EndRange]);
  }

  /** MAIN RESULT. From every reachable state in which the hub is at its select with a message waiting,
      it can take the message and range over the registered clients in any order, and comes back to
      its select with exactly those served that had room and the others closed and dropped. */
  lemma BroadcastCompletes(run: seq<Action>, s: State, order: seq<Id>)
    requires Run(run) == Some(s) && s.phase.Select? && s.queue != [] && Lists(order, s.registered)
    ensures Run(run + ([TakeBroadcast] + (Offers(order) + [EndRange]))) == Some(Served(s, order))
  {
    NoFaultEver(run, s);
    RangeFromSelect(s, order);
    RunOfBoth(run, s, [TakeBroadcast] + (Offers(order) + [EndRange]));
  }
}
