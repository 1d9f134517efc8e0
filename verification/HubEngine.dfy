/** WebSocket hub: the event loop's bodies, updating the client map and the channels in place. */
module HubEngine {
  import opened HubProtocol

  /** A client's outgoing channel. Sending on or closing a closed channel is fatal in Go, so both
      ask for an open one. */
  class SendChannel {
    var buffer: seq<Message>
    var closed: bool

    constructor ()
      ensures View() == Channel([], false)
    {
      buffer, closed := [], false;
    }

    ghost function View(): Channel
      reads this
    {
      Channel(buffer, closed)
    }

    /** The non-blocking send: refused when the buffer is full. */
    method Offer(m: Message) returns (sent: bool)
      requires !closed
      modifies this
      ensures sent == TrySend(old(View()), m).Done?
      ensures View() == if sent then TrySend(old(View()), m).channel else old(View())
    {
      sent := |buffer| < CAPACITY;
      if sent {
        buffer := buffer + [m];
      }
    }

    method Close()
      requires !closed
      modifies this
      ensures View() == HubProtocol.Close(old(View())).channel
    {
      closed := true;
    }
  }

  class Hub {
    var clients: map<Id, SendChannel>

    /** Registered clients have channels of their own, all open. */
    ghost predicate Valid()
      reads this, clients.Values
    {
      && (forall id :: id in clients ==> !clients[id].closed)
      && (forall a, b :: a in clients && b in clients && a != b ==> clients[a] != clients[b])
    }

    constructor ()
      ensures Valid() && clients == map[]
    {
      clients := map[];
    }

    method OnRegister(id: Id, send: SendChannel)
      requires Valid() && !send.closed && send !in clients.Values
      modifies this
      ensures Valid() && clients == old(clients)[id := send]
    {
      clients := clients[id := send];
    }

    /** Unregistering twice, or after an eviction, does nothing. */
    method OnUnregister(id: Id)
      requires Valid()
      modifies this, clients.Values
      ensures Valid() && clients == old(clients) - {id}
      ensures id in old(clients) ==> old(clients)[id].View() == HubProtocol.Close(old(clients[id].View())).channel
      ensures forall other :: other in clients ==> clients[other].View() == old(clients[other].View())
    {
      if id in clients {
        var send := clients[id];
        clients := clients - {id};
        send.Close();
      }
    }

    static ghost predicate Distinct(all: map<Id, SendChannel>) {
      forall a, b :: a in all && b in all && a != b ==> all[a] != all[b]
    }

    static ghost function Channels(all: map<Id, SendChannel>): map<Id, Channel>
      reads all.Values
    {
      map id | id in all :: all[id].View()
    }

    /** The body of the range loop: a send that does not wait, or else eviction. */
    method SendOrEvict(id: Id, message: Message, ghost all: map<Id, SendChannel>)
      requires Valid() && id in clients && Distinct(all) && id in all && all[id] == clients[id]
      modifies this, clients[id]
      ensures Valid()
      ensures Channels(all) == old(Channels(all))[id := Offered(old(Channels(all))[id], message)]
      ensures clients == if |old(Channels(all))[id].buffer| < CAPACITY then old(clients) else old(clients) - {id}
    {
      var send := clients[id];
      var sent := send.Offer(message);
      if !sent {
        send.Close();
        clients := clients - {id};
      }
    }

    /** Every registered client is offered the message; the ones with a full buffer are closed and
        dropped, all others stay and have it queued. */
    method OnBroadcast(message: Message)
      requires Valid()
      modifies this, clients.Values
      ensures Valid()
      ensures Channels(old(clients)) == Served(old(Channels(clients)), {}, message)
      ensures clients == Kept(old(clients), old(Channels(clients)), {})
    {
      ghost var all, before := clients, Channels(clients);
      var rest := clients.Keys;
      while rest != {}
        invariant Valid() && rest <= all.Keys
        invariant Channels(all) == Served(before, rest, message)
        invariant clients == Kept(all, before, rest)
        decreases rest
      {
        var id :| id in rest;
        ServeOne(all, before, rest, id, message);
        SendOrEvict(id, message, all);
        rest := rest - {id};
      }
    }
  }

  /** The channels after all but the `rest` have been offered the message. */
  function Served(before: map<Id, Channel>, rest: set<Id>, m: Message): map<Id, Channel> {
    map id | id in before :: if id in rest then before[id] else Offered(before[id], m)
  }

  /** The clients still registered then: those to come, and those that had room. */
  function Kept<T>(all: map<Id, T>, before: map<Id, Channel>, rest: set<Id>): map<Id, T>
    requires all.Keys == before.Keys
  {
    map id | id in all && (id in rest || |before[id].buffer| < CAPACITY) :: all[id]
  }

  lemma ServeOne<T>(all: map<Id, T>, before: map<Id, Channel>, rest: set<Id>, id: Id, m: Message)
    requires all.Keys == before.Keys && id in rest && rest <= all.Keys
    ensures Served(before, rest, m)[id] == before[id] && Kept(all, before, rest)[id] == all[id]
    ensures Served(before, rest - {id}, m) == Served(before, rest, m)[id := Offered(before[id], m)]
    ensures Kept(all, before, rest - {id}) ==
            if |before[id].buffer| < CAPACITY then Kept(all, before, rest) else Kept(all, before, rest) - {id}
  {
  }

  ghost predicate AllOpen(s: State, order: seq<Id>) {
    && s.fault.None? && s.phase.Ranging? && |s.log| > 0
    && (forall i :: 0 <= i < |order| ==>
          order[i] in s.phase.rest && order[i] in s.clients && !s.clients[order[i]].send.closed)
    && (forall i, j :: 0 <= i < j < |order| ==> order[i] != order[j])
  }

  /** Offering to the listed clients one after the other, no writer intervening. */
  ghost function OfferAll(s: State, order: seq<Id>): State
    requires AllOpen(s, order)
    decreases order
  {
    if order == [] then s
    else
      OfferEffect(s, order[0]);
      OfferAll(OfferTo(s, order[0]), order[1..])
  }

  /** Whatever order the hub ranges in, the protocol ends where `Hub.OnBroadcast` does: each listed
      client's channel is offered the message once, and exactly the full ones are dropped. */
  lemma {:induction false} RangeMatchesBroadcast(s: State, order: seq<Id>)
    requires AllOpen(s, order)
    ensures var s', m := OfferAll(s, order), s.phase.message;
            && s'.clients.Keys == s.clients.Keys
            && (forall id :: id in s.clients ==>
                  s'.clients[id].send == if id in order then Offered(s.clients[id].send, m) else s.clients[id].send)
            && (forall id :: id in s'.registered <==>
                  id in s.registered && (id in s.clients && id in order ==> |s.clients[id].send.buffer| < CAPACITY))
    decreases order
  {
    if order != [] {
      var id, rest := order[0], order[1..];
      OfferEffect(s, id);
      var s1 := OfferTo(s, id);
      RangeMatchesBroadcast(s1, rest);
      assert id !in rest;
      assert forall x :: x in order <==> x == id || x in rest;
    }
  }
}
