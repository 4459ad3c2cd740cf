/** The websocket hub of main.go: the registry of live clients, each with a
    buffered send queue of capacity 256 (main.go:149-155), and the three cases
    of Hub.run (main.go:67-92) as sequential state updates. A client is an
    integer id; its queue is a sequence of messages plus a closed flag. The
    order in which run visits the clients of one broadcast is left open, as Go
    leaves map iteration order open. */
module Broadcast {

  /** make(chan []byte, 256) */
  const Capacity: nat := 256

  /** The {"type": ..., "data": ...} object broadcastUpdate marshals. */
  datatype Envelope<D> = Envelope(kind: string, data: D)

  /** The live client set, the queue of every client created so far, and the
      clients whose queue has been closed. */
  datatype HubState<M> = HubState(clients: set<nat>, queues: map<nat, seq<M>>, closed: set<nat>)

  /** Every live client has an open queue, and no queue holds more than it can. */
  ghost predicate Inv<M>(h: HubState<M>) {
    && h.clients <= h.queues.Keys
    && h.closed <= h.queues.Keys
    && h.clients !! h.closed
    && (forall c :: c in h.queues ==> |h.queues[c]| <= Capacity)
  }

  /** case client := <-h.register */
  function Registered<M>(h: HubState<M>, c: nat): HubState<M> {
    h.(clients := h.clients + {c})
  }

  /** case client := <-h.unregister: only a live client is removed and closed. */
  function Unregistered<M>(h: HubState<M>, c: nat): HubState<M> {
    if c in h.clients then h.(clients := h.clients - {c}, closed := h.closed + {c}) else h
  }

  /** case message := <-h.broadcast, after the clients in `done` have been
      offered the message: a client with room got it appended, a full one was
      closed and dropped. */
  function BroadcastTo<M>(h: HubState<M>, m: M, done: set<nat>): HubState<M> {
    HubState(
      set c | c in h.clients && (c !in done || (c in h.queues && |h.queues[c]| < Capacity)),
      map c | c in h.queues ::
        if c in h.clients && c in done && |h.queues[c]| < Capacity then h.queues[c] + [m] else h.queues[c],
      h.closed + set c | c in h.clients && c in done && c in h.queues && |h.queues[c]| >= Capacity)
  }

  /** One more client offered the message: the per-client step of the loop. */
  function Offered<M>(s: HubState<M>, c: nat, m: M, room: bool): HubState<M>
    requires c in s.queues
  {
    if room then s.(queues := s.queues[c := s.queues[c] + [m]])
    else s.(clients := s.clients - {c}, closed := s.closed + {c})
  }

  /** `s` is `h` after the clients in `done` have been offered `m`, stated
      client by client. */
  ghost predicate OfferedTo<M>(h: HubState<M>, m: M, done: set<nat>, s: HubState<M>) {
    && s.queues.Keys == h.queues.Keys
    && (forall c :: c in h.queues ==>
          s.queues[c] == if c in h.clients && c in done && |h.queues[c]| < Capacity then h.queues[c] + [m] else h.queues[c])
    && (forall c :: c in s.clients <==> c in h.clients && (c !in done || (c in h.queues && |h.queues[c]| < Capacity)))
    && (forall c :: c in s.closed <==> c in h.closed || (c in h.clients && c in done && c in h.queues && |h.queues[c]| >= Capacity))
  }

  lemma OfferedToIsBroadcastTo<M>(h: HubState<M>, m: M, done: set<nat>, s: HubState<M>)
    requires OfferedTo(h, m, done, s)
    ensures s == BroadcastTo(h, m, done)
  {
    var b := BroadcastTo(h, m, done);
    assert s.clients == b.clients;
    assert s.closed == b.closed;
    assert s.queues == b.queues;
  }

  lemma OfferNone<M>(h: HubState<M>, m: M)
    ensures OfferedTo(h, m, {}, h)
  {
  }

  lemma OfferStep<M>(h: HubState<M>, m: M, done: set<nat>, s: HubState<M>, c: nat)
    requires Inv(h) && OfferedTo(h, m, done, s) && c in h.clients && c !in done
    ensures c in s.queues && s.queues[c] == h.queues[c]
    ensures OfferedTo(h, m, done + {c}, Offered(s, c, m, |h.queues[c]| < Capacity))
  {
  }

  /** The whole broadcast: every live client offered the message. */
  function Broadcasted<M>(h: HubState<M>, m: M): HubState<M> {
    BroadcastTo(h, m, h.clients)
  }

  /** Several broadcasts in turn. */
  function BroadcastAll<M>(h: HubState<M>, ms: seq<M>): HubState<M>
    decreases |ms|
  {
    if ms == [] then h else Broadcasted(BroadcastAll(h, ms[..|ms| - 1]), ms[|ms| - 1])
  }

  /** Broadcasting `a` and then `b` is broadcasting `a + b`. */
  lemma {:induction false} BroadcastAllAppend<M>(h: HubState<M>, a: seq<M>, b: seq<M>)
    ensures BroadcastAll(h, a + b) == BroadcastAll(BroadcastAll(h, a), b)
    decreases |b|
  {
    if b == [] {
      assert a + b == a;
    } else {
      var n := |b| - 1;
      assert (a + b)[..|a + b| - 1] == a + b[..n];
      BroadcastAllAppend(h, a, b[..n]);
    }
  }

  /** `h1` is `h0` after every message recorded in `sent1` beyond `sent0`. */
  ghost predicate Delivered<M>(h0: HubState<M>, sent0: seq<M>, h1: HubState<M>, sent1: seq<M>) {
    sent0 <= sent1 && h1 == BroadcastAll(h0, sent1[|sent0|..])
  }

  lemma DeliveredNone<M>(h: HubState<M>, sent: seq<M>)
    ensures Delivered(h, sent, h, sent)
  {
    assert sent[|sent|..] == [];
  }

  /** One broadcast of `m` is delivered as `Broadcasted` describes, and back. */
  lemma DeliveredOne<M>(h0: HubState<M>, sent0: seq<M>, h1: HubState<M>, m: M)
    ensures Delivered(h0, sent0, h1, sent0 + [m]) <==> h1 == Broadcasted(h0, m)
  {
    var s := (sent0 + [m])[|sent0|..];
    assert s == [m];
    assert s[..0] == [];
    assert (sent0 + [m])[..|sent0|] == sent0;
    assert BroadcastAll(h0, s) == Broadcasted(BroadcastAll(h0, []), m);
  }

  lemma DeliveredTrans<M>(h0: HubState<M>, sent0: seq<M>, h1: HubState<M>, sent1: seq<M>, h2: HubState<M>, sent2: seq<M>)
    requires Delivered(h0, sent0, h1, sent1) && Delivered(h1, sent1, h2, sent2)
    ensures Delivered(h0, sent0, h2, sent2)
  {
    assert sent2[|sent0|..] == sent1[|sent0|..] + sent2[|sent1|..];
    BroadcastAllAppend(h0, sent1[|sent0|..], sent2[|sent1|..]);
  }

  // ---- what the three cases promise -----------------------------------------------

  lemma RegisterKeepsInv<M>(h: HubState<M>, c: nat)
    requires Inv(h) && c in h.queues && c !in h.closed
    ensures Inv(Registered(h, c))
    ensures Registered(h, c).clients == h.clients + {c}
  {
  }

  /** Unregistering keeps the invariant; a client that is not live (never
      registered, already unregistered or already dropped) changes nothing, so
      no queue is closed twice. */
  lemma UnregisterKeepsInv<M>(h: HubState<M>, c: nat)
    requires Inv(h)
    ensures Inv(Unregistered(h, c))
    ensures c !in Unregistered(h, c).clients
    ensures c in h.clients ==> c in Unregistered(h, c).closed && c !in h.closed
    ensures c !in h.clients ==> Unregistered(h, c) == h
  {
  }

  /** Broadcasting keeps the invariant; every live client with room receives the
      message at the end of its queue and stays; every full one is closed and
      dropped; no other queue changes. */
  lemma BroadcastKeepsInv<M>(h: HubState<M>, m: M)
    requires Inv(h)
    ensures Inv(Broadcasted(h, m))
    ensures forall c :: c in h.clients && |h.queues[c]| < Capacity ==>
              c in Broadcasted(h, m).clients && Broadcasted(h, m).queues[c] == h.queues[c] + [m]
    ensures forall c :: c in h.clients && |h.queues[c]| >= Capacity ==>
              c !in Broadcasted(h, m).clients && c in Broadcasted(h, m).closed
    ensures forall c :: c in h.queues && c !in h.clients ==> Broadcasted(h, m).queues[c] == h.queues[c]
    ensures Broadcasted(h, m).queues.Keys == h.queues.Keys
  {
    var r := Broadcasted(h, m);
    forall c | c in r.queues ensures |r.queues[c]| <= Capacity {
    }
  }

  lemma {:induction false} BroadcastAllKeepsInv<M>(h: HubState<M>, ms: seq<M>)
    requires Inv(h)
    ensures Inv(BroadcastAll(h, ms))
    ensures BroadcastAll(h, ms).queues.Keys == h.queues.Keys
    decreases |ms|
  {
    if ms != [] {
      BroadcastAllKeepsInv(h, ms[..|ms| - 1]);
      BroadcastKeepsInv(BroadcastAll(h, ms[..|ms| - 1]), ms[|ms| - 1]);
    }
  }

  /** A queue is closed only when its client leaves the live set, by any step. */
  lemma ClosedOnlyOnLeaving<M>(h: HubState<M>, c: nat, x: nat, m: M)
    requires Inv(h)
    ensures c in Unregistered(h, x).closed - h.closed ==> c in h.clients - Unregistered(h, x).clients
    ensures c in Broadcasted(h, m).closed - h.closed ==> c in h.clients - Broadcasted(h, m).clients
    ensures Registered(h, x).closed == h.closed
  {
  }

  /** Moving one client from the pending to the done part of a split of `all`. */
  lemma MoveOne(done: set<nat>, pending: set<nat>, all: set<nat>, c: nat)
    requires done !! pending && done + pending == all && c in pending
    ensures (done + {c}) !! (pending - {c}) && (done + {c}) + (pending - {c}) == all
    ensures |pending - {c}| < |pending|
  {
  }

  // ---- the consumer side of a queue --------------------------------------------------

  /** What a receive on a client's queue yields: the oldest message, the end of a
      closed and drained queue, or nothing yet. */
  datatype Received<M> = Message(m: M) | ChannelClosed | WouldBlock

  // ---- the hub -------------------------------------------------------------------

  class Hub<M> {
    var clients: set<nat>
    var queues: map<nat, seq<M>>
    var closed: set<nat>
    /** The id the next client gets. */
    var nextClient: nat
    /** Every message broadcast so far, in order. */
    ghost var sent: seq<M>

    function State(): HubState<M>
      reads this
    {
      HubState(clients, queues, closed)
    }

    ghost predicate Valid()
      reads this
    {
      Inv(State()) && (forall c :: c in queues ==> c < nextClient)
    }

    /** The hub NewServer creates: no clients. */
    constructor()
      ensures Valid()
      ensures State() == HubState({}, map[], {}) && sent == []
    {
      clients := {};
      queues := map[];
      closed := {};
      nextClient := 0;
      sent := [];
    }

    /** handleWebSocket's new Client with an empty, open queue of capacity 256. */
    method NewClient() returns (c: nat)
      requires Valid()
      modifies this
      ensures Valid()
      ensures c !in old(queues)
      ensures State() == old(State()).(queues := old(queues)[c := []])
      ensures sent == old(sent)
    {
      c := nextClient;
      queues := queues[c := []];
      nextClient := nextClient + 1;
    }

    /** h.clients[client] = true. Only a client whose queue is open is ever
        registered: handleWebSocket registers the client it has just created. */
    method Register(c: nat)
      requires Valid() && c in queues && c !in closed
      modifies this
      ensures Valid()
      ensures State() == Registered(old(State()), c)
      ensures sent == old(sent)
    {
      clients := clients + {c};
    }

    /** if present: delete(h.clients, client); close(client.send) */
    method Unregister(c: nat)
      requires Valid()
      modifies this
      ensures Valid()
      ensures State() == Unregistered(old(State()), c)
      ensures sent == old(sent)
    {
      if c in clients {
        clients := clients - {c};
        closed := closed + {c};
      }
    }

    /** select { case client.send <- message: default: close(client.send);
        delete(h.clients, client) } */
    method Offer(c: nat, m: M)
      requires c in queues
      modifies this
      ensures State() == Offered(old(State()), c, m, |old(queues[c])| < Capacity)
      ensures nextClient == old(nextClient) && sent == old(sent)
    {
      if |queues[c]| < Capacity {
        queues := queues[c := queues[c] + [m]];
      } else {
        closed := closed + {c};
        clients := clients - {c};
      }
    }

    /** for client := range h.clients: offer the message to each live client. */
    method Broadcast(m: M)
      requires Valid()
      modifies this
      ensures Valid()
      ensures State() == Broadcasted(old(State()), m)
      ensures sent == old(sent) + [m]
      ensures Delivered(old(State()), old(sent), State(), sent)
    {
      ghost var h0 := State();
      OfferNone(h0, m);
      var pending := clients;
      ghost var done: set<nat> := {};
      while pending != {}
        invariant done !! pending && done + pending == h0.clients
        invariant OfferedTo(h0, m, done, State())
        invariant nextClient == old(nextClient) && sent == old(sent)
        decreases |pending|
      {
        var c :| c in pending;
        OfferStep(h0, m, done, State(), c);
        MoveOne(done, pending, h0.clients, c);
        Offer(c, m);
        pending := pending - {c};
        done := done + {c};
      }
      assert done == h0.clients by {
        assert done + {} == done;
      }
      OfferedToIsBroadcastTo(h0, m, done, State());
      BroadcastKeepsInv(h0, m);
      sent := sent + [m];
      DeliveredOne(h0, old(sent), State(), m);
    }

    /** The writer's receive on its queue: buffered messages first, then the
        end of a closed queue. */
    method Receive(c: nat) returns (r: Received<M>)
      requires Valid() && c in queues
      modifies this
      ensures Valid()
      ensures old(queues[c]) != [] ==> r == Message(old(queues[c])[0]) && queues == old(queues)[c := old(queues[c])[1..]]
      ensures old(queues[c]) == [] && c in closed ==> r == ChannelClosed && queues == old(queues)
      ensures old(queues[c]) == [] && c !in closed ==> r == WouldBlock && queues == old(queues)
      ensures clients == old(clients) && closed == old(closed) && nextClient == old(nextClient) && sent == old(sent)
    {
      if queues[c] != [] {
        r := Message(queues[c][0]);
        queues := queues[c := queues[c][1..]];
      } else if c in closed {
        r := ChannelClosed;
      } else {
        r := WouldBlock;
      }
    }
  }
}
