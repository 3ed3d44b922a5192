/**
  The pooled inbound socket: one actor that owns the routes, the sessions that hold them, and the
  flows opened so far. Here its reactions are functions on table values; `PooledUdpEndpoint.dfy`
  has the object that updates the tables in place.
 */
module PooledEndpoint {
  import opened Wrappers
  import opened Bytes
  import Stun

  type Ufrag = seq<byte>
  type SessionId = string
  datatype SocketAddr = SocketAddr(ip: seq<byte>, port: u16)

  /** A relay task: `peer` is what its socket is connected to, `client` whom it answers. */
  datatype Relay = Relay(id: nat, peer: SocketAddr, client: SocketAddr)
  datatype Client = Client(relay: Relay, ufrag: Ufrag)

  datatype Tables = Tables(
    routes: map<Ufrag, SocketAddr>,
    sessions: map<SessionId, Ufrag>,
    clients: map<SocketAddr, Client>)

  const EMPTY: Tables := Tables(map[], map[], map[])

  datatype ControlMsg =
    | AddRoute(session: SessionId, ufrag: Ufrag, target: SocketAddr)
    | RemoveSession(session: SessionId)

  /** One datagram written to a target, on behalf of a flow opened with `ufrag`. */
  datatype Sent = Sent(ufrag: Ufrag, target: SocketAddr, data: seq<byte>)

  /** What one `ProxyClient::send` met: the socket write comes first, the relay's channel second. */
  datatype SendOutcome = SocketFailed | ControlClosed | Delivered

  /** What the network does while one datagram is handled. */
  datatype Net = Net(fast: SendOutcome, alloc: Option<nat>, open: SendOutcome)

  // ------------------------------------------------------------------ control messages

  function DropClients(clients: map<SocketAddr, Client>, u: Ufrag): map<SocketAddr, Client> {
    map a | a in clients && clients[a].ufrag != u :: clients[a]
  }

  function ForgetIfUnused(t: Tables, u: Ufrag): Tables {
    if u in t.sessions.Values then t
    else t.(routes := t.routes - {u}, clients := DropClients(t.clients, u))
  }

  function OnControl(t: Tables, msg: ControlMsg): Tables {
    match msg
    case AddRoute(s, u, target) =>
      var rerouted := u in t.routes && t.routes[u] != target;
      var t1 := Tables(t.routes[u := target], t.sessions[s := u],
                       if rerouted then DropClients(t.clients, u) else t.clients);
      if s in t.sessions && t.sessions[s] != u then ForgetIfUnused(t1, t.sessions[s]) else t1
    case RemoveSession(s) =>
      if s in t.sessions then ForgetIfUnused(t.(sessions := t.sessions - {s}), t.sessions[s]) else t
  }

  /** Which sessions there are after a message. */
  function SessionsAfter(sessions: set<SessionId>, msg: ControlMsg): set<SessionId> {
    if msg.AddRoute? then sessions + {msg.session} else sessions - {msg.session}
  }

  lemma ControlChangesOneSession(t: Tables, msg: ControlMsg)
    ensures OnControl(t, msg).sessions.Keys == SessionsAfter(t.sessions.Keys, msg)
  {
  }

  /** What the endpoint acknowledges a message with. */
  datatype Reply = RouteAdded | SessionRemoved(known: bool)

  function ReplyTo(t: Tables, msg: ControlMsg): Reply {
    if msg.AddRoute? then RouteAdded else SessionRemoved(msg.session in t.sessions)
  }

  // ------------------------------------------------------------------ relay reports

  /** A `ClientEnded` for `a`; `closed` is `is_closed` of the relay the table has there. */
  function OnClientEnded(t: Tables, a: SocketAddr, closed: bool): Tables {
    if a in t.clients && closed then t.(clients := t.clients - {a}) else t
  }

  // ------------------------------------------------------------------ datagrams

  /** The ufrag and target a datagram of no known flow is routed by. */
  function Lookup(t: Tables, data: seq<byte>): Option<(Ufrag, SocketAddr)> {
    match Stun.UfragIn(data)
    case None => None
    case Some(u) => if u in t.routes then Some((u, t.routes[u])) else None
  }

  function Written(c: Client, data: seq<byte>, outcome: SendOutcome): seq<Sent> {
    if outcome == SocketFailed then [] else [Sent(c.ufrag, c.relay.peer, data)]
  }

  /** Opens a flow for a datagram whose address has none. */
  function OpenFlow(t: Tables, data: seq<byte>, from: SocketAddr, alloc: Option<nat>, open: SendOutcome)
    : (Tables, seq<Sent>)
  {
    match (Lookup(t, data), alloc)
    case (Some((u, target)), Some(id)) =>
      var c := Client(Relay(id, target, from), u);
      (if open == Delivered then t.(clients := t.clients[from := c]) else t, Written(c, data, open))
    case _ => (t, [])
  }

  function OnDatagram(t: Tables, data: seq<byte>, from: SocketAddr, net: Net): (Tables, seq<Sent>) {
    if from !in t.clients then OpenFlow(t, data, from, net.alloc, net.open)
    else
      var first := Written(t.clients[from], data, net.fast);
      if net.fast == Delivered then (t, first)
      else
        var (t', second) := OpenFlow(t.(clients := t.clients - {from}), data, from, net.alloc, net.open);
        (t', first + second)
  }

  // ------------------------------------------------------------------ the joint invariant

  ghost predicate ClientAgrees(t: Tables, a: SocketAddr)
    requires a in t.clients
  {
    var c := t.clients[a];
    && c.relay.client == a
    && c.ufrag in t.routes
    && c.relay.peer == t.routes[c.ufrag]
  }

  /** A route per held ufrag and no other, and every open flow goes where its ufrag is routed. */
  ghost predicate Consistent(t: Tables) {
    && t.routes.Keys == t.sessions.Values
    && forall a <- t.clients :: ClientAgrees(t, a)
  }

  lemma ForgetKeepsConsistency(t: Tables, u: Ufrag)
    requires t.sessions.Values <= t.routes.Keys <= t.sessions.Values + {u}
    requires forall a <- t.clients :: ClientAgrees(t, a)
    ensures Consistent(ForgetIfUnused(t, u))
  {
    var t' := ForgetIfUnused(t, u);
    assert t'.routes.Keys == t.sessions.Values;
    forall a <- t'.clients ensures ClientAgrees(t', a) {
      assert ClientAgrees(t, a);
    }
  }

  lemma ValuesAfterInsert(m: map<SessionId, Ufrag>, s: SessionId, u: Ufrag)
    ensures m[s := u].Values <= m.Values + {u}
    ensures u in m[s := u].Values
    ensures m.Values <= m[s := u].Values + (if s in m then {m[s]} else {})
  {
    assert m[s := u][s] == u;
    forall v <- m.Values ensures v in m[s := u].Values || (s in m && v == m[s]) {
      var x :| x in m && m[x] == v;
      assert x != s ==> m[s := u][x] == v;
    }
  }

  lemma ValuesAfterRemove(m: map<SessionId, Ufrag>, s: SessionId)
    requires s in m
    ensures (m - {s}).Values <= m.Values <= (m - {s}).Values + {m[s]}
  {
    forall v <- m.Values ensures v in (m - {s}).Values || v == m[s] {
      var x :| x in m && m[x] == v;
      assert x != s ==> (m - {s})[x] == v;
    }
  }

  lemma ControlKeepsConsistency(t: Tables, msg: ControlMsg)
    requires Consistent(t)
    ensures Consistent(OnControl(t, msg))
  {
    match msg
    case AddRoute(s, u, target) =>
      ValuesAfterInsert(t.sessions, s, u);
      var rerouted := u in t.routes && t.routes[u] != target;
      var t1 := Tables(t.routes[u := target], t.sessions[s := u],
                       if rerouted then DropClients(t.clients, u) else t.clients);
      forall a <- t1.clients ensures ClientAgrees(t1, a) {
        assert ClientAgrees(t, a);
      }
      if s in t.sessions && t.sessions[s] != u {
        ForgetKeepsConsistency(t1, t.sessions[s]);
      }
    case RemoveSession(s) =>
      if s in t.sessions {
        ValuesAfterRemove(t.sessions, s);
        var t1 := t.(sessions := t.sessions - {s});
        forall a <- t1.clients ensures ClientAgrees(t1, a) {
          assert ClientAgrees(t, a);
        }
        ForgetKeepsConsistency(t1, t.sessions[s]);
      }
  }

  lemma ClientRemovalKeepsConsistency(t: Tables, a: SocketAddr)
    requires Consistent(t)
    ensures Consistent(t.(clients := t.clients - {a}))
  {
    var t' := t.(clients := t.clients - {a});
    forall b <- t'.clients ensures ClientAgrees(t', b) {
      assert ClientAgrees(t, b);
    }
  }

  lemma OpenFlowKeepsConsistency(t: Tables, data: seq<byte>, from: SocketAddr, alloc: Option<nat>, open: SendOutcome)
    requires Consistent(t)
    ensures Consistent(OpenFlow(t, data, from, alloc, open).0)
  {
    var t' := OpenFlow(t, data, from, alloc, open).0;
    forall b <- t'.clients ensures ClientAgrees(t', b) {
      assert b in t.clients ==> ClientAgrees(t, b);
    }
  }

  lemma DatagramKeepsConsistency(t: Tables, data: seq<byte>, from: SocketAddr, net: Net)
    requires Consistent(t)
    ensures Consistent(OnDatagram(t, data, from, net).0)
  {
    ClientRemovalKeepsConsistency(t, from);
    OpenFlowKeepsConsistency(t, data, from, net.alloc, net.open);
    OpenFlowKeepsConsistency(t.(clients := t.clients - {from}), data, from, net.alloc, net.open);
  }

  // ------------------------------------------------------------------ what one message may touch

  /** A flow outlives a control message exactly when its route does. */
  lemma FlowFollowsItsRoute(t: Tables, msg: ControlMsg, a: SocketAddr)
    requires Consistent(t) && a in t.clients
    ensures var t', c := OnControl(t, msg), t.clients[a];
      (a in t'.clients <==> c.ufrag in t'.routes && t'.routes[c.ufrag] == t.routes[c.ufrag])
      && (a in t'.clients ==> t'.clients[a] == c)
  {
    assert ClientAgrees(t, a);
    assert t.clients[a].ufrag in t.sessions.Values;
    ControlKeepsConsistency(t, msg);
    if msg.AddRoute? {
      ValuesAfterInsert(t.sessions, msg.session, msg.ufrag);
    } else if msg.session in t.sessions {
      ValuesAfterRemove(t.sessions, msg.session);
    }
  }

  /**
    Removing a session touches no other session, no route but its own ufrag's, and no flow of
    another ufrag; it touches nothing else at all while another session holds the ufrag.
   */
  lemma RemovalIsIsolated(t: Tables, s: SessionId)
    requires Consistent(t)
    ensures var t' := OnControl(t, RemoveSession(s));
      && t'.sessions == t.sessions - {s}
      && (s !in t.sessions ==> t' == t)
      && (s in t.sessions ==>
            var u := t.sessions[s];
            && t'.routes - {u} == t.routes - {u}
            && (forall a <- t.clients :: t.clients[a].ufrag != u ==> a in t'.clients && t'.clients[a] == t.clients[a])
            && ((exists other :: other in t.sessions && other != s && t.sessions[other] == u) ==>
                  t'.routes == t.routes && t'.clients == t.clients)
            && ((forall other <- t.sessions :: other != s ==> t.sessions[other] != u) ==>
                  u !in t'.routes && forall a <- t'.clients :: t'.clients[a].ufrag != u))
  {
    if s in t.sessions {
      var u := t.sessions[s];
      var left := t.sessions - {s};
      if other :| other in t.sessions && other != s && t.sessions[other] == u {
        assert left[other] == u;
      }
    } else {
      assert t.sessions - {s} == t.sessions;
    }
  }

  /**
    Removing what was just added restores the tables exactly when the session was unknown and the
    ufrag was unrouted or already routed to the same target.
   */
  lemma AddThenRemoveRestores(t: Tables, s: SessionId, u: Ufrag, target: SocketAddr)
    requires Consistent(t)
    ensures OnControl(OnControl(t, AddRoute(s, u, target)), RemoveSession(s)) == t
       <==> s !in t.sessions && (u in t.routes ==> t.routes[u] == target)
  {
    var t1 := OnControl(t, AddRoute(s, u, target));
    var t2 := OnControl(t1, RemoveSession(s));
    assert t1.sessions == t.sessions[s := u];
    assert s !in t2.sessions;
    if s !in t.sessions {
      assert t1.sessions - {s} == t.sessions;
      if u in t.routes {
        assert u in t.sessions.Values;
        assert t2.routes[u] == target;
        assert t.routes[u] == target ==> t1.routes == t.routes;
      } else {
        assert t1.routes - {u} == t.routes;
        assert forall a <- t.clients :: ClientAgrees(t, a);
        assert DropClients(t.clients, u) == t.clients;
      }
    }
  }

  // ------------------------------------------------------------------ what becomes of a datagram

  lemma LookupFindsRequests(t: Tables, data: seq<byte>)
    ensures Lookup(t, data).Some? <==> exists u :: u in t.routes && Stun.IsRequestFor(data, u)
    ensures forall u :: u in t.routes && Stun.IsRequestFor(data, u) ==> Lookup(t, data) == Some((u, t.routes[u]))
  {
    forall u ensures Stun.UfragIn(data) == Some(u) <==> Stun.IsRequestFor(data, u) {
      Stun.ParserMeetsGrammar(data, u);
    }
  }

  /** The datagram's address has a flow, and that flow took the datagram. */
  predicate TakenByFlow(t: Tables, from: SocketAddr, net: Net) {
    from in t.clients && net.fast == Delivered
  }

  /** What the flow of the address, if there is one, makes of the datagram. */
  function FlowWrites(t: Tables, data: seq<byte>, from: SocketAddr, net: Net): seq<Sent> {
    if from in t.clients then Written(t.clients[from], data, net.fast) else []
  }

  /** A flow that takes the datagram writes it once, and nothing else happens. */
  lemma FlowTakesDatagram(t: Tables, data: seq<byte>, from: SocketAddr, net: Net)
    requires TakenByFlow(t, from, net)
    ensures OnDatagram(t, data, from, net)
         == (t, [Sent(t.clients[from].ufrag, t.clients[from].relay.peer, data)])
  {
  }

  /**
    A datagram that no flow takes and that is no request for a routed ufrag is dropped: at most its
    own flow goes, and nothing is sent but what that flow wrote before it failed.
   */
  lemma UnroutableIsDropped(t: Tables, data: seq<byte>, from: SocketAddr, net: Net)
    requires !TakenByFlow(t, from, net)
    requires forall u :: u in t.routes ==> !Stun.IsRequestFor(data, u)
    ensures OnDatagram(t, data, from, net)
         == (t.(clients := t.clients - {from}), FlowWrites(t, data, from, net))
    ensures from !in t.clients ==> OnDatagram(t, data, from, net) == (t, [])
  {
    LookupFindsRequests(t, data);
    assert Lookup(t, data) == None;
    assert FlowWrites(t, data, from, net) + [] == FlowWrites(t, data, from, net);
    if from !in t.clients {
      assert t.clients - {from} == t.clients;
    }
  }

  /**
    A request for a routed ufrag that no flow takes is routed afresh, known address or not: it is
    written to the target of its route as soon as a socket could be connected, and the new flow takes
    the place of the old one iff its relay took the note.
   */
  lemma RequestIsRouted(t: Tables, data: seq<byte>, from: SocketAddr, net: Net, u: Ufrag)
    requires !TakenByFlow(t, from, net) && u in t.routes && Stun.IsRequestFor(data, u)
    ensures OnDatagram(t, data, from, net).1
         == FlowWrites(t, data, from, net)
          + if net.alloc.Some? && net.open != SocketFailed then [Sent(u, t.routes[u], data)] else []
    ensures OnDatagram(t, data, from, net).0
         == t.(clients := if net.alloc.Some? && net.open == Delivered
                 then t.clients[from := Client(Relay(net.alloc.value, t.routes[u], from), u)]
                 else t.clients - {from})
  {
    LookupFindsRequests(t, data);
    if from !in t.clients {
      assert t.clients - {from} == t.clients;
    } else {
      var c := Client(Relay(if net.alloc.Some? then net.alloc.value else 0, t.routes[u], from), u);
      assert (t.clients - {from})[from := c] == t.clients[from := c];
    }
  }

  // ------------------------------------------------------------------ how often a datagram goes out

  lemma WritesOfDatagram(t: Tables, data: seq<byte>, from: SocketAddr, net: Net)
    ensures |OnDatagram(t, data, from, net).1| <= 2
    ensures |OnDatagram(t, data, from, net).1| == 2
       <==> && from in t.clients && net.fast == ControlClosed && Lookup(t, data).Some?
            && net.alloc.Some? && net.open != SocketFailed
  {
  }

  /**
    A datagram is written to a target at most twice. It cannot be written twice, whatever the network
    does, exactly when its address has no flow or it is no request for a routed ufrag. Otherwise it is
    written twice exactly when the flow's relay has closed its channel by the time it is to be told of
    the first write, and the datagram opens a flow again.
   */
  lemma WrittenTwiceExactlyWhen(t: Tables, data: seq<byte>, from: SocketAddr)
    ensures forall net :: |OnDatagram(t, data, from, net).1| <= 2
    ensures (forall net :: |OnDatagram(t, data, from, net).1| <= 1)
       <==> from !in t.clients || !exists u :: u in t.routes && Stun.IsRequestFor(data, u)
    ensures forall net :: (|OnDatagram(t, data, from, net).1| == 2
       <==> && from in t.clients && net.fast == ControlClosed
            && (exists u :: u in t.routes && Stun.IsRequestFor(data, u))
            && net.alloc.Some? && net.open != SocketFailed)
  {
    LookupFindsRequests(t, data);
    forall net {
      WritesOfDatagram(t, data, from, net);
    }
    var meetsClosing := Net(ControlClosed, Some(0), Delivered);
    assert from in t.clients && Lookup(t, data).Some? ==> |OnDatagram(t, data, from, meetsClosing).1| == 2;
  }

  /** A connectivity check for the ufrag `a`. */
  lemma SomeRequest() returns (u: Ufrag, data: seq<byte>)
    ensures Stun.UfragIn(data) == Some(u)
  {
    u := [0x61];
    var tid: seq<byte> := [7, 7, 7, 7, 7, 7, 7, 7, 7, 7, 7, 7];
    var name: Stun.WireAttr := Stun.Attr(Stun.ATTR_USERNAME, u, [0, 0, 0]);
    assert Stun.EncodeAttrs([name]) == Stun.EncodeAttr(name);
    data := Stun.EncodeRequest(tid, [name]);
    Stun.RoundTrip(tid, [name]);
    assert Stun.BeforeColon(u) == u;
  }
}
