/**
  The pooled endpoint as the object the source runs: three maps updated in place by one actor.
 */
module PooledUdpEndpoints {
  import opened Wrappers
  import opened Bytes
  import opened PooledEndpoint
  import opened EndpointRuns
  import Stun

  class PooledUdpEndpoint {
    const localPort: u16
    var routes: map<Ufrag, SocketAddr>
    var sessions: map<SessionId, Ufrag>
    var clients: map<SocketAddr, Client>

    /** Every control message handled, and every datagram written to a target, in order. */
    ghost var log: seq<ControlMsg>
    ghost var sent: seq<Sent>

    /** The three maps as one value. */
    ghost function Contents(): Tables
      reads this
    {
      Tables(routes, sessions, clients)
    }

    /** The maps agree with each other and with the control messages handled so far. */
    ghost predicate Valid()
      reads this
    {
      Tracks(log, Contents())
    }

    constructor (port: u16)
      ensures Valid() && localPort == port
      ensures Contents() == EMPTY && log == [] && sent == []
    {
      localPort := port;
      routes, sessions, clients := map[], map[], map[];
      log, sent := [], [];
      new;
      RunTracksControls([]);
    }

    /** The select loop, for the order in which its branches become ready. */
    method Run(inputs: seq<Event>)
      requires Valid() && Contents() == EMPTY && log == [] && sent == []
      modifies this
      ensures Valid()
      ensures Contents() == EndpointRuns.Run(inputs)
      ensures log == Controls(inputs) && sent == Sends(inputs)
    {
      var n := 0;
      while n < |inputs|
        invariant 0 <= n <= |inputs|
        invariant Valid()
        invariant Contents() == EndpointRuns.Run(inputs[..n])
        invariant log == Controls(inputs[..n]) && sent == Sends(inputs[..n])
      {
        RunUnfolds(inputs, n);
        React(inputs[n]);
        n := n + 1;
      }
      assert inputs[..n] == inputs;
    }

    /** One turn of the select. */
    method React(e: Event)
      requires Valid()
      modifies this
      ensures Valid()
      ensures Contents() == Step(old(Contents()), e)
      ensures sent == old(sent) + SendsOf(old(Contents()), e)
      ensures log == old(log) + if e.Control? then [e.msg] else []
    {
      match e {
        case Datagram(data, from, net) =>
          OnDatagram(data, from, net);
        case Ended(a, closed) =>
          if a in clients && closed {
            ClientRemovalKeepsConsistency(Contents(), a);
            clients := clients - {a};
          }
        case Control(msg) =>
          var _ := OnControl(msg);
        case ReceiveFailed =>
      }
    }

    /** `ProxyClient::send`: the socket write, then the note to the relay's control channel. */
    method Send(relay: Relay, ghost ufrag: Ufrag, data: seq<byte>, outcome: SendOutcome) returns (ok: bool)
      modifies this`sent
      ensures ok == (outcome == Delivered)
      ensures sent == old(sent) + Written(Client(relay, ufrag), data, outcome)
    {
      if outcome == SocketFailed {
        return false;
      }
      sent := sent + [Sent(ufrag, relay.peer, data)];
      return outcome == Delivered;
    }

    method OnDatagram(data: seq<byte>, from: SocketAddr, net: Net)
      requires Valid()
      modifies `clients, `sent
      ensures Valid()
      ensures var (after, out) := PooledEndpoint.OnDatagram(old(Contents()), data, from, net);
        Contents() == after && sent == old(sent) + out
    {
      DatagramKeepsConsistency(Contents(), data, from, net);
      if from in clients {
        var c := clients[from];
        var forwarded := Send(c.relay, c.ufrag, data, net.fast);
        if forwarded {
          return;
        }
        clients := clients - {from};
      }
      RouteAfresh(data, from, net.alloc, net.open);
    }

    /** The part of `on_datagram` behind the known flows. */
    method RouteAfresh(data: seq<byte>, from: SocketAddr, alloc: Option<nat>, open: SendOutcome)
      modifies `clients, `sent
      ensures var (after, out) := OpenFlow(old(Contents()), data, from, alloc, open);
        Contents() == after && sent == old(sent) + out
    {
      var parsed := Stun.LocalUfrag(data);
      if parsed == None || parsed.value !in routes {
        return;
      }
      var ufrag, target := parsed.value, routes[parsed.value];
      match alloc {
        case Some(id) =>
          var relay := Relay(id, target, from);
          var forwarded := Send(relay, ufrag, data, open);
          if forwarded {
            clients := clients[from := Client(relay, ufrag)];
          }
        case None =>
      }
    }

    method OnControl(msg: ControlMsg) returns (reply: Reply)
      requires Valid()
      modifies `routes, `sessions, `clients, `log
      ensures Valid()
      ensures Contents() == PooledEndpoint.OnControl(old(Contents()), msg)
      ensures log == old(log) + [msg]
      ensures reply == ReplyTo(old(Contents()), msg)
      ensures match msg
        case AddRoute(_, _, _) => reply == RouteAdded
        case RemoveSession(session) => reply == SessionRemoved(session in old(sessions))
    {
      ControlKeepsTracking(log, Contents(), msg);
      match msg {
        case AddRoute(session, ufrag, target) =>
          var rerouted := ufrag in routes && routes[ufrag] != target;
          routes := routes[ufrag := target];
          if rerouted {
            DropClients(ufrag);
          }
          var replaced := if session in sessions then Some(sessions[session]) else None;
          sessions := sessions[session := ufrag];
          if replaced.Some? && replaced.value != ufrag {
            ForgetUfragIfUnused(replaced.value);
          }
          reply := RouteAdded;
        case RemoveSession(session) =>
          if session in sessions {
            var ufrag := sessions[session];
            sessions := sessions - {session};
            ForgetUfragIfUnused(ufrag);
            reply := SessionRemoved(true);
          } else {
            reply := SessionRemoved(false);
          }
      }
      log := log + [msg];
    }

    /** A ufrag that some session still holds stays; otherwise its route and its flows go, and no others. */
    method ForgetUfragIfUnused(ufrag: Ufrag)
      modifies `routes, `clients
      ensures var held := exists s :: s in sessions && sessions[s] == ufrag;
        && (forall u :: u in routes <==> u in old(routes) && (u != ufrag || held))
        && (forall a :: a in clients <==> a in old(clients) && (old(clients)[a].ufrag != ufrag || held))
      ensures forall u <- routes :: routes[u] == old(routes)[u]
      ensures forall a <- clients :: clients[a] == old(clients)[a]
      ensures Contents() == ForgetIfUnused(old(Contents()), ufrag)
    {
      if ufrag !in sessions.Values {
        routes := routes - {ufrag};
        DropClients(ufrag);
      }
    }

    /** Exactly the flows of `ufrag` go, and the others keep their relays. */
    method DropClients(ufrag: Ufrag)
      modifies `clients
      ensures forall a :: a in clients <==> a in old(clients) && old(clients)[a].ufrag != ufrag
      ensures forall a <- clients :: clients[a] == old(clients)[a]
      ensures clients == PooledEndpoint.DropClients(old(clients), ufrag)
    {
      clients := map a | a in clients && clients[a].ufrag != ufrag :: clients[a];
    }
  }
}
