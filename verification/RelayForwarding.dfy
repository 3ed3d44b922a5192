/**
  How often one datagram is written while relays come and go: at most twice, and when twice is possible.
 */
module RelayForwarding {
  import opened Wrappers
  import opened Bytes
  import opened PooledEndpoint
  import opened RelayProtocol
  import Stun

  /** The path starts with receiving the datagram and receives no other. */
  predicate Handles(path: seq<Action>, data: seq<byte>, from: SocketAddr) {
    && path != []
    && path[0].ReceiveDatagram? && path[0].data == data && path[0].from == from
    && forall k | 0 < k < |path| :: !path[k].ReceiveDatagram?
  }

  predicate IsRoutedRequest(t: Tables, data: seq<byte>) {
    Lookup(t, data).Some?
  }

  // ------------------------------------------------------------------ at most so often

  /** How often the datagram being handled may still be written. */
  function WritesToCome(s: System): nat {
    if s.place.Noting? && IsRoutedRequest(s.tables, s.place.data) then 1 else 0
  }

  predicate Concerns(s: System, data: seq<byte>) {
    !s.place.Receiving? ==> s.place.data == data
  }

  ghost predicate OnlyAdds(before: seq<Sent>, later: seq<Sent>, data: seq<byte>) {
    before <= later && forall k | |before| <= k < |later| :: later[k].data == data
  }

  lemma AdditionsCompose(before: seq<Sent>, mid: seq<Sent>, later: seq<Sent>, data: seq<byte>)
    requires OnlyAdds(before, mid, data) && OnlyAdds(mid, later, data)
    ensures OnlyAdds(before, later, data)
  {
    assert forall k | 0 <= k < |mid| :: later[k] == mid[k];
  }

  /** From `s` on only `data` has been written, and at most `most` times with what may still come. */
  ghost predicate Bounded(s: System, later: System, data: seq<byte>, most: nat) {
    && Concerns(later, data)
    && OnlyAdds(s.sent, later.sent, data)
    && |later.sent| + WritesToCome(later) <= |s.sent| + most
  }

  function Most(s: System, data: seq<byte>, from: SocketAddr): nat {
    if from in s.tables.clients && IsRoutedRequest(s.tables, data) then 2 else 1
  }

  lemma FirstStepWrites(caps: Caps, s: System, a: Action)
    requires a.ReceiveDatagram? && Enabled(caps, s, a)
    ensures Bounded(s, Do(caps, s, a), a.data, Most(s, a.data, a.from))
  {
  }

  lemma LaterStepWrites(caps: Caps, mid: System, a: Action, data: seq<byte>)
    requires !a.ReceiveDatagram? && Enabled(caps, mid, a) && Concerns(mid, data)
    ensures Bounded(mid, Do(caps, mid, a), data, WritesToCome(mid))
  {
  }

  lemma BoundsExtend(
    caps: Caps, s: System, mid: System, path: seq<Action>, a: Action, data: seq<byte>, from: SocketAddr)
    requires Handles(path + [a], data, from) && Enabled(caps, mid, a)
    requires if path == [] then mid == s else Bounded(s, mid, data, Most(s, data, from))
    ensures Bounded(s, Do(caps, mid, a), data, Most(s, data, from))
  {
    if path == [] {
      assert (path + [a])[0] == a;
      FirstStepWrites(caps, s, a);
    } else {
      assert (path + [a])[|path|] == a;
      LaterStepWrites(caps, mid, a, data);
      AdditionsCompose(s.sent, mid.sent, Do(caps, mid, a).sent, data);
    }
  }

  lemma LastStep(caps: Caps, actions: seq<Action>, path: seq<Action>, a: Action, later: System) returns (mid: System)
    requires Exec(caps, actions + (path + [a])) == Some(later)
    ensures Exec(caps, actions + path) == Some(mid) && Enabled(caps, mid, a) && later == Do(caps, mid, a)
  {
    assert actions + (path + [a]) == actions + path + [a];
    ExecExtends(caps, actions + path, a);
    mid := Exec(caps, actions + path).value;
  }

  lemma {:induction false} WritesAreBounded(
    caps: Caps, actions: seq<Action>, s: System, path: seq<Action>, later: System,
    data: seq<byte>, from: SocketAddr)
    requires Exec(caps, actions) == Some(s) && Exec(caps, actions + path) == Some(later)
    requires Handles(path, data, from)
    ensures Bounded(s, later, data, Most(s, data, from))
    decreases |path|
  {
    var before, a := path[..|path| - 1], path[|path| - 1];
    assert path == before + [a];
    var mid := LastStep(caps, actions, before, a, later);
    if before == [] {
      assert actions + before == actions;
    } else {
      WritesAreBounded(caps, actions, s, before, mid, data, from);
    }
    BoundsExtend(caps, s, mid, before, a, data, from);
  }

  // ------------------------------------------------------------------ a second write

  lemma HandlesMore(
    caps: Caps, actions: seq<Action>, path: seq<Action>, s: System, a: Action, data: seq<byte>, from: SocketAddr)
    requires Handles(path, data, from) && Exec(caps, actions + path) == Some(s)
    requires Enabled(caps, s, a) && !a.ReceiveDatagram?
    ensures Handles(path + [a], data, from)
    ensures Exec(caps, actions + (path + [a])) == Some(Do(caps, s, a))
  {
    assert actions + (path + [a]) == actions + path + [a];
    ExecExtends(caps, actions + path, a);
  }

  /** Whatever a running relay does, it can close its channel while the endpoint awaits it. */
  lemma {:induction false} RelayMayClose(
    caps: Caps, actions: seq<Action>, path: seq<Action>, s: System, id: nat, data: seq<byte>, from: SocketAddr)
    returns (longer: seq<Action>, later: System)
    requires Handles(path, data, from) && Exec(caps, actions + path) == Some(s)
    requires HasTask(s, id) && !s.tasks[id].phase.Stopped?
    ensures Handles(longer, data, from) && Exec(caps, actions + longer) == Some(later)
    ensures Refuses(later, id)
    ensures later.tables == s.tables && later.sent == s.sent && later.place == s.place
    decreases s.tasks[id].Open(), !s.tasks[id].phase.Leaving?
  {
    longer, later := path, s;
    if s.tasks[id].Open() {
      var a := if s.tasks[id].phase.Leaving? then RelayCloses(id) else RelayLeaves(id);
      HandlesMore(caps, actions, path, s, a, data, from);
      longer, later := RelayMayClose(caps, actions, path + [a], Do(caps, s, a), id, data, from);
    }
  }

  lemma NoteRefusedWrites(caps: Caps, s: System)
    requires Enabled(caps, s, NoteRefused(Attempt(true, true))) && IsRoutedRequest(s.tables, s.place.data)
    ensures var (u, target) := Lookup(s.tables, s.place.data).value;
      Do(caps, s, NoteRefused(Attempt(true, true))).sent == s.sent + [Sent(u, target, s.place.data)]
  {
  }

  lemma FirstWrite(caps: Caps, actions: seq<Action>, s: System, data: seq<byte>, from: SocketAddr)
    returns (path: seq<Action>, noting: System)
    requires Exec(caps, actions) == Some(s) && s.place.Receiving? && from in s.tables.clients
    ensures Handles(path, data, from) && Exec(caps, actions + path) == Some(noting)
    ensures noting.place == Noting(data, from) && noting.tables == s.tables && noting.tasks == s.tasks
    ensures var c := s.tables.clients[from];
      && noting.sent == s.sent + [Sent(c.ufrag, c.relay.peer, data)]
      && HasTask(noting, c.relay.id) && !noting.tasks[c.relay.id].phase.Stopped?
  {
    ReachableIsInv(caps, actions);
    assert ListedOk(s, from) && TaskOk(caps, s, s.tables.clients[from].relay.id);
    var receive := ReceiveDatagram(data, from, true, Attempt(true, true));
    ExecExtends(caps, actions, receive);
    path, noting := [receive], Do(caps, s, receive);
  }

  /** The flow's relay ends while the endpoint is about to note the first write. */
  lemma SecondWrite(caps: Caps, actions: seq<Action>, s: System, data: seq<byte>, from: SocketAddr)
    returns (path: seq<Action>, later: System)
    requires Exec(caps, actions) == Some(s) && s.place.Receiving?
    requires from in s.tables.clients && IsRoutedRequest(s.tables, data)
    ensures Handles(path, data, from) && Exec(caps, actions + path) == Some(later)
    ensures var c, (u, target) := s.tables.clients[from], Lookup(s.tables, data).value;
      later.sent == s.sent + [Sent(c.ufrag, c.relay.peer, data), Sent(u, target, data)]
  {
    var noting, closed;
    path, noting := FirstWrite(caps, actions, s, data, from);
    path, closed := RelayMayClose(caps, actions, path, noting, s.tables.clients[from].relay.id, data, from);
    var refuse := NoteRefused(Attempt(true, true));
    HandlesMore(caps, actions, path, closed, refuse, data, from);
    NoteRefusedWrites(caps, closed);
    path, later := path + [refuse], Do(caps, closed, refuse);
  }

  /** Some way of handling the datagram writes it twice. */
  ghost predicate MayBeWrittenTwice(caps: Caps, actions: seq<Action>, data: seq<byte>, from: SocketAddr)
    requires Exec(caps, actions).Some?
  {
    exists path :: WritesTwice(caps, actions, data, from, path)
  }

  ghost predicate WritesTwice(
    caps: Caps, actions: seq<Action>, data: seq<byte>, from: SocketAddr, path: seq<Action>)
    requires Exec(caps, actions).Some?
  {
    && Handles(path, data, from) && Exec(caps, actions + path).Some?
    && |Exec(caps, actions + path).value.sent| >= |Exec(caps, actions).value.sent| + 2
  }

  /**
    In every reachable state that can receive: whatever relays, reports and control messages come in
    between, until the next datagram nothing but this one is written, and at most twice. Twice is
    possible exactly when its address has a flow and the datagram is itself a request for a routed ufrag.
   */
  lemma ForwardedTwiceExactlyWhen(caps: Caps, actions: seq<Action>, s: System, data: seq<byte>, from: SocketAddr)
    requires Exec(caps, actions) == Some(s) && s.place.Receiving?
    ensures forall path | Handles(path, data, from) && Exec(caps, actions + path).Some? ::
      var later := Exec(caps, actions + path).value.sent;
      OnlyAdds(s.sent, later, data) && |later| <= |s.sent| + 2
    ensures MayBeWrittenTwice(caps, actions, data, from)
       <==> from in s.tables.clients && exists u :: u in s.tables.routes && Stun.IsRequestFor(data, u)
  {
    LookupFindsRequests(s.tables, data);
    forall path | Handles(path, data, from) && Exec(caps, actions + path).Some?
      ensures var later := Exec(caps, actions + path).value.sent;
        && OnlyAdds(s.sent, later, data) && |later| <= |s.sent| + 2
        && (WritesTwice(caps, actions, data, from, path) ==>
              from in s.tables.clients && IsRoutedRequest(s.tables, data))
    {
      WritesAreBounded(caps, actions, s, path, Exec(caps, actions + path).value, data, from);
    }
    if from in s.tables.clients && IsRoutedRequest(s.tables, data) {
      var path, later := SecondWrite(caps, actions, s, data, from);
      assert WritesTwice(caps, actions, data, from, path);
    }
  }

  // ------------------------------------------------------------------ from the start

  /** The run that opens a flow for a request to a fresh endpoint. */
  lemma FlowCanOpen(
    caps: Caps, session: SessionId, u: Ufrag, target: SocketAddr, data: seq<byte>, from: SocketAddr)
    returns (actions: seq<Action>, s: System)
    requires caps.control >= 1 && Stun.UfragIn(data) == Some(u)
    ensures Exec(caps, actions) == Some(s) && s.place.Receiving?
    ensures from in s.tables.clients && IsRoutedRequest(s.tables, data)
    ensures s.tables.routes == map[u := target] && s.sent == [Sent(u, target, data)]
    ensures s.tables.clients[from].ufrag == u && s.tables.clients[from].relay.peer == target
  {
    var add := ReceiveControl(AddRoute(session, u, target));
    var receive := ReceiveDatagram(data, from, false, Attempt(true, true));
    var routed := Do(caps, INITIAL, add);
    ExecExtends(caps, [], add);
    assert [] + [add] == [add];
    var opening := Do(caps, routed, receive);
    ExecExtends(caps, [add], receive);
    s := Do(caps, opening, OpenAccepted);
    ExecExtends(caps, [add] + [receive], OpenAccepted);
    actions := [add] + [receive] + [OpenAccepted];
  }

  /**
    Forwarding at most once is false, in a run from the start: the request that opened a flow is
    repeated, its relay ends after the repetition has been written, and the same target gets it again.
   */
  lemma ForwardedTwiceWitness(caps: Caps, target: SocketAddr, from: SocketAddr)
    returns (actions: seq<Action>, path: seq<Action>, data: seq<byte>, x: Sent)
    requires caps.control >= 1
    ensures Exec(caps, actions).Some? && Handles(path, data, from) && Exec(caps, actions + path).Some?
    ensures x.data == data && x.target == target
    ensures Exec(caps, actions + path).value.sent == Exec(caps, actions).value.sent + [x, x]
  {
    var u, request := SomeRequest();
    data := request;
    var s, later;
    actions, s := FlowCanOpen(caps, "s", u, target, data, from);
    path, later := SecondWrite(caps, actions, s, data, from);
    x := Sent(u, target, data);
  }
}
