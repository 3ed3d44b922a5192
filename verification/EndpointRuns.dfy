/**
  Whole runs of the pooled endpoint, judged by nothing but the control messages it received.
 */
module EndpointRuns {
  import opened Bytes
  import opened PooledEndpoint
  import Stun

  datatype Event =
    | Datagram(data: seq<byte>, from: SocketAddr, net: Net)
    | Control(msg: ControlMsg)
    | Ended(client: SocketAddr, closed: bool)
    | ReceiveFailed

  function Step(t: Tables, e: Event): Tables {
    match e
    case Datagram(data, from, net) => OnDatagram(t, data, from, net).0
    case Control(msg) => OnControl(t, msg)
    case Ended(a, closed) => OnClientEnded(t, a, closed)
    case ReceiveFailed => t
  }

  function SendsOf(t: Tables, e: Event): seq<Sent> {
    if e.Datagram? then OnDatagram(t, e.data, e.from, e.net).1 else []
  }

  /** The tables after a run that starts empty. */
  function Run(events: seq<Event>): Tables {
    if events == [] then EMPTY else Step(Run(events[..|events| - 1]), events[|events| - 1])
  }

  /** Everything a run writes to targets, in order. */
  function Sends(events: seq<Event>): seq<Sent> {
    if events == [] then []
    else
      var before := events[..|events| - 1];
      Sends(before) + SendsOf(Run(before), events[|events| - 1])
  }

  function Controls(events: seq<Event>): seq<ControlMsg> {
    if events == [] then []
    else
      var last := events[|events| - 1];
      Controls(events[..|events| - 1]) + (if last.Control? then [last.msg] else [])
  }

  lemma RunUnfolds(events: seq<Event>, n: nat)
    requires n < |events|
    ensures Run(events[..n + 1]) == Step(Run(events[..n]), events[n])
    ensures Sends(events[..n + 1]) == Sends(events[..n]) + SendsOf(Run(events[..n]), events[n])
    ensures Controls(events[..n + 1])
         == Controls(events[..n]) + if events[n].Control? then [events[n].msg] else []
  {
    assert events[..n + 1][..n] == events[..n];
  }

  // ------------------------------------------------------------------ what a control log says

  /** The last message of session `s` in `log` is an `AddRoute` with ufrag `u`. */
  ghost predicate Holds(log: seq<ControlMsg>, s: SessionId, u: Ufrag) {
    exists i: nat :: IsLastOfSession(log, i, s) && log[i].AddRoute? && log[i].ufrag == u
  }

  ghost predicate IsLastOfSession(log: seq<ControlMsg>, i: nat, s: SessionId) {
    i < |log| && log[i].session == s && forall j | i < j < |log| :: log[j].session != s
  }

  /** The last `AddRoute` in `log` that names `u` has target `target`. */
  ghost predicate Targets(log: seq<ControlMsg>, u: Ufrag, target: SocketAddr) {
    exists i: nat :: IsLastNaming(log, i, u) && log[i].target == target
  }

  predicate Names(msg: ControlMsg, u: Ufrag) {
    msg.AddRoute? && msg.ufrag == u
  }

  ghost predicate IsLastNaming(log: seq<ControlMsg>, i: nat, u: Ufrag) {
    i < |log| && Names(log[i], u) && forall j | i < j < |log| :: !Names(log[j], u)
  }

  /** Some session holds `u`, and `target` is what `u` was last pointed at. */
  ghost predicate LiveRoute(log: seq<ControlMsg>, u: Ufrag, target: SocketAddr) {
    (exists s :: Holds(log, s, u)) && Targets(log, u, target)
  }

  lemma HoldsAfter(log: seq<ControlMsg>, msg: ControlMsg, s: SessionId, u: Ufrag)
    ensures Holds(log + [msg], s, u)
       <==> if msg.session == s then Names(msg, u) else Holds(log, s, u)
  {
    var longer := log + [msg];
    if msg.session == s {
      assert IsLastOfSession(longer, |log|, s);
    } else {
      forall i: nat | i < |log| ensures IsLastOfSession(log, i, s) <==> IsLastOfSession(longer, i, s) {
        assert forall j | i <= j < |log| :: log[j] == longer[j];
      }
    }
  }

  lemma TargetsAfter(log: seq<ControlMsg>, msg: ControlMsg, u: Ufrag, target: SocketAddr)
    ensures Targets(log + [msg], u, target)
       <==> if Names(msg, u) then msg.target == target else Targets(log, u, target)
  {
    var longer := log + [msg];
    if Names(msg, u) {
      assert IsLastNaming(longer, |log|, u);
    } else {
      forall i: nat | i < |log| ensures IsLastNaming(log, i, u) <==> IsLastNaming(longer, i, u) {
        assert forall j | i <= j < |log| :: log[j] == longer[j];
      }
    }
  }

  // ------------------------------------------------------------------ the tables refine the log

  /** The tables are what the log says: sessions, routed ufrags and their targets, both ways. */
  ghost predicate Refines(log: seq<ControlMsg>, t: Tables) {
    && (forall s, u :: s in t.sessions && t.sessions[s] == u <==> Holds(log, s, u))
    && (forall u, target :: u in t.routes && t.routes[u] == target <==> LiveRoute(log, u, target))
  }

  /** The form the induction works with. */
  ghost predicate Tracks(log: seq<ControlMsg>, t: Tables) {
    && Consistent(t)
    && (forall s, u :: s in t.sessions && t.sessions[s] == u <==> Holds(log, s, u))
    && (forall u <- t.routes :: Targets(log, u, t.routes[u]))
  }

  lemma TrackedIsRefined(log: seq<ControlMsg>, t: Tables)
    requires Tracks(log, t)
    ensures Refines(log, t)
  {
    forall u, target ensures u in t.routes && t.routes[u] == target <==> LiveRoute(log, u, target) {
      if u in t.routes && t.routes[u] == target {
        assert u in t.sessions.Values;
        var s :| s in t.sessions && t.sessions[s] == u;
        assert Holds(log, s, u);
      }
      if LiveRoute(log, u, target) {
        var s :| Holds(log, s, u);
        assert s in t.sessions && t.sessions[s] == u;
        assert u in t.sessions.Values;
        assert Targets(log, u, t.routes[u]);
        TargetIsUnique(log, u, target, t.routes[u]);
      }
    }
  }

  lemma TargetIsUnique(log: seq<ControlMsg>, u: Ufrag, target: SocketAddr, other: SocketAddr)
    requires Targets(log, u, target) && Targets(log, u, other)
    ensures target == other
  {
    var i: nat :| IsLastNaming(log, i, u) && log[i].target == target;
    var j: nat :| IsLastNaming(log, j, u) && log[j].target == other;
    assert i == j;
  }

  lemma ControlKeepsTracking(log: seq<ControlMsg>, t: Tables, msg: ControlMsg)
    requires Tracks(log, t)
    ensures Tracks(log + [msg], OnControl(t, msg))
  {
    var t' := OnControl(t, msg);
    ControlKeepsConsistency(t, msg);
    forall s, u ensures s in t'.sessions && t'.sessions[s] == u <==> Holds(log + [msg], s, u) {
      HoldsAfter(log, msg, s, u);
      assert s in t.sessions && t.sessions[s] == u <==> Holds(log, s, u);
    }
    forall u <- t'.routes ensures Targets(log + [msg], u, t'.routes[u]) {
      TargetsAfter(log, msg, u, t'.routes[u]);
      assert u in t.routes ==> Targets(log, u, t.routes[u]);
    }
  }

  lemma EventKeepsConsistency(t: Tables, e: Event)
    requires Consistent(t)
    ensures Consistent(Step(t, e))
  {
    match e
    case Control(msg) => ControlKeepsConsistency(t, msg);
    case Datagram(data, from, net) => DatagramKeepsConsistency(t, data, from, net);
    case Ended(a, _) => ClientRemovalKeepsConsistency(t, a);
    case ReceiveFailed =>
  }

  lemma StepKeepsTracking(log: seq<ControlMsg>, t: Tables, e: Event)
    requires Tracks(log, t)
    ensures Tracks(log + (if e.Control? then [e.msg] else []), Step(t, e))
  {
    EventKeepsConsistency(t, e);
    if e.Control? {
      ControlKeepsTracking(log, t, e.msg);
    } else {
      assert log + [] == log;
    }
  }

  lemma {:induction false} RunTracksControls(events: seq<Event>)
    ensures Tracks(Controls(events), Run(events))
  {
    if events == [] {
      assert Controls(events) == [] && Run(events) == EMPTY;
      assert EMPTY.sessions.Values == {};
      forall s, u ensures !Holds([], s, u) {
      }
    } else {
      RunTracksControls(events[..|events| - 1]);
      StepKeepsTracking(Controls(events[..|events| - 1]), Run(events[..|events| - 1]), events[|events| - 1]);
    }
  }

  /** After any run the tables are consistent and exactly what the received control messages say. */
  lemma RunRefinesControls(events: seq<Event>)
    ensures Consistent(Run(events))
    ensures Refines(Controls(events), Run(events))
  {
    RunTracksControls(events);
    TrackedIsRefined(Controls(events), Run(events));
  }

  // ------------------------------------------------------------------ where datagrams go

  lemma SendsFollowRoutes(t: Tables, e: Event, x: Sent)
    requires Consistent(t) && x in SendsOf(t, e)
    ensures x.ufrag in t.routes && x.target == t.routes[x.ufrag] && x.data == e.data
  {
    if e.from in t.clients {
      assert ClientAgrees(t, e.from);
    }
  }

  /** The address has sent a request for `u`. */
  ghost predicate Asked(events: seq<Event>, from: SocketAddr, u: Ufrag) {
    exists e <- events :: e.Datagram? && e.from == from && Stun.IsRequestFor(e.data, u)
  }

  lemma NewFlowIsRequested(t: Tables, e: Event, a: SocketAddr)
    requires a in Step(t, e).clients
    ensures var c := Step(t, e).clients[a];
      || (a in t.clients && t.clients[a] == c)
      || (e.Datagram? && e.from == a && Stun.IsRequestFor(e.data, c.ufrag))
  {
    if e.Datagram? && e.from == a {
      Stun.ParserMeetsGrammar(e.data, Step(t, e).clients[a].ufrag);
    }
  }

  lemma SendIsRequested(t: Tables, e: Event, x: Sent)
    requires x in SendsOf(t, e)
    ensures e.Datagram?
    ensures (e.from in t.clients && t.clients[e.from].ufrag == x.ufrag) || Stun.IsRequestFor(e.data, x.ufrag)
  {
    Stun.ParserMeetsGrammar(e.data, x.ufrag);
  }

  /** Every flow was asked for: its address has sent a request for its ufrag. */
  lemma {:induction false} FlowsWereAsked(events: seq<Event>)
    ensures forall a <- Run(events).clients :: Asked(events, a, Run(events).clients[a].ufrag)
  {
    if events != [] {
      var before, last := events[..|events| - 1], events[|events| - 1];
      FlowsWereAsked(before);
      assert forall e <- before :: e in events;
      assert last in events;
      forall a <- Run(events).clients ensures Asked(events, a, Run(events).clients[a].ufrag) {
        NewFlowIsRequested(Run(before), last, a);
      }
    }
  }

  /**
    Trace safety: whatever event `k` of a run sends is the datagram it received, goes to the last
    target named for a ufrag that a session holds by the control messages received so far, and was
    asked for: the same address has sent a request for that ufrag, now or before.
   */
  lemma EverySendIsRouted(events: seq<Event>, k: nat, x: Sent)
    requires k < |events| && x in SendsOf(Run(events[..k]), events[k])
    ensures LiveRoute(Controls(events[..k]), x.ufrag, x.target)
    ensures x.data == events[k].data
    ensures Asked(events[..k + 1], events[k].from, x.ufrag)
  {
    RunRefinesControls(events[..k]);
    SendsFollowRoutes(Run(events[..k]), events[k], x);
    FlowsWereAsked(events[..k]);
    SendIsRequested(Run(events[..k]), events[k], x);
    assert events[..k + 1] == events[..k] + [events[k]];
    assert forall e <- events[..k] :: e in events[..k + 1];
    assert events[k] in events[..k + 1];
  }

  /**
    Silence for strangers: unless a flow takes it, a datagram that is no request for a live route
    leaves sessions, routes and all other flows as they are, and nothing is sent but what the flow of
    its address wrote before it failed; from an address without a flow, nothing happens at all.
   */
  lemma UnroutableIsSilent(events: seq<Event>, data: seq<byte>, from: SocketAddr, net: Net)
    requires !TakenByFlow(Run(events), from, net)
    requires forall u, target :: LiveRoute(Controls(events), u, target) ==> !Stun.IsRequestFor(data, u)
    ensures var t, e := Run(events), Datagram(data, from, net);
      && Run(events + [e]) == t.(clients := t.clients - {from})
      && SendsOf(t, e) == FlowWrites(t, data, from, net)
      && (from !in t.clients ==> Run(events + [e]) == t && SendsOf(t, e) == [])
  {
    RunRefinesControls(events);
    var t := Run(events);
    forall u | u in t.routes ensures !Stun.IsRequestFor(data, u) {
      assert LiveRoute(Controls(events), u, t.routes[u]);
    }
    UnroutableIsDropped(t, data, from, net);
    assert (events + [Datagram(data, from, net)])[..|events|] == events;
  }

  /** Once a reroute of `u` has been handled and none came later, only its target receives. */
  lemma NothingGoesToAnOldTarget(events: seq<Event>, k: nat, x: Sent, i: nat)
    requires k < |events| && x in SendsOf(Run(events[..k]), events[k])
    requires IsLastNaming(Controls(events[..k]), i, x.ufrag)
    ensures x.target == Controls(events[..k])[i].target
  {
    EverySendIsRouted(events, k, x);
    TargetIsUnique(Controls(events[..k]), x.ufrag, x.target, Controls(events[..k])[i].target);
  }

  /** Once the last session of `u` is gone, nothing is sent for `u`. */
  lemma NothingIsSentForAForgottenUfrag(events: seq<Event>, k: nat, u: Ufrag)
    requires k < |events|
    requires forall s :: !Holds(Controls(events[..k]), s, u)
    ensures forall x <- SendsOf(Run(events[..k]), events[k]) :: x.ufrag != u
  {
    forall x <- SendsOf(Run(events[..k]), events[k]) ensures x.ufrag != u {
      EverySendIsRouted(events, k, x);
    }
  }

  /**
    The other direction: a connectivity check for a live route that no flow takes, from a stranger or
    from an address whose flow failed, is written to the target of the route and opens a flow to it;
    whatever the same address sends next follows without being parsed.
   */
  lemma LiveRouteIsServed(events: seq<Event>, u: Ufrag, target: SocketAddr, data: seq<byte>,
                          from: SocketAddr, net: Net, media: seq<byte>, next: Net)
    requires LiveRoute(Controls(events), u, target)
    requires Stun.IsRequestFor(data, u)
    requires !TakenByFlow(Run(events), from, net)
    requires net.alloc.Some? && net.open == Delivered && next.fast == Delivered
    ensures var served := events + [Datagram(data, from, net)];
      && SendsOf(Run(events), Datagram(data, from, net))
         == FlowWrites(Run(events), data, from, net) + [Sent(u, target, data)]
      && SendsOf(Run(served), Datagram(media, from, next)) == [Sent(u, target, media)]
      && Run(served + [Datagram(media, from, next)]) == Run(served)
  {
    RunRefinesControls(events);
    RequestIsRouted(Run(events), data, from, net, u);
    var served := events + [Datagram(data, from, net)];
    assert served[..|served| - 1] == events;
    FlowTakesDatagram(Run(served), media, from, next);
    var more := served + [Datagram(media, from, next)];
    assert more[..|more| - 1] == served;
  }

  /**
    What an open flow is for: while it is listed, whatever its address sends goes to the last target
    of its ufrag, which a session still holds and the address has asked for.
   */
  lemma OpenFlowIsFollowed(events: seq<Event>, from: SocketAddr, media: seq<byte>, net: Net)
    requires TakenByFlow(Run(events), from, net)
    ensures var u := Run(events).clients[from].ufrag;
      && Asked(events, from, u)
      && exists target :: LiveRoute(Controls(events), u, target)
           && OnDatagram(Run(events), media, from, net) == (Run(events), [Sent(u, target, media)])
  {
    FlowsWereAsked(events);
    RunRefinesControls(events);
    FlowTakesDatagram(Run(events), media, from, net);
    assert ClientAgrees(Run(events), from);
    var c := Run(events).clients[from];
    assert LiveRoute(Controls(events), c.ufrag, c.relay.peer);
  }
}
