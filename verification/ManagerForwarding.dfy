/**
  From the manager's record to the wire: on whose behalf the pooled sockets forward, and to which of
  the recorded targets.
 */
module ManagerForwarding {
  import opened Wrappers
  import opened Bytes
  import opened PooledEndpoint
  import opened EndpointRuns
  import opened ManagerProtocol
  import opened ManagerRequests
  import opened ManagerTheorems

  // ------------------------------------------------------------------ what a socket has been told

  function ServedBy(m: Manager, a: Action, i: nat): seq<ControlMsg> {
    if a == Serve(i) && i < |m.pool| && m.pool[i].queue != [] then [m.pool[i].queue[0].msg] else []
  }

  /** The control messages that socket `i` has handled, in order. */
  function Served(capacity: nat, ports: seq<u16>, actions: seq<Action>, i: nat): seq<ControlMsg>
    requires Exec(capacity, ports, actions).Some?
  {
    if actions == [] then []
    else
      var before := actions[..|actions| - 1];
      Served(capacity, ports, before, i)
      + ServedBy(Exec(capacity, ports, before).value, actions[|actions| - 1], i)
  }

  lemma StepIsFifo(capacity: nat, m: Manager, a: Action, i: nat)
    requires i < |m.pool| && Enabled(capacity, m, a)
    ensures var m' := Do(capacity, m, a);
      && i < |m'.pool|
      && Queued(m.pool[i]) + QueuedBy(m, a, i) == ServedBy(m, a, i) + Queued(m'.pool[i])
  {
  }

  function EventsBy(m: Manager, a: Action, i: nat): seq<Event> {
    if a.Traffic? && a.socket == i then [a.event]
    else
      var served := ServedBy(m, a, i);
      if served == [] then [] else [Control(served[0])]
  }

  /** Everything socket `i` has handled: its traffic and its control messages, in order. */
  function EventsAt(capacity: nat, ports: seq<u16>, actions: seq<Action>, i: nat): seq<Event>
    requires Exec(capacity, ports, actions).Some?
  {
    if actions == [] then []
    else
      var before := actions[..|actions| - 1];
      EventsAt(capacity, ports, before, i)
      + EventsBy(Exec(capacity, ports, before).value, actions[|actions| - 1], i)
  }

  lemma StepRunsSocket(capacity: nat, m: Manager, a: Action, i: nat, events: seq<Event>)
    requires i < |m.pool| && Enabled(capacity, m, a) && m.pool[i].tables == Run(events)
    ensures var m' := Do(capacity, m, a);
      i < |m'.pool| && m'.pool[i].tables == Run(events + EventsBy(m, a, i))
    ensures Controls(events + EventsBy(m, a, i)) == Controls(events) + ServedBy(m, a, i)
  {
    var more := EventsBy(m, a, i);
    if more == [] {
      assert events + more == events;
    } else {
      assert (events + more)[..|events|] == events;
    }
  }

  lemma {:induction false} SocketFollowsMessages(
    capacity: nat, ports: seq<u16>, actions: seq<Action>, m: Manager, i: nat)
    requires Exec(capacity, ports, actions) == Some(m) && i < |ports|
    ensures i < |m.pool|
    ensures m.pool[i].tables == Run(EventsAt(capacity, ports, actions, i))
    ensures Controls(EventsAt(capacity, ports, actions, i)) == Served(capacity, ports, actions, i)
    ensures ToldTo(capacity, ports, actions, i) == Served(capacity, ports, actions, i) + Queued(m.pool[i])
  {
    if actions != [] {
      var before, a := actions[..|actions| - 1], actions[|actions| - 1];
      var p := Exec(capacity, ports, before).value;
      SocketFollowsMessages(capacity, ports, before, p, i);
      StepRunsSocket(capacity, p, a, i, EventsAt(capacity, ports, before, i));
      StepIsFifo(capacity, p, a, i);
      Regroup(Served(capacity, ports, before, i), Queued(p.pool[i]), QueuedBy(p, a, i),
              ServedBy(p, a, i), Queued(m.pool[i]));
    }
  }

  lemma Regroup(served: seq<ControlMsg>, queue: seq<ControlMsg>, told: seq<ControlMsg>,
                more: seq<ControlMsg>, left: seq<ControlMsg>)
    requires queue + told == more + left
    ensures served + queue + told == served + more + left
  {
    assert served + queue + told == served + (queue + told);
  }

  /**
    Under every cancellation a pooled socket handles what was queued for it, in that order; it is a run
    of the endpoint over these messages and its traffic, so its tables are what the messages say.
   */
  lemma SocketsRefineRequests(capacity: nat, ports: seq<u16>, actions: seq<Action>, m: Manager, i: nat)
    requires Exec(capacity, ports, actions) == Some(m) && i < |ports|
    ensures i < |m.pool|
    ensures Served(capacity, ports, actions, i) + Queued(m.pool[i]) == ToldTo(capacity, ports, actions, i)
    ensures m.pool[i].tables == Run(EventsAt(capacity, ports, actions, i))
    ensures Controls(EventsAt(capacity, ports, actions, i)) == Served(capacity, ports, actions, i)
    ensures Consistent(m.pool[i].tables) && Refines(Served(capacity, ports, actions, i), m.pool[i].tables)
  {
    SocketFollowsMessages(capacity, ports, actions, m, i);
    RunRefinesControls(EventsAt(capacity, ports, actions, i));
  }

  // ------------------------------------------------------------------ on whose behalf

  lemma {:induction false} HeldUnlessRemoved(sessions: set<SessionId>, queue: seq<Job>, s: SessionId)
    requires s in sessions && forall job <- queue :: job.msg != RemoveSession(s)
    ensures s in SessionsAfterAll(sessions, queue)
    decreases |queue|
  {
    if queue != [] {
      assert queue[0] in queue;
      HeldUnlessRemoved(SessionsAfter(sessions, queue[0].msg), queue[1..], s);
    }
  }

  /** Why socket `i` may hold `s`: it is recorded, leaked, about to be removed, or being requested. */
  predicate IsKnown(m: Manager, leaks: set<Key>, i: nat, s: SessionId)
    requires i < |m.pool|
  {
    || Recorded(m, i, s)
    || Key(m.pool[i].port, s) in leaks
    || RemovalQueued(m.pool[i], s)
    || InFlight(m, i, s)
  }

  lemma HeldIsKnown(capacity: nat, ports: seq<u16>, actions: seq<Action>, m: Manager, i: nat, s: SessionId)
    requires Distinct(ports) && Exec(capacity, ports, actions) == Some(m) && i < |ports|
    ensures i < |m.pool|
    ensures Live(m, i, s) ==> IsKnown(m, Leaks(capacity, ports, actions), i, s)
  {
    ReachableIsInv(capacity, ports, actions);
    RunMirrorsButLeaks(capacity, ports, actions);
    if Live(m, i, s) && !RemovalQueued(m.pool[i], s) {
      HeldUnlessRemoved(m.pool[i].tables.sessions.Keys, m.pool[i].queue, s);
      assert MirrorAt(m, Leaks(capacity, ports, actions), i, s);
    }
  }

  /**
    End to end: whatever a pooled socket sends, in any state of any run, goes to the last target
    that the messages it handled name for a ufrag, on behalf of a session that holds this ufrag and
    is recorded, leaked, about to be removed, or the subject of the request under way; and the address
    whose datagram it is has asked this socket for the ufrag.
   */
  lemma ForwardedForKnownSession(capacity: nat, ports: seq<u16>, actions: seq<Action>, m: Manager, i: nat,
                                 e: Event, x: Sent) returns (s: SessionId)
    requires Distinct(ports) && Exec(capacity, ports, actions) == Some(m) && i < |ports|
    requires i < |m.pool| && x in SendsOf(m.pool[i].tables, e)
    ensures Holds(Served(capacity, ports, actions, i), s, x.ufrag)
    ensures LiveRoute(Served(capacity, ports, actions, i), x.ufrag, x.target) && x.data == e.data
    ensures IsKnown(m, Leaks(capacity, ports, actions), i, s)
    ensures Asked(EventsAt(capacity, ports, actions, i) + [e], e.from, x.ufrag)
  {
    var t, events := m.pool[i].tables, EventsAt(capacity, ports, actions, i);
    SocketsRefineRequests(capacity, ports, actions, m, i);
    assert (events + [e])[..|events|] == events && (events + [e])[..|events| + 1] == events + [e];
    EverySendIsRouted(events + [e], |events|, x);
    SendsFollowRoutes(t, e, x);
    assert x.ufrag in t.sessions.Values;
    s :| s in t.sessions && t.sessions[s] == x.ufrag;
    HeldIsKnown(capacity, ports, actions, m, i, s);
  }

  /** Without drops and between requests, only sessions on record are forwarded for. */
  lemma ForwardedForRecordedSession(capacity: nat, ports: seq<u16>, actions: seq<Action>, m: Manager, i: nat,
                                    e: Event, x: Sent) returns (s: SessionId)
    requires Distinct(ports) && NoCancel(actions) && Exec(capacity, ports, actions) == Some(m)
    requires m.request.Idle? && i < |ports| && i < |m.pool| && x in SendsOf(m.pool[i].tables, e)
    ensures Holds(Served(capacity, ports, actions, i), s, x.ufrag) && Key(ports[i], s) in m.endpoints
  {
    ReachableIsInv(capacity, ports, actions);
    UncancelledQueues(capacity, ports, actions);
    assert QueueIsInFlight(m, i);
    s := ForwardedForKnownSession(capacity, ports, actions, m, i, e, x);
  }

  // ------------------------------------------------------------------ to which target

  lemma RecordedIsLive(capacity: nat, ports: seq<u16>, actions: seq<Action>, m: Manager, i: nat, s: SessionId)
    requires Distinct(ports) && Exec(capacity, ports, actions) == Some(m)
    requires i < |ports| && Key(ports[i], s) in m.endpoints
    ensures i < |m.pool| && s in m.pool[i].tables.sessions
    ensures m.pool[i].tables.sessions[s] in m.pool[i].tables.routes
  {
    ReachableIsInv(capacity, ports, actions);
    assert KeyIsLive(m, Key(ports[i], s)) && SocketOk(m, i);
    FindIsUnique(m.pool, i);
    assert m.pool[i].tables.sessions[s] in m.pool[i].tables.sessions.Values;
  }

  lemma RoutedTargetExactlyWhen(log: seq<ControlMsg>, t: Tables, u: Ufrag, target: SocketAddr)
    requires Tracks(log, t) && u in t.routes
    ensures t.routes[u] == target <==> Targets(log, u, target)
  {
    assert Targets(log, u, t.routes[u]);
    if Targets(log, u, target) {
      TargetIsUnique(log, u, target, t.routes[u]);
    }
  }

  /**
    The target on record for a session is the one its socket routes to exactly when, of the messages
    the socket has handled, the last one that names the session's ufrag names this target.
   */
  lemma RecordedTargetExactlyWhen(capacity: nat, ports: seq<u16>, actions: seq<Action>, m: Manager, i: nat,
                                  s: SessionId) returns (u: Ufrag)
    requires Distinct(ports) && Exec(capacity, ports, actions) == Some(m)
    requires i < |ports| && Key(ports[i], s) in m.endpoints
    ensures Holds(Served(capacity, ports, actions, i), s, u)
    ensures i < |m.pool| && u in m.pool[i].tables.routes
    ensures m.pool[i].tables.routes[u] == m.endpoints[Key(ports[i], s)]
       <==> Targets(Served(capacity, ports, actions, i), u, m.endpoints[Key(ports[i], s)])
  {
    RecordedIsLive(capacity, ports, actions, m, i, s);
    SocketFollowsMessages(capacity, ports, actions, m, i);
    RunTracksControls(EventsAt(capacity, ports, actions, i));
    u := m.pool[i].tables.sessions[s];
    RoutedTargetExactlyWhen(Served(capacity, ports, actions, i), m.pool[i].tables, u, m.endpoints[Key(ports[i], s)]);
  }

  lemma CreateSteps(capacity: nat, m: Manager, session: SessionId, ufrag: Ufrag, target: SocketAddr)
    returns (started: Manager, queued: Manager, served: Manager, later: Manager)
    requires capacity > 0 && ufrag != [] && m.request.Idle? && |m.pool| == 1 && m.pool[0].queue == []
    ensures var create := StartCreate(session, Some(ufrag), Some(target));
      Enabled(capacity, m, create) && started == Do(capacity, m, create)
    ensures Enabled(capacity, started, Enqueue) && queued == Do(capacity, started, Enqueue)
    ensures Enabled(capacity, queued, Serve(0)) && served == Do(capacity, queued, Serve(0))
    ensures Enabled(capacity, served, FinishRequest) && later == Do(capacity, served, FinishRequest)
    ensures later.request.Idle?
    ensures later.pool == [Socket(m.pool[0].port, OnControl(m.pool[0].tables, AddRoute(session, ufrag, target)), [])]
    ensures later.endpoints == m.endpoints[Key(m.pool[0].port, session) := target]
  {
    started := Do(capacity, m, StartCreate(session, Some(ufrag), Some(target)));
    queued := Do(capacity, started, Enqueue);
    served := Do(capacity, queued, Serve(0));
    later := Do(capacity, served, FinishRequest);
  }

  /** One create on a pool of one socket, completed while nothing else is under way. */
  lemma OneCreate(capacity: nat, port: u16, actions: seq<Action>, m: Manager,
                  session: SessionId, ufrag: Ufrag, target: SocketAddr)
    returns (longer: seq<Action>, later: Manager)
    requires capacity > 0 && ufrag != [] && m.request.Idle? && |m.pool| == 1 && m.pool[0].queue == []
    requires Exec(capacity, [port], actions) == Some(m) && NoCancel(actions)
    ensures Exec(capacity, [port], longer) == Some(later) && NoCancel(longer) && later.request.Idle?
    ensures later.pool == [Socket(m.pool[0].port, OnControl(m.pool[0].tables, AddRoute(session, ufrag, target)), [])]
    ensures later.endpoints == m.endpoints[Key(m.pool[0].port, session) := target]
  {
    var create := StartCreate(session, Some(ufrag), Some(target));
    var started, queued, served;
    started, queued, served, later := CreateSteps(capacity, m, session, ufrag, target);
    ExecExtends(capacity, [port], actions, create);
    ExecExtends(capacity, [port], actions + [create], Enqueue);
    ExecExtends(capacity, [port], actions + [create] + [Enqueue], Serve(0));
    ExecExtends(capacity, [port], actions + [create] + [Enqueue] + [Serve(0)], FinishRequest);
    longer := actions + [create] + [Enqueue] + [Serve(0)] + [FinishRequest];
  }

  /**
    Recorded targets are not always the routed ones, even if nothing is dropped: a second session with
    the same ufrag reroutes the first, whose record stays.
   */
  lemma StaleTargetWitness(capacity: nat, port: u16, first: SessionId, second: SessionId, ufrag: Ufrag,
                           target: SocketAddr, other: SocketAddr) returns (actions: seq<Action>, m: Manager)
    requires capacity > 0 && ufrag != [] && first != second && target != other
    ensures Exec(capacity, [port], actions) == Some(m) && NoCancel(actions) && m.request.Idle?
    ensures Leaks(capacity, [port], actions) == {}
    ensures |m.pool| == 1 && Live(m, 0, first) && m.pool[0].tables.sessions[first] == ufrag
    ensures Recorded(m, 0, first) && m.endpoints[Key(m.pool[0].port, first)] == target
    ensures ufrag in m.pool[0].tables.routes && m.pool[0].tables.routes[ufrag] == other
  {
    actions, m := OneCreate(capacity, port, [], Initial([port]), first, ufrag, target);
    actions, m := OneCreate(capacity, port, actions, m, second, ufrag, other);
    UncancelledQueues(capacity, [port], actions);
  }
}
