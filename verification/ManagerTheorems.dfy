/**
  How far `udp_endpoints` can be trusted: safe under every cancellation, and its keys exact but for
  those that unsafe cancellations have leaked. `ManagerForwarding.dfy` has the recorded targets.
 */
module ManagerTheorems {
  import opened Wrappers
  import opened Bytes
  import opened PooledEndpoint
  import opened ManagerProtocol

  // ------------------------------------------------------------------ under any cancellation

  /**
    In every reachable state, with requests dropped at any await, a recorded session lives on the
    socket of its port, its ufrag is routed there, and no removal of it is queued there.
   */
  lemma RecordedSessionsAreLive(capacity: nat, ports: seq<u16>, actions: seq<Action>, key: Key)
    requires Distinct(ports) && Exec(capacity, ports, actions).Some?
    requires key in Exec(capacity, ports, actions).value.endpoints
    ensures |Exec(capacity, ports, actions).value.pool| == |ports|
    ensures var m := Exec(capacity, ports, actions).value;
      exists i :: 0 <= i < |ports| && ports[i] == key.port
        && key.session in m.pool[i].tables.sessions
        && m.pool[i].tables.sessions[key.session] in m.pool[i].tables.routes
        && RemoveSession(key.session) !in Queued(m.pool[i])
  {
    ReachableIsInv(capacity, ports, actions);
    var m := Exec(capacity, ports, actions).value;
    assert KeyIsLive(m, key);
    var i := Find(m.pool, key.port).value;
    assert forall k | 0 <= k < |m.pool[i].queue| :: m.pool[i].queue[k] in m.pool[i].queue;
    assert SocketOk(m, i) && ports[i] == key.port;
    assert m.pool[i].tables.sessions[key.session] in m.pool[i].tables.sessions.Values;
  }

  function Queued(socket: Socket): seq<ControlMsg> {
    seq(|socket.queue|, k requires 0 <= k < |socket.queue| => socket.queue[k].msg)
  }

  /**
    Whoever receives an acknowledgement can rely on it: when a request is about to return, its
    route is live, or its session is gone, on the socket it was sent to.
   */
  lemma AcknowledgedIsDone(capacity: nat, ports: seq<u16>, actions: seq<Action>)
    requires Distinct(ports) && Exec(capacity, ports, actions).Some?
    requires Enabled(capacity, Exec(capacity, ports, actions).value, FinishRequest)
    ensures var m := Exec(capacity, ports, actions).value;
      var t := m.pool[m.request.socket].tables;
      match m.request.msg
      case AddRoute(session, ufrag, target) =>
        && session in t.sessions && t.sessions[session] == ufrag
        && ufrag in t.routes && t.routes[ufrag] == target
      case RemoveSession(session) =>
        session !in t.sessions && Key(m.pool[m.request.socket].port, session) !in m.endpoints
  {
    ReachableIsInv(capacity, ports, actions);
  }

  /** Deleting a recorded session always finds its pooled port. */
  lemma RecordedPortIsPooled(capacity: nat, ports: seq<u16>, actions: seq<Action>, key: Key)
    requires Distinct(ports) && Exec(capacity, ports, actions).Some?
    requires Enabled(capacity, Exec(capacity, ports, actions).value, StartDelete(key.port, key.session))
    requires key in Exec(capacity, ports, actions).value.endpoints
    ensures var m := Do(capacity, Exec(capacity, ports, actions).value, StartDelete(key.port, key.session));
      m.request.Pending? && m.request.msg == RemoveSession(key.session)
      && m.request.socket < |ports| && ports[m.request.socket] == key.port
  {
    ReachableIsInv(capacity, ports, actions);
    assert KeyIsLive(Exec(capacity, ports, actions).value, key);
  }

  // ------------------------------------------------------------------ what a socket will hold

  predicate Live(m: Manager, i: nat, s: SessionId)
    requires i < |m.pool|
  {
    s in m.pool[i].tables.sessions
  }

  predicate Recorded(m: Manager, i: nat, s: SessionId)
    requires i < |m.pool|
  {
    Key(m.pool[i].port, s) in m.endpoints
  }

  function SessionsAfterAll(sessions: set<SessionId>, queue: seq<Job>): set<SessionId>
    decreases |queue|
  {
    if queue == [] then sessions else SessionsAfterAll(SessionsAfter(sessions, queue[0].msg), queue[1..])
  }

  /** Socket `i` holds `s` once it has handled what is queued now. */
  predicate Soon(m: Manager, i: nat, s: SessionId)
    requires i < |m.pool|
  {
    s in SessionsAfterAll(m.pool[i].tables.sessions.Keys, m.pool[i].queue)
  }

  lemma {:induction false} QueueingComesLast(sessions: set<SessionId>, queue: seq<Job>, job: Job)
    ensures SessionsAfterAll(sessions, queue + [job]) == SessionsAfter(SessionsAfterAll(sessions, queue), job.msg)
    decreases |queue|
  {
    if queue == [] {
      assert SessionsAfterAll(SessionsAfter(sessions, job.msg), []) == SessionsAfter(sessions, job.msg);
    } else {
      assert (queue + [job])[1..] == queue[1..] + [job];
      QueueingComesLast(SessionsAfter(sessions, queue[0].msg), queue[1..], job);
    }
  }

  lemma ServingKeepsSoon(m: Manager, i: nat, j: nat, s: SessionId)
    requires i < |m.pool| && m.pool[i].queue != [] && j < |m.pool|
    ensures Soon(ServeOne(m, i), j, s) <==> Soon(m, j, s)
  {
    ControlChangesOneSession(m.pool[i].tables, m.pool[i].queue[0].msg);
  }

  // ------------------------------------------------------------------ leaks

  /** The awaits a request can be dropped at without leaving the record behind its socket. */
  predicate SafeToDrop(m: Manager) {
    && m.request.Pending? && m.request.socket < |m.pool|
    && match m.request.msg
       case AddRoute(session, _, _) =>
         m.request.stage.Sending? || Key(m.pool[m.request.socket].port, session) in m.endpoints
       case RemoveSession(_) => m.request.stage.Awaiting?
  }

  /** An unsafe drop leaks its key; a create that finishes later mends it. */
  function LeaksAfter(m: Manager, a: Action, leaks: set<Key>): set<Key> {
    if !m.request.Pending? || m.request.socket >= |m.pool| then leaks
    else
      var key := Key(m.pool[m.request.socket].port, m.request.msg.session);
      if a.Cancel? && !SafeToDrop(m) then leaks + {key}
      else if a.FinishRequest? && m.request.msg.AddRoute? then leaks - {key}
      else leaks
  }

  /** The keys of the unsafe drops of a run, but for those that a later create has mended. */
  function Leaks(capacity: nat, ports: seq<u16>, actions: seq<Action>): set<Key>
    requires Exec(capacity, ports, actions).Some?
  {
    if actions == [] then {}
    else
      var before := actions[..|actions| - 1];
      LeaksAfter(Exec(capacity, ports, before).value, actions[|actions| - 1], Leaks(capacity, ports, before))
  }

  predicate InFlight(m: Manager, i: nat, s: SessionId) {
    m.request.Pending? && m.request.socket == i && m.request.msg.session == s
  }

  /** Socket `i` will hold `s` iff that is recorded or leaked, up to the request under way. */
  ghost predicate MirrorAt(m: Manager, leaks: set<Key>, i: nat, s: SessionId)
    requires i < |m.pool|
  {
    var known := Recorded(m, i, s) || Key(m.pool[i].port, s) in leaks;
    if !InFlight(m, i, s) then Soon(m, i, s) <==> known
    else if m.request.msg.AddRoute? then Soon(m, i, s) <==> known || m.request.stage.Awaiting?
    else (Soon(m, i, s) <==> m.request.stage.Sending?) && !known
  }

  ghost predicate MirrorsButLeaks(m: Manager, leaks: set<Key>) {
    && (forall i: nat, s | i < |m.pool| :: MirrorAt(m, leaks, i, s))
    && leaks !! m.endpoints.Keys
    && forall key <- leaks :: Find(m.pool, key.port).Some?
  }

  /** Handling a queued message or traffic changes neither the record nor what will be held. */
  lemma QuietStepKeepsMirror(capacity: nat, m: Manager, leaks: set<Key>, a: Action)
    requires Inv(m) && MirrorsButLeaks(m, leaks) && Enabled(capacity, m, a)
    requires a.Serve? || a.Traffic?
    ensures MirrorsButLeaks(Do(capacity, m, a), leaks)
  {
    var m' := Do(capacity, m, a);
    if a.Traffic? {
      TrafficLeavesRoutes(m.pool[a.socket].tables, a.event);
    }
    forall j: nat, s | j < |m'.pool| ensures MirrorAt(m', leaks, j, s) {
      assert MirrorAt(m, leaks, j, s);
      if a.Serve? {
        ServingKeepsSoon(m, a.socket, j, s);
      }
    }
    forall key <- leaks ensures Find(m'.pool, key.port).Some? {
      FindDependsOnPorts(m.pool, m'.pool, key.port);
    }
  }

  lemma EnqueueKeepsMirror(capacity: nat, m: Manager, leaks: set<Key>)
    requires Inv(m) && MirrorsButLeaks(m, leaks) && Enabled(capacity, m, Enqueue)
    ensures MirrorsButLeaks(Do(capacity, m, Enqueue), leaks)
  {
    var m' := Do(capacity, m, Enqueue);
    var socket := m.pool[m.request.socket];
    QueueingComesLast(socket.tables.sessions.Keys, socket.queue, Job(m.request.msg, m.tickets));
    forall j: nat, s | j < |m'.pool| ensures MirrorAt(m', leaks, j, s) {
      assert MirrorAt(m, leaks, j, s);
    }
    forall key <- leaks ensures Find(m'.pool, key.port).Some? {
      FindDependsOnPorts(m.pool, m'.pool, key.port);
    }
  }

  lemma RequestStepKeepsMirror(capacity: nat, m: Manager, leaks: set<Key>, a: Action)
    requires Inv(m) && MirrorsButLeaks(m, leaks) && Enabled(capacity, m, a)
    requires a.StartCreate? || a.StartDelete? || a.FinishRequest? || a.Cancel?
    ensures MirrorsButLeaks(Do(capacity, m, a), LeaksAfter(m, a, leaks))
  {
    var m', later := Do(capacity, m, a), LeaksAfter(m, a, leaks);
    if a.StartDelete? && Key(a.port, a.session) in m.endpoints {
      assert KeyIsLive(m, Key(a.port, a.session));
    }
    if m.request.Pending? {
      FindIsUnique(m.pool, m.request.socket);
      assert MirrorAt(m, leaks, m.request.socket, m.request.msg.session);
    }
    forall j: nat, s | j < |m'.pool| ensures MirrorAt(m', later, j, s) {
      assert MirrorAt(m, leaks, j, s);
      FindIsUnique(m.pool, j);
    }
  }

  lemma {:induction false} RunMirrorsButLeaks(capacity: nat, ports: seq<u16>, actions: seq<Action>)
    requires Distinct(ports) && Exec(capacity, ports, actions).Some?
    ensures MirrorsButLeaks(Exec(capacity, ports, actions).value, Leaks(capacity, ports, actions))
  {
    if actions != [] {
      var before := actions[..|actions| - 1];
      ReachableIsInv(capacity, ports, before);
      RunMirrorsButLeaks(capacity, ports, before);
      StepKeepsMirror(capacity, Exec(capacity, ports, before).value, Leaks(capacity, ports, before),
                      actions[|actions| - 1]);
    }
  }

  lemma StepKeepsMirror(capacity: nat, m: Manager, leaks: set<Key>, a: Action)
    requires Inv(m) && MirrorsButLeaks(m, leaks) && Enabled(capacity, m, a)
    ensures MirrorsButLeaks(Do(capacity, m, a), LeaksAfter(m, a, leaks))
  {
    match a
    case Serve(_) => QuietStepKeepsMirror(capacity, m, leaks, a);
    case Traffic(_, _) => QuietStepKeepsMirror(capacity, m, leaks, a);
    case Enqueue => EnqueueKeepsMirror(capacity, m, leaks);
    case _ => RequestStepKeepsMirror(capacity, m, leaks, a);
  }

  /**
    However many requests have been dropped, and wherever: between requests, what the sockets hold
    once their queues are handled is what is recorded plus what has leaked, and those are disjoint.
   */
  lemma HeldIsRecordedOrLeaked(capacity: nat, ports: seq<u16>, actions: seq<Action>, m: Manager)
    requires Distinct(ports) && Exec(capacity, ports, actions) == Some(m) && m.request.Idle?
    ensures |m.pool| == |ports|
    ensures forall i: nat, s | i < |ports| ::
      Soon(m, i, s) <==> Recorded(m, i, s) || Key(ports[i], s) in Leaks(capacity, ports, actions)
    ensures Leaks(capacity, ports, actions) !! m.endpoints.Keys
    ensures forall key <- Leaks(capacity, ports, actions) :: key.port in ports
  {
    ReachableIsInv(capacity, ports, actions);
    RunMirrorsButLeaks(capacity, ports, actions);
    var leaks := Leaks(capacity, ports, actions);
    forall i: nat, s | i < |ports| ensures Soon(m, i, s) <==> Recorded(m, i, s) || Key(ports[i], s) in leaks {
      assert MirrorAt(m, leaks, i, s);
    }
    forall key <- leaks ensures key.port in ports {
      assert ports[Find(m.pool, key.port).value] == key.port;
    }
  }

  /** The keys of `udp_endpoints` are exactly the sessions the pooled sockets hold once their queues are handled. */
  ghost predicate ExactMirror(m: Manager) {
    forall i: nat, s | i < |m.pool| :: Soon(m, i, s) <==> Recorded(m, i, s)
  }

  /** Between requests the recorded keys are exact iff no leak is outstanding. */
  lemma ExactExactlyWhenNothingLeaks(capacity: nat, ports: seq<u16>, actions: seq<Action>, m: Manager)
    requires Distinct(ports) && Exec(capacity, ports, actions) == Some(m) && m.request.Idle?
    ensures ExactMirror(m) <==> Leaks(capacity, ports, actions) == {}
  {
    HeldIsRecordedOrLeaked(capacity, ports, actions, m);
    ReachableIsInv(capacity, ports, actions);
    var leaks := Leaks(capacity, ports, actions);
    if key :| key in leaks {
      var i: nat :| i < |ports| && ports[i] == key.port;
      assert Key(ports[i], key.session) == key;
      assert Soon(m, i, key.session) && !Recorded(m, i, key.session);
    }
  }

  /**
    What one drop does, in any run: afterwards the recorded keys are exact iff the drop was safe and nothing
    had leaked before.
   */
  lemma ExactAfterDropExactlyWhenSafe(capacity: nat, ports: seq<u16>, actions: seq<Action>, m: Manager)
    requires Distinct(ports) && Exec(capacity, ports, actions) == Some(m)
    requires actions != [] && actions[|actions| - 1] == Cancel
    ensures var before := actions[..|actions| - 1];
      ExactMirror(m)
      <==> SafeToDrop(Exec(capacity, ports, before).value) && Leaks(capacity, ports, before) == {}
  {
    ReachableIsInv(capacity, ports, actions[..|actions| - 1]);
    ExactExactlyWhenNothingLeaks(capacity, ports, actions, m);
  }

  /** An unsafe drop: the create of a session is cancelled while its message is queued. */
  lemma CancelledCreateWitness(capacity: nat, port: u16, session: SessionId, ufrag: Ufrag, target: SocketAddr)
    returns (actions: seq<Action>)
    requires capacity > 0 && ufrag != []
    ensures Exec(capacity, [port], actions).Some?
    ensures var m := Exec(capacity, [port], actions).value;
      m.request.Idle? && |m.pool| == 1 && m.pool[0].queue == []
      && Live(m, 0, session) && !Recorded(m, 0, session)
  {
    var create := StartCreate(session, Some(ufrag), Some(target));
    actions := [create, Enqueue, Cancel, Serve(0)];
    var ports := [port];
    assert actions[..3] == [create, Enqueue, Cancel];
    assert actions[..3][..2] == [create, Enqueue];
    assert actions[..3][..2][..1] == [create];
    assert actions[..3][..2][..1][..0] == [];
    var m1 := Do(capacity, Initial(ports), create);
    assert Exec(capacity, ports, [create]) == Some(m1);
    var m2 := Do(capacity, m1, Enqueue);
    assert Exec(capacity, ports, [create, Enqueue]) == Some(m2);
    var m3 := Do(capacity, m2, Cancel);
    assert Exec(capacity, ports, [create, Enqueue, Cancel]) == Some(m3);
    assert Exec(capacity, ports, actions) == Some(Do(capacity, m3, Serve(0)));
  }

  // ------------------------------------------------------------------ without cancellation

  predicate NoCancel(actions: seq<Action>) {
    forall a <- actions :: !a.Cancel?
  }

  predicate Unanswered(m: Manager) {
    m.request.Pending? && m.request.stage.Awaiting? && m.request.stage.answer.None?
  }

  ghost predicate QueueIsInFlight(m: Manager, i: nat)
    requires i < |m.pool|
  {
    m.pool[i].queue ==
      if Unanswered(m) && m.request.socket == i then [Job(m.request.msg, m.request.stage.ticket)] else []
  }

  ghost predicate QueuesAreInFlight(m: Manager) {
    forall i: nat | i < |m.pool| :: QueueIsInFlight(m, i)
  }

  lemma StepKeepsQueuesInFlight(capacity: nat, m: Manager, a: Action)
    requires RequestOk(m) && QueuesAreInFlight(m) && Enabled(capacity, m, a) && !a.Cancel?
    ensures QueuesAreInFlight(Do(capacity, m, a))
    ensures LeaksAfter(m, a, {}) == {}
  {
    var m' := Do(capacity, m, a);
    forall i: nat | i < |m'.pool| ensures QueueIsInFlight(m', i) {
      assert QueueIsInFlight(m, i);
      if a.Serve? {
        assert QueueIsInFlight(m, a.socket);
      }
    }
  }

  lemma {:induction false} UncancelledQueues(capacity: nat, ports: seq<u16>, actions: seq<Action>)
    requires Distinct(ports) && NoCancel(actions) && Exec(capacity, ports, actions).Some?
    ensures QueuesAreInFlight(Exec(capacity, ports, actions).value)
    ensures Leaks(capacity, ports, actions) == {}
  {
    if actions != [] {
      var before := actions[..|actions| - 1];
      ReachableIsInv(capacity, ports, before);
      UncancelledQueues(capacity, ports, before);
      StepKeepsQueuesInFlight(capacity, Exec(capacity, ports, before).value, actions[|actions| - 1]);
    }
  }

  /**
    After any sequence of completed creates and deletes the recorded keys are exact: they are the pairs
    of a pooled port and a session of that socket, and nothing is queued.
   */
  lemma CompletedRequestsMirrorExactly(capacity: nat, ports: seq<u16>, actions: seq<Action>, m: Manager)
    requires Distinct(ports) && NoCancel(actions) && Exec(capacity, ports, actions) == Some(m)
    requires m.request.Idle?
    ensures |m.pool| == |ports|
    ensures forall port, s ::
      (Key(port, s) in m.endpoints
       <==> exists i :: 0 <= i < |ports| && ports[i] == port && s in m.pool[i].tables.sessions)
    ensures forall i | 0 <= i < |ports| :: m.pool[i].queue == []
  {
    ReachableIsInv(capacity, ports, actions);
    UncancelledQueues(capacity, ports, actions);
    HeldIsRecordedOrLeaked(capacity, ports, actions, m);
    forall i: nat | i < |ports| ensures m.pool[i].queue == [] {
      assert QueueIsInFlight(m, i);
    }
    forall port, s
      ensures Key(port, s) in m.endpoints
         <==> exists i :: 0 <= i < |ports| && ports[i] == port && s in m.pool[i].tables.sessions
    {
      if Key(port, s) in m.endpoints {
        assert KeyIsLive(m, Key(port, s));
        assert ports[Find(m.pool, port).value] == port;
      }
      forall i: nat | i < |ports| && ports[i] == port && s in m.pool[i].tables.sessions
        ensures Key(port, s) in m.endpoints
      {
        assert Soon(m, i, s) <==> Recorded(m, i, s);
      }
    }
  }

  // ------------------------------------------------------------------ deletes know their session

  /** A removal under way finds its session: nothing queued in front of it removes that session. */
  ghost predicate RemovalOk(m: Manager)
    requires RequestOk(m)
  {
    m.request.Pending? && m.request.msg.RemoveSession? ==>
      var socket, session := m.pool[m.request.socket], m.request.msg.session;
      match m.request.stage
      case Sending => session in socket.tables.sessions && !RemovalQueued(socket, session)
      case Awaiting(_, None) =>
        && session in socket.tables.sessions
        && forall k | 0 <= k < |socket.queue| - 1 :: socket.queue[k].msg != RemoveSession(session)
      case Awaiting(_, Some(reply)) => reply == SessionRemoved(true)
  }

  lemma StepKeepsRemoval(capacity: nat, m: Manager, a: Action)
    requires Inv(m) && RemovalOk(m) && Enabled(capacity, m, a)
    ensures RequestOk(Do(capacity, m, a)) && RemovalOk(Do(capacity, m, a))
  {
    StepKeepsInv(capacity, m, a);
    match a
    case StartDelete(port, session) =>
      if Key(port, session) in m.endpoints {
        assert KeyIsLive(m, Key(port, session));
      }
    case Serve(i) => ServingKeepsRemoval(m, i);
    case Traffic(i, e) => TrafficLeavesRoutes(m.pool[i].tables, e);
    case _ =>
  }

  lemma ServingKeepsRemoval(m: Manager, i: nat)
    requires RequestOk(m) && RemovalOk(m) && i < |m.pool| && m.pool[i].queue != []
    requires RequestOk(ServeOne(m, i))
    ensures RemovalOk(ServeOne(m, i))
  {
    var socket := m.pool[i];
    AddTakesEffect(socket.tables, socket.queue[0].msg);
    assert socket.queue[0] in socket.queue;
    assert forall job <- socket.queue[1..] :: job in socket.queue;
  }

  lemma {:induction false} ReachableRemovalIsOk(capacity: nat, ports: seq<u16>, actions: seq<Action>, m: Manager)
    requires Distinct(ports) && Exec(capacity, ports, actions) == Some(m)
    ensures RequestOk(m) && RemovalOk(m)
  {
    if actions != [] {
      var before := actions[..|actions| - 1];
      var p := Exec(capacity, ports, before).value;
      ReachableIsInv(capacity, ports, before);
      ReachableRemovalIsOk(capacity, ports, before, p);
      StepKeepsRemoval(capacity, p, actions[|actions| - 1]);
    }
  }

  /** However many requests were dropped before, a delete that went out is answered with "known". */
  lemma DeletesKnowTheirSession(capacity: nat, ports: seq<u16>, actions: seq<Action>, m: Manager)
    requires Distinct(ports) && Exec(capacity, ports, actions) == Some(m)
    requires m.request.Pending? && m.request.msg.RemoveSession?
    requires m.request.stage.Awaiting? && m.request.stage.answer.Some?
    ensures m.request.stage.answer == Some(SessionRemoved(true))
  {
    ReachableRemovalIsOk(capacity, ports, actions, m);
  }

  // ------------------------------------------------------------------ requests complete

  predicate Completing(a: Action) {
    a.Enqueue? || a.Serve? || a.FinishRequest?
  }

  /** `longer` is `actions` and then only what completes the request under way. */
  predicate FollowedByCompletion(actions: seq<Action>, longer: seq<Action>) {
    actions <= longer && forall k | |actions| <= k < |longer| :: Completing(longer[k])
  }

  lemma CompletionsCompose(actions: seq<Action>, next: seq<Action>, longer: seq<Action>)
    requires FollowedByCompletion(actions, next) && FollowedByCompletion(next, longer)
    ensures FollowedByCompletion(actions, longer)
  {
    assert forall k | 0 <= k < |next| :: longer[k] == next[k];
  }

  function StageRank(stage: Stage): nat {
    match stage
    case Sending => 2
    case Awaiting(_, None) => 1
    case Awaiting(_, Some(_)) => 0
  }

  /** The next action towards the end of the request: make room, queue it, have it handled, or return. */
  function NextToComplete(capacity: nat, m: Manager): Action
    requires RequestOk(m) && m.request.Pending?
  {
    match m.request.stage
    case Sending => if |m.pool[m.request.socket].queue| < capacity then Enqueue else Serve(m.request.socket)
    case Awaiting(_, None) => Serve(m.request.socket)
    case Awaiting(_, Some(_)) => FinishRequest
  }

  lemma CompletionAdvances(capacity: nat, m: Manager)
    requires capacity > 0 && Inv(m) && m.request.Pending?
    ensures var a := NextToComplete(capacity, m);
      && Completing(a) && Enabled(capacity, m, a)
      && var m' := Do(capacity, m, a);
      && (m'.request.Idle? <==> a.FinishRequest?)
      && (m'.request.Pending? ==>
            && m'.request.msg == m.request.msg && m'.request.socket == m.request.socket
            && (StageRank(m'.request.stage) < StageRank(m.request.stage)
                || (m'.request.stage == m.request.stage
                    && |m'.pool[m.request.socket].queue| < |m.pool[m.request.socket].queue|)))
  {
  }

  /** A completed request is in effect on its socket and in the record. */
  ghost predicate Completed(m: Manager, msg: ControlMsg, socket: nat) {
    && m.request.Idle? && socket < |m.pool|
    && TookEffect(m.pool[socket].tables, msg)
    && (msg.AddRoute? <==> Key(m.pool[socket].port, msg.session) in m.endpoints)
  }

  /**
    No request hangs: from every reachable state, whatever was dropped before, queueing, handling and
    returning alone bring the request under way to its end, with its message in effect.
   */
  lemma {:induction false} RequestsComplete(capacity: nat, ports: seq<u16>, actions: seq<Action>, m: Manager)
    returns (longer: seq<Action>)
    requires capacity > 0 && Distinct(ports) && Exec(capacity, ports, actions) == Some(m) && m.request.Pending?
    ensures FollowedByCompletion(actions, longer) && Exec(capacity, ports, longer).Some?
    ensures Completed(Exec(capacity, ports, longer).value, m.request.msg, m.request.socket)
    decreases StageRank(m.request.stage),
              if m.request.socket < |m.pool| then |m.pool[m.request.socket].queue| else 0
  {
    ReachableIsInv(capacity, ports, actions);
    CompletionAdvances(capacity, m);
    var a := NextToComplete(capacity, m);
    var next, m' := actions + [a], Do(capacity, m, a);
    ExecExtends(capacity, ports, actions, a);
    longer := next;
    if m'.request.Pending? {
      longer := RequestsComplete(capacity, ports, next, m');
      CompletionsCompose(actions, next, longer);
    }
  }
}
