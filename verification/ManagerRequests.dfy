/**
  From the caller to the socket and to the record: which requests start, that sockets are told nothing
  else and in that order, and what `udp_endpoints` says in terms of the answers given.
 */
module ManagerRequests {
  import opened Wrappers
  import opened Bytes
  import opened PooledEndpoint
  import opened EndpointRuns
  import opened ManagerProtocol

  // ------------------------------------------------------------------ which requests start

  predicate Acceptable(ufrag: Option<Ufrag>, target: Option<SocketAddr>) {
    ufrag.Some? && ufrag.value != [] && target.Some?
  }

  /**
    A create without a usable ufrag or target is refused without a trace; any other starts, on the
    socket the counter points at, with exactly what was asked for, and so far changes nothing else.
   */
  lemma CreateStartsExactlyWhen(capacity: nat, m: Manager, session: SessionId,
                                ufrag: Option<Ufrag>, target: Option<SocketAddr>)
    requires m.request.Idle? && m.pool != []
    ensures var m' := Do(capacity, m, StartCreate(session, ufrag, target));
      && (m'.request.Pending? <==> Acceptable(ufrag, target))
      && (!Acceptable(ufrag, target) ==> m' == m)
      && (Acceptable(ufrag, target) ==>
            && m'.request.msg == AddRoute(session, ufrag.value, target.value)
            && m'.request.socket < |m.pool| && m'.request.stage.Sending?)
      && m'.pool == m.pool && m'.endpoints == m.endpoints && m'.tickets == m.tickets
  {
  }

  /** A delete of an unrecorded session is refused without a trace; any other takes it off the record. */
  lemma DeleteStartsExactlyWhen(capacity: nat, m: Manager, port: u16, session: SessionId)
    requires Inv(m) && m.request.Idle?
    ensures var m' := Do(capacity, m, StartDelete(port, session));
      && (m'.request.Pending? <==> Key(port, session) in m.endpoints)
      && (Key(port, session) !in m.endpoints ==> m' == m)
      && (Key(port, session) in m.endpoints ==>
            && m'.request.msg == RemoveSession(session) && m'.request.stage.Sending?
            && m'.request.socket < |m.pool| && m.pool[m'.request.socket].port == port)
      && m'.endpoints == m.endpoints - {Key(port, session)}
      && m'.pool == m.pool && m'.next == m.next && m'.tickets == m.tickets
  {
    if Key(port, session) in m.endpoints {
      assert KeyIsLive(m, Key(port, session));
    } else {
      assert m.endpoints - {Key(port, session)} == m.endpoints;
    }
  }

  /** The caller may ask whenever nothing is under way and vanish whenever something is; traffic never waits. */
  lemma NothingIsExcluded(capacity: nat, m: Manager, a: Action)
    ensures a.StartCreate? ==> (Enabled(capacity, m, a) <==> m.request.Idle? && m.pool != [])
    ensures a.StartDelete? ==> (Enabled(capacity, m, a) <==> m.request.Idle?)
    ensures a.Cancel? ==> (Enabled(capacity, m, a) <==> m.request.Pending?)
    ensures a.Serve? ==> (Enabled(capacity, m, a) <==> a.socket < |m.pool| && m.pool[a.socket].queue != [])
    ensures a.Traffic? && !a.event.Control? ==> (Enabled(capacity, m, a) <==> a.socket < |m.pool|)
  {
  }

  // ------------------------------------------------------------------ what sockets are told

  function QueuedBy(m: Manager, a: Action, i: nat): seq<ControlMsg> {
    if a.Enqueue? && m.request.Pending? && m.request.socket == i then [m.request.msg] else []
  }

  /** The control messages that requests have queued for socket `i`, in order. */
  function ToldTo(capacity: nat, ports: seq<u16>, actions: seq<Action>, i: nat): seq<ControlMsg>
    requires Exec(capacity, ports, actions).Some?
  {
    if actions == [] then []
    else
      var before := actions[..|actions| - 1];
      ToldTo(capacity, ports, before, i)
      + QueuedBy(Exec(capacity, ports, before).value, actions[|actions| - 1], i)
  }

  predicate IsStart(a: Action) {
    a.StartCreate? || a.StartDelete?
  }

  /** The position of the latest create or delete, or -1. */
  function LastStart(actions: seq<Action>): int {
    if actions == [] then -1
    else if IsStart(actions[|actions| - 1]) then |actions| - 1
    else LastStart(actions[..|actions| - 1])
  }

  /** Action `j` asks for what `msg` tells the socket at `port`. */
  predicate AsksFor(actions: seq<Action>, j: int, port: u16, msg: ControlMsg) {
    && 0 <= j < |actions|
    && match msg
       case AddRoute(s, u, target) => u != [] && actions[j] == StartCreate(s, Some(u), Some(target))
       case RemoveSession(s) => actions[j] == StartDelete(port, s)
  }

  /** Where the messages of `ToldTo` were asked for. */
  function Origins(capacity: nat, ports: seq<u16>, actions: seq<Action>, i: nat): seq<int>
    requires Exec(capacity, ports, actions).Some?
  {
    if actions == [] then []
    else
      var before := actions[..|actions| - 1];
      Origins(capacity, ports, before, i)
      + if QueuedBy(Exec(capacity, ports, before).value, actions[|actions| - 1], i) == [] then []
        else [LastStart(before)]
  }

  lemma AskedEarlier(actions: seq<Action>, a: Action, j: int, port: u16, msg: ControlMsg)
    requires AsksFor(actions, j, port, msg)
    ensures AsksFor(actions + [a], j, port, msg)
  {
  }

  lemma StartAsks(capacity: nat, m: Manager, actions: seq<Action>, a: Action)
    requires Inv(m) && Enabled(capacity, m, a) && m.request.Idle? && Do(capacity, m, a).request.Pending?
    ensures IsStart(a)
    ensures var request := Do(capacity, m, a).request;
      request.socket < |m.pool| && AsksFor(actions + [a], |actions|, m.pool[request.socket].port, request.msg)
  {
    assert (actions + [a])[|actions|] == a;
  }

  lemma RequestStays(capacity: nat, m: Manager, a: Action)
    requires Enabled(capacity, m, a) && m.request.Pending? && Do(capacity, m, a).request.Pending?
    ensures !IsStart(a)
    ensures Do(capacity, m, a).request.msg == m.request.msg && Do(capacity, m, a).request.socket == m.request.socket
  {
  }

  /** A request under way is the latest that was started. */
  lemma {:induction false} PendingWasStarted(capacity: nat, ports: seq<u16>, actions: seq<Action>, m: Manager)
    requires Distinct(ports) && Exec(capacity, ports, actions) == Some(m) && m.request.Pending?
    ensures m.request.socket < |ports|
    ensures AsksFor(actions, LastStart(actions), ports[m.request.socket], m.request.msg)
  {
    var before, a := actions[..|actions| - 1], actions[|actions| - 1];
    var p := Exec(capacity, ports, before).value;
    ReachableIsInv(capacity, ports, before);
    assert before + [a] == actions;
    if p.request.Pending? {
      PendingWasStarted(capacity, ports, before, p);
      RequestStays(capacity, p, a);
      AskedEarlier(before, a, LastStart(before), ports[p.request.socket], p.request.msg);
    } else {
      StartAsks(capacity, p, before, a);
    }
  }

  /** The messages told so far each answer to a start of their own, in the order of the starts. */
  ghost predicate ToldInOrder(actions: seq<Action>, told: seq<ControlMsg>, origins: seq<int>, port: u16, bound: int) {
    && |told| == |origins|
    && (forall k | 0 <= k < |told| :: AsksFor(actions, origins[k], port, told[k]) && origins[k] < bound)
    && (forall j, k | 0 <= j < k < |origins| :: origins[j] < origins[k])
  }

  lemma LastStartIsBelow(actions: seq<Action>)
    ensures -1 <= LastStart(actions) < |actions|
  {
  }

  /** While the latest request has not been queued, its start is later than all that have. */
  function Bound(m: Manager, actions: seq<Action>): int {
    if m.request.Pending? && m.request.stage.Sending? then LastStart(actions) else LastStart(actions) + 1
  }

  lemma BoundGrows(capacity: nat, m: Manager, actions: seq<Action>, a: Action)
    requires Enabled(capacity, m, a)
    ensures Bound(m, actions) <= Bound(Do(capacity, m, a), actions + [a])
    ensures a.Enqueue? ==>
      Bound(m, actions) == LastStart(actions) < Bound(Do(capacity, m, a), actions + [a])
  {
    assert (actions + [a])[..|actions|] == actions;
    LastStartIsBelow(actions);
  }

  lemma {:induction false} ToldIsAskedFor(capacity: nat, ports: seq<u16>, actions: seq<Action>, m: Manager, i: nat)
    requires Distinct(ports) && Exec(capacity, ports, actions) == Some(m) && i < |ports|
    ensures ToldInOrder(actions, ToldTo(capacity, ports, actions, i), Origins(capacity, ports, actions, i), ports[i],
                        Bound(m, actions))
  {
    if actions != [] {
      var before, a := actions[..|actions| - 1], actions[|actions| - 1];
      assert before + [a] == actions;
      var p := Exec(capacity, ports, before).value;
      ToldIsAskedFor(capacity, ports, before, p, i);
      BoundGrows(capacity, p, before, a);
      var told, origins := ToldTo(capacity, ports, before, i), Origins(capacity, ports, before, i);
      forall k | 0 <= k < |told| ensures AsksFor(actions, origins[k], ports[i], told[k]) {
        AskedEarlier(before, a, origins[k], ports[i], told[k]);
      }
      if QueuedBy(p, a, i) != [] {
        PendingWasStarted(capacity, ports, before, p);
        AskedEarlier(before, a, LastStart(before), ports[i], p.request.msg);
      }
    }
  }

  /**
    Sockets are told what was asked for and nothing else, whatever was dropped: each message of a
    socket is that of an acceptable create, or of a delete for its own port; no request yields two, and
    they come in the order of the requests.
   */
  lemma SocketsAreToldRequests(capacity: nat, ports: seq<u16>, actions: seq<Action>, i: nat)
    returns (origins: seq<int>)
    requires Distinct(ports) && Exec(capacity, ports, actions).Some? && i < |ports|
    ensures var told := ToldTo(capacity, ports, actions, i);
      && |origins| == |told|
      && (forall k | 0 <= k < |told| :: AsksFor(actions, origins[k], ports[i], told[k]))
      && (forall j, k | 0 <= j < k < |told| :: origins[j] < origins[k])
  {
    ToldIsAskedFor(capacity, ports, actions, Exec(capacity, ports, actions).value, i);
    origins := Origins(capacity, ports, actions, i);
  }

  // ------------------------------------------------------------------ what is recorded

  function AnsweredBy(m: Manager, a: Action, i: nat, port: u16): seq<ControlMsg> {
    if a.FinishRequest? && m.request.Pending? && m.request.socket == i && m.request.msg.AddRoute?
    then [m.request.msg]
    else if a.StartDelete? && a.port == port then [RemoveSession(a.session)] else []
  }

  /** The creates on socket `i` that have been answered, and the deletes asked for at its port, in order. */
  function Answered(capacity: nat, ports: seq<u16>, actions: seq<Action>, i: nat): seq<ControlMsg>
    requires Exec(capacity, ports, actions).Some? && i < |ports|
  {
    if actions == [] then []
    else
      var before := actions[..|actions| - 1];
      Answered(capacity, ports, before, i)
      + AnsweredBy(Exec(capacity, ports, before).value, actions[|actions| - 1], i, ports[i])
  }

  /** The last message of session `s` in `log` is an add with `target`. */
  ghost predicate Records(log: seq<ControlMsg>, s: SessionId, target: SocketAddr) {
    exists k: nat :: IsLastOfSession(log, k, s) && log[k].AddRoute? && log[k].target == target
  }

  lemma RecordsAfter(log: seq<ControlMsg>, msg: ControlMsg, s: SessionId, target: SocketAddr)
    ensures Records(log + [msg], s, target)
       <==> if msg.session == s then msg.AddRoute? && msg.target == target else Records(log, s, target)
  {
    var longer := log + [msg];
    if msg.session == s {
      assert IsLastOfSession(longer, |log|, s);
    } else {
      forall k: nat | k < |log| ensures IsLastOfSession(log, k, s) <==> IsLastOfSession(longer, k, s) {
        assert forall j | k <= j < |log| :: log[j] == longer[j];
      }
    }
  }

  ghost predicate RecordFollows(m: Manager, log: seq<ControlMsg>, port: u16) {
    forall s, target ::
      Key(port, s) in m.endpoints && m.endpoints[Key(port, s)] == target <==> Records(log, s, target)
  }

  lemma StepKeepsRecord(capacity: nat, m: Manager, a: Action, log: seq<ControlMsg>, i: nat, port: u16)
    requires Inv(m) && Enabled(capacity, m, a) && i < |m.pool| && m.pool[i].port == port
    requires RecordFollows(m, log, port)
    ensures RecordFollows(Do(capacity, m, a), log + AnsweredBy(m, a, i, port), port)
  {
    var m', more := Do(capacity, m, a), AnsweredBy(m, a, i, port);
    forall s, target
      ensures Key(port, s) in m'.endpoints && m'.endpoints[Key(port, s)] == target <==> Records(log + more, s, target)
    {
      assert Key(port, s) in m.endpoints && m.endpoints[Key(port, s)] == target <==> Records(log, s, target);
      if more == [] {
        assert log + more == log;
      } else {
        RecordsAfter(log, more[0], s, target);
      }
    }
  }

  lemma {:induction false} RunKeepsRecord(capacity: nat, ports: seq<u16>, actions: seq<Action>, m: Manager, i: nat)
    requires Distinct(ports) && Exec(capacity, ports, actions) == Some(m) && i < |ports|
    ensures RecordFollows(m, Answered(capacity, ports, actions, i), ports[i])
  {
    if actions == [] {
      assert Answered(capacity, ports, actions, i) == [];
    } else {
      var before := actions[..|actions| - 1];
      var p := Exec(capacity, ports, before).value;
      ReachableIsInv(capacity, ports, before);
      RunKeepsRecord(capacity, ports, before, p, i);
      StepKeepsRecord(capacity, p, actions[|actions| - 1], Answered(capacity, ports, before, i), i, ports[i]);
    }
  }

  /**
    What `udp_endpoints` says, in every reachable state: a session is on record with a target iff the
    latest of its answered creates there and of its deletes is a create with that target; and there is
    nothing on record for ports that are not pooled.
   */
  lemma RecordIsLastAnswer(capacity: nat, ports: seq<u16>, actions: seq<Action>, m: Manager,
                           key: Key, target: SocketAddr)
    requires Distinct(ports) && Exec(capacity, ports, actions) == Some(m)
    ensures key in m.endpoints && m.endpoints[key] == target
       <==> exists i :: 0 <= i < |ports| && ports[i] == key.port
              && Records(Answered(capacity, ports, actions, i), key.session, target)
  {
    ReachableIsInv(capacity, ports, actions);
    forall i: nat | i < |ports| ensures RecordFollows(m, Answered(capacity, ports, actions, i), ports[i]) {
      RunKeepsRecord(capacity, ports, actions, m, i);
    }
    assert Key(key.port, key.session) == key;
    if key in m.endpoints {
      assert KeyIsLive(m, key);
      assert ports[Find(m.pool, key.port).value] == key.port;
    }
  }
}
