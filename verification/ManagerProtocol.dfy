/**
  The manager and its pooled sockets: requests are forwarded over FIFO control channels and
  acknowledged, and the caller may vanish at any await.

  The manager is behind a lock, so one request is under way at a time; a dropped request releases
  the lock but leaves behind what it has already queued.
 */
module ManagerProtocol {
  import opened Wrappers
  import opened Bytes
  import opened PooledEndpoint
  import opened EndpointRuns

  /** The wrap-around of a 64-bit `usize`. */
  const USIZE_MODULUS: nat := 0x1_0000_0000_0000_0000

  /** A key of `udp_endpoints`. */
  datatype Key = Key(port: u16, session: SessionId)

  /** A queued control message; the ticket stands for its one-shot answer channel. */
  datatype Job = Job(msg: ControlMsg, ticket: nat)

  datatype Socket = Socket(port: u16, tables: Tables, queue: seq<Job>)

  /** The await a request is at: for room in the control channel, or for the acknowledgement. */
  datatype Stage = Sending | Awaiting(ticket: nat, answer: Option<Reply>)

  datatype Request = Idle | Pending(msg: ControlMsg, socket: nat, stage: Stage)

  datatype Manager = Manager(
    pool: seq<Socket>,
    endpoints: map<Key, SocketAddr>,
    next: nat,
    request: Request,
    tickets: nat)

  datatype Action =
    | StartCreate(session: SessionId, ufrag: Option<Ufrag>, target: Option<SocketAddr>)
    | StartDelete(port: u16, session: SessionId)
    | Enqueue
    | FinishRequest
    | Serve(socket: nat)
    | Traffic(socket: nat, event: Event)
    | Cancel

  // ------------------------------------------------------------------ steps

  /** The socket a new session is put on, and the counter afterwards. */
  function Pick(next: nat, poolSize: nat): nat
    requires poolSize > 0
  {
    next % poolSize
  }

  function Advance(next: nat): nat {
    (next + 1) % USIZE_MODULUS
  }

  /** The first pooled socket with the given port. */
  function Find(pool: seq<Socket>, port: u16): (r: Option<nat>)
    ensures r.Some? ==> r.value < |pool| && pool[r.value].port == port
    ensures r.None? ==> forall i | 0 <= i < |pool| :: pool[i].port != port
  {
    if pool == [] then None
    else if pool[0].port == port then Some(0)
    else
      match Find(pool[1..], port)
      case None => None
      case Some(i) => Some(i + 1)
  }

  predicate Enabled(capacity: nat, m: Manager, a: Action) {
    match a
    case StartCreate(_, _, _) => m.request.Idle? && m.pool != []
    case StartDelete(_, _) => m.request.Idle?
    case Enqueue =>
      && m.request.Pending? && m.request.stage.Sending? && m.request.socket < |m.pool|
      && |m.pool[m.request.socket].queue| < capacity
    case FinishRequest =>
      && m.request.Pending? && m.request.stage.Awaiting? && m.request.stage.answer.Some?
      && m.request.socket < |m.pool|
    case Serve(i) => i < |m.pool| && m.pool[i].queue != []
    case Traffic(i, e) => i < |m.pool| && !e.Control?
    case Cancel => m.request.Pending?
  }

  function Do(capacity: nat, m: Manager, a: Action): Manager
    requires Enabled(capacity, m, a)
  {
    match a
    case StartCreate(session, ufrag, target) =>
      if ufrag.None? || ufrag.value == [] || target.None? then m
      else
        m.(next := Advance(m.next),
           request := Pending(AddRoute(session, ufrag.value, target.value), Pick(m.next, |m.pool|), Sending))
    case StartDelete(port, session) =>
      if Key(port, session) !in m.endpoints then m
      else
        var m' := m.(endpoints := m.endpoints - {Key(port, session)});
        (match Find(m.pool, port)
         case None => m'
         case Some(i) => m'.(request := Pending(RemoveSession(session), i, Sending)))
    case Enqueue =>
      var i := m.request.socket;
      var socket := m.pool[i].(queue := m.pool[i].queue + [Job(m.request.msg, m.tickets)]);
      m.(pool := m.pool[i := socket],
         request := m.request.(stage := Awaiting(m.tickets, None)),
         tickets := m.tickets + 1)
    case FinishRequest =>
      var m' := m.(request := Idle);
      (match m.request.msg
       case AddRoute(session, _, target) =>
         m'.(endpoints := m.endpoints[Key(m.pool[m.request.socket].port, session) := target])
       case RemoveSession(_) => m')
    case Serve(i) => ServeOne(m, i)
    case Traffic(i, e) =>
      m.(pool := m.pool[i := m.pool[i].(tables := Step(m.pool[i].tables, e))])
    case Cancel => m.(request := Idle)
  }

  /** The endpoint handles the head of its queue and answers it, if anyone still listens. */
  function ServeOne(m: Manager, i: nat): Manager
    requires i < |m.pool| && m.pool[i].queue != []
  {
    var socket := m.pool[i];
    var job := socket.queue[0];
    var served := socket.(tables := OnControl(socket.tables, job.msg), queue := socket.queue[1..]);
    var listening := m.request.Pending? && m.request.stage.Awaiting? && m.request.stage.ticket == job.ticket;
    m.(pool := m.pool[i := served],
       request := if listening
         then m.request.(stage := Awaiting(job.ticket, Some(ReplyTo(socket.tables, job.msg))))
         else m.request)
  }

  /** A manager whose pool is bound to `ports` and has served nothing yet. */
  function Initial(ports: seq<u16>): Manager {
    Manager(seq(|ports|, i requires 0 <= i < |ports| => Socket(ports[i], EMPTY, [])), map[], 0, Idle, 0)
  }

  function Exec(capacity: nat, ports: seq<u16>, actions: seq<Action>): Option<Manager> {
    if actions == [] then Some(Initial(ports))
    else
      match Exec(capacity, ports, actions[..|actions| - 1])
      case None => None
      case Some(m) =>
        var a := actions[|actions| - 1];
        if Enabled(capacity, m, a) then Some(Do(capacity, m, a)) else None
  }

  lemma ExecExtends(capacity: nat, ports: seq<u16>, actions: seq<Action>, a: Action)
    ensures Exec(capacity, ports, actions + [a])
         == match Exec(capacity, ports, actions)
            case None => None
            case Some(m) => if Enabled(capacity, m, a) then Some(Do(capacity, m, a)) else None
  {
    assert (actions + [a])[..|actions|] == actions;
  }

  predicate Distinct(ports: seq<u16>) {
    forall i, j | 0 <= i < j < |ports| :: ports[i] != ports[j]
  }

  // ------------------------------------------------------------------ the invariant

  ghost predicate DistinctPorts(pool: seq<Socket>) {
    forall i, j | 0 <= i < j < |pool| :: pool[i].port != pool[j].port
  }

  predicate RemovalQueued(socket: Socket, session: SessionId) {
    exists job <- socket.queue :: job.msg == RemoveSession(session)
  }

  /** A recorded key names a socket that holds the session and is not about to remove it. */
  ghost predicate KeyIsLive(m: Manager, key: Key) {
    var found := Find(m.pool, key.port);
    && found.Some?
    && key.session in m.pool[found.value].tables.sessions
    && !RemovalQueued(m.pool[found.value], key.session)
  }

  ghost predicate SocketOk(m: Manager, i: nat)
    requires i < |m.pool|
  {
    && Consistent(m.pool[i].tables)
    && forall job <- m.pool[i].queue :: job.ticket < m.tickets
  }

  /** While unanswered, a request's message is the last one in its queue; answered, it took effect. */
  ghost predicate RequestOk(m: Manager) {
    match m.request
    case Idle => true
    case Pending(msg, i, stage) =>
      && i < |m.pool|
      && (msg.RemoveSession? ==> Key(m.pool[i].port, msg.session) !in m.endpoints)
      && (stage.Awaiting? ==>
            var socket := m.pool[i];
            && stage.ticket < m.tickets
            && (forall j: nat | j < |m.pool| :: forall job <- m.pool[j].queue ::
                  job.ticket == stage.ticket ==> j == i && job == socket.queue[|socket.queue| - 1])
            && match stage.answer
               case None => socket.queue != [] && socket.queue[|socket.queue| - 1] == Job(msg, stage.ticket)
                         && (forall k | 0 <= k < |socket.queue| - 1 :: socket.queue[k].ticket != stage.ticket)
               case Some(reply) => socket.queue == [] && TookEffect(socket.tables, msg))
  }

  ghost predicate TookEffect(t: Tables, msg: ControlMsg) {
    match msg
    case AddRoute(session, ufrag, target) =>
      && session in t.sessions && t.sessions[session] == ufrag
      && ufrag in t.routes && t.routes[ufrag] == target
    case RemoveSession(session) => session !in t.sessions
  }

  ghost predicate Inv(m: Manager) {
    && DistinctPorts(m.pool)
    && (forall i: nat | i < |m.pool| :: SocketOk(m, i))
    && RequestOk(m)
    && (forall key <- m.endpoints :: KeyIsLive(m, key))
  }

  // ------------------------------------------------------------------ every step keeps it

  lemma FindIsUnique(pool: seq<Socket>, i: nat)
    requires DistinctPorts(pool) && i < |pool|
    ensures Find(pool, pool[i].port) == Some(i)
  {
  }

  lemma {:induction false} FindDependsOnPorts(pool: seq<Socket>, other: seq<Socket>, port: u16)
    requires |pool| == |other|
    requires forall i | 0 <= i < |pool| :: pool[i].port == other[i].port
    ensures Find(pool, port) == Find(other, port)
  {
    if pool != [] {
      FindDependsOnPorts(pool[1..], other[1..], port);
    }
  }

  lemma AddTakesEffect(t: Tables, msg: ControlMsg)
    ensures TookEffect(OnControl(t, msg), msg)
    ensures forall s <- t.sessions :: msg != RemoveSession(s) ==> s in OnControl(t, msg).sessions
  {
    if msg.AddRoute? {
      assert t.sessions[msg.session := msg.ufrag][msg.session] == msg.ufrag;
    }
  }

  /** A socket that keeps its port and sessions, and queues no new removal, keeps its keys live. */
  lemma SocketChangeKeepsKeys(m: Manager, i: nat, socket: Socket, key: Key)
    requires Inv(m) && i < |m.pool| && key in m.endpoints
    requires socket.port == m.pool[i].port
    requires key.port == socket.port && KeyIsLive(m, key) ==>
      key.session in socket.tables.sessions && !RemovalQueued(socket, key.session)
    ensures KeyIsLive(m.(pool := m.pool[i := socket]), key)
  {
    assert KeyIsLive(m, key);
    FindDependsOnPorts(m.pool, m.pool[i := socket], key.port);
    FindIsUnique(m.pool, i);
  }

  lemma ServingKeepsInv(m: Manager, i: nat)
    requires Inv(m) && i < |m.pool| && m.pool[i].queue != []
    ensures Inv(ServeOne(m, i))
  {
    var m' := ServeOne(m, i);
    var socket, job, served := m.pool[i], m.pool[i].queue[0], m'.pool[i];
    assert job in socket.queue;
    AddTakesEffect(socket.tables, job.msg);
    ControlKeepsConsistency(socket.tables, job.msg) by {
      assert SocketOk(m, i);
    }
    forall j: nat | j < |m'.pool| ensures SocketOk(m', j) {
      assert SocketOk(m, j);
    }
    forall key <- m'.endpoints ensures KeyIsLive(m', key) {
      SocketChangeKeepsKeys(m, i, served, key) by {
        if key.port == socket.port {
          assert KeyIsLive(m, key);
          FindIsUnique(m.pool, i);
          assert forall other <- served.queue :: other in socket.queue;
        }
      }
      assert KeyIsLive(m.(pool := m'.pool), key);
    }
    ServingKeepsRequest(m, i);
  }

  lemma ServingKeepsRequest(m: Manager, i: nat)
    requires RequestOk(m) && i < |m.pool| && m.pool[i].queue != []
    ensures RequestOk(ServeOne(m, i))
  {
    var m' := ServeOne(m, i);
    var socket := m.pool[i];
    AddTakesEffect(socket.tables, socket.queue[0].msg);
    if m.request.Pending? && m.request.stage.Awaiting? {
      assert socket.queue[0] in socket.queue;
      assert forall other <- m'.pool[i].queue :: other in socket.queue;
      var mine := m.pool[m.request.socket].queue;
      assert m'.pool[m.request.socket].queue == if m.request.socket == i then mine[1..] else mine;
    }
  }

  lemma EnqueueKeepsInv(capacity: nat, m: Manager)
    requires Inv(m) && Enabled(capacity, m, Enqueue)
    ensures Inv(Do(capacity, m, Enqueue))
  {
    var m' := Do(capacity, m, Enqueue);
    var i := m.request.socket;
    forall j: nat | j < |m'.pool| ensures SocketOk(m', j) {
      assert SocketOk(m, j);
    }
    forall key <- m'.endpoints ensures KeyIsLive(m', key) {
      SocketChangeKeepsKeys(m, i, m'.pool[i], key);
      assert KeyIsLive(m.(pool := m'.pool), key);
    }
    forall j: nat | j < |m'.pool|
      ensures forall job <- m'.pool[j].queue :: job.ticket == m.tickets ==>
        j == i && job == m'.pool[i].queue[|m'.pool[i].queue| - 1]
    {
      assert SocketOk(m, j);
    }
    assert SocketOk(m, i);
  }

  lemma TrafficKeepsInv(capacity: nat, m: Manager, i: nat, e: Event)
    requires Inv(m) && Enabled(capacity, m, Traffic(i, e))
    ensures Inv(Do(capacity, m, Traffic(i, e)))
  {
    var m' := Do(capacity, m, Traffic(i, e));
    TrafficLeavesRoutes(m.pool[i].tables, e);
    EventKeepsConsistency(m.pool[i].tables, e) by {
      assert SocketOk(m, i);
    }
    forall j: nat | j < |m'.pool| ensures SocketOk(m', j) {
      assert SocketOk(m, j);
    }
    forall key <- m'.endpoints ensures KeyIsLive(m', key) {
      SocketChangeKeepsKeys(m, i, m'.pool[i], key) by {
        FindIsUnique(m.pool, i);
      }
    }
    if m.request.Pending? {
      assert m'.pool[m.request.socket].queue == m.pool[m.request.socket].queue;
      assert forall j: nat | j < |m'.pool| :: m'.pool[j].queue == m.pool[j].queue;
    }
  }

  lemma TrafficLeavesRoutes(t: Tables, e: Event)
    requires !e.Control?
    ensures Step(t, e).routes == t.routes && Step(t, e).sessions == t.sessions
  {
  }

  lemma RequestStepKeepsInv(capacity: nat, m: Manager, a: Action)
    requires Inv(m) && Enabled(capacity, m, a)
    requires a.StartCreate? || a.StartDelete? || a.FinishRequest? || a.Cancel?
    ensures Inv(Do(capacity, m, a))
  {
    var m' := Do(capacity, m, a);
    forall j: nat | j < |m'.pool| ensures SocketOk(m', j) {
      assert SocketOk(m, j);
    }
    forall key <- m'.endpoints ensures KeyIsLive(m', key) {
      if key in m.endpoints {
        assert KeyIsLive(m, key);
      } else {
        FindIsUnique(m.pool, m.request.socket);
      }
    }
  }

  lemma StepKeepsInv(capacity: nat, m: Manager, a: Action)
    requires Inv(m) && Enabled(capacity, m, a)
    ensures Inv(Do(capacity, m, a))
  {
    match a
    case Serve(i) => ServingKeepsInv(m, i);
    case Enqueue => EnqueueKeepsInv(capacity, m);
    case Traffic(i, e) => TrafficKeepsInv(capacity, m, i, e);
    case _ => RequestStepKeepsInv(capacity, m, a);
  }

  lemma {:induction false} ReachableIsInv(capacity: nat, ports: seq<u16>, actions: seq<Action>)
    requires Distinct(ports) && Exec(capacity, ports, actions).Some?
    ensures Inv(Exec(capacity, ports, actions).value)
    ensures |Exec(capacity, ports, actions).value.pool| == |ports|
    ensures forall i | 0 <= i < |ports| :: Exec(capacity, ports, actions).value.pool[i].port == ports[i]
  {
    if actions == [] {
      assert EMPTY.sessions.Values == {};
    } else {
      ReachableIsInv(capacity, ports, actions[..|actions| - 1]);
      StepKeepsInv(capacity, Exec(capacity, ports, actions[..|actions| - 1]).value, actions[|actions| - 1]);
    }
  }
}
