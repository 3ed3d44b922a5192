/**
  The pooled endpoint together with its relay tasks: a concurrent protocol over two bounded channels.

  Every relay has a control channel, on which the endpoint notes each datagram it wrote to the relay's
  socket. All relays share one channel back, on which each reports its end. A handler that leaves the
  endpoint's table aborts its relay, but the abort takes effect only later.
 */
module RelayProtocol {
  import opened Wrappers
  import opened Bytes
  import opened PooledEndpoint
  import opened EndpointRuns

  /** Capacities of a relay's control channel and of the shared report channel. */
  datatype Caps = Caps(control: nat, reports: nat) {
    predicate Usable() {
      control >= 1 && reports >= 1
    }
  }

  /**
    Where a relay task is: at its select, writing a reply to the client, past its loop, past closing
    its control channel, past reporting its end, or stopped by an abort.
   */
  datatype Phase = Selecting | Replying | Leaving | Reporting | Finished | Stopped

  /** `noted` counts the queued notes; `dropped` says that an abort has been requested. */
  datatype RelayTask = RelayTask(relay: Relay, phase: Phase, dropped: bool, noted: nat) {
    predicate Open() {
      phase.Selecting? || phase.Replying? || phase.Leaving?
    }
  }

  /** A queued `ClientEnded`. Only `client` is in the message; `sender` says who sent it. */
  datatype Report = Report(client: SocketAddr, sender: nat)

  /** Where the endpoint is: in its select, or awaiting a control channel inside `on_datagram`. */
  datatype Place =
    | Receiving
    | Noting(data: seq<byte>, from: SocketAddr)
    | Opening(data: seq<byte>, from: SocketAddr, fast: SendOutcome, client: Client)

  /** `history` records the inputs handled so far, for the proofs only. */
  datatype System = System(
    tables: Tables,
    tasks: seq<RelayTask>,
    reports: seq<Report>,
    place: Place,
    sent: seq<Sent>,
    history: seq<Event>)

  const INITIAL: System := System(EMPTY, [], [], Receiving, [], [])

  /** What the network does when the endpoint tries to open a flow. */
  datatype Attempt = Attempt(connected: bool, written: bool)

  datatype Action =
    // inputs
    | ReceiveDatagram(data: seq<byte>, from: SocketAddr, written: bool, attempt: Attempt)
    | ReceiveControl(msg: ControlMsg)
    | RelayReceives(id: nat)
    | RelayLeaves(id: nat)
    // reactions of the endpoint
    | NoteAccepted
    | NoteRefused(attempt: Attempt)
    | OpenAccepted
    | OpenRefused
    | TakeReport
    // reactions of relays
    | RelayConsumes(id: nat)
    | RelayReplied(id: nat)
    | RelayCloses(id: nat)
    | RelayReports(id: nat)
    | RelayStops(id: nat)
  {
    predicate Input() {
      ReceiveDatagram? || ReceiveControl? || RelayReceives? || RelayLeaves?
    }
  }

  // ------------------------------------------------------------------ steps

  predicate Listed(clients: map<SocketAddr, Client>, relay: Relay) {
    relay.client in clients && clients[relay.client].relay == relay
  }

  /** Handlers that leave the table request the abort of their relays. */
  function Abort(tasks: seq<RelayTask>, before: map<SocketAddr, Client>, later: map<SocketAddr, Client>)
    : (r: seq<RelayTask>)
    ensures |r| == |tasks|
    ensures forall i | 0 <= i < |r| ::
      r[i] == tasks[i].(dropped := tasks[i].dropped
                                 || (Listed(before, tasks[i].relay) && !Listed(later, tasks[i].relay)))
  {
    seq(|tasks|, i requires 0 <= i < |tasks| =>
      tasks[i].(dropped := tasks[i].dropped
                        || (Listed(before, tasks[i].relay) && !Listed(later, tasks[i].relay))))
  }

  function SetTables(s: System, t: Tables): System {
    s.(tables := t, tasks := Abort(s.tasks, s.tables.clients, t.clients))
  }

  function Finish(s: System, e: Event): System {
    s.(place := Receiving, history := s.history + [e])
  }

  function SetPhase(s: System, id: nat, phase: Phase): System
    requires id < |s.tasks|
  {
    s.(tasks := s.tasks[id := s.tasks[id].(phase := phase)])
  }

  function Note(s: System, id: nat): System
    requires id < |s.tasks|
  {
    s.(tasks := s.tasks[id := s.tasks[id].(noted := s.tasks[id].noted + 1)])
  }

  /** Routes a datagram afresh, up to the await on the new relay's control channel. */
  function TryOpen(s: System, data: seq<byte>, from: SocketAddr, fast: SendOutcome, attempt: Attempt): System {
    var route := Lookup(s.tables, data);
    if route == None || !attempt.connected then
      Finish(s, Datagram(data, from, Net(fast, None, SocketFailed)))
    else
      var (u, target) := route.value;
      var id := |s.tasks|;
      var c := Client(Relay(id, target, from), u);
      var s' := s.(tasks := s.tasks + [RelayTask(c.relay, Selecting, !attempt.written, 0)]);
      if !attempt.written then Finish(s', Datagram(data, from, Net(fast, Some(id), SocketFailed)))
      else s'.(place := Opening(data, from, fast, c), sent := s.sent + [Sent(u, target, data)])
  }

  predicate HasTask(s: System, id: nat) {
    id < |s.tasks|
  }

  /** The relay that the endpoint awaits. */
  function Awaited(s: System): nat {
    match s.place
    case Receiving => 0
    case Noting(_, from) => if from in s.tables.clients then s.tables.clients[from].relay.id else 0
    case Opening(_, _, _, c) => c.relay.id
  }

  predicate Accepts(caps: Caps, s: System, id: nat) {
    HasTask(s, id) && s.tasks[id].Open() && s.tasks[id].noted < caps.control
  }

  predicate Refuses(s: System, id: nat) {
    HasTask(s, id) && !s.tasks[id].Open()
  }

  predicate Enabled(caps: Caps, s: System, a: Action) {
    match a
    case ReceiveDatagram(_, _, _, _) => s.place.Receiving?
    case ReceiveControl(_) => s.place.Receiving?
    case RelayReceives(id) => HasTask(s, id) && s.tasks[id].phase.Selecting?
    case RelayLeaves(id) => HasTask(s, id) && (s.tasks[id].phase.Selecting? || s.tasks[id].phase.Replying?)
    case NoteAccepted => s.place.Noting? && s.place.from in s.tables.clients && Accepts(caps, s, Awaited(s))
    case NoteRefused(_) => s.place.Noting? && s.place.from in s.tables.clients && Refuses(s, Awaited(s))
    case OpenAccepted => s.place.Opening? && Accepts(caps, s, Awaited(s))
    case OpenRefused => s.place.Opening? && Refuses(s, Awaited(s))
    case TakeReport => s.place.Receiving? && s.reports != []
    case RelayConsumes(id) => HasTask(s, id) && s.tasks[id].phase.Selecting? && s.tasks[id].noted > 0
    case RelayReplied(id) => HasTask(s, id) && s.tasks[id].phase.Replying?
    case RelayCloses(id) => HasTask(s, id) && s.tasks[id].phase.Leaving?
    case RelayReports(id) => HasTask(s, id) && s.tasks[id].phase.Reporting? && |s.reports| < caps.reports
    case RelayStops(id) =>
      HasTask(s, id) && s.tasks[id].dropped && !s.tasks[id].phase.Finished? && !s.tasks[id].phase.Stopped?
  }

  /** `is_closed` of the relay the table has at `a`. */
  predicate ClosedAt(s: System, a: SocketAddr) {
    && a in s.tables.clients
    && HasTask(s, s.tables.clients[a].relay.id)
    && !s.tasks[s.tables.clients[a].relay.id].Open()
  }

  function Do(caps: Caps, s: System, a: Action): System
    requires Enabled(caps, s, a)
  {
    match a
    case ReceiveDatagram(data, from, written, attempt) =>
      if from !in s.tables.clients then TryOpen(s, data, from, SocketFailed, attempt)
      else if written then
        s.(place := Noting(data, from), sent := s.sent + Written(s.tables.clients[from], data, Delivered))
      else
        TryOpen(SetTables(s, s.tables.(clients := s.tables.clients - {from})), data, from, SocketFailed, attempt)
    case ReceiveControl(msg) =>
      Finish(SetTables(s, OnControl(s.tables, msg)), Control(msg))
    case NoteAccepted =>
      Finish(Note(s, Awaited(s)), Datagram(s.place.data, s.place.from, Net(Delivered, None, SocketFailed)))
    case NoteRefused(attempt) =>
      var s' := SetTables(s, s.tables.(clients := s.tables.clients - {s.place.from}));
      TryOpen(s', s.place.data, s.place.from, ControlClosed, attempt)
    case OpenAccepted =>
      var c := s.place.client;
      var s' := Note(s, c.relay.id);
      Finish(s'.(tables := s.tables.(clients := s.tables.clients[s.place.from := c])),
             Datagram(s.place.data, s.place.from, Net(s.place.fast, Some(c.relay.id), Delivered)))
    case OpenRefused =>
      var id := s.place.client.relay.id;
      Finish(s.(tasks := s.tasks[id := s.tasks[id].(dropped := true)]),
             Datagram(s.place.data, s.place.from, Net(s.place.fast, Some(id), ControlClosed)))
    case TakeReport =>
      var client := s.reports[0].client;
      var closed := ClosedAt(s, client);
      var s' := s.(reports := s.reports[1..]);
      Finish(SetTables(s', OnClientEnded(s.tables, client, closed)), Ended(client, closed))
    case RelayReceives(id) => SetPhase(s, id, Replying)
    case RelayReplied(id) => SetPhase(s, id, Selecting)
    case RelayConsumes(id) => s.(tasks := s.tasks[id := s.tasks[id].(noted := s.tasks[id].noted - 1)])
    case RelayLeaves(id) => SetPhase(s, id, Leaving)
    case RelayCloses(id) => SetPhase(s, id, Reporting)
    case RelayReports(id) =>
      SetPhase(s, id, Finished).(reports := s.reports + [Report(s.tasks[id].relay.client, id)])
    case RelayStops(id) => SetPhase(s, id, Stopped)
  }

  /** The state after performing `actions` from the start, if each is enabled in its turn. */
  function Exec(caps: Caps, actions: seq<Action>): Option<System> {
    if actions == [] then Some(INITIAL)
    else
      match Exec(caps, actions[..|actions| - 1])
      case None => None
      case Some(s) =>
        var a := actions[|actions| - 1];
        if Enabled(caps, s, a) then Some(Do(caps, s, a)) else None
  }

  lemma ExecExtends(caps: Caps, actions: seq<Action>, a: Action)
    ensures Exec(caps, actions + [a])
         == match Exec(caps, actions)
            case None => None
            case Some(s) => if Enabled(caps, s, a) then Some(Do(caps, s, a)) else None
  {
    assert (actions + [a])[..|actions|] == actions;
  }

  // ------------------------------------------------------------------ the invariant

  ghost predicate TaskOk(caps: Caps, s: System, i: nat)
    requires i < |s.tasks|
  {
    && s.tasks[i].relay.id == i
    && s.tasks[i].noted <= caps.control
    && (s.tasks[i].phase.Stopped? ==> s.tasks[i].dropped)
  }

  ghost predicate HasReport(reports: seq<Report>, id: nat) {
    exists r <- reports :: r.sender == id
  }

  /** The table's relay has not been aborted, and if it has finished its report is still queued. */
  ghost predicate ListedOk(s: System, a: SocketAddr)
    requires a in s.tables.clients
  {
    var relay := s.tables.clients[a].relay;
    && relay.id < |s.tasks|
    && s.tasks[relay.id].relay == relay
    && !s.tasks[relay.id].dropped
    && (s.tasks[relay.id].phase.Finished? ==> HasReport(s.reports, relay.id))
  }

  ghost predicate ReportOk(s: System, r: Report) {
    && r.sender < |s.tasks|
    && s.tasks[r.sender].relay.client == r.client
    && s.tasks[r.sender].phase.Finished?
  }

  ghost predicate PlaceOk(s: System) {
    match s.place
    case Receiving => true
    case Noting(data, from) => from in s.tables.clients
    case Opening(data, from, fast, c) =>
      && from !in s.tables.clients
      && c.relay.id < |s.tasks|
      && s.tasks[c.relay.id].relay == c.relay
      && !s.tasks[c.relay.id].dropped
      && c.relay.client == from
      && Lookup(s.tables, data) == Some((c.ufrag, c.relay.peer))
      && fast != Delivered
  }

  ghost predicate Inv(caps: Caps, s: System) {
    && Consistent(s.tables)
    && (forall i: nat | i < |s.tasks| :: TaskOk(caps, s, i))
    && (forall a <- s.tables.clients :: ListedOk(s, a))
    && (forall r <- s.reports :: ReportOk(s, r))
    && |s.reports| <= caps.reports
    && PlaceOk(s)
  }

  // ------------------------------------------------------------------ every step keeps it

  lemma SetTablesKeepsInv(caps: Caps, s: System, t: Tables)
    requires Inv(caps, s) && Consistent(t)
    requires forall a <- t.clients :: a in s.tables.clients && t.clients[a] == s.tables.clients[a]
    ensures Inv(caps, SetTables(s, t).(place := Receiving))
    ensures forall i: nat | i < |s.tasks| && !Listed(s.tables.clients, s.tasks[i].relay) ::
      SetTables(s, t).tasks[i] == s.tasks[i]
  {
    var s' := SetTables(s, t).(place := Receiving);
    forall i: nat | i < |s'.tasks| ensures TaskOk(caps, s', i) {
      assert TaskOk(caps, s, i);
    }
    forall a <- t.clients ensures ListedOk(s', a) {
      assert ListedOk(s, a);
      assert ClientAgrees(t, a);
      assert Listed(t.clients, t.clients[a].relay);
    }
    forall r <- s'.reports ensures ReportOk(s', r) {
      assert ReportOk(s, r);
    }
  }

  lemma TryOpenKeepsInv(caps: Caps, s: System, data: seq<byte>, from: SocketAddr, fast: SendOutcome, attempt: Attempt)
    requires Inv(caps, s) && s.place.Receiving? && from !in s.tables.clients && fast != Delivered
    ensures Inv(caps, TryOpen(s, data, from, fast, attempt))
  {
    var s' := TryOpen(s, data, from, fast, attempt);
    forall i: nat | i < |s'.tasks| ensures TaskOk(caps, s', i) {
      assert i < |s.tasks| ==> TaskOk(caps, s, i);
    }
    forall a <- s'.tables.clients ensures ListedOk(s', a) {
      assert ListedOk(s, a);
    }
    forall r <- s'.reports ensures ReportOk(s', r) {
      assert ReportOk(s, r);
    }
  }

  /** Changing one relay's state without dropping it. */
  lemma TaskStepKeepsInv(caps: Caps, s: System, id: nat, task: RelayTask)
    requires Inv(caps, s) && id < |s.tasks|
    requires task.relay == s.tasks[id].relay && task.dropped == s.tasks[id].dropped
    requires task.noted <= caps.control
    requires task.phase.Stopped? ==> task.dropped
    requires task.phase.Finished? <==> s.tasks[id].phase.Finished?
    ensures Inv(caps, s.(tasks := s.tasks[id := task]))
  {
    var s' := s.(tasks := s.tasks[id := task]);
    forall i: nat | i < |s'.tasks| ensures TaskOk(caps, s', i) {
      assert TaskOk(caps, s, i);
    }
    forall a <- s'.tables.clients ensures ListedOk(s', a) {
      assert ListedOk(s, a);
    }
    forall r <- s'.reports ensures ReportOk(s', r) {
      assert ReportOk(s, r);
    }
  }

  lemma ReportingKeepsInv(caps: Caps, s: System, id: nat)
    requires Inv(caps, s) && Enabled(caps, s, RelayReports(id))
    ensures Inv(caps, Do(caps, s, RelayReports(id)))
  {
    var s' := Do(caps, s, RelayReports(id));
    var mine := Report(s.tasks[id].relay.client, id);
    assert mine in s'.reports;
    forall i: nat | i < |s'.tasks| ensures TaskOk(caps, s', i) {
      assert TaskOk(caps, s, i);
    }
    forall a <- s'.tables.clients ensures ListedOk(s', a) {
      assert ListedOk(s, a);
      var other := s.tables.clients[a].relay.id;
      if other != id && s.tasks[other].phase.Finished? {
        var r :| r in s.reports && r.sender == other;
        assert r in s'.reports;
      }
    }
    forall r <- s'.reports ensures ReportOk(s', r) {
      assert r in s.reports ==> ReportOk(s, r);
    }
  }

  /** The relays that stay listed keep their queued reports: the one taken was not theirs. */
  lemma OtherReportsStay(caps: Caps, s: System, a: SocketAddr)
    requires Inv(caps, s) && Enabled(caps, s, TakeReport)
    requires a in OnClientEnded(s.tables, s.reports[0].client, ClosedAt(s, s.reports[0].client)).clients
    ensures var id := s.tables.clients[a].relay.id;
      s.tasks[id].phase.Finished? ==> HasReport(s.reports[1..], id)
  {
    assert ListedOk(s, a) && ClientAgrees(s.tables, a);
    assert ReportOk(s, s.reports[0]);
    var id := s.tables.clients[a].relay.id;
    if s.tasks[id].phase.Finished? {
      var r :| r in s.reports && r.sender == id;
      assert ReportOk(s, r);
      assert r != s.reports[0];
      assert r in s.reports[1..];
    }
  }

  lemma TakingReportKeepsInv(caps: Caps, s: System)
    requires Inv(caps, s) && Enabled(caps, s, TakeReport)
    ensures Inv(caps, Do(caps, s, TakeReport))
  {
    var client := s.reports[0].client;
    var t := OnClientEnded(s.tables, client, ClosedAt(s, client));
    ClientRemovalKeepsConsistency(s.tables, client);
    SetTablesKeepsInv(caps, s, t);
    var s', mid := Do(caps, s, TakeReport), SetTables(s, t).(place := Receiving);
    assert s'.tasks == mid.tasks;
    forall r <- s'.reports ensures ReportOk(s', r) {
      assert ReportOk(mid, r);
    }
    forall i: nat | i < |s'.tasks| ensures TaskOk(caps, s', i) {
      assert TaskOk(caps, mid, i);
    }
    forall a <- t.clients ensures ListedOk(s', a) {
      assert ListedOk(mid, a);
      OtherReportsStay(caps, s, a);
    }
  }

  lemma OpeningKeepsInv(caps: Caps, s: System)
    requires Inv(caps, s) && Enabled(caps, s, OpenAccepted)
    ensures Inv(caps, Do(caps, s, OpenAccepted))
  {
    var s' := Do(caps, s, OpenAccepted);
    var c := s.place.client;
    TaskStepKeepsInv(caps, s, c.relay.id, s.tasks[c.relay.id].(noted := s.tasks[c.relay.id].noted + 1));
    var mid := Note(s, c.relay.id);
    forall a <- s'.tables.clients ensures ListedOk(s', a) && ClientAgrees(s'.tables, a) {
      if a != s.place.from {
        assert ListedOk(mid, a) && ClientAgrees(s.tables, a);
      }
    }
    forall i: nat | i < |s'.tasks| ensures TaskOk(caps, s', i) {
      assert TaskOk(caps, mid, i);
    }
    forall r <- s'.reports ensures ReportOk(s', r) {
      assert ReportOk(mid, r);
    }
  }

  lemma RefusalKeepsInv(caps: Caps, s: System)
    requires Inv(caps, s) && Enabled(caps, s, OpenRefused)
    ensures Inv(caps, Do(caps, s, OpenRefused))
  {
    var s' := Do(caps, s, OpenRefused);
    var id := s.place.client.relay.id;
    forall a <- s'.tables.clients ensures ListedOk(s', a) {
      assert ListedOk(s, a) && ClientAgrees(s.tables, a);
      assert s.tables.clients[a].relay.id != id;
    }
    forall i: nat | i < |s'.tasks| ensures TaskOk(caps, s', i) {
      assert TaskOk(caps, s, i);
    }
    forall r <- s'.reports ensures ReportOk(s', r) {
      assert ReportOk(s, r);
    }
  }

  lemma DroppingFlowKeepsInv(caps: Caps, s: System, from: SocketAddr)
    requires Inv(caps, s)
    ensures Inv(caps, SetTables(s, s.tables.(clients := s.tables.clients - {from})).(place := Receiving))
  {
    ClientRemovalKeepsConsistency(s.tables, from);
    SetTablesKeepsInv(caps, s, s.tables.(clients := s.tables.clients - {from}));
  }

  lemma ControlOnlyRemovesFlows(t: Tables, msg: ControlMsg)
    ensures forall a <- OnControl(t, msg).clients :: a in t.clients && OnControl(t, msg).clients[a] == t.clients[a]
  {
  }

  lemma HistoryIsIrrelevant(caps: Caps, s: System, h: seq<Event>, sent: seq<Sent>)
    requires Inv(caps, s)
    ensures Inv(caps, s.(history := h, sent := sent))
  {
    var s' := s.(history := h, sent := sent);
    forall i: nat | i < |s'.tasks| ensures TaskOk(caps, s', i) {
      assert TaskOk(caps, s, i);
    }
    forall a <- s'.tables.clients ensures ListedOk(s', a) {
      assert ListedOk(s, a);
    }
    forall r <- s'.reports ensures ReportOk(s', r) {
      assert ReportOk(s, r);
    }
  }

  lemma PlaceIsIrrelevant(caps: Caps, s: System, place: Place)
    requires Inv(caps, s) && PlaceOk(s.(place := place))
    ensures Inv(caps, s.(place := place))
  {
    var s' := s.(place := place);
    forall i: nat | i < |s'.tasks| ensures TaskOk(caps, s', i) {
      assert TaskOk(caps, s, i);
    }
    forall a <- s'.tables.clients ensures ListedOk(s', a) {
      assert ListedOk(s, a);
    }
    forall r <- s'.reports ensures ReportOk(s', r) {
      assert ReportOk(s, r);
    }
  }

  lemma ReceivingKeepsInv(caps: Caps, s: System, a: Action)
    requires Inv(caps, s) && Enabled(caps, s, a) && a.ReceiveDatagram?
    ensures Inv(caps, Do(caps, s, a))
  {
    if a.from !in s.tables.clients {
      TryOpenKeepsInv(caps, s, a.data, a.from, SocketFailed, a.attempt);
    } else if a.written {
      var s' := Do(caps, s, a);
      PlaceIsIrrelevant(caps, s, s'.place);
      HistoryIsIrrelevant(caps, s.(place := s'.place), s'.history, s'.sent);
    } else {
      DroppingFlowKeepsInv(caps, s, a.from);
      var dropped := SetTables(s, s.tables.(clients := s.tables.clients - {a.from}));
      assert dropped.(place := Receiving) == dropped;
      TryOpenKeepsInv(caps, dropped, a.data, a.from, SocketFailed, a.attempt);
    }
  }

  lemma ControllingKeepsInv(caps: Caps, s: System, msg: ControlMsg)
    requires Inv(caps, s) && Enabled(caps, s, ReceiveControl(msg))
    ensures Inv(caps, Do(caps, s, ReceiveControl(msg)))
  {
    var t := OnControl(s.tables, msg);
    ControlKeepsConsistency(s.tables, msg);
    ControlOnlyRemovesFlows(s.tables, msg);
    SetTablesKeepsInv(caps, s, t);
    HistoryIsIrrelevant(caps, SetTables(s, t).(place := Receiving), s.history + [Control(msg)], s.sent);
  }

  lemma NotingKeepsInv(caps: Caps, s: System)
    requires Inv(caps, s) && Enabled(caps, s, NoteAccepted)
    ensures Inv(caps, Do(caps, s, NoteAccepted))
  {
    var id := Awaited(s);
    TaskStepKeepsInv(caps, s, id, s.tasks[id].(noted := s.tasks[id].noted + 1));
    PlaceIsIrrelevant(caps, Note(s, id), Receiving);
    HistoryIsIrrelevant(caps, Note(s, id).(place := Receiving), Do(caps, s, NoteAccepted).history, s.sent);
  }

  lemma NoteRefusalKeepsInv(caps: Caps, s: System, attempt: Attempt)
    requires Inv(caps, s) && Enabled(caps, s, NoteRefused(attempt))
    ensures Inv(caps, Do(caps, s, NoteRefused(attempt)))
  {
    DroppingFlowKeepsInv(caps, s, s.place.from);
    var dropped := SetTables(s, s.tables.(clients := s.tables.clients - {s.place.from})).(place := Receiving);
    TryOpenKeepsInv(caps, dropped, s.place.data, s.place.from, ControlClosed, attempt);
    assert Do(caps, s, NoteRefused(attempt))
        == TryOpen(dropped, s.place.data, s.place.from, ControlClosed, attempt);
  }

  /** A relay's own step, other than reporting. */
  lemma RelayStepKeepsInv(caps: Caps, s: System, a: Action)
    requires Inv(caps, s) && Enabled(caps, s, a)
    requires a.RelayReceives? || a.RelayLeaves? || a.RelayConsumes?
          || a.RelayReplied? || a.RelayCloses? || a.RelayStops?
    ensures Inv(caps, Do(caps, s, a))
  {
    assert TaskOk(caps, s, a.id);
    TaskStepKeepsInv(caps, s, a.id, Do(caps, s, a).tasks[a.id]);
  }

  lemma StepKeepsInv(caps: Caps, s: System, a: Action)
    requires Inv(caps, s) && Enabled(caps, s, a)
    ensures Inv(caps, Do(caps, s, a))
  {
    match a
    case ReceiveDatagram(_, _, _, _) => ReceivingKeepsInv(caps, s, a);
    case ReceiveControl(msg) => ControllingKeepsInv(caps, s, msg);
    case NoteAccepted => NotingKeepsInv(caps, s);
    case NoteRefused(attempt) => NoteRefusalKeepsInv(caps, s, attempt);
    case OpenAccepted => OpeningKeepsInv(caps, s);
    case OpenRefused => RefusalKeepsInv(caps, s);
    case TakeReport => TakingReportKeepsInv(caps, s);
    case RelayReports(id) => ReportingKeepsInv(caps, s, id);
    case _ => RelayStepKeepsInv(caps, s, a);
  }

  /** Every reachable state satisfies the invariant, for any capacities and any number of relays. */
  lemma {:induction false} ReachableIsInv(caps: Caps, actions: seq<Action>)
    requires Exec(caps, actions).Some?
    ensures Inv(caps, Exec(caps, actions).value)
  {
    if actions == [] {
      assert EMPTY.sessions.Values == {};
    } else {
      ReachableIsInv(caps, actions[..|actions| - 1]);
      StepKeepsInv(caps, Exec(caps, actions[..|actions| - 1]).value, actions[|actions| - 1]);
    }
  }
}
