/**
  What every interleaving of the endpoint and its relays guarantees: it is a run of the atomic
  endpoint, its sends are routed, and its table neither loses open relays nor keeps dead ones.
 */
module RelayTheorems {
  import opened Wrappers
  import opened Bytes
  import opened PooledEndpoint
  import opened EndpointRuns
  import opened RelayProtocol
  import Stun

  // ------------------------------------------------------------------ refinement of the atomic endpoint

  /** The datagram being handled, as if its await now ended without opening anything new. */
  function Unfinished(s: System): seq<Event> {
    match s.place
    case Receiving => []
    case Noting(data, from) => [Datagram(data, from, Net(Delivered, None, SocketFailed))]
    case Opening(data, from, fast, c) => [Datagram(data, from, Net(fast, Some(c.relay.id), ControlClosed))]
  }

  function AtomicRun(s: System): seq<Event> {
    s.history + Unfinished(s)
  }

  ghost predicate Recorded(s: System) {
    && s.tables == Run(AtomicRun(s))
    && s.sent == Sends(AtomicRun(s))
  }

  function ControlsIn(actions: seq<Action>): seq<ControlMsg> {
    if actions == [] then []
    else
      var last := actions[|actions| - 1];
      ControlsIn(actions[..|actions| - 1]) + (if last.ReceiveControl? then [last.msg] else [])
  }

  /** What the outside gives the endpoint: a control message, or a datagram from an address. */
  datatype Input = Message(msg: ControlMsg) | Packet(data: seq<byte>, from: SocketAddr)

  function InputOf(e: Event): seq<Input> {
    if e.Control? then [Message(e.msg)] else if e.Datagram? then [Packet(e.data, e.from)] else []
  }

  function Inputs(events: seq<Event>): seq<Input> {
    if events == [] then [] else Inputs(events[..|events| - 1]) + InputOf(events[|events| - 1])
  }

  function InputOfAction(a: Action): seq<Input> {
    if a.ReceiveControl? then [Message(a.msg)] else if a.ReceiveDatagram? then [Packet(a.data, a.from)] else []
  }

  /** The inputs of a concurrent run, in the order in which they were received. */
  function InputsIn(actions: seq<Action>): seq<Input> {
    if actions == [] then [] else InputsIn(actions[..|actions| - 1]) + InputOfAction(actions[|actions| - 1])
  }

  function Messages(inputs: seq<Input>): seq<ControlMsg> {
    if inputs == [] then []
    else
      var last := inputs[|inputs| - 1];
      Messages(inputs[..|inputs| - 1]) + (if last.Message? then [last.msg] else [])
  }

  lemma MessagesExtend(inputs: seq<Input>, more: seq<Input>)
    requires |more| <= 1
    ensures Messages(inputs + more)
         == Messages(inputs) + (if |more| == 1 && more[0].Message? then [more[0].msg] else [])
  {
    if more == [] {
      assert inputs + more == inputs;
    } else {
      assert (inputs + more)[..|inputs|] == inputs;
    }
  }

  lemma {:induction false} ControlsAreMessages(events: seq<Event>)
    ensures Controls(events) == Messages(Inputs(events))
  {
    if events != [] {
      ControlsAreMessages(events[..|events| - 1]);
      MessagesExtend(Inputs(events[..|events| - 1]), InputOf(events[|events| - 1]));
    }
  }

  lemma {:induction false} ControlsInAreMessages(actions: seq<Action>)
    ensures ControlsIn(actions) == Messages(InputsIn(actions))
  {
    if actions != [] {
      ControlsInAreMessages(actions[..|actions| - 1]);
      MessagesExtend(InputsIn(actions[..|actions| - 1]), InputOfAction(actions[|actions| - 1]));
    }
  }

  lemma Extend(h: seq<Event>, e: Event)
    ensures Run(h + [e]) == Step(Run(h), e)
    ensures Sends(h + [e]) == Sends(h) + SendsOf(Run(h), e)
    ensures Inputs(h + [e]) == Inputs(h) + InputOf(e)
  {
    assert (h + [e])[..|h|] == h;
  }

  /** `s` is about to open a flow for a datagram that the atomic endpoint is still to handle. */
  ghost predicate AboutToOpen(s: System, data: seq<byte>, from: SocketAddr, fast: SendOutcome) {
    var t := Run(s.history);
    if from in t.clients then
      && fast != Delivered
      && s.tables == t.(clients := t.clients - {from})
      && s.sent == Sends(s.history) + Written(t.clients[from], data, fast)
    else
      s.tables == t && s.sent == Sends(s.history)
  }

  /** The atomic event that `TryOpen` amounts to so far. */
  function TryOpenEvent(s: System, data: seq<byte>, from: SocketAddr, fast: SendOutcome, attempt: Attempt): Event {
    if Lookup(s.tables, data) == None || !attempt.connected then
      Datagram(data, from, Net(fast, None, SocketFailed))
    else
      Datagram(data, from, Net(fast, Some(|s.tasks|), if attempt.written then ControlClosed else SocketFailed))
  }

  lemma TryOpenMatchesEvent(s: System, data: seq<byte>, from: SocketAddr, fast: SendOutcome, attempt: Attempt)
    requires AboutToOpen(s, data, from, fast)
    ensures var s', e := TryOpen(s, data, from, fast, attempt), TryOpenEvent(s, data, from, fast, attempt);
      && s'.tables == Step(Run(s.history), e)
      && s'.sent == Sends(s.history) + SendsOf(Run(s.history), e)
  {
  }

  lemma TryOpenIsRecorded(s: System, data: seq<byte>, from: SocketAddr, fast: SendOutcome, attempt: Attempt)
    requires s.place.Receiving? && AboutToOpen(s, data, from, fast)
    ensures var s', e := TryOpen(s, data, from, fast, attempt), TryOpenEvent(s, data, from, fast, attempt);
      Recorded(s') && AtomicRun(s') == s.history + [e]
  {
    var e := TryOpenEvent(s, data, from, fast, attempt);
    assert AtomicRun(TryOpen(s, data, from, fast, attempt)) == s.history + [e];
    Extend(s.history, e);
    TryOpenMatchesEvent(s, data, from, fast, attempt);
  }

  /** Both ways an opening flow can end are what the atomic endpoint does in one step. */
  lemma OpeningEndsAtomically(t: Tables, data: seq<byte>, from: SocketAddr, fast: SendOutcome, id: nat)
    requires from in t.clients ==> fast != Delivered
    requires Lookup(t, data).Some?
    ensures var refused := OnDatagram(t, data, from, Net(fast, Some(id), ControlClosed));
      var accepted := OnDatagram(t, data, from, Net(fast, Some(id), Delivered));
      var (u, target) := Lookup(t, data).value;
      && accepted.1 == refused.1
      && accepted.0 == refused.0.(clients := refused.0.clients[from := Client(Relay(id, target, from), u)])
  {
  }

  lemma StepIsRecorded(caps: Caps, s: System, a: Action)
    requires PlaceOk(s) && Enabled(caps, s, a) && Recorded(s)
    ensures Recorded(Do(caps, s, a))
    ensures Inputs(AtomicRun(Do(caps, s, a))) == Inputs(AtomicRun(s)) + InputOfAction(a)
  {
    match a
    case ReceiveDatagram(_, _, _, _) => ReceiveIsRecorded(caps, s, a);
    case ReceiveControl(msg) => ControlIsRecorded(caps, s, msg);
    case TakeReport => ReportIsRecorded(caps, s);
    case NoteRefused(attempt) => NoteRefusedIsRecorded(caps, s, attempt);
    case OpenAccepted => OpenAcceptedIsRecorded(caps, s);
    case _ => QuietStepIsRecorded(caps, s, a);
  }

  /** Actions that leave the tables and the trace alone. */
  lemma QuietStepIsRecorded(caps: Caps, s: System, a: Action)
    requires Enabled(caps, s, a)
    requires a.NoteAccepted? || a.OpenRefused? || a.RelayReceives? || a.RelayReplied? || a.RelayConsumes?
          || a.RelayLeaves? || a.RelayCloses? || a.RelayReports? || a.RelayStops?
    ensures var s' := Do(caps, s, a);
      AtomicRun(s') == AtomicRun(s) && s'.tables == s.tables && s'.sent == s.sent
  {
  }

  lemma ControlIsRecorded(caps: Caps, s: System, msg: ControlMsg)
    requires Enabled(caps, s, ReceiveControl(msg)) && Recorded(s)
    ensures var s' := Do(caps, s, ReceiveControl(msg));
      Recorded(s') && Inputs(AtomicRun(s')) == Inputs(AtomicRun(s)) + [Message(msg)]
  {
    assert AtomicRun(s) == s.history;
    assert AtomicRun(Do(caps, s, ReceiveControl(msg))) == s.history + [Control(msg)];
    Extend(s.history, Control(msg));
  }

  lemma ReportIsRecorded(caps: Caps, s: System)
    requires Enabled(caps, s, TakeReport) && Recorded(s)
    ensures var s' := Do(caps, s, TakeReport);
      Recorded(s') && Inputs(AtomicRun(s')) == Inputs(AtomicRun(s))
  {
    var client := s.reports[0].client;
    var e := Ended(client, ClosedAt(s, client));
    assert AtomicRun(s) == s.history;
    assert AtomicRun(Do(caps, s, TakeReport)) == s.history + [e];
    Extend(s.history, e);
  }

  lemma ReceiveIsRecorded(caps: Caps, s: System, a: Action)
    requires a.ReceiveDatagram? && Enabled(caps, s, a) && Recorded(s)
    ensures var s' := Do(caps, s, a);
      && Recorded(s')
      && Inputs(AtomicRun(s')) == Inputs(AtomicRun(s)) + [Packet(a.data, a.from)]
  {
    var s', h := Do(caps, s, a), s.history;
    assert AtomicRun(s) == h;
    if a.from in s.tables.clients && a.written {
      Extend(h, Unfinished(s')[0]);
      assert AtomicRun(s') == h + [Unfinished(s')[0]];
    } else {
      var ready := if a.from in s.tables.clients
        then SetTables(s, s.tables.(clients := s.tables.clients - {a.from})) else s;
      TryOpenIsRecorded(ready, a.data, a.from, SocketFailed, a.attempt);
      Extend(h, TryOpenEvent(ready, a.data, a.from, SocketFailed, a.attempt));
    }
  }

  lemma NotingMeansUnchanged(s: System)
    requires s.place.Noting? && PlaceOk(s) && Recorded(s)
    ensures Run(s.history) == s.tables
    ensures s.sent == Sends(s.history) + Written(s.tables.clients[s.place.from], s.place.data, ControlClosed)
  {
    Extend(s.history, Unfinished(s)[0]);
  }

  lemma NoteRefusedIsRecorded(caps: Caps, s: System, attempt: Attempt)
    requires PlaceOk(s) && Enabled(caps, s, NoteRefused(attempt)) && Recorded(s)
    ensures var s' := Do(caps, s, NoteRefused(attempt));
      && Recorded(s')
      && Inputs(AtomicRun(s')) == Inputs(AtomicRun(s))
  {
    var data, from, h := s.place.data, s.place.from, s.history;
    NotingMeansUnchanged(s);
    var ready := SetTables(s, s.tables.(clients := s.tables.clients - {from})).(place := Receiving);
    TryOpenIsRecorded(ready, data, from, ControlClosed, attempt);
    assert Do(caps, s, NoteRefused(attempt)) == TryOpen(ready, data, from, ControlClosed, attempt);
    Extend(h, Unfinished(s)[0]);
    Extend(h, TryOpenEvent(ready, data, from, ControlClosed, attempt));
  }

  lemma OpenAcceptedIsRecorded(caps: Caps, s: System)
    requires PlaceOk(s) && Enabled(caps, s, OpenAccepted) && Recorded(s)
    ensures var s' := Do(caps, s, OpenAccepted);
      && Recorded(s')
      && Inputs(AtomicRun(s')) == Inputs(AtomicRun(s))
  {
    var s', h := Do(caps, s, OpenAccepted), s.history;
    var refused, accepted := Unfinished(s)[0], s'.history[|h|];
    Extend(h, refused);
    Extend(h, accepted);
    assert AtomicRun(s) == h + [refused] && AtomicRun(s') == h + [accepted];
    OpeningEndsAtomically(Run(h), s.place.data, s.place.from, s.place.fast, s.place.client.relay.id);
  }

  lemma {:induction false} ReachableIsRecorded(caps: Caps, actions: seq<Action>)
    requires Exec(caps, actions).Some?
    ensures Recorded(Exec(caps, actions).value)
    ensures Inputs(AtomicRun(Exec(caps, actions).value)) == InputsIn(actions)
  {
    if actions != [] {
      ReachableIsInv(caps, actions[..|actions| - 1]);
      ReachableIsRecorded(caps, actions[..|actions| - 1]);
      StepIsRecorded(caps, Exec(caps, actions[..|actions| - 1]).value, actions[|actions| - 1]);
    }
  }

  /**
    Refinement: at every moment of every interleaving, the tables and everything sent so far are
    those of an atomic run over the same control messages and datagrams in the same order.
   */
  lemma ConcurrentRunIsAtomicRun(caps: Caps, actions: seq<Action>, s: System) returns (events: seq<Event>)
    requires Exec(caps, actions) == Some(s)
    ensures Run(events) == s.tables && Sends(events) == s.sent
    ensures Inputs(events) == InputsIn(actions)
    ensures Controls(events) == ControlsIn(actions)
  {
    ReachableIsRecorded(caps, actions);
    events := AtomicRun(s);
    ControlsAreMessages(events);
    ControlsInAreMessages(actions);
  }

  /** At every moment the tables are what the control messages received so far say. */
  lemma ConcurrentTablesRefineControls(caps: Caps, actions: seq<Action>, s: System)
    requires Exec(caps, actions) == Some(s)
    ensures Consistent(s.tables) && Refines(ControlsIn(actions), s.tables)
  {
    var events := ConcurrentRunIsAtomicRun(caps, actions, s);
    RunRefinesControls(events);
  }

  /** The datagram that action `a` is about: the one received, or the one under way. */
  function Handled(s: System, a: Action): (p: Input)
    ensures p.Packet?
  {
    if a.ReceiveDatagram? then Packet(a.data, a.from)
    else if s.place.Receiving? then Packet([], SocketAddr([], 0))
    else Packet(s.place.data, s.place.from)
  }

  /** The address has sent a request for `u`. */
  ghost predicate AskedIn(actions: seq<Action>, from: SocketAddr, u: Ufrag) {
    exists a <- actions :: a.ReceiveDatagram? && a.from == from && Stun.IsRequestFor(a.data, u)
  }

  lemma {:induction false} PacketWasReceived(actions: seq<Action>, data: seq<byte>, from: SocketAddr)
    requires Packet(data, from) in InputsIn(actions)
    ensures exists a <- actions :: a.ReceiveDatagram? && a.data == data && a.from == from
  {
    var n := |actions| - 1;
    if Packet(data, from) in InputsIn(actions[..n]) {
      PacketWasReceived(actions[..n], data, from);
      var a :| a in actions[..n] && a.ReceiveDatagram? && a.data == data && a.from == from;
      assert a in actions;
    } else {
      assert actions[n] in actions;
    }
  }

  lemma {:induction false} DatagramIsInput(events: seq<Event>, e: Event)
    requires e in events && e.Datagram?
    ensures Packet(e.data, e.from) in Inputs(events)
  {
    if e != events[|events| - 1] {
      DatagramIsInput(events[..|events| - 1], e);
    }
  }

  lemma AskedAtomicallyIsAsked(events: seq<Event>, actions: seq<Action>, from: SocketAddr, u: Ufrag)
    requires Inputs(events) == InputsIn(actions) && Asked(events, from, u)
    ensures AskedIn(actions, from, u)
  {
    var e :| e in events && e.Datagram? && e.from == from && Stun.IsRequestFor(e.data, u);
    DatagramIsInput(events, e);
    PacketWasReceived(actions, e.data, from);
  }

  /** In every interleaving every listed flow was asked for by its address. */
  lemma ListedFlowsWereAsked(caps: Caps, actions: seq<Action>, s: System)
    requires Exec(caps, actions) == Some(s)
    ensures forall addr <- s.tables.clients :: AskedIn(actions, addr, s.tables.clients[addr].ufrag)
  {
    var events := ConcurrentRunIsAtomicRun(caps, actions, s);
    FlowsWereAsked(events);
    forall addr <- s.tables.clients ensures AskedIn(actions, addr, s.tables.clients[addr].ufrag) {
      AskedAtomicallyIsAsked(events, actions, addr, s.tables.clients[addr].ufrag);
    }
  }

  /** The datagram under way is one that was received. */
  lemma {:induction false} UnderWayWasReceived(caps: Caps, actions: seq<Action>, s: System)
    requires Exec(caps, actions) == Some(s) && !s.place.Receiving?
    ensures exists a <- actions :: a.ReceiveDatagram? && a.data == s.place.data && a.from == s.place.from
  {
    var n := |actions| - 1;
    var p, a := Exec(caps, actions[..n]).value, actions[n];
    assert a in actions;
    if !a.ReceiveDatagram? {
      PlaceStays(caps, p, a);
      UnderWayWasReceived(caps, actions[..n], p);
      assert forall b <- actions[..n] :: b in actions;
    }
  }

  lemma PlaceStays(caps: Caps, s: System, a: Action)
    requires Enabled(caps, s, a) && !a.ReceiveDatagram? && !Do(caps, s, a).place.Receiving?
    ensures !s.place.Receiving?
    ensures Do(caps, s, a).place.data == s.place.data && Do(caps, s, a).place.from == s.place.from
  {
  }

  /**
    End to end: whatever any action writes to a target is the datagram under way; it goes to the last
    target named for a ufrag that a session holds, by the control messages received up to that moment;
    and its address has asked for that ufrag.
   */
  lemma EveryWriteIsRouted(caps: Caps, actions: seq<Action>, s: System, a: Action)
    requires Exec(caps, actions) == Some(s) && Enabled(caps, s, a)
    ensures var later := Do(caps, s, a).sent;
      && s.sent <= later
      && forall k | |s.sent| <= k < |later| ::
           && LiveRoute(ControlsIn(actions), later[k].ufrag, later[k].target)
           && later[k].data == Handled(s, a).data
           && AskedIn(actions + [a], Handled(s, a).from, later[k].ufrag)
  {
    ConcurrentTablesRefineControls(caps, actions, s);
    forall k | |s.sent| <= k < |Do(caps, s, a).sent|
      ensures LiveRoute(ControlsIn(actions), Do(caps, s, a).sent[k].ufrag, Do(caps, s, a).sent[k].target)
      ensures Do(caps, s, a).sent[k].data == Handled(s, a).data
      ensures AskedIn(actions + [a], Handled(s, a).from, Do(caps, s, a).sent[k].ufrag)
    {
      NewWriteFollowsRoutes(caps, s, a, k);
      NewWriteWasAsked(caps, actions, s, a, k);
    }
  }

  lemma NewWriteWasAsked(caps: Caps, actions: seq<Action>, s: System, a: Action, k: nat)
    requires Exec(caps, actions) == Some(s) && Enabled(caps, s, a)
    requires |s.sent| <= k < |Do(caps, s, a).sent|
    ensures AskedIn(actions + [a], Handled(s, a).from, Do(caps, s, a).sent[k].ufrag)
  {
    var u := Do(caps, s, a).sent[k].ufrag;
    NewWriteIsRequested(caps, s, a, k);
    ListedFlowsWereAsked(caps, actions, s);
    assert forall b <- actions :: b in actions + [a];
    assert a in actions + [a];
    if Stun.IsRequestFor(Handled(s, a).data, u) && !a.ReceiveDatagram? {
      UnderWayWasReceived(caps, actions, s);
    }
  }

  lemma NewWriteIsRequested(caps: Caps, s: System, a: Action, k: nat)
    requires Enabled(caps, s, a) && |s.sent| <= k < |Do(caps, s, a).sent|
    ensures var x, p := Do(caps, s, a).sent[k], Handled(s, a);
      && (a.ReceiveDatagram? || !s.place.Receiving?)
      && x.data == p.data
      && (Stun.IsRequestFor(p.data, x.ufrag)
          || (p.from in s.tables.clients && s.tables.clients[p.from].ufrag == x.ufrag))
  {
    Stun.ParserMeetsGrammar(Handled(s, a).data, Do(caps, s, a).sent[k].ufrag);
  }

  lemma NewWriteFollowsRoutes(caps: Caps, s: System, a: Action, k: nat)
    requires Consistent(s.tables) && Enabled(caps, s, a)
    requires |s.sent| <= k < |Do(caps, s, a).sent|
    ensures var x := Do(caps, s, a).sent[k];
      x.ufrag in s.tables.routes && s.tables.routes[x.ufrag] == x.target && x.data == Handled(s, a).data
  {
    if a.ReceiveDatagram? && a.from in s.tables.clients {
      assert ClientAgrees(s.tables, a.from);
    }
  }

  // ------------------------------------------------------------------ live routes are served

  /** The action routes a datagram afresh: one of an unknown address, or one whose flow failed. */
  predicate RoutesAfresh(s: System, a: Action) {
    || (a.ReceiveDatagram? && (a.from in s.tables.clients ==> !a.written))
    || a.NoteRefused?
  }

  /** Nothing was opened and nothing written. */
  predicate Dropped(s: System, s': System) {
    s'.place.Receiving? && s'.sent == s.sent && |s'.tasks| == |s.tasks|
  }

  /** A new relay towards `target` was started, and told to stop at once if its socket refused the write. */
  predicate Opened(s: System, s': System, a: Action, u: Ufrag, target: SocketAddr)
    requires a.ReceiveDatagram? || a.NoteRefused?
  {
    var p := Handled(s, a);
    var relay := Relay(|s.tasks|, target, p.from);
    && |s'.tasks| == |s.tasks| + 1
    && s'.tasks[|s.tasks|] == RelayTask(relay, Selecting, !a.attempt.written, 0)
    && if a.attempt.written then
         && s'.sent == s.sent + [Sent(u, target, p.data)]
         && s'.place == Opening(p.data, p.from, if a.NoteRefused? then ControlClosed else SocketFailed,
                                Client(relay, u))
       else s'.sent == s.sent && s'.place.Receiving?
  }

  /**
    What routing afresh does, in every reachable state: the old flow of the address goes and no other
    table entry changes; a datagram that is no request for a live route is dropped, and a request is
    dropped iff no socket could be connected, else a relay is opened towards the target of its route.
   */
  lemma RoutedAfreshExactly(caps: Caps, actions: seq<Action>, s: System, a: Action)
    requires Exec(caps, actions) == Some(s) && Enabled(caps, s, a) && RoutesAfresh(s, a)
    ensures var s', p := Do(caps, s, a), Handled(s, a);
      && s'.tables == s.tables.(clients := s.tables.clients - {p.from})
      && (!a.attempt.connected ==> Dropped(s, s'))
      && ((forall u, target :: LiveRoute(ControlsIn(actions), u, target) ==> !Stun.IsRequestFor(p.data, u)) ==>
            Dropped(s, s'))
    ensures forall u, target ::
      LiveRoute(ControlsIn(actions), u, target) && Stun.IsRequestFor(Handled(s, a).data, u) && a.attempt.connected ==>
        Opened(s, Do(caps, s, a), a, u, target)
  {
    ConcurrentTablesRefineControls(caps, actions, s);
    var p := Handled(s, a);
    LookupFindsRequests(s.tables, p.data);
    assert forall u <- s.tables.routes :: LiveRoute(ControlsIn(actions), u, s.tables.routes[u]);
    AfreshByLookup(caps, s, a);
  }

  lemma AfreshByLookup(caps: Caps, s: System, a: Action)
    requires Enabled(caps, s, a) && RoutesAfresh(s, a)
    ensures var s', p := Do(caps, s, a), Handled(s, a);
      && s'.tables == s.tables.(clients := s.tables.clients - {p.from})
      && match Lookup(s.tables, p.data)
         case None => Dropped(s, s')
         case Some((u, target)) => if a.attempt.connected then Opened(s, s', a, u, target) else Dropped(s, s')
  {
    var p := Handled(s, a);
    if p.from !in s.tables.clients {
      assert s.tables.clients - {p.from} == s.tables.clients;
    }
  }

  /**
    A connectivity check for a live route goes to the target of the route at once, over a new relay
    whose channel has room: from an unknown address, after a failed write to the flow of its address,
    and when the relay of that flow has closed.
   */
  lemma LiveRouteIsServed(caps: Caps, actions: seq<Action>, s: System, u: Ufrag, target: SocketAddr, a: Action)
    requires Exec(caps, actions) == Some(s) && Enabled(caps, s, a)
    requires RoutesAfresh(s, a) && a.attempt == Attempt(true, true)
    requires LiveRoute(ControlsIn(actions), u, target) && Stun.IsRequestFor(Handled(s, a).data, u)
    ensures var s', p := Do(caps, s, a), Handled(s, a);
      && s'.sent == s.sent + [Sent(u, target, p.data)]
      && s'.place.Opening? && s'.place.data == p.data && s'.place.from == p.from
      && s'.place.client == Client(Relay(|s.tasks|, target, p.from), u)
      && (caps.control >= 1 ==> Enabled(caps, s', OpenAccepted))
  {
    RoutedAfreshExactly(caps, actions, s, a);
  }

  /** A flow whose socket takes the write gets it before its relay is told; nothing else changes. */
  lemma ListedFlowIsFollowed(caps: Caps, s: System, from: SocketAddr, media: seq<byte>, attempt: Attempt)
    requires s.place.Receiving? && from in s.tables.clients
    ensures var s', c := Do(caps, s, ReceiveDatagram(media, from, true, attempt)), s.tables.clients[from];
      && s'.sent == s.sent + [Sent(c.ufrag, c.relay.peer, media)]
      && s'.place == Noting(media, from)
      && s'.tables == s.tables && s'.tasks == s.tasks && s'.reports == s.reports
  {
  }

  /** The endpoint's await on the relay of `c` is over: the flow is listed, or that relay has closed. */
  predicate Settled(s: System, from: SocketAddr, c: Client) {
    (from in s.tables.clients && s.tables.clients[from] == c) || Refuses(s, c.relay.id)
  }

  lemma OpeningStepSettles(caps: Caps, s: System, a: Action)
    requires s.place.Opening? && Enabled(caps, s, a)
    ensures var s' := Do(caps, s, a);
      if s'.place.Receiving? then Settled(s', s.place.from, s.place.client) else s'.place == s.place
  {
  }

  /** The endpoint does not receive from the end of `actions` until `path` has been performed. */
  ghost predicate AwaitsThroughout(caps: Caps, actions: seq<Action>, path: seq<Action>) {
    forall k | 0 <= k < |path| && Exec(caps, actions + path[..k]).Some? ::
      !Exec(caps, actions + path[..k]).value.place.Receiving?
  }

  /** However relays move meanwhile: when the endpoint receives again, the new flow is settled. */
  lemma {:induction false} OpeningSettles(caps: Caps, actions: seq<Action>, s: System, path: seq<Action>, later: System)
    requires Exec(caps, actions) == Some(s) && s.place.Opening?
    requires Exec(caps, actions + path) == Some(later)
    requires AwaitsThroughout(caps, actions, path)
    ensures if later.place.Receiving? then Settled(later, s.place.from, s.place.client) else later.place == s.place
    decreases |path|
  {
    if path == [] {
      assert actions + path == actions;
    } else {
      var n := |path| - 1;
      assert actions + path == actions + path[..n] + [path[n]];
      ExecExtends(caps, actions + path[..n], path[n]);
      var mid := Exec(caps, actions + path[..n]).value;
      assert forall k | 0 <= k < n :: path[..n][..k] == path[..k];
      OpeningSettles(caps, actions, s, path[..n], mid);
      OpeningStepSettles(caps, mid, path[n]);
    }
  }

  /**
    End to end: after a connectivity check for a live route was routed afresh, at the next moment the
    endpoint receives its flow is listed or the relay of that flow has closed; and once it is listed,
    what the address sends next follows unparsed.
   */
  lemma ServedFlowIsSettled(caps: Caps, actions: seq<Action>, s: System, u: Ufrag, target: SocketAddr,
                            a: Action, path: seq<Action>, later: System)
    requires Exec(caps, actions) == Some(s) && Enabled(caps, s, a)
    requires RoutesAfresh(s, a) && a.attempt == Attempt(true, true)
    requires LiveRoute(ControlsIn(actions), u, target) && Stun.IsRequestFor(Handled(s, a).data, u)
    requires Exec(caps, actions + [a] + path) == Some(later) && later.place.Receiving?
    requires AwaitsThroughout(caps, actions + [a], path)
    ensures var from := Handled(s, a).from;
      var c := Client(Relay(|s.tasks|, target, from), u);
      && Settled(later, from, c)
      && (!Refuses(later, c.relay.id) ==> forall media, attempt ::
            Do(caps, later, ReceiveDatagram(media, from, true, attempt)).sent
            == later.sent + [Sent(u, target, media)])
  {
    LiveRouteIsServed(caps, actions, s, u, target, a);
    ExecExtends(caps, actions, a);
    OpeningSettles(caps, actions + [a], Do(caps, s, a), path, later);
    var from := Handled(s, a).from;
    if from in later.tables.clients {
      forall media, attempt {
        ListedFlowIsFollowed(caps, later, from, media, attempt);
      }
    }
  }

  // ------------------------------------------------------------------ the relay table

  /** The relay the table has at `a` has not closed its control channel. */
  predicate OpenAt(s: System, a: SocketAddr) {
    && a in s.tables.clients
    && HasTask(s, s.tables.clients[a].relay.id)
    && s.tasks[s.tables.clients[a].relay.id].Open()
  }

  /**
    No relay's end, own or stale, ever evicts an open relay; the only actions that can take an open
    relay out of the table are a control message and a failed write to that relay's own socket.
   */
  lemma OpenRelaysStay(caps: Caps, actions: seq<Action>, s: System, a: Action, addr: SocketAddr)
    requires Exec(caps, actions) == Some(s) && Enabled(caps, s, a)
    requires OpenAt(s, addr)
    requires !a.ReceiveControl? && !(a.ReceiveDatagram? && a.from == addr && !a.written)
    ensures var later := Do(caps, s, a).tables.clients;
      addr in later && later[addr] == s.tables.clients[addr]
  {
    ReachableIsInv(caps, actions);
    OpenRelayStays(caps, s, a, addr);
  }

  lemma OpenRelayStays(caps: Caps, s: System, a: Action, addr: SocketAddr)
    requires PlaceOk(s) && Enabled(caps, s, a) && OpenAt(s, addr)
    requires !a.ReceiveControl? && !(a.ReceiveDatagram? && a.from == addr && !a.written)
    ensures var later := Do(caps, s, a).tables.clients;
      addr in later && later[addr] == s.tables.clients[addr]
  {
  }

  /**
    No closed relay leaks: while it is in the table it has either still to report, or its own report
    is queued.
   */
  lemma ClosedRelaysAreReported(caps: Caps, actions: seq<Action>, s: System, addr: SocketAddr)
    requires Exec(caps, actions) == Some(s) && ClosedAt(s, addr)
    ensures var id := s.tables.clients[addr].relay.id;
      s.tasks[id].phase.Reporting? || exists r <- s.reports :: r.sender == id && r.client == addr
  {
    ReachableIsInv(caps, actions);
    assert ListedOk(s, addr) && ClientAgrees(s.tables, addr);
    var id := s.tables.clients[addr].relay.id;
    assert TaskOk(caps, s, id);
    if s.tasks[id].phase.Finished? {
      var r :| r in s.reports && r.sender == id;
      assert ReportOk(s, r);
    }
  }

  /** Once a relay's own report is taken, that relay is not in the table. */
  lemma OwnReportEvicts(caps: Caps, actions: seq<Action>, s: System)
    requires Exec(caps, actions) == Some(s) && Enabled(caps, s, TakeReport)
    ensures var later := Do(caps, s, TakeReport).tables.clients;
      forall addr <- later :: later[addr].relay.id != s.reports[0].sender
  {
    ReachableIsInv(caps, actions);
    assert ReportOk(s, s.reports[0]);
    forall addr <- s.tables.clients ensures ListedOk(s, addr) && ClientAgrees(s.tables, addr) {
    }
  }
}
