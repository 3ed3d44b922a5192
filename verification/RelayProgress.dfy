/**
  Without new input the endpoint and its relays always come to rest, for any capacities >= 1 and any
  number of relays, and at rest the table holds open relays only.
 */
module RelayProgress {
  import opened Wrappers
  import opened Bytes
  import opened PooledEndpoint
  import opened RelayProtocol

  // ------------------------------------------------------------------ no mutual wait

  /** The endpoint awaits room in the control channel of relay `id`. */
  predicate EndpointStuckOn(caps: Caps, s: System, id: nat) {
    && !s.place.Receiving?
    && Awaited(s) == id && HasTask(s, id)
    && s.tasks[id].Open() && s.tasks[id].noted >= caps.control
  }

  /** Relay `id` awaits room in the report channel. */
  predicate RelayStuck(caps: Caps, s: System, id: nat) {
    HasTask(s, id) && s.tasks[id].phase.Reporting? && |s.reports| >= caps.reports
  }

  /** Nothing is queued, awaited or under way. */
  predicate TaskAtRest(t: RelayTask) {
    || t.phase.Finished?
    || t.phase.Stopped?
    || (t.phase.Selecting? && t.noted == 0 && !t.dropped)
  }

  predicate AtRest(s: System) {
    && s.place.Receiving?
    && s.reports == []
    && forall t <- s.tasks :: TaskAtRest(t)
  }

  predicate OfEndpoint(a: Action) {
    a.NoteAccepted? || a.NoteRefused? || a.OpenAccepted? || a.OpenRefused? || a.TakeReport?
  }

  predicate OfRelay(a: Action, id: nat) {
    (a.RelayConsumes? || a.RelayReplied? || a.RelayCloses? || a.RelayReports? || a.RelayStops?) && a.id == id
  }

  ghost predicate EndpointCanReact(caps: Caps, s: System) {
    exists a: Action :: OfEndpoint(a) && Enabled(caps, s, a)
  }

  ghost predicate RelayCanReact(caps: Caps, s: System, id: nat) {
    exists a: Action :: OfRelay(a, id) && Enabled(caps, s, a)
  }

  ghost predicate CanReact(caps: Caps, s: System) {
    exists a: Action :: !a.Input() && Enabled(caps, s, a)
  }

  /** The endpoint can go on, or it waits for a relay that can. */
  ghost predicate EndpointIsServed(caps: Caps, s: System) {
    || EndpointCanReact(caps, s)
    || (EndpointStuckOn(caps, s, Awaited(s)) && RelayCanReact(caps, s, Awaited(s)))
  }

  lemma SomeoneMoves(caps: Caps, s: System)
    ensures CanReact(caps, s) <==> EndpointCanReact(caps, s) || exists id :: RelayCanReact(caps, s, id)
  {
    if a: Action :| !a.Input() && Enabled(caps, s, a) {
      assert OfEndpoint(a) || RelayCanReact(caps, s, a.id);
    }
    if id :| RelayCanReact(caps, s, id) {
      var a: Action :| OfRelay(a, id) && Enabled(caps, s, a);
      assert !a.Input();
    }
    if a: Action :| OfEndpoint(a) && Enabled(caps, s, a) {
      assert !a.Input();
    }
  }

  lemma AwaitedExists(caps: Caps, s: System)
    requires Inv(caps, s) && !s.place.Receiving?
    ensures HasTask(s, Awaited(s))
    ensures !s.tasks[Awaited(s)].phase.Stopped?
  {
    if s.place.Noting? {
      assert ListedOk(s, s.place.from);
    }
    assert TaskOk(caps, s, Awaited(s));
  }

  lemma EndpointWithDutyMovesOn(caps: Caps, s: System)
    requires caps.Usable() && Inv(caps, s) && !(s.place.Receiving? && s.reports == [])
    ensures EndpointIsServed(caps, s)
  {
    if s.place.Receiving? {
      assert OfEndpoint(TakeReport) && Enabled(caps, s, TakeReport);
    } else {
      AwaitedExists(caps, s);
      var id := Awaited(s);
      var t := s.tasks[id];
      if !t.Open() {
        var a := if s.place.Noting? then NoteRefused(Attempt(false, false)) else OpenRefused;
        assert OfEndpoint(a) && Enabled(caps, s, a);
      } else if t.noted < caps.control {
        var a := if s.place.Noting? then NoteAccepted else OpenAccepted;
        assert OfEndpoint(a) && Enabled(caps, s, a);
      } else {
        var a := if t.phase.Selecting? then RelayConsumes(id)
                 else if t.phase.Replying? then RelayReplied(id) else RelayCloses(id);
        assert OfRelay(a, id) && Enabled(caps, s, a);
      }
    }
  }

  lemma BusyRelayMovesOn(caps: Caps, s: System, id: nat)
    requires caps.Usable() && Inv(caps, s)
    requires id < |s.tasks| && !TaskAtRest(s.tasks[id])
    ensures RelayCanReact(caps, s, id) || (RelayStuck(caps, s, id) && EndpointIsServed(caps, s))
  {
    if RelayStuck(caps, s, id) {
      EndpointWithDutyMovesOn(caps, s);
    } else {
      var a := match s.tasks[id].phase
        case Replying => RelayReplied(id)
        case Leaving => RelayCloses(id)
        case Reporting => RelayReports(id)
        case Selecting => if s.tasks[id].noted > 0 then RelayConsumes(id) else RelayStops(id);
      assert OfRelay(a, id) && Enabled(caps, s, a);
    }
  }

  /**
    Deadlock freedom: nobody is ever part of a circle of waiting. A busy relay can go on, or waits for
    room among the reports while the endpoint is served; and the endpoint, while it has anything to do,
    can go on or waits for a relay that can. So a reaction is possible exactly until nothing is left to do.
   */
  lemma NoDeadlock(caps: Caps, actions: seq<Action>, s: System)
    requires caps.Usable() && Exec(caps, actions) == Some(s)
    ensures !(s.place.Receiving? && s.reports == []) ==> EndpointIsServed(caps, s)
    ensures forall id: nat | HasTask(s, id) && !TaskAtRest(s.tasks[id]) ::
      RelayCanReact(caps, s, id) || (RelayStuck(caps, s, id) && EndpointIsServed(caps, s))
    ensures CanReact(caps, s) <==> !AtRest(s)
  {
    ReachableIsInv(caps, actions);
    if !(s.place.Receiving? && s.reports == []) {
      EndpointWithDutyMovesOn(caps, s);
    }
    forall id: nat | HasTask(s, id) && !TaskAtRest(s.tasks[id])
      ensures RelayCanReact(caps, s, id) || (RelayStuck(caps, s, id) && EndpointIsServed(caps, s))
    {
      BusyRelayMovesOn(caps, s, id);
    }
    InvHasNoDeadlock(caps, s);
  }

  lemma InvHasNoDeadlock(caps: Caps, s: System)
    requires caps.Usable() && Inv(caps, s)
    ensures CanReact(caps, s) <==> !AtRest(s)
  {
    SomeoneMoves(caps, s);
    if !AtRest(s) {
      if !(s.place.Receiving? && s.reports == []) {
        EndpointWithDutyMovesOn(caps, s);
      } else {
        var id :| 0 <= id < |s.tasks| && !TaskAtRest(s.tasks[id]);
        BusyRelayMovesOn(caps, s, id);
      }
    } else {
      forall a: Action | !a.Input() ensures !Enabled(caps, s, a) {
        RestDisables(caps, s, a);
      }
    }
  }

  lemma RestDisables(caps: Caps, s: System, a: Action)
    requires AtRest(s) && !a.Input()
    ensures !Enabled(caps, s, a)
  {
    if a.RelayConsumes? || a.RelayReplied? || a.RelayCloses? || a.RelayReports? || a.RelayStops? {
      assert HasTask(s, a.id) ==> TaskAtRest(s.tasks[a.id]);
    }
  }

  // ------------------------------------------------------------------ reactions run out

  function PhaseRank(p: Phase): nat {
    match p
    case Replying => 5
    case Selecting => 4
    case Leaving => 3
    case Reporting => 2
    case Finished => 0
    case Stopped => 0
  }

  function TaskRank(t: RelayTask): nat {
    PhaseRank(t.phase) + t.noted
  }

  function TasksRank(tasks: seq<RelayTask>): nat {
    if tasks == [] then 0 else TasksRank(tasks[..|tasks| - 1]) + TaskRank(tasks[|tasks| - 1])
  }

  function PlaceRank(place: Place): nat {
    match place
    case Receiving => 0
    case Opening(_, _, _, _) => 2
    case Noting(_, _) => 7
  }

  /** An upper bound on the reactions still to come. */
  function Rank(s: System): nat {
    TasksRank(s.tasks) + |s.reports| + PlaceRank(s.place)
  }

  lemma {:induction false} RankOfUpdate(tasks: seq<RelayTask>, i: nat, t: RelayTask)
    requires i < |tasks|
    ensures TasksRank(tasks[i := t]) == TasksRank(tasks) - TaskRank(tasks[i]) + TaskRank(t)
    decreases |tasks|
  {
    var n := |tasks| - 1;
    if i < n {
      assert tasks[i := t][..n] == tasks[..n][i := t];
      RankOfUpdate(tasks[..n], i, t);
    } else {
      assert tasks[i := t][..n] == tasks[..n];
    }
  }

  lemma {:induction false} SameRanks(tasks: seq<RelayTask>, other: seq<RelayTask>)
    requires |tasks| == |other|
    requires forall i | 0 <= i < |tasks| :: TaskRank(tasks[i]) == TaskRank(other[i])
    ensures TasksRank(tasks) == TasksRank(other)
    decreases |tasks|
  {
    if tasks != [] {
      SameRanks(tasks[..|tasks| - 1], other[..|other| - 1]);
    }
  }

  lemma RankOfAppend(tasks: seq<RelayTask>, t: RelayTask)
    ensures TasksRank(tasks + [t]) == TasksRank(tasks) + TaskRank(t)
  {
    assert (tasks + [t])[..|tasks|] == tasks;
  }

  lemma RankOfSetTables(s: System, t: Tables)
    ensures TasksRank(SetTables(s, t).tasks) == TasksRank(s.tasks)
  {
    SameRanks(s.tasks, SetTables(s, t).tasks);
  }

  lemma TryOpenRank(s: System, data: seq<byte>, from: SocketAddr, fast: SendOutcome, attempt: Attempt)
    ensures Rank(TryOpen(s, data, from, fast, attempt)) <= TasksRank(s.tasks) + |s.reports| + 6
  {
    var s' := TryOpen(s, data, from, fast, attempt);
    if s'.tasks != s.tasks {
      RankOfAppend(s.tasks, s'.tasks[|s.tasks|]);
    }
  }

  /** Every reaction uses up rank. */
  lemma ReactionLowersRank(caps: Caps, s: System, a: Action)
    requires !a.Input() && Enabled(caps, s, a)
    ensures Rank(Do(caps, s, a)) < Rank(s)
  {
    var s' := Do(caps, s, a);
    match a
    case NoteRefused(attempt) =>
      var t := s.tables.(clients := s.tables.clients - {s.place.from});
      RankOfSetTables(s, t);
      TryOpenRank(SetTables(s, t), s.place.data, s.place.from, ControlClosed, attempt);
    case TakeReport =>
      var client := s.reports[0].client;
      RankOfSetTables(s, OnClientEnded(s.tables, client, ClosedAt(s, client)));
      assert s'.tasks == SetTables(s, OnClientEnded(s.tables, client, ClosedAt(s, client))).tasks;
    case NoteAccepted =>
      RankOfUpdate(s.tasks, Awaited(s), s'.tasks[Awaited(s)]);
    case OpenAccepted =>
      RankOfUpdate(s.tasks, Awaited(s), s'.tasks[Awaited(s)]);
    case OpenRefused =>
      RankOfUpdate(s.tasks, Awaited(s), s'.tasks[Awaited(s)]);
    case RelayConsumes(id) => RankOfUpdate(s.tasks, id, s'.tasks[id]);
    case RelayReplied(id) => RankOfUpdate(s.tasks, id, s'.tasks[id]);
    case RelayCloses(id) => RankOfUpdate(s.tasks, id, s'.tasks[id]);
    case RelayReports(id) => RankOfUpdate(s.tasks, id, s'.tasks[id]);
    case RelayStops(id) => RankOfUpdate(s.tasks, id, s'.tasks[id]);
  }

  predicate OnlyReactions(actions: seq<Action>) {
    forall a <- actions :: !a.Input()
  }

  lemma {:induction false} ReactionsAreBounded(caps: Caps, inputs: seq<Action>, reactions: seq<Action>)
    requires OnlyReactions(reactions)
    requires Exec(caps, inputs + reactions).Some?
    ensures Exec(caps, inputs).Some?
    ensures |reactions| + Rank(Exec(caps, inputs + reactions).value) <= Rank(Exec(caps, inputs).value)
    decreases |reactions|
  {
    if reactions == [] {
      assert inputs + reactions == inputs;
    } else {
      var n := |reactions| - 1;
      assert inputs + reactions == inputs + reactions[..n] + [reactions[n]];
      ExecExtends(caps, inputs + reactions[..n], reactions[n]);
      ReactionsAreBounded(caps, inputs, reactions[..n]);
      ReactionLowersRank(caps, Exec(caps, inputs + reactions[..n]).value, reactions[n]);
    }
  }

  /** At rest every relay of the table is open and every endpoint duty is done. */
  lemma RestingTableIsOpen(caps: Caps, s: System)
    requires Inv(caps, s) && AtRest(s)
    ensures forall a <- s.tables.clients :: !ClosedAt(s, a)
  {
    forall a <- s.tables.clients ensures !ClosedAt(s, a) {
      assert ListedOk(s, a);
      var id := s.tables.clients[a].relay.id;
      assert TaskAtRest(s.tasks[id]) && TaskOk(caps, s, id);
    }
  }

  /**
    However reactions are scheduled, at most `Rank` of them happen before new input; when none is
    possible any more, nothing is queued or awaited and no ended relay is left in the table.
   */
  lemma ReactionsComeToRest(caps: Caps, inputs: seq<Action>, s: System, reactions: seq<Action>, later: System)
    requires caps.Usable() && OnlyReactions(reactions)
    requires Exec(caps, inputs) == Some(s) && Exec(caps, inputs + reactions) == Some(later)
    ensures |reactions| <= Rank(s)
    ensures !CanReact(caps, later) ==> AtRest(later) && forall a <- later.tables.clients :: !ClosedAt(later, a)
  {
    ReactionsAreBounded(caps, inputs, reactions);
    ReachableIsInv(caps, inputs + reactions);
    InvHasNoDeadlock(caps, later);
    if !CanReact(caps, later) {
      RestingTableIsOpen(caps, later);
    }
  }

  /** `longer` is `inputs` and then reactions only. */
  predicate FollowedByReactions(inputs: seq<Action>, longer: seq<Action>) {
    inputs <= longer && forall i | |inputs| <= i < |longer| :: !longer[i].Input()
  }

  lemma ReactionsCompose(inputs: seq<Action>, next: seq<Action>, longer: seq<Action>)
    requires FollowedByReactions(inputs, next) && FollowedByReactions(next, longer)
    ensures FollowedByReactions(inputs, longer)
  {
    assert forall i | 0 <= i < |next| :: longer[i] == next[i];
  }

  lemma SomeReaction(caps: Caps, inputs: seq<Action>) returns (next: seq<Action>)
    requires caps.Usable() && Exec(caps, inputs).Some? && !AtRest(Exec(caps, inputs).value)
    ensures FollowedByReactions(inputs, next)
    ensures Exec(caps, next).Some? && Rank(Exec(caps, next).value) < Rank(Exec(caps, inputs).value)
  {
    var s := Exec(caps, inputs).value;
    ReachableIsInv(caps, inputs);
    InvHasNoDeadlock(caps, s);
    var a: Action :| !a.Input() && Enabled(caps, s, a);
    ReactionLowersRank(caps, s, a);
    ExecExtends(caps, inputs, a);
    next := inputs + [a];
  }

  /** From every reachable state the system can actually get there, by reactions alone. */
  lemma {:induction false} RestIsReachable(caps: Caps, inputs: seq<Action>) returns (longer: seq<Action>)
    requires caps.Usable() && Exec(caps, inputs).Some?
    ensures FollowedByReactions(inputs, longer)
    ensures Exec(caps, longer).Some? && AtRest(Exec(caps, longer).value)
    decreases Rank(Exec(caps, inputs).value)
  {
    longer := inputs;
    if !AtRest(Exec(caps, inputs).value) {
      var next := SomeReaction(caps, inputs);
      longer := RestIsReachable(caps, next);
      ReactionsCompose(inputs, next, longer);
    }
  }

  /** What may come in while the endpoint is at its select. */
  predicate FromOutside(a: Action) {
    a.ReceiveDatagram? || a.ReceiveControl?
  }

  /** No input is locked out: from every reachable state reactions alone lead to where it is received. */
  lemma EveryInputIsReceived(caps: Caps, inputs: seq<Action>, a: Action) returns (longer: seq<Action>)
    requires caps.Usable() && Exec(caps, inputs).Some? && FromOutside(a)
    ensures FollowedByReactions(inputs, longer) && Exec(caps, longer + [a]).Some?
  {
    longer := RestIsReachable(caps, inputs);
    ExecExtends(caps, longer, a);
  }

  /**
    An endpoint at its select takes whatever comes, also while reports are queued, and a report also
    while other input waits; an abort takes effect wherever the relay is.
   */
  lemma NothingIsExcluded(caps: Caps, s: System, a: Action)
    ensures FromOutside(a) ==> (Enabled(caps, s, a) <==> s.place.Receiving?)
    ensures a.RelayStops? && HasTask(s, a.id) && s.tasks[a.id].dropped ==>
      (Enabled(caps, s, a) <==> !s.tasks[a.id].phase.Finished? && !s.tasks[a.id].phase.Stopped?)
    ensures a.TakeReport? ==> (Enabled(caps, s, a) <==> s.place.Receiving? && s.reports != [])
  {
  }
}
