/**
  No relay, no note and no report is lost: a relay that the endpoint no longer serves has been aborted,
  every accepted note is consumed or still queued, and every relay that ends by itself reports once.
 */
module RelayAccounting {
  import opened Wrappers
  import opened Bytes
  import opened PooledEndpoint
  import opened RelayProtocol
  import RelayProgress

  /** Relay `i` is in the table, is just being opened, or has been told to stop. */
  predicate Accounted(s: System, i: nat)
    requires i < |s.tasks|
  {
    || Listed(s.tables.clients, s.tasks[i].relay)
    || (s.place.Opening? && s.place.client.relay == s.tasks[i].relay)
    || s.tasks[i].dropped
  }

  predicate AllAccounted(s: System) {
    forall i: nat | i < |s.tasks| :: Accounted(s, i)
  }

  lemma SetTablesKeepsAccounts(s: System, t: Tables)
    requires AllAccounted(s) && !s.place.Opening?
    ensures AllAccounted(SetTables(s, t))
  {
    var s' := SetTables(s, t);
    forall i: nat | i < |s'.tasks| ensures Accounted(s', i) {
      assert Accounted(s, i);
    }
  }

  lemma TryOpenKeepsAccounts(s: System, data: seq<byte>, from: SocketAddr, fast: SendOutcome, attempt: Attempt)
    requires AllAccounted(s) && !s.place.Opening?
    ensures AllAccounted(TryOpen(s, data, from, fast, attempt))
  {
    var s' := TryOpen(s, data, from, fast, attempt);
    forall i: nat | i < |s'.tasks| ensures Accounted(s', i) {
      assert i < |s.tasks| ==> Accounted(s, i);
    }
  }

  lemma OpeningKeepsAccounts(caps: Caps, s: System, a: Action)
    requires Inv(caps, s) && AllAccounted(s) && Enabled(caps, s, a)
    requires a.OpenAccepted? || a.OpenRefused?
    ensures AllAccounted(Do(caps, s, a))
  {
    var s' := Do(caps, s, a);
    forall i: nat | i < |s'.tasks| ensures Accounted(s', i) {
      assert Accounted(s, i) && TaskOk(caps, s, i);
    }
  }

  lemma EndpointStepKeepsAccounts(caps: Caps, s: System, a: Action)
    requires AllAccounted(s) && Enabled(caps, s, a)
    requires a.ReceiveDatagram? || a.NoteRefused?
    ensures AllAccounted(Do(caps, s, a))
  {
    var from := if a.ReceiveDatagram? then a.from else s.place.from;
    var t := s.tables.(clients := s.tables.clients - {from});
    SetTablesKeepsAccounts(s, t);
    if a.NoteRefused? {
      TryOpenKeepsAccounts(SetTables(s, t), s.place.data, from, ControlClosed, a.attempt);
    } else {
      TryOpenKeepsAccounts(s, a.data, from, SocketFailed, a.attempt);
      TryOpenKeepsAccounts(SetTables(s, t), a.data, from, SocketFailed, a.attempt);
      if from in s.tables.clients && a.written {
        QuietStepKeepsAccounts(s, Do(caps, s, a));
      }
    }
  }

  /** Steps that change neither the table nor whose relay is whose. */
  lemma QuietStepKeepsAccounts(s: System, s': System)
    requires AllAccounted(s) && |s'.tasks| == |s.tasks| && s'.tables == s.tables
    requires s.place.Opening? ==> s'.place == s.place
    requires forall i | 0 <= i < |s.tasks| ::
      s'.tasks[i].relay == s.tasks[i].relay && s'.tasks[i].dropped == s.tasks[i].dropped
    ensures AllAccounted(s')
  {
    forall i: nat | i < |s'.tasks| ensures Accounted(s', i) {
      assert Accounted(s, i);
    }
  }

  lemma StepKeepsAccounts(caps: Caps, s: System, a: Action)
    requires Inv(caps, s) && AllAccounted(s) && Enabled(caps, s, a)
    ensures AllAccounted(Do(caps, s, a))
  {
    match a
    case ReceiveDatagram(_, _, _, _) => EndpointStepKeepsAccounts(caps, s, a);
    case NoteRefused(_) => EndpointStepKeepsAccounts(caps, s, a);
    case ReceiveControl(msg) =>
      SetTablesKeepsAccounts(s, OnControl(s.tables, msg));
      QuietStepKeepsAccounts(SetTables(s, OnControl(s.tables, msg)), Do(caps, s, a));
    case TakeReport =>
      var t := OnClientEnded(s.tables, s.reports[0].client, ClosedAt(s, s.reports[0].client));
      SetTablesKeepsAccounts(s, t);
      QuietStepKeepsAccounts(SetTables(s, t), Do(caps, s, a));
    case OpenAccepted => OpeningKeepsAccounts(caps, s, a);
    case OpenRefused => OpeningKeepsAccounts(caps, s, a);
    case _ => QuietStepKeepsAccounts(s, Do(caps, s, a));
  }

  lemma {:induction false} ReachableIsAccounted(caps: Caps, actions: seq<Action>)
    requires Exec(caps, actions).Some?
    ensures AllAccounted(Exec(caps, actions).value)
  {
    if actions != [] {
      var before := actions[..|actions| - 1];
      ReachableIsInv(caps, before);
      ReachableIsAccounted(caps, before);
      StepKeepsAccounts(caps, Exec(caps, before).value, actions[|actions| - 1]);
    }
  }

  /**
    No relay leaks: at every moment a relay outside the table has been aborted, unless it is the one
    being opened; and at rest a relay is still running exactly when the table lists it.
   */
  lemma RunningRelaysAreListed(caps: Caps, actions: seq<Action>, s: System, i: nat)
    requires Exec(caps, actions) == Some(s) && i < |s.tasks|
    ensures !Listed(s.tables.clients, s.tasks[i].relay) ==>
      s.tasks[i].dropped || (s.place.Opening? && s.place.client.relay == s.tasks[i].relay)
    ensures RelayProgress.AtRest(s) ==>
      (s.tasks[i].Open() <==> Listed(s.tables.clients, s.tasks[i].relay))
  {
    ReachableIsInv(caps, actions);
    ReachableIsAccounted(caps, actions);
    assert Accounted(s, i) && TaskOk(caps, s, i);
    if RelayProgress.AtRest(s) {
      assert RelayProgress.TaskAtRest(s.tasks[i]);
      if Listed(s.tables.clients, s.tasks[i].relay) {
        assert ListedOk(s, s.tasks[i].relay.client);
      }
    }
  }

  // ------------------------------------------------------------------ notes

  /** Action `a` puts a note into the control channel of relay `i`. */
  predicate Notes(s: System, a: Action, i: nat) {
    (a.NoteAccepted? || a.OpenAccepted?) && Awaited(s) == i
  }

  /** How many notes the control channel of relay `i` has accepted. */
  function NotesTo(caps: Caps, actions: seq<Action>, i: nat): nat
    requires Exec(caps, actions).Some?
  {
    if actions == [] then 0
    else
      var before := actions[..|actions| - 1];
      NotesTo(caps, before, i) + (if Notes(Exec(caps, before).value, actions[|actions| - 1], i) then 1 else 0)
  }

  /** How many notes relay `i` has taken out. */
  function ConsumedBy(actions: seq<Action>, i: nat): nat {
    if actions == [] then 0
    else
      ConsumedBy(actions[..|actions| - 1], i) + (if actions[|actions| - 1] == RelayConsumes(i) then 1 else 0)
  }

  function QueuedNotes(s: System, i: nat): nat {
    if i < |s.tasks| then s.tasks[i].noted else 0
  }

  lemma StepConservesNotes(caps: Caps, s: System, a: Action, i: nat)
    requires Enabled(caps, s, a)
    ensures QueuedNotes(Do(caps, s, a), i) + (if a == RelayConsumes(i) then 1 else 0)
         == QueuedNotes(s, i) + (if Notes(s, a, i) then 1 else 0)
  {
  }

  /** Conservation: what a control channel has accepted is what its relay has consumed and what is queued. */
  lemma {:induction false} NotesAreConserved(caps: Caps, actions: seq<Action>, s: System, i: nat)
    requires Exec(caps, actions) == Some(s)
    ensures NotesTo(caps, actions, i) == ConsumedBy(actions, i) + QueuedNotes(s, i)
  {
    if actions != [] {
      var before := actions[..|actions| - 1];
      NotesAreConserved(caps, before, Exec(caps, before).value, i);
      StepConservesNotes(caps, Exec(caps, before).value, actions[|actions| - 1], i);
    }
  }

  // ------------------------------------------------------------------ reports

  function ReportOf(s: System, a: Action): seq<Report> {
    if a.RelayReports? && HasTask(s, a.id) then [Report(s.tasks[a.id].relay.client, a.id)] else []
  }

  /** The reports sent so far, in order. */
  function Reported(caps: Caps, actions: seq<Action>): seq<Report>
    requires Exec(caps, actions).Some?
  {
    if actions == [] then []
    else
      var before := actions[..|actions| - 1];
      Reported(caps, before) + ReportOf(Exec(caps, before).value, actions[|actions| - 1])
  }

  function TakenBy(s: System, a: Action): seq<Report> {
    if a.TakeReport? && s.reports != [] then [s.reports[0]] else []
  }

  /** The reports the endpoint has handled, in order. */
  function Taken(caps: Caps, actions: seq<Action>): seq<Report>
    requires Exec(caps, actions).Some?
  {
    if actions == [] then []
    else
      var before := actions[..|actions| - 1];
      Taken(caps, before) + TakenBy(Exec(caps, before).value, actions[|actions| - 1])
  }

  lemma StepIsFifo(caps: Caps, s: System, a: Action)
    requires Enabled(caps, s, a)
    ensures s.reports + ReportOf(s, a) == TakenBy(s, a) + Do(caps, s, a).reports
  {
  }

  lemma Regroup(done: seq<Report>, queue: seq<Report>, more: seq<Report>, next: seq<Report>, left: seq<Report>)
    requires queue + more == next + left
    ensures done + queue + more == done + next + left
  {
    assert done + queue + more == done + (queue + more);
  }

  lemma {:induction false} ReportsAreFifo(caps: Caps, actions: seq<Action>, s: System)
    requires Exec(caps, actions) == Some(s)
    ensures Reported(caps, actions) == Taken(caps, actions) + s.reports
  {
    if actions != [] {
      var before, a := actions[..|actions| - 1], actions[|actions| - 1];
      var p := Exec(caps, before).value;
      ReportsAreFifo(caps, before, p);
      StepIsFifo(caps, p, a);
      Regroup(Taken(caps, before), p.reports, ReportOf(p, a), TakenBy(p, a), s.reports);
    }
  }

  /** Each report is by a relay that has finished, each finished relay has one, and none has two. */
  ghost predicate OneReportEach(s: System, reported: seq<Report>) {
    && (forall r <- reported :: HasTask(s, r.sender) && s.tasks[r.sender].phase.Finished?)
    && (forall i: nat | i < |s.tasks| && s.tasks[i].phase.Finished? :: exists r <- reported :: r.sender == i)
    && (forall j, k | 0 <= j < k < |reported| :: reported[j].sender != reported[k].sender)
  }

  lemma ReportingKeepsOneEach(caps: Caps, s: System, id: nat, reported: seq<Report>)
    requires Enabled(caps, s, RelayReports(id)) && OneReportEach(s, reported)
    ensures OneReportEach(Do(caps, s, RelayReports(id)), reported + ReportOf(s, RelayReports(id)))
  {
    var s', mine := Do(caps, s, RelayReports(id)), ReportOf(s, RelayReports(id))[0];
    var longer := reported + [mine];
    assert mine in longer && forall r <- reported :: r in longer;
    assert forall k | 0 <= k < |reported| :: reported[k] in reported;
  }

  lemma OtherStepKeepsOneEach(caps: Caps, s: System, a: Action, reported: seq<Report>)
    requires Enabled(caps, s, a) && !a.RelayReports? && OneReportEach(s, reported)
    ensures OneReportEach(Do(caps, s, a), reported)
  {
    var s' := Do(caps, s, a);
    assert |s'.tasks| >= |s.tasks|;
    forall i: nat | i < |s'.tasks|
      ensures s'.tasks[i].phase.Finished? <==> i < |s.tasks| && s.tasks[i].phase.Finished?
    {
    }
  }

  lemma {:induction false} EachReportsOnce(caps: Caps, actions: seq<Action>, s: System)
    requires Exec(caps, actions) == Some(s)
    ensures OneReportEach(s, Reported(caps, actions))
  {
    if actions != [] {
      var before, a := actions[..|actions| - 1], actions[|actions| - 1];
      EachReportsOnce(caps, before, Exec(caps, before).value);
      if a.RelayReports? {
        ReportingKeepsOneEach(caps, Exec(caps, before).value, a.id, Reported(caps, before));
      } else {
        assert Reported(caps, before) + [] == Reported(caps, before);
        OtherStepKeepsOneEach(caps, Exec(caps, before).value, a, Reported(caps, before));
      }
    }
  }

  /**
    The endpoint handles the reports in the order they were sent, none lost and none made up: one of
    each relay that has finished.
   */
  lemma EveryEndIsReportedOnce(caps: Caps, actions: seq<Action>, s: System)
    requires Exec(caps, actions) == Some(s)
    ensures Taken(caps, actions) + s.reports == Reported(caps, actions)
    ensures OneReportEach(s, Taken(caps, actions) + s.reports)
  {
    ReportsAreFifo(caps, actions, s);
    EachReportsOnce(caps, actions, s);
  }
}
