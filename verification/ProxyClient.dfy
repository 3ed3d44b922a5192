/**
  One relay task as the source runs it, and why the steps of `RelayProtocol` describe it.
 */
module ProxyClients {
  import opened Wrappers
  import opened Bytes
  import opened PooledEndpoint
  import opened RelayProtocol

  /** What wakes the relay's select: a datagram of the target and whether the client got it, and so on. */
  datatype Wake =
    | FromTarget(data: seq<byte>, delivered: bool)
    | TargetFailed
    | DataSent
    | Die
    | UnexpectedMessage
    | ChannelClosed
    | TimedOut

  /** The wakes that break the loop. */
  predicate Ends(w: Wake) {
    match w
    case FromTarget(_, delivered) => !delivered
    case DataSent => false
    case _ => true
  }

  /** What the outside sees of a relay, in order. */
  datatype Effect =
    | Replied(to: SocketAddr, data: seq<byte>)
    | ClosedChannel
    | ReportedEnd(client: SocketAddr)

  /** The datagrams passed on to the client by wakes none of which ends the relay. */
  function RepliesTo(client: SocketAddr, wakes: seq<Wake>): seq<Effect> {
    if wakes == [] then []
    else
      var last := wakes[|wakes| - 1];
      RepliesTo(client, wakes[..|wakes| - 1])
      + (if last.FromTarget? then [Replied(client, last.data)] else [])
  }

  /** The `k`-th reply passes on the datagram of wake `positions[k]`, and no datagram is left out. */
  ghost predicate PassesOnEvery(replies: seq<Effect>, client: SocketAddr, wakes: seq<Wake>, positions: seq<nat>) {
    && |positions| == |replies|
    && (forall i, j | 0 <= i < j < |positions| :: positions[i] < positions[j])
    && (forall i | 0 <= i < |positions| ::
          && positions[i] < |wakes| && wakes[positions[i]].FromTarget?
          && replies[i] == Replied(client, wakes[positions[i]].data))
    && (forall k: nat | k < |wakes| && wakes[k].FromTarget? :: k in positions)
  }

  lemma OneMoreWake(replies: seq<Effect>, client: SocketAddr, wakes: seq<Wake>, positions: seq<nat>, w: Wake)
    requires PassesOnEvery(replies, client, wakes, positions)
    ensures !w.FromTarget? ==> PassesOnEvery(replies, client, wakes + [w], positions)
    ensures w.FromTarget? ==>
      PassesOnEvery(replies + [Replied(client, w.data)], client, wakes + [w], positions + [|wakes|])
  {
    assert forall k | 0 <= k < |wakes| :: (wakes + [w])[k] == wakes[k];
    assert (wakes + [w])[|wakes|] == w;
    assert forall k <- positions :: k in positions + [|wakes|];
    assert |wakes| in positions + [|wakes|];
  }

  /** Every datagram of the target is passed on once, in order, to the relay's own client. */
  lemma {:induction false} EveryDatagramIsPassedOn(client: SocketAddr, wakes: seq<Wake>) returns (positions: seq<nat>)
    ensures PassesOnEvery(RepliesTo(client, wakes), client, wakes, positions)
  {
    positions := [];
    if wakes != [] {
      var n := |wakes| - 1;
      positions := EveryDatagramIsPassedOn(client, wakes[..n]);
      OneMoreWake(RepliesTo(client, wakes[..n]), client, wakes[..n], positions, wakes[n]);
      assert wakes == wakes[..n] + [wakes[n]];
      if wakes[n].FromTarget? {
        positions := positions + [n];
      }
    }
  }

  /** The first wake that ends the relay, or the number of wakes. */
  function EndOf(wakes: seq<Wake>): (n: nat)
    ensures n <= |wakes|
    ensures forall i | 0 <= i < n :: !Ends(wakes[i])
    ensures n < |wakes| ==> Ends(wakes[n])
  {
    if wakes == [] || Ends(wakes[0]) then 0 else 1 + EndOf(wakes[1..])
  }

  /** The phase after one relay action, if it is possible in phase `p`. */
  function NextPhase(p: Phase, a: Action): Option<Phase> {
    match a
    case RelayReceives(_) => if p.Selecting? then Some(Replying) else None
    case RelayReplied(_) => if p.Replying? then Some(Selecting) else None
    case RelayConsumes(_) => if p.Selecting? then Some(Selecting) else None
    case RelayLeaves(_) => if p.Selecting? || p.Replying? then Some(Leaving) else None
    case RelayCloses(_) => if p.Leaving? then Some(Reporting) else None
    case RelayReports(_) => if p.Reporting? then Some(Finished) else None
    case _ => None
  }

  /** The phase at the end of `path`, if every action of it is possible in its turn. */
  function Follow(p: Phase, path: seq<Action>): Option<Phase>
    decreases |path|
  {
    if path == [] then Some(p)
    else
      match NextPhase(p, path[0])
      case None => None
      case Some(q) => Follow(q, path[1..])
  }

  predicate RelayAction(a: Action, id: nat) {
    match a
    case RelayReceives(i) => i == id
    case RelayReplied(i) => i == id
    case RelayConsumes(i) => i == id
    case RelayLeaves(i) => i == id
    case RelayCloses(i) => i == id
    case RelayReports(i) => i == id
    case _ => false
  }

  /** The protocol lets relay `id` do exactly what its phase allows, as far as the channels do. */
  lemma ProtocolFollowsPhases(caps: Caps, s: System, a: Action, id: nat)
    requires RelayAction(a, id) && id < |s.tasks|
    ensures Enabled(caps, s, a) <==>
      && NextPhase(s.tasks[id].phase, a).Some?
      && (a.RelayConsumes? ==> s.tasks[id].noted > 0)
      && (a.RelayReports? ==> |s.reports| < caps.reports)
    ensures Enabled(caps, s, a) ==>
      var s' := Do(caps, s, a);
      && |s'.tasks| == |s.tasks|
      && NextPhase(s.tasks[id].phase, a) == Some(s'.tasks[id].phase)
      && (forall j | 0 <= j < |s.tasks| && j != id :: s'.tasks[j] == s.tasks[j])
      && s'.tables == s.tables && s'.place == s.place
  {
  }

  // ------------------------------------------------------------------ the paths of the loop

  /** The protocol steps of one turn of the loop. */
  function Turn(id: nat, w: Wake): seq<Action> {
    match w
    case FromTarget(_, delivered) => [RelayReceives(id), if delivered then RelayReplied(id) else RelayLeaves(id)]
    case DataSent => [RelayConsumes(id)]
    case _ => [RelayLeaves(id)]
  }

  /** The protocol steps a relay takes on `wakes`: the turns up to the ending one, then close and report. */
  function PathOf(id: nat, wakes: seq<Wake>): seq<Action> {
    if wakes == [] then []
    else Turn(id, wakes[0]) + if Ends(wakes[0]) then Farewell(id) else PathOf(id, wakes[1..])
  }

  /** What follows the loop. */
  function Farewell(id: nat): seq<Action> {
    [RelayCloses(id), RelayReports(id)]
  }

  predicate AllOf(path: seq<Action>, id: nat) {
    forall a <- path :: RelayAction(a, id)
  }

  lemma FollowFirst(p: Phase, a: Action, rest: seq<Action>)
    requires NextPhase(p, a).Some?
    ensures Follow(p, [a] + rest) == Follow(NextPhase(p, a).value, rest)
  {
    assert ([a] + rest)[1..] == rest;
  }

  lemma TurnFollows(id: nat, w: Wake, rest: seq<Action>)
    ensures Follow(Selecting, Turn(id, w) + rest) == Follow(if Ends(w) then Leaving else Selecting, rest)
  {
    var turn := Turn(id, w);
    if w.FromTarget? {
      FollowFirst(Selecting, turn[0], [turn[1]] + rest);
      FollowFirst(Replying, turn[1], rest);
      assert turn + rest == [turn[0]] + ([turn[1]] + rest);
    } else {
      FollowFirst(Selecting, turn[0], rest);
      assert turn + rest == [turn[0]] + rest;
    }
  }

  lemma FarewellFollows(id: nat)
    ensures Follow(Leaving, Farewell(id)) == Some(Finished)
  {
    FollowFirst(Leaving, RelayCloses(id), [RelayReports(id)]);
    FollowFirst(Reporting, RelayReports(id), []);
    assert [RelayCloses(id)] + [RelayReports(id)] == Farewell(id);
    assert [RelayReports(id)] + [] == [RelayReports(id)];
  }

  lemma {:induction false} PathIsOfRelay(id: nat, wakes: seq<Wake>)
    ensures AllOf(PathOf(id, wakes), id)
    decreases |wakes|
  {
    if wakes != [] && !Ends(wakes[0]) {
      PathIsOfRelay(id, wakes[1..]);
    }
  }

  lemma {:induction false} PathFollows(id: nat, wakes: seq<Wake>)
    ensures Follow(Selecting, PathOf(id, wakes)) == Some(if EndOf(wakes) < |wakes| then Finished else Selecting)
    decreases |wakes|
  {
    if wakes != [] {
      if Ends(wakes[0]) {
        TurnFollows(id, wakes[0], Farewell(id));
        FarewellFollows(id);
      } else {
        TurnFollows(id, wakes[0], PathOf(id, wakes[1..]));
        PathFollows(id, wakes[1..]);
      }
    }
  }

  /** What the loop does, the phases allow. */
  lemma LoopFollowsPhases(id: nat, wakes: seq<Wake>)
    ensures AllOf(PathOf(id, wakes), id)
    ensures Follow(Selecting, PathOf(id, wakes)) == Some(if EndOf(wakes) < |wakes| then Finished else Selecting)
  {
    PathIsOfRelay(id, wakes);
    PathFollows(id, wakes);
  }

  /** `wakes` lead a relay along `path`, and no further if it ends at the select or behind the report. */
  ghost predicate Takes(id: nat, wakes: seq<Wake>, path: seq<Action>) {
    var p := Follow(Selecting, path);
    && path <= PathOf(id, wakes)
    && (p == Some(Selecting) || p == Some(Finished) ==> path == PathOf(id, wakes))
  }

  lemma OneMoreTurn(id: nat, w: Wake, wakes: seq<Wake>, rest: seq<Action>)
    requires !Ends(w) && Takes(id, wakes, rest)
    ensures Takes(id, [w] + wakes, Turn(id, w) + rest)
  {
    TurnFollows(id, w, rest);
    assert ([w] + wakes)[1..] == wakes;
    assert PathOf(id, [w] + wakes) == Turn(id, w) + PathOf(id, wakes);
  }

  lemma {:induction false} OnlyFarewell(id: nat, rest: seq<Action>)
    requires AllOf(rest, id) && Follow(Leaving, rest).Some?
    ensures rest <= Farewell(id)
    ensures Follow(Leaving, rest).value.Finished? ==> rest == Farewell(id)
    ensures !Follow(Leaving, rest).value.Selecting?
  {
    if rest != [] {
      assert rest[0] in rest && rest[0] == RelayCloses(id);
      var last := rest[1..];
      if last != [] {
        assert last[0] in rest && last[0] == RelayReports(id);
        var none := last[1..];
        assert Follow(Finished, none).Some?;
        assert none == [];
      }
    }
  }

  lemma LastTurn(id: nat, w: Wake, rest: seq<Action>)
    requires Ends(w) && AllOf(rest, id) && Follow(Leaving, rest).Some?
    ensures Takes(id, [w], Turn(id, w) + rest)
  {
    TurnFollows(id, w, rest);
    OnlyFarewell(id, rest);
  }

  /**
    Every path the phases allow is one the loop takes: some wakes lead a relay along it, and no
    further if the path ends at the select or behind the report.
   */
  lemma {:induction false} EveryPathIsTaken(id: nat, path: seq<Action>) returns (wakes: seq<Wake>)
    requires AllOf(path, id) && Follow(Selecting, path).Some?
    ensures Takes(id, wakes, path)
    decreases |path|, 1
  {
    wakes := [];
    if path != [] {
      assert RelayAction(path[0], id);
      if path[0].RelayReceives? {
        wakes := PathThroughReply(id, path);
      } else {
        var w := if path[0].RelayConsumes? then DataSent else TimedOut;
        assert path == Turn(id, w) + path[1..];
        if Ends(w) {
          LastTurn(id, w, path[1..]);
          wakes := [w];
        } else {
          wakes := EveryPathIsTaken(id, path[1..]);
          OneMoreTurn(id, w, wakes, path[1..]);
          wakes := [w] + wakes;
        }
      }
    }
  }

  lemma {:induction false} PathThroughReply(id: nat, path: seq<Action>) returns (wakes: seq<Wake>)
    requires AllOf(path, id) && Follow(Selecting, path).Some?
    requires path != [] && path[0] == RelayReceives(id)
    ensures Takes(id, wakes, path)
    decreases |path|, 0
  {
    var reply := FromTarget([], true);
    if |path| == 1 {
      wakes := [reply];
    } else {
      assert path[1..][0] == path[1] && path[1] in path && path[1..][1..] == path[2..];
      var w := FromTarget([], path[1].RelayReplied?);
      assert path == Turn(id, w) + path[2..];
      if Ends(w) {
        LastTurn(id, w, path[2..]);
        wakes := [w];
      } else {
        wakes := EveryPathIsTaken(id, path[2..]);
        OneMoreTurn(id, w, wakes, path[2..]);
        wakes := [w] + wakes;
      }
    }
  }

  lemma TurnTaken(id: nat, wakes: seq<Wake>, n: nat, path: seq<Action>) returns (ahead: seq<Action>)
    requires n < |wakes| && path + PathOf(id, wakes[n..]) == PathOf(id, wakes)
    ensures path + Turn(id, wakes[n]) + ahead == PathOf(id, wakes)
    ensures ahead == if Ends(wakes[n]) then Farewell(id) else PathOf(id, wakes[n + 1..])
  {
    assert wakes[n..][1..] == wakes[n + 1..];
    ahead := if Ends(wakes[n]) then Farewell(id) else PathOf(id, wakes[n + 1..]);
    assert path + Turn(id, wakes[n]) + ahead == path + (Turn(id, wakes[n]) + ahead);
  }

  lemma ReplyGiven(client: SocketAddr, wakes: seq<Wake>, n: nat)
    requires n < |wakes|
    ensures RepliesTo(client, wakes[..n + 1])
         == RepliesTo(client, wakes[..n]) + if wakes[n].FromTarget? then [Replied(client, wakes[n].data)] else []
  {
    assert wakes[..n + 1][..n] == wakes[..n];
  }

  lemma FirstEnd(wakes: seq<Wake>, n: nat)
    requires n <= |wakes| && forall i | 0 <= i < n :: !Ends(wakes[i])
    requires n < |wakes| ==> Ends(wakes[n])
    ensures EndOf(wakes) == n
  {
  }

  class ProxyClient {
    const id: nat
    const client: SocketAddr
    var closed: bool

    /** What the outside saw, and the steps of `RelayProtocol` taken, in order. */
    ghost var effects: seq<Effect>
    ghost var path: seq<Action>

    constructor (id: nat, client: SocketAddr)
      ensures this.id == id && this.client == client
      ensures !closed && effects == [] && path == []
    {
      this.id, this.client, closed := id, client, false;
      effects, path := [], [];
    }

    /**
      The relay's loop over the wakes it gets. Until the first wake that ends it, it passes every
      datagram of the target to its client; then it closes its channel and only then reports.
     */
    method Run(wakes: seq<Wake>) returns (ended: bool)
      requires !closed && effects == [] && path == []
      modifies this
      ensures ended <==> EndOf(wakes) < |wakes|
      ensures closed == ended
      ensures effects == RepliesTo(client, wakes[..EndOf(wakes)])
                      + (if ended then [ClosedChannel, ReportedEnd(client)] else [])
      ensures path == PathOf(id, wakes)
    {
      var n := 0;
      ended := false;
      ghost var ahead := PathOf(id, wakes);
      while n < |wakes| && !ended
        invariant 0 <= n <= |wakes|
        invariant forall i | 0 <= i < n :: !Ends(wakes[i])
        invariant ended ==> n < |wakes| && Ends(wakes[n])
        invariant !closed
        invariant effects == RepliesTo(client, wakes[..n])
        invariant path + ahead == PathOf(id, wakes)
        invariant ahead == if ended then Farewell(id) else PathOf(id, wakes[n..])
        decreases |wakes| - n, !ended
      {
        ReplyGiven(client, wakes, n);
        ahead := TurnTaken(id, wakes, n, path);
        ended := Handle(wakes[n]);
        if !ended {
          n := n + 1;
        }
      }
      FirstEnd(wakes, n);
      if ended {
        Leave();
      } else {
        assert wakes[n..] == [];
      }
    }

    /** What follows the loop: the channel is closed first, so that the report finds it closed. */
    method Leave()
      requires !closed
      modifies this
      ensures closed
      ensures effects == old(effects) + [ClosedChannel, ReportedEnd(client)]
      ensures path == old(path) + Farewell(id)
    {
      closed := true;
      effects, path := effects + [ClosedChannel], path + [RelayCloses(id)];
      effects, path := effects + [ReportedEnd(client)], path + [RelayReports(id)];
    }

    /** One turn of the select; `ends` is the source's `break`. */
    method Handle(w: Wake) returns (ends: bool)
      modifies `effects, `path
      ensures ends == Ends(w)
      ensures effects == old(effects) + (if w.FromTarget? && !ends then [Replied(client, w.data)] else [])
      ensures path == old(path) + Turn(id, w)
    {
      match w {
        case FromTarget(data, delivered) =>
          path := path + [RelayReceives(id)];
          if delivered {
            effects, path := effects + [Replied(client, data)], path + [RelayReplied(id)];
            return false;
          }
          path := path + [RelayLeaves(id)];
        case DataSent =>
          path := path + [RelayConsumes(id)];
          return false;
        case _ =>
          path := path + [RelayLeaves(id)];
      }
      return true;
    }
  }
}
