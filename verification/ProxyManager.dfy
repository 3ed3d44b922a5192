/**
  The manager object in pooled mode, for requests that run to completion.
 */
module ProxyManagers {
  import opened Wrappers
  import opened Bytes
  import opened PooledEndpoint
  import opened PooledUdpEndpoints
  import ManagerProtocol

  type Key = ManagerProtocol.Key

  datatype UdpProxyMode = PerSession | Pooled

  datatype PoolError = PortRangeExceeded | NothingBound
  datatype CreateError = UfragRequired | Unresolvable
  datatype DeleteError = NoSuchEndpoint

  // ------------------------------------------------------------------ which ports a pool gets

  /** The outcomes of binding sockets: a fixed port is the one asked for, ephemeral ones differ. */
  ghost predicate BindContract(basePort: u16, outcomes: seq<Option<u16>>) {
    if basePort != 0 then
      forall i | 0 <= i < |outcomes| && basePort + i < 0x1_0000 && outcomes[i].Some? ::
        outcomes[i].value == basePort + i
    else
      forall i, j | 0 <= i < j < |outcomes| && outcomes[i].Some? && outcomes[j].Some? ::
        outcomes[i].value != outcomes[j].value
  }

  /** The ports of the sockets that could be bound, in order. */
  function BoundPorts(outcomes: seq<Option<u16>>): seq<u16> {
    if outcomes == [] then []
    else
      var last := outcomes[|outcomes| - 1];
      BoundPorts(outcomes[..|outcomes| - 1]) + (if last.Some? then [last.value] else [])
  }

  predicate FitsPortRange(size: nat, basePort: u16) {
    basePort == 0 || basePort + size <= 0x1_0000
  }

  predicate StrictlyIncreasing(ports: seq<u16>) {
    forall i, j | 0 <= i < j < |ports| :: ports[i] < ports[j]
  }

  /** Fixed ports increase strictly and stay inside the configured range. */
  lemma {:induction false} FixedPortsIncrease(basePort: u16, outcomes: seq<Option<u16>>)
    requires basePort != 0 && BindContract(basePort, outcomes) && FitsPortRange(|outcomes|, basePort)
    ensures StrictlyIncreasing(BoundPorts(outcomes))
    ensures forall p <- BoundPorts(outcomes) :: basePort <= p < basePort + |outcomes|
  {
    if outcomes != [] {
      var before := outcomes[..|outcomes| - 1];
      FixedPortsIncrease(basePort, before);
      assert forall k | 0 <= k < |BoundPorts(before)| :: BoundPorts(before)[k] in BoundPorts(before);
    }
  }

  lemma {:induction false} BoundPortIsOutcome(outcomes: seq<Option<u16>>, p: u16)
    requires p in BoundPorts(outcomes)
    ensures Some(p) in outcomes
  {
    if outcomes[|outcomes| - 1] != Some(p) {
      BoundPortIsOutcome(outcomes[..|outcomes| - 1], p);
    }
  }

  /** Under the bind contract pooled ports are distinct, fixed or ephemeral. */
  lemma {:induction false} BoundPortsAreDistinct(basePort: u16, outcomes: seq<Option<u16>>)
    requires BindContract(basePort, outcomes) && FitsPortRange(|outcomes|, basePort)
    ensures ManagerProtocol.Distinct(BoundPorts(outcomes))
  {
    if basePort != 0 {
      FixedPortsIncrease(basePort, outcomes);
    } else if outcomes != [] {
      var before, last := outcomes[..|outcomes| - 1], outcomes[|outcomes| - 1];
      BoundPortsAreDistinct(basePort, before);
      if last.Some? && last.value in BoundPorts(before) {
        BoundPortIsOutcome(before, last.value);
      }
    }
  }

  lemma {:induction false} SomethingBound(outcomes: seq<Option<u16>>)
    ensures BoundPorts(outcomes) == [] <==> forall o <- outcomes :: o.None?
  {
    if outcomes != [] {
      var n := |outcomes| - 1;
      SomethingBound(outcomes[..n]);
      assert outcomes[n] in outcomes;
      assert forall o :: o in outcomes <==> o in outcomes[..n] || o == outcomes[n];
    }
  }

  /**
    `ports` are the ports of all binds that succeeded, in order: `positions` are their places among the
    outcomes, increasing, and every successful outcome is among them.
   */
  ghost predicate PoolsEveryBound(ports: seq<u16>, outcomes: seq<Option<u16>>, positions: seq<nat>) {
    && |positions| == |ports|
    && (forall i, j | 0 <= i < j < |positions| :: positions[i] < positions[j])
    && (forall i | 0 <= i < |positions| :: positions[i] < |outcomes| && outcomes[positions[i]] == Some(ports[i]))
    && (forall k: nat | k < |outcomes| && outcomes[k].Some? :: k in positions)
  }

  ghost predicate AllBoundArePooled(ports: seq<u16>, outcomes: seq<Option<u16>>) {
    exists positions :: PoolsEveryBound(ports, outcomes, positions)
  }

  lemma OneMoreOutcome(ports: seq<u16>, outcomes: seq<Option<u16>>, positions: seq<nat>, last: Option<u16>)
    requires PoolsEveryBound(ports, outcomes, positions)
    ensures last.None? ==> PoolsEveryBound(ports, outcomes + [last], positions)
    ensures last.Some? ==> PoolsEveryBound(ports + [last.value], outcomes + [last], positions + [|outcomes|])
  {
    assert forall k | 0 <= k < |outcomes| :: (outcomes + [last])[k] == outcomes[k];
    assert (outcomes + [last])[|outcomes|] == last;
    assert forall k <- positions :: k in positions + [|outcomes|];
    assert |outcomes| in positions + [|outcomes|];
  }

  /** No successful bind is wasted: the ports bound are those of all successful outcomes, in order. */
  lemma {:induction false} EveryBoundIsPooled(outcomes: seq<Option<u16>>) returns (positions: seq<nat>)
    ensures PoolsEveryBound(BoundPorts(outcomes), outcomes, positions)
  {
    positions := [];
    if outcomes != [] {
      var n := |outcomes| - 1;
      positions := EveryBoundIsPooled(outcomes[..n]);
      OneMoreOutcome(BoundPorts(outcomes[..n]), outcomes[..n], positions, outcomes[n]);
      assert outcomes == outcomes[..n] + [outcomes[n]];
      if outcomes[n].Some? {
        positions := positions + [n];
      }
    }
  }

  // ------------------------------------------------------------------ the record and the sockets

  /** The recorded keys are the pairs of a pooled port and a session of that socket. */
  ghost predicate MirrorsExactly(keys: set<Key>, ports: seq<u16>, held: seq<set<SessionId>>) {
    && |ports| == |held|
    && (forall i, s | 0 <= i < |ports| :: s in held[i] <==> ManagerProtocol.Key(ports[i], s) in keys)
    && (forall key <- keys :: key.port in ports)
  }

  lemma MirrorAfterAdd(keys: set<Key>, ports: seq<u16>, held: seq<set<SessionId>>, i: nat, s: SessionId)
    requires MirrorsExactly(keys, ports, held) && ManagerProtocol.Distinct(ports) && i < |ports|
    ensures MirrorsExactly(keys + {ManagerProtocol.Key(ports[i], s)}, ports, held[i := held[i] + {s}])
  {
  }

  lemma MirrorAfterRemove(keys: set<Key>, ports: seq<u16>, held: seq<set<SessionId>>, i: nat, s: SessionId)
    requires MirrorsExactly(keys, ports, held) && ManagerProtocol.Distinct(ports) && i < |ports|
    ensures MirrorsExactly(keys - {ManagerProtocol.Key(ports[i], s)}, ports, held[i := held[i] - {s}])
  {
  }

  // ------------------------------------------------------------------ the object

  class ProxyManager {
    var udpEndpoints: map<Key, SocketAddr>
    var udpMode: UdpProxyMode
    var udpPool: seq<PooledUdpEndpoint>
    var nextPooled: nat

    /** The pool is sound and `udpEndpoints` records exactly the sessions of its sockets. */
    ghost predicate Valid()
      reads this, udpPool
    {
      && ManagerProtocol.Distinct(Ports())
      && (forall p <- udpPool :: p.Valid())
      && (udpMode.Pooled? <==> udpPool != [])
      && nextPooled < ManagerProtocol.USIZE_MODULUS
      && MirrorsExactly(udpEndpoints.Keys, Ports(), Held())
    }

    /** The port of each pooled socket. */
    ghost function Ports(): (r: seq<u16>)
      reads `udpPool
    {
      var pool := udpPool;
      seq(|pool|, i requires 0 <= i < |pool| => pool[i].localPort)
    }

    /** The sessions of each pooled socket. */
    ghost function Held(): (r: seq<set<SessionId>>)
      reads `udpPool, udpPool
    {
      var pool := udpPool;
      seq(|pool|, i requires 0 <= i < |pool| reads pool => pool[i].sessions.Keys)
    }

    constructor ()
      ensures udpEndpoints == map[] && udpMode == PerSession && udpPool == [] && nextPooled == 0
    {
      udpEndpoints, udpMode, udpPool, nextPooled := map[], PerSession, [], 0;
    }

    lemma NewPoolIsValid()
      requires ManagerProtocol.Distinct(Ports()) && udpEndpoints == map[] && nextPooled == 0
      requires forall p <- udpPool :: p.Valid() && p.Contents() == EMPTY
      requires udpMode.Pooled? <==> udpPool != []
      ensures Valid()
    {
      assert forall i | 0 <= i < |udpPool| :: udpPool[i].Contents() == EMPTY;
    }

    /** `outcomes[i]` is what binding the `i`-th socket yields, if the loop gets that far. */
    static method WithUdpPool(poolSize: nat, basePort: u16, outcomes: seq<Option<u16>>)
      returns (r: Result<ProxyManager, PoolError>)
      requires |outcomes| == poolSize && BindContract(basePort, outcomes)
      ensures r == Err(PortRangeExceeded) <==> !FitsPortRange(poolSize, basePort)
      ensures r == Err(NothingBound) <==>
        FitsPortRange(poolSize, basePort) && poolSize > 0 && forall o <- outcomes :: o.None?
      ensures r.Ok? ==>
        var m := r.value;
        && fresh(m) && m.Valid()
        && (forall p <- m.udpPool :: fresh(p) && p.Contents() == EMPTY)
        && m.udpEndpoints == map[] && m.nextPooled == 0
        && |m.udpPool| == |BoundPorts(outcomes)|
        && (forall i | 0 <= i < |m.udpPool| :: m.udpPool[i].localPort == BoundPorts(outcomes)[i])
        && (m.udpMode.Pooled? <==> poolSize > 0)
      ensures r.Ok? ==> AllBoundArePooled(r.value.Ports(), outcomes)
      ensures r.Ok? && basePort != 0 ==>
        && StrictlyIncreasing(r.value.Ports())
        && forall p <- r.value.Ports() :: basePort <= p < basePort + poolSize
    {
      var manager := new ProxyManager();
      var i := 0;
      while i < poolSize
        invariant 0 <= i <= poolSize
        invariant fresh(manager)
        invariant manager.udpEndpoints == map[] && manager.nextPooled == 0 && manager.udpMode == PerSession
        invariant FitsPortRange(i, basePort)
        invariant forall p <- manager.udpPool :: fresh(p) && p.Valid() && p.Contents() == EMPTY
        invariant |manager.udpPool| == |BoundPorts(outcomes[..i])|
        invariant forall k | 0 <= k < |manager.udpPool| ::
          manager.udpPool[k].localPort == BoundPorts(outcomes[..i])[k]
      {
        if basePort != 0 && (i >= 0x1_0000 || basePort + i >= 0x1_0000) {
          return Err(PortRangeExceeded);
        }
        assert outcomes[..i + 1][..i] == outcomes[..i];
        match outcomes[i] {
          case Some(port) =>
            var handler := new PooledUdpEndpoint(port);
            manager.udpPool := manager.udpPool + [handler];
          case None =>
        }
        i := i + 1;
      }
      assert outcomes[..i] == outcomes;
      SomethingBound(outcomes);
      ghost var positions := EveryBoundIsPooled(outcomes);
      BoundPortsAreDistinct(basePort, outcomes);
      if poolSize > 0 {
        if manager.udpPool == [] {
          return Err(NothingBound);
        }
        manager.udpMode := Pooled;
      }
      assert manager.Ports() == BoundPorts(outcomes);
      manager.NewPoolIsValid();
      if basePort != 0 {
        FixedPortsIncrease(basePort, outcomes);
      }
      return Ok(manager);
    }

    /** The sockets other than the `i`-th keep their tables. */
    twostate predicate OnlySocketChanged(i: nat)
      reads this, udpPool
    {
      && udpPool == old(udpPool)
      && forall j | 0 <= j < |udpPool| && j != i :: unchanged(udpPool[j])
    }

    /** `ufrag` is the request's optional field, `target` what its endpoint resolves to. */
    method CreatePooledUdpProxy(session: SessionId, ufrag: Option<Ufrag>, target: Option<SocketAddr>)
      returns (r: Result<u16, CreateError>)
      requires Valid() && udpMode.Pooled?
      modifies this, udpPool
      ensures Valid() && udpMode == old(udpMode)
      ensures r == Err(UfragRequired) <==> ufrag.None? || ufrag.value == []
      ensures r == Err(Unresolvable) <==> ufrag.Some? && ufrag.value != [] && target.None?
      ensures r.Err? ==> unchanged(this) && forall p <- udpPool :: unchanged(p)
      ensures r.Ok? ==>
        var i := ManagerProtocol.Pick(old(nextPooled), |udpPool|);
        && OnlySocketChanged(i)
        && r.value == udpPool[i].localPort
        && udpPool[i].Contents()
           == PooledEndpoint.OnControl(old(udpPool[i].Contents()), AddRoute(session, ufrag.value, target.value))
        && udpEndpoints == old(udpEndpoints)[ManagerProtocol.Key(r.value, session) := target.value]
        && nextPooled == ManagerProtocol.Advance(old(nextPooled))
    {
      if ufrag.None? || ufrag.value == [] {
        return Err(UfragRequired);
      }
      if target.None? {
        return Err(Unresolvable);
      }
      var i := ManagerProtocol.Pick(nextPooled, |udpPool|);
      var pooled := udpPool[i];
      nextPooled := ManagerProtocol.Advance(nextPooled);
      ghost var ports, held, key := Ports(), Held(), ManagerProtocol.Key(pooled.localPort, session);
      MirrorAfterAdd(udpEndpoints.Keys, ports, held, i, session);
      var _ := Tell(i, AddRoute(session, ufrag.value, target.value));
      udpEndpoints := udpEndpoints[ManagerProtocol.Key(pooled.localPort, session) := target.value];
      assert Ports() == ports && Held() == held[i := held[i] + {session}];
      assert udpEndpoints.Keys == old(udpEndpoints).Keys + {key};
      return Ok(pooled.localPort);
    }

    /** The pooled port of a recorded session is always found, so the search needs no other end. */
    method DeletePooledUdpProxy(port: u16, session: SessionId)
      returns (r: Result<Reply, DeleteError>, ghost i: nat)
      requires Valid() && udpMode.Pooled?
      modifies this, udpPool
      ensures Valid() && udpMode == old(udpMode) && nextPooled == old(nextPooled)
      ensures r.Err? <==> ManagerProtocol.Key(port, session) !in old(udpEndpoints)
      ensures r.Err? ==> unchanged(this) && forall p <- udpPool :: unchanged(p)
      ensures r.Ok? ==>
        && r.value == SessionRemoved(true)
        && udpEndpoints == old(udpEndpoints) - {ManagerProtocol.Key(port, session)}
        && i < |udpPool| && udpPool[i].localPort == port && OnlySocketChanged(i)
        && udpPool[i].Contents()
           == PooledEndpoint.OnControl(old(udpPool[i].Contents()), RemoveSession(session))
    {
      var key := ManagerProtocol.Key(port, session);
      if key !in udpEndpoints {
        return Err(NoSuchEndpoint), 0;
      }
      var found := FindPooled(port);
      ghost var ports, held := Ports(), Held();
      MirrorAfterRemove(udpEndpoints.Keys, ports, held, found, session);
      udpEndpoints := udpEndpoints - {key};
      var reply := Tell(found, RemoveSession(session));
      assert Ports() == ports && Held() == held[found := held[found] - {session}];
      assert udpEndpoints.Keys == old(udpEndpoints).Keys - {key};
      return Ok(reply), found;
    }

    /** `iter().find` for a port that the pool has. */
    method FindPooled(port: u16) returns (i: nat)
      requires port in Ports()
      ensures i < |udpPool| && udpPool[i].localPort == port
    {
      ghost var found: nat :| found < |udpPool| && Ports()[found] == port;
      i := 0;
      while udpPool[i].localPort != port
        invariant i <= found < |udpPool|
        decreases found - i
      {
        i := i + 1;
      }
    }

    /** One acknowledged message to the `i`-th pooled socket. */
    method Tell(i: nat, msg: ControlMsg) returns (reply: Reply)
      requires i < |udpPool| && ManagerProtocol.Distinct(Ports())
      requires forall p <- udpPool :: p.Valid()
      modifies udpPool[i]
      ensures forall p <- udpPool :: p.Valid()
      ensures OnlySocketChanged(i)
      ensures udpPool[i].Contents() == PooledEndpoint.OnControl(old(udpPool[i].Contents()), msg)
      ensures reply == ReplyTo(old(udpPool[i].Contents()), msg)
      ensures Held() == old(Held())[i := SessionsAfter(old(Held())[i], msg)]
    {
      ghost var before := udpPool[i].Contents();
      assert forall j | 0 <= j < |udpPool| && j != i :: Ports()[j] != Ports()[i] && udpPool[j] != udpPool[i];
      reply := udpPool[i].OnControl(msg);
      ControlChangesOneSession(before, msg);
    }
  }
}
