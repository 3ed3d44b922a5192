# Pooled UDP mode of the media proxy, modelled and proved

The proxy can share a few UDP sockets among all sessions. A client's first datagram must be a STUN
binding request; the local ICE ufrag in its USERNAME selects the target, and from then on the client's
address alone routes the flow. This project models the four parts that make up that mode and proves
what they promise, each alone and together.

| file | what it holds |
|---|---|
| `Wrappers.dfy`, `Bytes.dfy`, `Utf8.dfy` | option and result types, octets and the parser's bit operations, UTF-8 of section 4 of RFC 3629 and the scalar values it encodes |
| `Stun.dfy` | the ufrag parser, a declarative grammar of the accepted packets (sections 6, 15 and 15.3 of RFC 5389) and an encoder for attribute lists |
| `PooledEndpoint.dfy` | the endpoint's tables and its reaction to each input, as functions; the joint invariant |
| `EndpointRuns.dfy` | runs of the endpoint, judged by the log of control messages |
| `PooledUdpEndpoint.dfy` | the endpoint as an object that updates its maps in place |
| `ProxyClient.dfy` | one relay's loop, and its place in the protocol below |
| `RelayProtocol.dfy` | endpoint and relays as a concurrent protocol over two bounded channels, with its invariant |
| `RelayTheorems.dfy`, `RelayForwarding.dfy` | refinement, routing of every write, service of live routes, the relay table; how often one datagram is written |
| `RelayAccounting.dfy`, `RelayProgress.dfy` | no lost relay, note or report; deadlock freedom, coming to rest |
| `ManagerProtocol.dfy`, `ManagerTheorems.dfy` | the manager and its sockets over FIFO channels, with requests dropped at any await |
| `ManagerRequests.dfy` | which requests start, that sockets are told nothing else, and what the record says |
| `ManagerForwarding.dfy` | from the record to the wire: on whose behalf sockets forward, and to which of the recorded targets |
| `RoundRobin.dfy` | how evenly the wrapping counter deals out creates |
| `ProxyManager.dfy` | the manager as an object, for completed requests; building the pool |

`dafny verify dfyconfig.toml` checks everything.

How the parts fit: `PooledUdpEndpoint` is proved to do what the functions of `PooledEndpoint` say.
`EndpointRuns` proves what any sequence of those reactions means in terms of the control messages alone.
`RelayTheorems` proves that every interleaving of the endpoint with its relays is such a sequence, so the
results carry over: whatever the shared socket writes to a target goes to the last target named for a
ufrag that some session holds at that moment. `ManagerTheorems` adds when a session the manager has
recorded is live on its socket, and `ManagerForwarding` that a socket forwards only for sessions the manager
has recorded, but for those leaked, queued for removal or under way.

The network appears as parameters. Whether a socket write succeeds, a relay's channel is closed, a new
socket can be connected, or a port can be bound is part of the input of the step where it matters. In
`RelayProtocol` a relay closes its channel by steps of its own.

Four statements one might expect are not what the code does. Each has a lemma with an input where it
fails and a lemma with the exact condition under which it holds:

* A datagram is forwarded at most once. The socket is written before the relay's channel is looked at, so
  a datagram that meets a relay which has just ended may go out and then be routed again
  (`ForwardedTwiceWitness`, `ForwardedTwiceExactlyWhen`, `WrittenTwiceExactlyWhen`).
* The round robin spreads sessions evenly, as its comment says (src/proxy.rs:483). What it deals out are
  creates: deletes do not count, and a dropped or repeated create does. Over windows of creates, where the
  counter wraps one socket can get two while another gets none, unless the pool size divides the counter's
  range (`UnevenRun`, `RunsAreEvenExactlyWhenDividing`).
* The keys of `udp_endpoints` mirror the sockets. A request dropped at the wrong await leaves a session that
  no record names (`CancelledCreateWitness`). The recorded keys are exact iff no such leak is outstanding,
  however many requests were dropped (`HeldIsRecordedOrLeaked`, `ExactExactlyWhenNothingLeaks`,
  `ExactAfterDropExactlyWhenSafe`). What survives every cancellation is the safe half: a recorded session is
  live (`RecordedSessionsAreLive`).
* The targets of `udp_endpoints` are those routed to. A later create with the same ufrag reroutes an earlier
  session without touching its record, even if nothing is dropped (`StaleTargetWitness`); a recorded target is
  the routed one iff the last add its socket handled for the session's ufrag names it
  (`RecordedTargetExactlyWhen`).

The comment on `with_udp_pool` says that partial failures are tolerated as long as one socket binds
(src/proxy.rs:276-277). A port range that runs past 65535 is an error even if sockets were bound before;
the model follows the code.

## Model

| member | source | states |
|---|---|---|
| Bytes.AndThreeIsRemainder | src/proxy/stun.rs:24 | the mask test on the message length is divisibility by 4 |
| Bytes.MaskIsPaddedLen | src/proxy/stun.rs:40 | the mask expression, computed bit by bit, rounds a length up to a multiple of 4 |
| Bytes.PaddedLenIsLeastMultiple | src/proxy/stun.rs:40 | that multiple is the least one not below the length |
| Utf8.CutBeforeAscii | src/proxy/stun.rs:34-38 | cutting valid UTF-8 in front of an ASCII byte leaves valid UTF-8 |
| Utf8.ValidExactlyWhenEncoded | src/proxy/stun.rs:35 | the strings taken for UTF-8 are exactly the concatenated encodings of Unicode scalar values |
| Utf8.AsciiIsValid | src/proxy/stun.rs:35 | every ASCII string is among them |
| Stun.BeforeColon | src/proxy/stun.rs:34 | the first piece of the split is a prefix without a colon that ends at a colon or at the end |
| Stun.LocalUfrag | src/proxy/stun.rs:15-44 | the loop returns `Some(u)` exactly for the packets of the grammar with local part `u`, and `None` for all others |
| Stun.ParserMeetsGrammar | src/proxy/stun.rs:15-44 | for every byte string, the walk reads `u` iff the bytes are a binding request header, a run of other attributes, and a fitting USERNAME whose part before the first colon is `u`, non-empty valid UTF-8 |
| Stun.AlignedScanEnds | src/proxy/stun.rs:24-42 | in an aligned attribute section the second `get` never fails and the loop runs out at exactly zero bytes |
| Stun.RoundTrip | src/proxy/stun.rs:50-64 | parsing the encoding of any attribute list, with any transaction id and padding, yields the ufrag of its first USERNAME, or `None` |
| Stun.SplitKeepsUtf8 | src/proxy/stun.rs:34-38 | splitting a valid username at its first colon keeps it valid, so the UTF-8 check cannot reject it |
| Stun.ValidUsernameIsRouted | src/proxy/stun.rs:33-38 | an encoded request whose first username is valid and has a local part is never rejected |
| Stun.ConnectivityCheckIsRoutedByLocalHalf | src/proxy/stun.rs:50-64 | a `local:remote` username (section 7.2.2 of RFC 8445) is read as its local half, whatever else the request carries |
| Stun.NonInterference | src/proxy/stun.rs:28-42 | transaction id, padding, values in front of the first USERNAME, the remote half and all that follows never change the result, whatever the lengths of the last two, and for malformed packets too |
| Stun.OnlyTheLocalPartMatters | src/proxy/stun.rs:28-42 | two requests whose first usernames have the same local part give the same result, whatever else they carry in front, in the remote half or behind |
| Stun.RequestOnTheWireIsRead | src/proxy/stun.rs:50-69 | the octets of a request for `myUfrag:remote`, with any transaction id, are read as `myUfrag` |
| PooledEndpoint.ControlKeepsConsistency | src/proxy/udp_pooled.rs:147-200 | a control message keeps the joint invariant: a route per held ufrag and no other, and every flow connected to its ufrag's route |
| PooledEndpoint.DatagramKeepsConsistency | src/proxy/udp_pooled.rs:97-145 | so does a datagram, whatever the network does meanwhile |
| PooledEndpoint.FlowFollowsItsRoute | src/proxy/udp_pooled.rs:147-200 | a flow outlives a control message iff the route of its ufrag does, unchanged, and then keeps its relay |
| PooledEndpoint.RemovalIsIsolated | src/proxy/udp_pooled.rs:173-200 | removing a session touches no other session, route or flow, and nothing at all while another session holds the ufrag; the last removal drops route and flows |
| PooledEndpoint.AddThenRemoveRestores | src/proxy/udp_pooled.rs:149-200 | removing what was just added restores all three tables iff the session was unknown and the ufrag unrouted or already routed there |
| PooledEndpoint.UnroutableIsDropped | src/proxy/udp_pooled.rs:105-122 | a datagram that no flow takes and that is no request for a routed ufrag opens nothing and is not sent on; from an unknown address it changes nothing at all |
| PooledEndpoint.RequestIsRouted | src/proxy/udp_pooled.rs:105-145 | a request for a routed ufrag that no flow takes, from a known address too, is written to its route iff a socket connects and takes it, and its flow is listed iff its relay took the note |
| PooledEndpoint.WrittenTwiceExactlyWhen | src/proxy/udp_pooled.rs:105-141 | a datagram is written at most twice; no outcome of the network writes it twice iff its address has no flow or it is no request for a routed ufrag; otherwise exactly the outcomes where the flow's relay has closed before it is told of the write, and the flow opens again |
| EndpointRuns.RunRefinesControls | src/proxy/udp_pooled.rs:147-195 | after any run the sessions are those whose last message is an add, and the routes are the ufrags they hold, each with the last target named for it, both ways |
| EndpointRuns.EverySendIsRouted | src/proxy/udp_pooled.rs:97-145 | whatever an input sends is the datagram received, goes to the last target of a ufrag held by a session, and was asked for: the same address has sent a request for that ufrag |
| EndpointRuns.UnroutableIsSilent | src/proxy/udp_pooled.rs:105-122 | after any run, a datagram that no flow takes and that requests no live route touches nothing but its own failed flow; a stranger's touches nothing |
| EndpointRuns.NothingGoesToAnOldTarget | src/proxy/udp_pooled.rs:159-166 | after a reroute only the new target receives for that ufrag |
| EndpointRuns.NothingIsSentForAForgottenUfrag | src/proxy/udp_pooled.rs:190-195 | after the last session of a ufrag is gone nothing is sent for it |
| EndpointRuns.LiveRouteIsServed | src/proxy/udp_pooled.rs:115-141 | in an atomic run, a connectivity check for a live route that no flow takes, from a stranger or after its flow failed, reaches its target, and the next datagram of that address follows unparsed |
| EndpointRuns.OpenFlowIsFollowed | src/proxy/udp_pooled.rs:105-108 | a flow that takes a datagram sends it, once, to the last target of its ufrag, which is held and was asked for, and changes nothing |
| PooledUdpEndpoints.PooledUdpEndpoint.Run | src/proxy/udp_pooled.rs:69-94 | the select loop leaves the tables, trace and log of the run, for every order of inputs |
| PooledUdpEndpoints.PooledUdpEndpoint.OnDatagram | src/proxy/udp_pooled.rs:97-145 | the object's tables and trace change as the functions say, and stay consistent with the log |
| PooledUdpEndpoints.PooledUdpEndpoint.OnControl | src/proxy/udp_pooled.rs:147-187 | likewise, with the reply: a removal says whether the session was known |
| PooledUdpEndpoints.PooledUdpEndpoint.ForgetUfragIfUnused | src/proxy/udp_pooled.rs:190-195 | if some session still holds the ufrag nothing changes; otherwise exactly its route and its flows go |
| PooledUdpEndpoints.PooledUdpEndpoint.DropClients | src/proxy/udp_pooled.rs:198-200 | an address keeps its flow, unchanged, iff that flow has another ufrag |
| PooledUdpEndpoints.PooledUdpEndpoint.Send | src/proxy/udp_client.rs:215-223 | the datagram is in the trace iff the socket write succeeded; success needs the channel too |
| ProxyClients.ProxyClient.Run | src/proxy/udp_client.rs:226-286 | a relay passes on every datagram up to its first ending wake, to its own client only; then it closes its channel and only then reports; the protocol steps it takes are those of its wakes |
| ProxyClients.EveryDatagramIsPassedOn | src/proxy/udp_client.rs:233-241 | the replies are the target's datagrams, each once, in order, to the relay's own client |
| ProxyClients.ProtocolFollowsPhases | src/proxy/udp_client.rs:232-286 | the protocol enables a relay's action iff its phase allows it, as far as the channels do |
| ProxyClients.LoopFollowsPhases | src/proxy/udp_client.rs:232-286 | whatever the wakes, the steps the loop takes are possible in its phases and end at the select, or finished iff a wake ends the loop |
| ProxyClients.EveryPathIsTaken | src/proxy/udp_client.rs:232-286 | conversely, every sequence of steps the phases allow is one that the loop takes on some wakes |
| RelayProtocol.ReachableIsInv | src/proxy/udp_pooled.rs:69-145 | the joint invariant, and behind every table entry an unaborted relay that is running or has ended with its report still queued, in every interleaving, for any capacities and number of relays |
| RelayTheorems.ConcurrentRunIsAtomicRun | src/proxy/udp_pooled.rs:69-145 | at every moment of every interleaving, tables and trace are those of an atomic run over the same control messages and datagrams, in the order they were received |
| RelayTheorems.ConcurrentTablesRefineControls | src/proxy/udp_pooled.rs:147-195 | at every moment the tables are what the control messages received so far say |
| RelayTheorems.EveryWriteIsRouted | src/proxy/udp_pooled.rs:97-145 | every write to a target is the datagram under way, goes at that moment to the last target of a ufrag held by a session, and was asked for by its address |
| RelayTheorems.RoutedAfreshExactly | src/proxy/udp_pooled.rs:105-145 | in every interleaving, for a stranger, after a failed write and after a closed relay: the old flow goes, a datagram that requests no live route is dropped, and a request opens a relay to its route iff a socket connects |
| RelayTheorems.LiveRouteIsServed | src/proxy/udp_pooled.rs:105-141 | in every interleaving, a connectivity check for a route live at that moment, from an unknown address, after a failed write to its flow or after its relay closed, is written to exactly its target, over a new relay with room for the note |
| RelayTheorems.ServedFlowIsSettled | src/proxy/udp_pooled.rs:130-145 | whatever relays do meanwhile, when the endpoint next receives that flow is listed or its relay has closed; listed, the address's next datagrams go to the same target unparsed |
| RelayTheorems.OpenRelaysStay | src/proxy/udp_pooled.rs:79-86 | no report, own or stale, and no other step evicts an open relay, except a control message or a failed write to its own socket |
| RelayTheorems.ClosedRelaysAreReported | src/proxy/udp_client.rs:274-278 | a closed relay still in the table has its own report queued or has yet to send it |
| RelayTheorems.OwnReportEvicts | src/proxy/udp_pooled.rs:79-86 | after a relay's report is taken, that relay is not in the table |
| RelayForwarding.ForwardedTwiceExactlyWhen | src/proxy/udp_pooled.rs:97-145 | in every reachable receiving state, whatever relays and the network do next, until another datagram is received only this one is written, at most twice; twice is possible iff its address has a flow and it is a request for a routed ufrag |
| RelayForwarding.ForwardedTwiceWitness | src/proxy/udp_client.rs:215-223 | a run from the start in which a relay ends between the socket write and the note, and the same target gets the datagram twice |
| RelayAccounting.RunningRelaysAreListed | src/proxy/udp_client.rs:289-293 | a relay outside the table has been aborted unless it is just being opened; at rest the running relays are exactly those of the table |
| RelayAccounting.NotesAreConserved | src/proxy/udp_client.rs:215-253 | the notes a relay's channel has accepted are those it has consumed and those queued |
| RelayAccounting.EveryEndIsReportedOnce | src/proxy/udp_client.rs:272-283 | reports are handled in the order sent, none lost or made up: one of each relay that has finished |
| RelayProgress.NoDeadlock | src/proxy/udp_client.rs:274-278 | no circle of waiting: every busy relay can go on or waits for report room, and then, as whenever it has a duty, the endpoint can go on or awaits a relay that can; a reaction is possible iff something is left to do |
| RelayProgress.ReactionsComeToRest | src/proxy/udp_pooled.rs:71-92 | under any schedule only a bounded number of reactions happens between inputs, and when none is left the table holds no ended relay |
| RelayProgress.RestIsReachable | src/proxy/udp_pooled.rs:71-92 | from every reachable state reactions alone lead to rest |
| RelayProgress.EveryInputIsReceived | src/proxy/udp_pooled.rs:71-92 | from every reachable state reactions alone lead to where any given datagram or control message is received |
| ManagerProtocol.Find | src/proxy.rs:514 | the search by port finds a socket with that port iff there is one |
| ManagerProtocol.ReachableIsInv | src/proxy.rs:469-521 | the invariant behind the following, in every interleaving of requests, cancellations, sockets and traffic |
| ManagerTheorems.RecordedSessionsAreLive | src/proxy.rs:482-502 | with requests dropped at any await, a recorded session is held and routed by the socket of its port, with no removal of it queued there |
| ManagerTheorems.AcknowledgedIsDone | src/proxy/udp_pooled.rs:235-269 | when an acknowledgement is received its route is live, or its session gone and unrecorded |
| ManagerTheorems.RecordedPortIsPooled | src/proxy.rs:510-520 | deleting a recorded session always finds its pooled port |
| ManagerTheorems.HeldIsRecordedOrLeaked | src/proxy.rs:469-521 | with any number of requests dropped anywhere, between requests the sessions a socket holds once its queue is handled are those recorded plus those leaked, and no key is both |
| ManagerTheorems.ExactExactlyWhenNothingLeaks | src/proxy.rs:469-521 | between requests the recorded keys are exact iff no leak is outstanding |
| ManagerTheorems.ExactAfterDropExactlyWhenSafe | src/manager/endpoint.rs:37 | in any run, the recorded keys are exact after a drop iff nothing had leaked before and the create had not been queued or repeats a recorded session, or the delete had been queued |
| ManagerTheorems.CompletedRequestsMirrorExactly | src/proxy.rs:469-521 | without cancellation the recorded keys are exactly the pairs of a pooled port and a session of that socket |
| ManagerTheorems.DeletesKnowTheirSession | src/proxy/udp_pooled.rs:173-185 | a delete that went out is always answered with "known", however many requests were dropped before |
| ManagerTheorems.RequestsComplete | src/proxy/udp_pooled.rs:235-269 | from every reachable state, queueing, handling and returning alone bring the request under way to its end, in effect on its socket and in the record |
| ManagerTheorems.CancelledCreateWitness | src/proxy.rs:487-502 | a cancelled create that leaves a session without a record |
| ManagerRequests.CreateStartsExactlyWhen | src/proxy.rs:474-486 | a create starts iff it names a non-empty ufrag and its target resolves, and then with exactly these; any other leaves the manager unchanged |
| ManagerRequests.DeleteStartsExactlyWhen | src/proxy.rs:510-520 | a delete starts iff the session is recorded, on the socket of its port, and takes just that key off the record; any other leaves the manager unchanged |
| ManagerRequests.SocketsAreToldRequests | src/proxy.rs:487-519 | in every run, each message a socket is told is that of an acceptable create or of a delete at its port, no request yields two, and they come in the order asked |
| ManagerRequests.RecordIsLastAnswer | src/proxy.rs:495-513 | in every reachable state a session is recorded with a target iff the latest of its answered creates there and its deletes is a create with that target |
| ManagerForwarding.SocketsRefineRequests | src/proxy/udp_pooled.rs:69-94 | under every cancellation a socket handles what was queued for it in that order, and is a run of the endpoint over that and its traffic, with the tables the messages say |
| ManagerForwarding.ForwardedForKnownSession | src/proxy.rs:469-521 | in every state of every run, what a socket sends goes to the last target it was told for a ufrag, on behalf of a session that holds it and is recorded, leaked, queued for removal or under way, and was asked for by the address it came from |
| ManagerForwarding.ForwardedForRecordedSession | src/proxy.rs:469-521 | without drops and between requests, only sessions on record are forwarded for |
| ManagerForwarding.RecordedTargetExactlyWhen | src/proxy.rs:495-501 | a recorded target is the routed one iff the last add its socket handled for the session's ufrag names it |
| ManagerForwarding.StaleTargetWitness | src/proxy/udp_pooled.rs:159-166 | a run without drops after which a recorded target is not the routed one |
| RoundRobin.CreatesAreDealtOut | src/proxy.rs:484-485 | the k-th accepted create of any run, cancelled or not, goes to the socket of the wrapped counter |
| RoundRobin.CreatesAreSpreadEvenly | src/proxy.rs:483-485 | over any window of creates, dropped and repeated ones included, sockets differ by at most one create between two wraps of the counter or if the pool size divides 2^64, and by at most two over any window shorter than 2^64 |
| RoundRobin.ManyCreates | src/proxy.rs:482-503 | a run with any number of creates exists, each for its own session, each completed and all recorded |
| RoundRobin.RunsAreEvenExactlyWhenDividing | src/proxy.rs:483-485 | every run loads every window of its creates evenly, up to one create, iff the pool size divides 2^64 |
| RoundRobin.UnevenRun | src/proxy.rs:484-485 | otherwise a run with a window over the wrap that gives one socket two creates and another none |
| RoundRobin.BalancedExactlyWhenDividing | src/proxy.rs:483-485 | for a counter of any range, every window is balanced up to one create iff the pool size divides the range |
| RoundRobin.UnevenWindow | src/proxy.rs:484-485 | for a counter of any range, the window over the wrap and the two sockets it treats unevenly |
| ProxyManagers.ProxyManager.FindPooled | src/proxy.rs:514 | the search loop ends at a socket with the port, whenever the pool has one |
| ProxyManagers.FixedPortsIncrease | src/proxy.rs:280-298 | bound fixed ports increase strictly inside the configured range |
| ProxyManagers.BoundPortsAreDistinct | src/proxy.rs:280-298 | pooled ports are distinct, fixed or ephemeral |
| ProxyManagers.ProxyManager.WithUdpPool | src/proxy.rs:278-309 | fails with a range error iff the range passes 65535, with a bind error iff nothing binds; otherwise pools every socket that could be bound, in order, and no other; pooled mode iff the size is positive iff the pool is non-empty |
| ProxyManagers.ProxyManager.CreatePooledUdpProxy | src/proxy.rs:469-503 | rejects exactly a missing or empty ufrag and an unresolvable target, changing nothing; otherwise adds the route on the round-robin socket, leaves the others alone and keeps the recorded keys exact |
| ProxyManagers.ProxyManager.DeletePooledUdpProxy | src/proxy.rs:505-521 | fails, changing nothing, iff the pair is not recorded; otherwise removes the session from its socket, always known there, and keeps the recorded keys exact |

## Left out

- Sockets, DNS, task scheduling and time: they appear as outcomes that the steps take as input; a relay may time out at any moment.
- HTTP routing, JSON, metrics, logging, environment settings, registration: input and output around the mode modelled here; only the fact that a request can be dropped at an await is kept.
- Per-session UDP mode (src/proxy/udp_client.rs:22-175, src/proxy.rs:319-350): its tables are keyed by endpoint name and keep no exact mirror.
- TCP proxies (src/proxy/tcp_clients.rs) and the TCP half of `create_proxy`, which follows a completed pooled create.
- Replies that an aborted relay may still pass on until the abort takes effect: the protocol lets such a relay go on, but counts only what goes from clients to targets.
- The endpoint's awaits on sockets (binding, connecting, writing) happen together with the step they belong to: no relay's state is read between them, so steps of relays in between could as well come before or after.
- The end of an endpoint or of the manager: both live as long as the process, so closed control channels do not occur.
- Sharing of ufrag strings: ufrags are values, compared by content.
- ProxyManagers.ProxyManager.CreatePooledUdpProxy: requests run to completion here; dropping them at an await is the subject of `ManagerProtocol`.
- PooledUdpEndpoints.PooledUdpEndpoint.OnDatagram: handles a datagram as one step; its awaits, and what relays do meanwhile, are in `RelayProtocol`.
