# Verified model of secure_network

`secure_network` is a Go library for an encrypted mesh over QUIC. Most of it connects other libraries; inside are
a few small stateful protocols, and those are what this project models in Dafny and proves properties of. Run
`dafny verify dfyconfig.toml` to check everything.

| file | models |
|---|---|
| `Common.dfy` | bytes, optional values, hexadecimal text |
| `Framing.dfy` | `framing.go`: length-prefixed frames over a byte stream that may be cut anywhere |
| `SecureStream.dfy` | `mesh.go`: any number of goroutines in `SendAction`, one read loop on the other side |
| `Gossip.dfy`, `GossipMesh.dfy`, `GossipCache.dfy`, `GossipDelivery.dfy` | `gossip.go`: one node; n nodes over a lossy, reordering, duplicating network; the duplicate cache; which handlers run, and on what |
| `Rpc.dfy`, `RpcMesh.dfy`, `RpcDelivery.dfy`, `RpcFlood.dfy` | `mesh_rpc.go`: packets and channels; interleaved calls at n nodes; that calls and notifications get through; how far traffic spreads |
| `Tunnel.dfy` | `tunnel.go`: claims, takeovers and watcher goroutines |
| `Heartbeat.dfy`, `Gateway.dfy`, `GatewayHistory.dfy`, `GatewayMonitors.dfy` | `gateway.go`: the heartbeat monitor; request routing; the registries against their histories; all monitors and registries on one clock |
| `PeerRoute.dfy` | `peer_route.go`: peers, access policies and the swarm handshake |

## How the model is built

Each source object that updates its fields is a class; its methods are proved to compute a pure step function, and
the whole-run results are about those functions. Concurrency is a transition system whose steps are the source's
atomic sections: a section under a lock, one channel operation, one write to the stream. A run is any finite
sequence of steps; a step that is not enabled where it stands changes nothing, so every sequence is a run and no
result rests on a run being well chosen.

Where a property turned out to need a condition, the condition is proved to be exact:

* frames survive the wire exactly when they have between one byte and the reader's limit (the writer checks
  neither). The first frame outside the limits ends the session at that point exactly when the reader reports it,
  that is, when its length modulo 2^32 is zero or over the limit; otherwise the reader silently takes the first
  bytes of the payload for the frame and goes on inside it;
* a tunnel claim lasts exactly when no unfired watcher of another connection is left for the name, because watchers
  delete by name only: taking a name over from a live connection never lasts on its own;
* Lamport clocks measure causality exactly when no happens-before chain has 2^64 events, however many events there
  are in all;
* a tick closes a watched stream exactly when the session entry was removed and not stored again, or the last reply
  is more than 180 seconds old; a key with a second stream, or a challenge that cannot be written, changes what a
  client can rely on, and how is proved;
* the session entry and the hosts of a key are cleared when a read fails on any stream of that key, also on one that
  did not register them while the one that did stays open; and a host is mapped to a closed stream exactly when its
  latest registration stands and the registering stream either asked a tunnel manager for a tunnel, accepted or
  refused, or was closed by its monitor, which does not end its read loop.

The central result about RPC is `RpcMesh.RepliesComeFromHandlers`: whatever is interleaved, lost, reordered,
duplicated or answered by several nodes, a call completed by a reply has what some node's handler for its procedure
returned for that very request, and no other call is completed by that reply. Its counterpart is
`RpcDelivery.CallCompletes`: from every reachable state a call whose request and reply are delivered is completed so.
For gossip the same pair is `GossipDelivery.HandlersGetWhatWasPublished` and `GossipDelivery.PublicationReachesHandler`.

Inputs stand for what the code cannot see into: clock readings (nondecreasing at each node), random bytes, parsing,
the data engine, the policy engine, the protocol dispatcher, handlers, and whether a send succeeds. Assumptions are
stated in the lemmas: request identifiers are fresh (`RpcMesh.FreshId`), the two cipher states are paired and ideal
(`SecureStream.Ideal`), a sealed payload is 16 bytes longer than the payload where sizes are given in payload bytes
(`SecureStream.Tagged`), frames are not forged where bytes may come from elsewhere (`SecureStream.Unforged`), the
janitor ticks on time (`GossipCache.OnSchedule`), only envelopes that some node published arrive at a node
(`GossipMesh.Enabled`), and, for the provenance of RPC results only, packets are not forged
(`RpcMesh.Honest`). The results about Lamport clocks rest on the assumption about envelopes: `gossip.go:92-95` merges
an envelope's stamp into the clock before the data engine is asked about the envelope, so a stamp that no node
produced would be merged as well, and the largest one would bring the clock back to zero.

## Model

| member | source | states |
|---|---|---|
| Framing.BigEndianInverse | framing.go:12-14 | the length written is the length read, for every length that fits the bytes |
| Framing.FromBigEndianInverse | framing.go:29 | every header is the encoding of the length it is read as |
| Framing.PutUint32 | framing.go:13-14 | the four bytes filled in place are the big-endian length |
| Framing.WriteFrame | framing.go:11-21 | header and payload are appended by two writes; a failing stream has received a proper prefix of the frame |
| Framing.ReadFull | framing.go:24-27 | the buffer is filled the same way however the transport cuts its reads, or everything left is consumed |
| Framing.ReadFrame | framing.go:23-40 | result, error case and unread rest of one read, for every stream and limit and every chunking |
| Framing.FrameSurvivesIff | framing.go:11-40 | a written frame is read back, with the rest of the stream intact, iff its length is between 1 and the limit |
| Framing.ReaderSees | framing.go:11-40 | what one read makes of any written frame of any length: its error and what stays unread if the length field is zero or over the limit, and otherwise as many bytes as the length field says |
| Framing.SilentlyCutIff | framing.go:12 | a frame is cut without an error iff it has 2^32 bytes or more and its length modulo 2^32 is within the limits |
| Framing.WrappedFrameIsCut | framing.go:12 | of 2^32 + 1 zero bytes the reader returns a single byte |
| Framing.DecodeConsumesEncoding | framing.go:23-40 | a successful read of any bytes consumed exactly the encoding of its result |
| Framing.EncodingPrefixIff | framing.go:11-21 | for payloads of any size, one encoding is a prefix of another iff the payloads are and their lengths agree modulo 2^32; so among lengths that fit the field no frame is a proper prefix of another |
| Framing.StreamRoundTripIff | framing.go:11-40 | for payloads of any size, repeated reads give the list of written frames back, use every byte and end cleanly, iff every length is within the limits |
| Framing.FramesReadArePrefixIff | framing.go:11-40 | for payloads of any size, the frames read are the first of those written iff the first frame outside the limits, if any, is reported |
| Framing.StopsAtFirstUnsendableIff | framing.go:29-35 | for payloads of any size, exactly what comes before the first frame outside the limits is read iff that frame is reported, and then with which error |
| Framing.DecodeAllConsumesEncodings | framing.go:23-40 | for arbitrary bytes, the frames read re-encode to a prefix of the input |
| Framing.CutStreamCutsFrames | framing.go:23-40 | any byte prefix of any stream yields a prefix of its frames |
| Framing.BrokenStreamReads | framing.go:23-40 | a stream that breaks off inside a frame yields the frames before it and an unexpected end, unless it breaks off exactly before the frame or after its header: then the end looks clean |
| SecureStream.MeshNode.SendAction | mesh.go:208-227 | one nonce per call that encrypts, and one whole frame if the write succeeds; nothing at all when not connected or out of nonces |
| SecureStream.MeshNode.ListenOnce | mesh.go:237-251 | one round of the loop takes one frame; the nonce advances only if the frame opened |
| SecureStream.MeshNode.ListenLoop | mesh.go:229-251 | the loop hands on exactly the frames that open under successive nonces, or a prefix of that when cancelled |
| SecureStream.UninterruptedCall | mesh.go:218-226 | the five interleavable steps of a call, run together, do what SendAction promises |
| SecureStream.FramesAreNeverInterleaved | mesh.go:218-226 | in every interleaving the stream is whole frames, the i-th under nonce i, plus at most a proper part of the lock holder's frame |
| SecureStream.EndToEndIff | mesh.go:208-255 | at any moment of any interleaving, the read loop yields exactly the sent payloads in lock order iff no frame is half-written and all sealed sizes are within the limits |
| SecureStream.EndToEndByPayloadSize | mesh.go:208-255 | the same with the limit on the payloads: at most 16777200 bytes each, which a caller can check before the call |
| SecureStream.EveryCutIsAPrefix | mesh.go:208-255 | at every moment and for every number of bytes arrived, what was delivered is a prefix of the lock order, in which each goroutine's payloads are a prefix of its program |
| SecureStream.FinishedProgramsArriveIff | mesh.go:208-255 | once all calls have returned, every goroutine's whole program has arrived in order iff there are no more calls than nonces and all sealed sizes are within the limits |
| SecureStream.FinishedProgramsArriveByPayloadSize | mesh.go:208-255 | the same with a condition on the programs alone: the number of their calls and the sizes of their payloads |
| SecureStream.EveryScheduleFinishes | mesh.go:208-227 | in every reachable state calls are left iff some goroutine can move, and no run has more moves than five per call: no deadlock and no livelock |
| SecureStream.ListenSkipsJunk | gateway.go:151-160 | well-framed frames that do not open, at any positions, are skipped without losing, changing or reordering a payload |
| SecureStream.OnlyThePrefixArrives | mesh.go:237-251 | for arbitrary bytes, with frames dropped, reordered, replayed or injected but not forged, the read loop hands on a prefix of the sent payloads in lock order |
| SecureStream.NoncesBoundDelivery | mesh.go:237-251 | whatever arrives, one session hands on fewer than 2^64 payloads |
| Gossip.GossipManager.RegisterHandler | gossip.go:44-48 | adds the service and changes nothing else |
| Gossip.GossipManager.PublishEnvelope | gossip.go:50-63 | the envelope carries the clock value this call was given under the lock |
| Gossip.GossipManager.Admit | gossip.go:83-96 | the locked section: drop within the hour without a trace, otherwise mark seen and tick past both clocks |
| Gossip.GossipManager.HandleIngress | gossip.go:77-126 | outcome of an uninterrupted ingress; a rejected envelope stays seen and keeps its tick |
| Gossip.GossipManager.CleanupSeenCache | gossip.go:128-138 | the in-place loop removes exactly the entries more than an hour old |
| GossipMesh.ClockIsLongestChainIff | gossip.go:50-54 | in every run, every event's clock is the length of the longest happens-before chain ending in it iff no chain has 2^64 events |
| GossipMesh.CausalityOrdersClocksIff | gossip.go:83-96 | in every run, happens-before implies a strictly smaller clock iff no chain has 2^64 events |
| GossipMesh.ClocksBoundedByEvents | gossip.go:52-53 | a run of fewer than 2^64 events has no such chain, and all its clocks and stamps in flight are at most the number of events so far |
| GossipMesh.BoundIsSharp | gossip.go:52 | after k publishes at one node its clock is k modulo 2^64: a chain of 2^64 events brings it back to zero |
| GossipCache.PrunedCacheDecidesLikeFullHistory | gossip.go:84-91 | under any interleaving with cleanups, an identifier is admitted iff it was never accepted or was last accepted at least an hour ago |
| GossipCache.CleanupIsInvisible | gossip.go:128-138 | leaving out every cleanup of a run changes no event, clock, task or outcome |
| GossipCache.AcceptancesAreSpaced | gossip.go:83-91 | acceptances of one identifier are an hour apart, and a window of length T holds at most floor(T/1h)+1 of them |
| GossipCache.EachAcceptanceHasOneFate | gossip.go:98-125 | acceptances match one to one with ingresses underway and outcomes: each is underway once or has exactly one outcome, for its own node and envelope, and nothing else is or has; a handler runs only for a service registered at its node |
| GossipCache.EngineDecides | gossip.go:98-115 | for each acceptance the data engine is asked at most once; its envelope is refused iff the answer was no, and dispatched or waiting to be iff it was yes |
| GossipCache.CallsNeverExceedAcceptances | gossip.go:117-125 | handler calls for an identifier at a node never exceed its acceptances there |
| GossipCache.CacheStaysSmall | gossip.go:140-148 | with ticks every 15 minutes no entry is older than 75 minutes and the cache is no larger than the acceptances of the last 75 minutes |
| GossipDelivery.DispatchCallsIff | gossip.go:117-125 | in every run, a dispatch takes its envelope off the list and calls the handler iff the service was registered at that node before |
| GossipDelivery.IngressAcceptsIff | gossip.go:83-96 | in every run, an arriving envelope is accepted, unchanged and once, iff its node never accepted its identifier or did so an hour ago or more |
| GossipDelivery.IngressCompletes | gossip.go:77-126 | from every reachable state, an admitted ingress ends with exactly one outcome: refused if the data engine refuses, called iff a handler was registered, unhandled otherwise |
| GossipDelivery.PublishAdds | gossip.go:50-63 | a publication adds the caller's own fields under the clock value it was given, and nothing else |
| GossipDelivery.PublicationReachesHandler | gossip.go:50-126 | from every reachable state, an envelope published under an identifier new to another node reaches that node's registered handler with the publisher's fields, if it arrives and is accepted |
| GossipDelivery.HandlersGetWhatWasPublished | gossip.go:117-125 | in every run, what a handler was called on was published by some node, and its service was registered at its node before |
| Common.HexEncodeAt | peer_route.go:145 | hexadecimal text is the two lower-case digits of each byte, in order |
| Rpc.RequestId | mesh_rpc.go:60-64 | an identifier has 32 characters |
| Rpc.RequestIdsDiffer | mesh_rpc.go:60-64 | different random bytes give different identifiers |
| Rpc.Waiter.TrySend | mesh_rpc.go:140-143 | a send into a capacity-one channel with a default branch |
| Rpc.RPCManager.Register | mesh_rpc.go:53-57 | adds the procedure and changes nothing else |
| Rpc.RPCManager.HandleResponse | mesh_rpc.go:134-146 | a response reaches only the waiter of its identifier, if there is one |
| Rpc.RPCManager.HandleRequest | mesh_rpc.go:149-194 | a request is answered iff the data engine accepts it and its procedure is registered; every field of the answer; and whether it goes to its source or to everyone |
| Rpc.FirstReplyIsFirst | mesh_rpc.go:139-144 | what a channel is filled with is the first arriving response with its identifier |
| Rpc.RPCManager.WhileWaiting | mesh_rpc.go:134-146 | after any arrivals every waiter's channel holds the first response with its identifier, unless it was full before |
| Rpc.RPCManager.BeginCall | mesh_rpc.go:80-84 | the call is filed under its identifier with an empty channel no other call has |
| Rpc.RPCManager.Call | mesh_rpc.go:59-108 | the result of a call for each way it can end; its pending entry is gone, and the other calls' channels hold exactly their own responses |
| RpcMesh.PendingIsExact | mesh_rpc.go:80-90 | in every interleaving the pending maps hold exactly the registered, unfinished calls, and every channel holds at most one packet, a response with that call's identifier |
| RpcMesh.NoLeak | mesh_rpc.go:86-90 | a node's pending map is empty iff all of that node's calls have returned |
| RpcMesh.FirstResponseWins | mesh_rpc.go:97-107 | a call that ended by reply returned the first response placed in its own channel |
| RpcMesh.OutcomeIsFinal | mesh_rpc.go:97-107 | nothing that happens later changes what a call ended with |
| RpcMesh.ResponsesAreIsolated | mesh_rpc.go:134-146 | a response touches no call but its own, and no phase or pending map |
| RpcMesh.IngressNeverBlocks | mesh_rpc.go:139-144 | from every reachable state the waiting ingress goroutines all finish by one step of their own each, with no caller moving and no phase or pending map changed |
| RpcMesh.NotificationRepliesAreIgnored | mesh_rpc.go:110-126 | a reply whose identifier is not 32 characters long, such as one to a notification, finds no waiter |
| RpcMesh.RepliesComeFromHandlers | mesh_rpc.go:171-194 | across the mesh only the originating call is completed by a reply, with what some node's handler for its procedure returned for its own request |
| RpcDelivery.ServedIff | mesh_rpc.go:149-194 | in every run, an arriving request runs a handler and sends its reply iff the data engine accepts it and its procedure was registered at that node before; otherwise nothing changes |
| RpcDelivery.ResponseCompletesCall | mesh_rpc.go:134-146 | from every reachable state, the first response to reach a waiting call ends it with its error or its payload, and touches no other call |
| RpcDelivery.CallCompletes | mesh_rpc.go:59-108 | from every reachable state, a call whose request is delivered to a node where its procedure was registered and accepted, and whose reply is delivered, returns what the handler returned for the caller's own payload |
| RpcDelivery.WholeCallIsHonest | mesh_rpc.go:92-95 | in such a call nothing is delivered that was not sent |
| RpcDelivery.NotificationsAreServed | mesh_rpc.go:110-126 | a notification goes out with the caller's fields and no identifier, and runs a registered handler where it is delivered and accepted |
| RpcDelivery.ErrorsFollowHistory | mesh_rpc.go:92-107 | in every run, a call that ended without a reply returned the error of a step that ended it: a failed send, its cancellation or its timeout |
| RpcDelivery.EveryWayEndsACall | mesh_rpc.go:92-107 | from every reachable state, each of these ends a call at once with its own error |
| RpcFlood.DeliveryLowersMeasure | mesh_rpc.go:134-194 | a delivery takes its packet away and adds nothing, unless it is a request that is accepted and has a handler where it arrives: then one copy of its response for each node the reply reaches; every delivery lowers the measure |
| RpcFlood.DeliveriesAreFinite | mesh_rpc.go:163-194 | at most one delivery per waiting packet plus one per node and waiting request that has a handler where it waits |
| RpcFlood.BoundIsReached | mesh_rpc.go:190-194 | a run of exactly that many deliveries exists from every queue |
| Tunnel.TunnelManager.RegisterTunnel | tunnel.go:93-122 | the four outcomes; only an accepted claim changes the state, closing the connection it replaces |
| Tunnel.TunnelManager.WatcherFires | tunnel.go:115-120 | the watcher deletes the name whatever it is mapped to |
| Tunnel.TunnelManager.ListTunnels | tunnel.go:83-91 | every mapped name once, always as online |
| Tunnel.EveryTunnelIsWatched | tunnel.go:108-120 | in every run each mapped name has an unfired watcher for its own connection |
| Tunnel.SettledMeansOnline | tunnel.go:83-91 | once the watchers of ended connections have fired, everything listed as online has an open connection |
| Tunnel.NamesFollowHistory | tunnel.go:108-120 | in every run a name is mapped to its latest claimant, unless a watcher for the name has fired since |
| Tunnel.EndsFollowHistory | tunnel.go:109-113 | in every run a connection is over iff it ended by itself or a name it had was claimed, by another connection or by itself |
| Tunnel.WatchersAreConserved | tunnel.go:115-120 | in every run each claim has exactly one watcher, which is starting, waiting or has fired once |
| Tunnel.ClaimLastsIff | tunnel.go:108-120 | a claim stays until its connection ends or the name is claimed again iff no unfired watcher for the name belongs to another connection |
| Tunnel.TakeoverIsUnstable | tunnel.go:109-113 | taking a name over ends the connection that had it, and never lasts on its own |
| Tunnel.TakeoverRun | tunnel.go:109-120 | a takeover from scratch after which the old watcher unmaps the new, still open, tunnel |
| Heartbeat.RepliesInOrderCount | gateway.go:274-275 | a reply that comes in order is the last reply from then on |
| Heartbeat.ClosesIff | gateway.go:191-218 | for every run: a step closes a watched stream iff it is a tick that by the history is overdue, at the time that tick is due, and loses the monitor iff the stop channel is closed or a challenge that was due could not be written |
| Heartbeat.StatusFollowsHistory | gateway.go:191-218 | over whole runs, the monitor is still in its loop iff no step ended it, and the stream was closed iff the first step that ended it was an overdue tick |
| Heartbeat.RegularStreamStaysOpen | gateway.go:191-218 | a stream whose replies are at most 180 seconds apart is not closed, unless a tick came while its entry was removed |
| Heartbeat.ClosesBetween180And300 | gateway.go:197-202 | a closing tick that finds the entry finds it more than 180 seconds old and at most 300, or is the first tick |
| Heartbeat.SilentStreamIsClosed | gateway.go:191-218 | a stream silent for more than 300 seconds and past its first tick, or without an entry for more than 120, has been closed, unless the monitor returned on the stop channel or on a failed write |
| Heartbeat.FailedWriteLeavesStreamOpen | gateway.go:211-213 | a run in which, after one failed write, a stream is never closed however long its silence |
| Heartbeat.MonitorHeartbeat | gateway.go:191-218 | the loop, with its three exits, ends as the state machine does against every environment |
| Gateway.Gateway.RouteToAPI | gateway.go:220-312 | the branch taken for every request and environment, and the registry it updates |
| Gateway.FrameEffectIff | gateway.go:162-312 | every effect a frame can have, and exactly when it has it by the request, the policy engine's answers and the registries, with the keys and records written |
| Gateway.Gateway.ClearHostSessions | gateway.go:330-337 | the in-place loop removes exactly the signer's hosts |
| Gateway.Gateway.ClearEntries | gateway.go:183-184 | removes the session entry and the signer's hosts, nothing else |
| Gateway.Gateway.ReadLoop | gateway.go:151-184 | the registries after one stream's loop, for every list of frames: as the frames left them if the stream asked for a tunnel, and cleared of its signer if a read failed |
| Gateway.LeavesIffSomeFrameBinds | gateway.go:162-177 | the loop is left by the tunnel exit iff some frame asks a tunnel manager for a tunnel, accepted or refused, and the frames from there on have no effect |
| GatewayHistory.HostMappedAfterLeavingIff | gateway.go:151-185 | in every run, a host is mapped to a stream that has left its read loop iff it is the latest registrant, its entries have not been cleared since, and it asked a tunnel manager for a tunnel while it was open |
| GatewayHistory.SecondStreamTakesEntries | gateway.go:183-184 | a run for any signer and host after which a stream is still open but has lost its host and its session entry to the failed read of a second stream of its key |
| GatewayHistory.StreamsFollowHistory | gateway.go:151-185 | over whole runs, a stream left its loop by a failed read iff its read failed while it was open, and by the tunnel exit iff it asked a tunnel manager for a tunnel while it was open |
| GatewayHistory.StreamsAreConnections | gateway.go:107-140 | the streams of a run are its connections, in order, each with its own key |
| GatewayHistory.EntriesPointToSurvivingStreams | gateway.go:164-184 | in every run, a mapped host's stream is its signer's and has not failed a read, so it has left its read loop iff it took the tunnel exit; and every session entry has such a stream |
| GatewayHistory.BindLeavesEntries | gateway.go:164-176 | a run for any signer and host after which the host is mapped to a stream that has left its read loop and the session entry is still there |
| GatewayHistory.HostsFollowHistory | gateway.go:226-237 | in every run a host is mapped to its latest registrant by the requests alone, unless a read of a stream of that key failed since |
| GatewayHistory.SessionsFollowHistory | gateway.go:274-275 | in every run a session entry is the time of the latest connection or accepted reply, unless a failed read cleared it since; a reply is accepted iff it is permitted and not taken by a host or a protocol module |
| GatewayHistory.VoteKeyInjective | gateway.go:294 | a vote key determines target and voter even when targets contain colons |
| GatewayHistory.RowsFollowHistory | gateway.go:277-300 | in every run each stored row is the latest post or vote written under its key, defined by the requests alone, and nothing else writes rows |
| GatewayHistory.VotesFollowHistory | gateway.go:220-300 | in every run the row of a target and an 8-byte voter prefix is exactly the latest vote cast for it, defined by the requests alone: permitted, naming the target, not taken by its host or a protocol module |
| GatewayMonitors.MonitorsFollowTheGateway | gateway.go:140-218 | in every run of the whole gateway each stream's monitor goes through the run of the single-monitor model in which it observes what the gateway did to its key |
| GatewayMonitors.HistoriesAgree | gateway.go:198 | the session entry the gateway's requests dictate is the one the monitor's own history dictates |
| GatewayMonitors.TickClosesIff | gateway.go:197-202 | in every run of the gateway, a stream's tick closes it iff by the gateway's history its key has no session entry or one more than 180 seconds old |
| GatewayMonitors.SilentStreamIsClosed | gateway.go:191-218 | a stream past its first tick whose key's entry is more than 300 seconds old, or whose key has had no entry for more than 120, has been closed, unless its monitor returned on the stop channel or on a failed write |
| GatewayMonitors.RegularStreamStaysOpen | gateway.go:191-218 | a stream with replies at most 180 seconds apart is not closed by its monitor whatever the rest of the gateway does, as long as no read of a stream of its key has failed since it was set up |
| GatewayMonitors.MonitorReturnsAfterLoop | gateway.go:214-215 | once a stream's read loop is over its monitor can return at once, and then never closes the stream |
| GatewayMonitors.HostMappedToClosedStreamIff | gateway.go:151-200 | in every run of the whole gateway, a host is mapped to a closed stream iff it is the latest registrant, its entries have not been cleared since, and it asked a tunnel manager for a tunnel or was found overdue by its monitor |
| GatewayMonitors.SilentHostStaysMapped | gateway.go:197-202 | a run for any signer and host after which the monitor has closed the stream, its read loop is still open and the host is still mapped to it |
| PeerRoute.PeerRoute.Add | peer_route.go:142-146 | the registry gains exactly this record |
| PeerRoute.PeerRoute.RemoveById | peer_route.go:148-154 | record and policy go together |
| PeerRoute.PeerRoute.SetAccessPolicy | peer_route.go:212-216 | replaces one policy and nothing else |
| PeerRoute.PeerRoute.GetAccessPolicy | peer_route.go:157-164 | the policy reported for a node, Deny if none is in force |
| PeerRoute.PeerRoute.TouchPeer | peer_route.go:279-285 | updates the shared record in place, if there is one, and no other |
| PeerRoute.PeerRoute.ListPeers | peer_route.go:202-210 | every filed peer once |
| PeerRoute.PeerRoute.EvaluateSwarmHandshake | peer_route.go:218-263 | the decision for every key, intent and policy |
| PeerRoute.PolicyFollowsHistory | peer_route.go:148-164 | a policy is in force iff the last set-or-remove event for its node is that set |
| PeerRoute.ReportedPolicyIff | peer_route.go:157-164 | a policy is reported iff history leaves it in force, or it is Deny and history leaves none in force |
| PeerRoute.PeersFollowHistory | peer_route.go:142-154 | filing under hexadecimal text keeps peers apart; each LastSeen follows from that peer's own events |
| PeerRoute.HandshakeGrantedIff | peer_route.go:218-263 | granted iff the key has 32 bytes, the data engine accepts, and the last set-or-remove event for its first 32 bytes is a set to Admin or See, or to Write or ReadOnly with an intent of theirs, each listed; and when the length or the engine is the reason |
| PeerRoute.HandshakeDecidedIff | peer_route.go:236-263 | for each policy by name and each intent, when a handshake is granted, denied, refused for its intent, or refused for want of a policy |
| PeerRoute.RemovalRevokes | peer_route.go:148-154 | after a removal every handshake is refused until a policy is set again |

## Left out

- The Noise handshake, QUIC and `Connect`: library behaviour; the model starts from established, paired cipher states.
- The hop that wraps an RPC packet in a PeerMessage: `mesh.go:261-264` hands the outer message to the RPC manager without unwrapping it, so packets are delivered at the level the repository's own test uses.
- Serialisation of gateway-side writes: `monitorHeartbeat` and `forwardToHost` write without a shared lock, so frame order is claimed for `SendAction` only.
- SecureStream.Apply: a write is assumed not to fail; the stream is dead after a failed write (`Framing.WriteFrame` does model failing writes).
- SecureStream.EveryCutIsAPrefix: when the first frame outside the limits wraps into them, covered only if the pieces of ciphertext then read as frames open to nothing but what was sealed.
- GatewayMonitors.Apply: a monitor's ticker starts at the time of the session entry; `Heartbeat` allows any delay.
- JSON, random generation, hashing, signatures and machine attestation: datatypes, inputs or assumptions.
- The ReceivedAt and Origin fields of an envelope and the Timestamp of an RPC packet: no decision depends on them.
- Gossip identifiers: `GossipMesh` takes the identifier of a publish as an input instead of building it from service and clock, so the results also cover colliding identifiers.
- RpcMesh.Apply: a failed send may or may not have reached the wire; both are runs.
- Rpc.RPCManager.Call: one call run to its end, with the packets that arrive meanwhile as an input; interleaved calls are the subject of `RpcMesh`.
- GatewayHistory.Next: the range-and-delete over a concurrent map is one step, so registrations made during it are ordered before or after it.
- Failed store transactions: a row is taken to be written, as the source ignores the error.
- PeerRoute.PeerRoute.TouchPeer: the lock is not modelled, and a caller that changes a shared record behind the registry's back has to re-establish its invariant.
- `AccessPolicyName` and `ParseAccessPolicy`, tunnel authentication and stream copying, `handleHeartbeat`, HTTP handlers, routing, certificates and node wiring: short string checks, cryptography or plumbing.
