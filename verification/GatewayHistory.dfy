/** Over every run, the gateway's registries say exactly what the history of connections, requests and failed reads
    says, by the requests themselves. */
module GatewayHistory {
  import opened Common
  import opened Gateway

  /** A stream reads, or has left its loop: by a failed read, or with its connection handed to the
      tunnel manager, which may have refused it. */
  datatype StreamStatus = Open | ReadFailed | Bound

  datatype Stream = Stream(signer: Signer, status: StreamStatus)

  /** A stream is set up and gets the next number, an open stream handles a frame, or its next read fails. */
  datatype Step =
    | Connect(signer: Signer, now: int)
    | Handle(stream: nat, req: Option<APIPayload>, env: Environment)
    | FailRead(stream: nat)

  datatype Run = Run(state: Registries, streams: seq<Stream>)

  const NOTHING: Run := Run(EMPTY, [])

  predicate IsOpen(r: Run, stream: nat) {
    stream < |r.streams| && r.streams[stream].status == Open
  }

  predicate Enabled(r: Run, step: Step) {
    step.Connect? || IsOpen(r, step.stream)
  }

  function SetStatus(r: Run, stream: nat, status: StreamStatus): Run
    requires stream < |r.streams|
  {
    r.(streams := r.streams[stream := r.streams[stream].(status := status)])
  }

  function Next(r: Run, step: Step): Run {
    if !Enabled(r, step) then r else
    match step
    case Connect(signer, now) =>
      Run(r.state.(sessions := r.state.sessions[signer := now]), r.streams + [Stream(signer, Open)])
    case Handle(stream, req, env) =>
      var signer := r.streams[stream].signer;
      var effect := OnFrame(r.state, signer, stream, req, env);
      (if effect.BoundTunnel? then SetStatus(r, stream, Bound) else r).(state := Perform(r.state, signer, effect))
    case FailRead(stream) =>
      SetStatus(r, stream, ReadFailed).(state := Clear(r.state, r.streams[stream].signer))
  }

  function Exec(steps: seq<Step>): Run {
    if steps == [] then NOTHING else Next(Exec(steps[..|steps| - 1]), steps[|steps| - 1])
  }

  // ---------------------------------------------------------------- what a step is, by the request alone

  /** The step is a request of an open stream. */
  predicate Requests(r: Run, step: Step) {
    step.Handle? && IsOpen(r, step.stream) && step.req.Some?
  }

  predicate BySigner(r: Run, step: Step, signer: Signer)
    requires !step.Connect? && IsOpen(r, step.stream)
  {
    r.streams[step.stream].signer == signer
  }

  predicate Registers(r: Run, step: Step, host: string) {
    && Requests(r, step) && step.req.value.action == "mesh_register"
    && step.env.hostId == Some(host) && host != ""
  }

  /** A heartbeat reply of this signer that is accepted. */
  ghost predicate Replies(r: Run, step: Step, signer: Signer) {
    && Requests(r, step) && BySigner(r, step, signer)
    && step.req.value.action == "dbsc_heartbeat_resp" && ReachesSwitch(r.state, step.req.value, step.env)
  }

  /** A read of a stream of this signer fails. */
  predicate FailsFor(r: Run, step: Step, signer: Signer) {
    step.FailRead? && IsOpen(r, step.stream) && BySigner(r, step, signer)
  }

  predicate BindsTunnel(step: Step, stream: nat) {
    && step.Handle? && step.stream == stream
    && step.req.Some? && step.req.value.action == "tunnel_bind" && step.env.tunnels == Manager
  }

  /** A vote for the target by a signer with these eight bytes. */
  ghost predicate CastsVote(r: Run, step: Step, target: string, voter: seq<byte>) {
    && Requests(r, step) && r.streams[step.stream].signer[..8] == voter
    && step.req.value.action == "karma" && step.req.value.target == target && target != ""
    && ReachesSwitch(r.state, step.req.value, step.env)
  }

  /** The row a step writes, if it writes one. */
  ghost function Writes(r: Run, step: Step): Option<(string, ContentMeta)> {
    if !Requests(r, step) || !ReachesSwitch(r.state, step.req.value, step.env) then None else
    var signer, q, now := r.streams[step.stream].signer, step.req.value, step.env.now;
    if q.action == "post" then
      Some(("data:post:" + step.env.nanos + ":" + HexEncode(signer[..4]), ContentMeta(signer, q.content, "", 0, now)))
    else if q.action == "karma" && q.target != "" then
      Some(("data:karma:" + q.target + ":" + HexEncode(signer[..8]), ContentMeta(signer, "", q.target, q.value, now)))
    else None
  }

  /** What one request does to the registries. */
  lemma RequestMeans(r: Run, step: Step)
    requires Requests(r, step)
    ensures var signer, g, g' := r.streams[step.stream].signer, r.state, Next(r, step).state;
            && g'.sessions == (if Replies(r, step, signer) then g.sessions[signer := step.env.now] else g.sessions)
            && (forall host :: Registers(r, step, host) ==> g'.hosts == g.hosts[host := HostPeer(step.stream, signer)])
            && ((forall host :: !Registers(r, step, host)) ==> g'.hosts == g.hosts)
            && g'.rows == (match Writes(r, step) case None => g.rows case Some(row) => g.rows[row.0 := row.1])
  {
    var signer := r.streams[step.stream].signer;
    FrameEffectIff(r.state, signer, step.stream, step.req.value, step.env);
    var effect := OnFrame(r.state, signer, step.stream, step.req, step.env);
    match effect
    case RegisteredHost(host, peer) => assert Registers(r, step, host);
    case Refreshed(now) => assert Replies(r, step, signer);
    case _ =>
  }

  lemma HandleOther(r: Run, step: Step)
    requires step.Handle? && !Requests(r, step)
    ensures Next(r, step).state == r.state
  {
  }

  // ---------------------------------------------------------------- leaving

  /** Step k found the stream open and was its failed read, or bound its tunnel. */
  ghost predicate FailedAt(steps: seq<Step>, stream: nat, k: nat) {
    k < |steps| && steps[k] == FailRead(stream) && IsOpen(Exec(steps[..k]), stream)
  }

  ghost predicate BoundAt(steps: seq<Step>, stream: nat, k: nat) {
    k < |steps| && BindsTunnel(steps[k], stream) && IsOpen(Exec(steps[..k]), stream)
  }

  /** What happened to a stream happened in the last step or before it. */
  lemma HistorySplit(steps: seq<Step>, stream: nat)
    requires steps != []
    ensures var front, last := steps[..|steps| - 1], steps[|steps| - 1];
            && ((exists k: nat :: FailedAt(steps, stream, k))
                <==> (exists k: nat :: FailedAt(front, stream, k)) || (IsOpen(Exec(front), stream) && last == FailRead(stream)))
            && ((exists k: nat :: BoundAt(steps, stream, k))
                <==> (exists k: nat :: BoundAt(front, stream, k)) || (IsOpen(Exec(front), stream) && BindsTunnel(last, stream)))
  {
    var front, n := steps[..|steps| - 1], |steps| - 1;
    assert steps[..n] == front;
    forall k: nat | k < n
      ensures FailedAt(steps, stream, k) <==> FailedAt(front, stream, k)
      ensures BoundAt(steps, stream, k) <==> BoundAt(front, stream, k)
    {
      assert front[..k] == steps[..k];
    }
    assert FailedAt(steps, stream, n) <==> IsOpen(Exec(front), stream) && steps[n] == FailRead(stream);
    assert BoundAt(steps, stream, n) <==> IsOpen(Exec(front), stream) && BindsTunnel(steps[n], stream);
  }

  lemma StatusStep(r: Run, step: Step, stream: nat)
    requires stream < |Next(r, step).streams|
    ensures var after := Next(r, step).streams[stream].status;
            after == if !IsOpen(r, stream) then (if stream < |r.streams| then r.streams[stream].status else Open)
                     else if step == FailRead(stream) then ReadFailed
                     else if BindsTunnel(step, stream) then Bound
                     else Open
  {
  }

  /** Over whole runs: a stream's loop ended by a failed read iff its read failed while it was open, and by the
      tunnel exit iff it asked a tunnel manager for a tunnel while it was open; it cannot have done both. */
  lemma {:induction false} StreamsFollowHistory(steps: seq<Step>, stream: nat)
    requires stream < |Exec(steps).streams|
    ensures var status := Exec(steps).streams[stream].status;
            && (status == ReadFailed <==> exists k: nat :: FailedAt(steps, stream, k))
            && (status == Bound <==> exists k: nat :: BoundAt(steps, stream, k))
  {
    var front, last := steps[..|steps| - 1], steps[|steps| - 1];
    HistorySplit(steps, stream);
    StatusStep(Exec(front), last, stream);
    if stream < |Exec(front).streams| {
      StreamsFollowHistory(front, stream);
    } else {
      NeverOpenBefore(front, stream);
    }
  }

  /** A stream that does not exist yet has never been open. */
  lemma {:induction false} NeverOpenBefore(steps: seq<Step>, stream: nat)
    requires stream >= |Exec(steps).streams|
    ensures forall k: nat :: k <= |steps| ==> !IsOpen(Exec(steps[..k]), stream)
  {
    assert steps[..|steps|] == steps;
    if steps != [] {
      var front := steps[..|steps| - 1];
      NeverOpenBefore(front, stream);
      assert forall k: nat :: k <= |front| ==> front[..k] == steps[..k];
    }
  }

  /** The streams of a run are its connections, in order. */
  function Connections(steps: seq<Step>): seq<Signer> {
    if steps == [] then [] else
    Connections(steps[..|steps| - 1]) + if steps[|steps| - 1].Connect? then [steps[|steps| - 1].signer] else []
  }

  lemma {:induction false} StreamsAreConnections(steps: seq<Step>)
    ensures |Exec(steps).streams| == |Connections(steps)|
    ensures forall s :: 0 <= s < |Connections(steps)| ==> Exec(steps).streams[s].signer == Connections(steps)[s]
  {
    if steps != [] {
      StreamsAreConnections(steps[..|steps| - 1]);
    }
  }

  /** A stream of this signer that is open or was handed to the tunnel manager. */
  predicate Survives(r: Run, stream: nat, signer: Signer) {
    stream < |r.streams| && r.streams[stream].signer == signer && r.streams[stream].status != ReadFailed
  }

  ghost predicate EntriesSurvive(r: Run) {
    && (forall h :: h in r.state.hosts ==> Survives(r, r.state.hosts[h].stream, r.state.hosts[h].signer))
    && (forall k: Signer :: k in r.state.sessions ==> exists s :: Survives(r, s, k))
  }

  lemma SurvivesStep(r: Run, step: Step, stream: nat, signer: Signer)
    requires Survives(r, stream, signer) && !FailsFor(r, step, signer)
    ensures Survives(Next(r, step), stream, signer)
  {
  }

  lemma EntriesSurviveStep(r: Run, step: Step)
    requires EntriesSurvive(r)
    ensures EntriesSurvive(Next(r, step))
  {
    var r' := Next(r, step);
    forall host | host in r'.state.hosts
      ensures Survives(r', r'.state.hosts[host].stream, r'.state.hosts[host].signer)
    {
      HostStep(r, step, host);
      if !Registers(r, step, host) {
        SurvivesStep(r, step, r.state.hosts[host].stream, r.state.hosts[host].signer);
      }
    }
    forall k: Signer | k in r'.state.sessions ensures exists s :: Survives(r', s, k) {
      SessionStep(r, step, k);
      if step.Connect? && step.signer == k {
        assert Survives(r', |r.streams|, k);
      } else if Replies(r, step, k) {
        assert Survives(r', step.stream, k);
      } else {
        var s :| Survives(r, s, k);
        SurvivesStep(r, step, s, k);
      }
    }
  }

  /** In every run: a mapped host is mapped to a stream of its signer whose reads have not failed, so the stream has
      left its read loop iff it took the tunnel exit; and every session entry has such a stream. */
  lemma {:induction false} EntriesPointToSurvivingStreams(steps: seq<Step>)
    ensures var r := Exec(steps);
            && EntriesSurvive(r)
            && (forall h :: h in r.state.hosts ==>
                  (!IsOpen(r, r.state.hosts[h].stream) <==> r.streams[r.state.hosts[h].stream].status == Bound))
  {
    if steps != [] {
      EntriesPointToSurvivingStreams(steps[..|steps| - 1]);
      EntriesSurviveStep(Exec(steps[..|steps| - 1]), steps[|steps| - 1]);
    }
  }

  function Register(stream: nat, host: string, env: Environment): Step {
    Handle(stream, Some(APIPayload("mesh_register", "", "", 0)), env.(hostId := Some(host)))
  }

  lemma RegisterMeans(r: Run, stream: nat, host: string, env: Environment)
    requires IsOpen(r, stream) && host != ""
    ensures Next(r, Register(stream, host, env))
            == r.(state := r.state.(hosts := r.state.hosts[host := HostPeer(stream, r.streams[stream].signer)]))
  {
  }

  /** The second exit is real: a stream that registers a host and then asks for a tunnel leaves the host mapped to a
      stream that has left its read loop, and its session entry behind. */
  lemma BindLeavesEntries(signer: Signer, host: string, now: int, permits: (string, string) -> bool)
    returns (steps: seq<Step>)
    requires host != ""
    ensures var r := Exec(steps);
            && !IsOpen(r, 0)
            && host in r.state.hosts && r.state.hosts[host] == HostPeer(0, signer)
            && signer in r.state.sessions && r.state.sessions[signer] == now
  {
    var env := Environment(Manager, None, permits, false, false, false, now, "");
    var connect, register := Connect(signer, now), Register(0, host, env);
    var bind := Handle(0, Some(APIPayload("tunnel_bind", "", "", 0)), env);
    steps := [connect, register, bind];
    assert steps[..2] == [connect, register] && [connect, register][..1] == [connect] && [connect][..0] == [];
    assert Exec([connect]) == Next(NOTHING, connect);
    RegisterMeans(Exec([connect]), 0, host, env);
    assert Exec([connect, register]) == Next(Exec([connect]), register);
  }

  /** And a key's entries go with any of its streams: a stream that is still open loses its host and its session
      entry when the read of a second stream of the same key fails. */
  lemma SecondStreamTakesEntries(signer: Signer, host: string, now: int, permits: (string, string) -> bool)
    returns (steps: seq<Step>)
    requires host != ""
    ensures |steps| > 0
    ensures var before, r := Exec(steps[..|steps| - 1]), Exec(steps);
            && IsOpen(r, 0) && r.streams[0].signer == signer
            && host in before.state.hosts && before.state.hosts[host] == HostPeer(0, signer)
            && host !in r.state.hosts && signer !in r.state.sessions
  {
    var env := Environment(Manager, None, permits, false, false, false, now, "");
    var connect, register := Connect(signer, now), Register(0, host, env);
    steps := [connect, register, connect, FailRead(1)];
    assert steps[..3] == [connect, register, connect] && steps[..3][..2] == [connect, register];
    assert [connect, register][..1] == [connect] && [connect][..0] == [];
    assert Exec([connect]) == Next(NOTHING, connect);
    RegisterMeans(Exec([connect]), 0, host, env);
    assert Exec([connect, register]) == Next(Exec([connect]), register);
    assert Exec(steps[..3]) == Next(Exec([connect, register]), connect);
    HostStep(Exec(steps[..3]), FailRead(1), host);
    SessionStep(Exec(steps[..3]), FailRead(1), signer);
  }

  // ---------------------------------------------------------------- hosts

  function Host(g: Registries, host: string): Option<HostPeer> {
    if host in g.hosts then Some(g.hosts[host]) else None
  }

  lemma HostStep(r: Run, step: Step, host: string)
    ensures var before := Host(r.state, host);
            Host(Next(r, step).state, host)
            == if Registers(r, step, host) then Some(HostPeer(step.stream, r.streams[step.stream].signer))
               else if before.Some? && FailsFor(r, step, before.value.signer) then None
               else before
  {
    if Requests(r, step) {
      RequestMeans(r, step);
    } else if step.Handle? {
      HandleOther(r, step);
    }
  }

  /** Whom the history maps a host to: its latest registrant, unless a read of a stream of that signer failed since. */
  function HostOf(steps: seq<Step>, host: string): Option<HostPeer> {
    if steps == [] then None else
    var r, before, last := Exec(steps[..|steps| - 1]), HostOf(steps[..|steps| - 1], host), steps[|steps| - 1];
    if Registers(r, last, host) then Some(HostPeer(last.stream, r.streams[last.stream].signer))
    else if before.Some? && FailsFor(r, last, before.value.signer) then None
    else before
  }

  /** In every run each host is mapped to whom the history dictates. */
  lemma {:induction false} HostsFollowHistory(steps: seq<Step>, host: string)
    ensures Host(Exec(steps).state, host) == HostOf(steps, host)
  {
    if steps != [] {
      HostsFollowHistory(steps[..|steps| - 1], host);
      HostStep(Exec(steps[..|steps| - 1]), steps[|steps| - 1], host);
    }
  }

  /** When a host is mapped to a stream that has left its read loop, in any run: exactly when it is the latest
      registrant, its entries have not been cleared since, and it has taken the tunnel exit. */
  lemma {:induction false} HostMappedAfterLeavingIff(steps: seq<Step>, host: string, peer: HostPeer)
    ensures (Host(Exec(steps).state, host) == Some(peer) && !IsOpen(Exec(steps), peer.stream))
            <==> HostOf(steps, host) == Some(peer) && exists k: nat :: BoundAt(steps, peer.stream, k)
  {
    HostsFollowHistory(steps, host);
    EntriesPointToSurvivingStreams(steps);
    if HostOf(steps, host) == Some(peer) {
      StreamsFollowHistory(steps, peer.stream);
    }
  }

  // ---------------------------------------------------------------- sessions

  function Session(g: Registries, signer: seq<byte>): Option<int> {
    if signer in g.sessions then Some(g.sessions[signer]) else None
  }

  /** The time a step stores for the signer: that of a connection or of an accepted reply. */
  ghost function Stores(r: Run, step: Step, signer: Signer): Option<int> {
    if step.Connect? && step.signer == signer then Some(step.now)
    else if Replies(r, step, signer) then Some(step.env.now)
    else None
  }

  lemma SessionStep(r: Run, step: Step, signer: Signer)
    ensures var stored := Stores(r, step, signer);
            Session(Next(r, step).state, signer)
            == if stored.Some? then stored else if FailsFor(r, step, signer) then None else Session(r.state, signer)
  {
    if Requests(r, step) {
      RequestMeans(r, step);
    } else if step.Handle? {
      HandleOther(r, step);
    }
  }

  /** The session entry the history dictates: the latest connection or accepted reply, unless a failed read of one of
      the signer's streams cleared it since. */
  ghost function SessionOf(steps: seq<Step>, signer: Signer): Option<int> {
    if steps == [] then None else
    var front, last := steps[..|steps| - 1], steps[|steps| - 1];
    var stored := Stores(Exec(front), last, signer);
    if stored.Some? then stored else if FailsFor(Exec(front), last, signer) then None else SessionOf(front, signer)
  }

  lemma {:induction false} SessionsFollowHistory(steps: seq<Step>, signer: Signer)
    ensures Session(Exec(steps).state, signer) == SessionOf(steps, signer)
  {
    if steps != [] {
      SessionsFollowHistory(steps[..|steps| - 1], signer);
      SessionStep(Exec(steps[..|steps| - 1]), steps[|steps| - 1], signer);
    }
  }

  // ---------------------------------------------------------------- rows

  function Row(g: Registries, key: string): Option<ContentMeta> {
    if key in g.rows then Some(g.rows[key]) else None
  }

  lemma RowStep(r: Run, step: Step, key: string)
    ensures var w := Writes(r, step);
            Row(Next(r, step).state, key) == if w.Some? && w.value.0 == key then Some(w.value.1) else Row(r.state, key)
  {
    if Requests(r, step) {
      RequestMeans(r, step);
    } else if step.Handle? {
      HandleOther(r, step);
    }
  }

  /** The record of the latest post or vote written under a key. */
  ghost function RowOf(steps: seq<Step>, key: string): Option<ContentMeta> {
    if steps == [] then None else
    var w := Writes(Exec(steps[..|steps| - 1]), steps[|steps| - 1]);
    if w.Some? && w.value.0 == key then Some(w.value.1) else RowOf(steps[..|steps| - 1], key)
  }

  /** In every run every row is the latest post or vote under its key, and nothing else writes rows. */
  lemma {:induction false} RowsFollowHistory(steps: seq<Step>, key: string)
    ensures Row(Exec(steps).state, key) == RowOf(steps, key)
  {
    if steps != [] {
      RowsFollowHistory(steps[..|steps| - 1], key);
      RowStep(Exec(steps[..|steps| - 1]), steps[|steps| - 1], key);
    }
  }

  // ---------------------------------------------------------------- votes

  lemma VoteKeyParts(target: string, voter: seq<byte>)
    requires |voter| == 8
    ensures var k := VoteKey(target, voter);
            |k| == 28 + |target| && k[11..11 + |target|] == target && k[12 + |target|..] == HexEncode(voter)
  {
    assert |"data:karma:"| == 11;
  }

  /** A vote key determines its target and its voter, even when targets contain colons. */
  lemma VoteKeyInjective(t1: string, v1: seq<byte>, t2: string, v2: seq<byte>)
    requires |v1| == 8 && |v2| == 8
    requires VoteKey(t1, v1) == VoteKey(t2, v2)
    ensures t1 == t2 && v1 == v2
  {
    VoteKeyParts(t1, v1);
    VoteKeyParts(t2, v2);
    HexInjective(v1, v2);
  }

  lemma PostIsNoVote(nanos: string, author: seq<byte>, target: string, voter: seq<byte>)
    ensures PostKey(nanos, author) != VoteKey(target, voter)
  {
    assert PostKey(nanos, author)[5] == 'p';
    assert VoteKey(target, voter)[5] == 'k';
  }

  /** The record of the latest vote of a run for the target under these eight bytes. */
  ghost function LastVote(steps: seq<Step>, target: string, voter: seq<byte>): Option<ContentMeta> {
    if steps == [] then None else
    var front, last := steps[..|steps| - 1], steps[|steps| - 1];
    if CastsVote(Exec(front), last, target, voter) then
      Some(ContentMeta(Exec(front).streams[last.stream].signer, "", target, last.req.value.value, last.env.now))
    else LastVote(front, target, voter)
  }

  lemma WritesVoteIff(r: Run, step: Step, target: string, voter: seq<byte>)
    requires |voter| == 8
    ensures var w := Writes(r, step);
            && (w.Some? && w.value.0 == VoteKey(target, voter) <==> CastsVote(r, step, target, voter))
            && (CastsVote(r, step, target, voter) ==>
                  w.value.1 == ContentMeta(r.streams[step.stream].signer, "", target, step.req.value.value, step.env.now))
  {
    if Writes(r, step).Some? {
      var signer, q := r.streams[step.stream].signer, step.req.value;
      if q.action == "post" {
        PostIsNoVote(step.env.nanos, signer[..4], target, voter);
      } else if VoteKey(q.target, signer[..8]) == VoteKey(target, voter) {
        VoteKeyInjective(q.target, signer[..8], target, voter);
      }
    }
  }

  /** In every run the row of a target and a voter is exactly the latest vote cast for that target under those eight
      bytes: posts and other votes neither write nor hide it, whatever characters the target has. */
  lemma {:induction false} VotesFollowHistory(steps: seq<Step>, target: string, voter: seq<byte>)
    requires |voter| == 8
    ensures Row(Exec(steps).state, VoteKey(target, voter)) == LastVote(steps, target, voter)
  {
    if steps != [] {
      VotesFollowHistory(steps[..|steps| - 1], target, voter);
      RowStep(Exec(steps[..|steps| - 1]), steps[|steps| - 1], VoteKey(target, voter));
      WritesVoteIff(Exec(steps[..|steps| - 1]), steps[|steps| - 1], target, voter);
    }
  }
}
