/** The gateway's registries and the heartbeat monitors of all its streams on one clock, in whole seconds. */
module GatewayMonitors {
  import opened Common
  import opened Gateway
  import H = Heartbeat
  import G = GatewayHistory

  /** The monitor of one stream: when its ticker fires next, and what has become of it. */
  datatype Watch = Watch(nextTick: int, status: H.Status)

  /** The i-th monitor belongs to the i-th stream. */
  datatype System = System(run: G.Run, clock: int, watches: seq<Watch>)

  /** Something happens at the gateway, a stream's ticker fires, a monitor notices that its stream's read loop is
      over, or time passes. */
  datatype Step = Gate(step: G.Step) | Fire(stream: nat, writeOk: bool) | Notice(stream: nat) | Advance(until: int)

  predicate Watching(s: System, stream: nat) {
    stream < |s.watches| && s.watches[stream].status == H.Watching
  }

  /** What is stored is the current time, and nothing overtakes a tick that is due. */
  ghost predicate Enabled(s: System, step: Step) {
    match step
    case Gate(g) =>
      && G.Enabled(s.run, g)
      && (g.Connect? ==> g.now == s.clock)
      && (g.Handle? ==> g.env.now == s.clock)
    case Fire(stream, _) => Watching(s, stream) && s.watches[stream].nextTick == s.clock
    case Notice(stream) => Watching(s, stream) && !G.IsOpen(s.run, stream)
    case Advance(until) => s.clock <= until && forall t: nat :: Watching(s, t) ==> until <= s.watches[t].nextTick
  }

  /** The monitor's view of its stream's key is the session entry in the registry. */
  function Ticked(s: System, stream: nat, writeOk: bool): Watch
    requires stream < |s.watches| && stream < |s.run.streams|
  {
    if H.Expired(G.Session(s.run.state, s.run.streams[stream].signer), s.clock) then s.watches[stream].(status := H.Closed)
    else Watch(s.watches[stream].nextTick + H.PERIOD, if writeOk then H.Watching else H.Gone)
  }

  ghost function Apply(s: System, step: Step): System
    requires |s.watches| == |s.run.streams|
  {
    if !Enabled(s, step) then s else
    match step
    case Gate(g) =>
      s.(run := G.Next(s.run, g),
         watches := if g.Connect? then s.watches + [Watch(s.clock + H.PERIOD, H.Watching)] else s.watches)
    case Fire(stream, writeOk) => s.(watches := s.watches[stream := Ticked(s, stream, writeOk)])
    case Notice(stream) => s.(watches := s.watches[stream := s.watches[stream].(status := H.Gone)])
    case Advance(until) => s.(clock := until)
  }

  ghost function Exec(start: int, steps: seq<Step>): (s: System)
    ensures |s.watches| == |s.run.streams|
  {
    if steps == [] then System(G.NOTHING, start, []) else Apply(Exec(start, steps[..|steps| - 1]), steps[|steps| - 1])
  }

  // ---------------------------------------------------------------- what one monitor observes

  /** What a step is to the monitor of a stream that exists. */
  ghost function Seen(s: System, step: Step, stream: nat): seq<H.Step>
    requires stream < |s.run.streams|
  {
    if !Enabled(s, step) then [] else
    match step
    case Gate(g) =>
      var signer := s.run.streams[stream].signer;
      if G.Stores(s.run, g, signer).Some? then [H.Refresh(s.clock)]
      else if G.FailsFor(s.run, g, signer) then [H.Forget]
      else []
    case Fire(t, writeOk) => if t == stream then [H.Tick(writeOk)] else []
    case Notice(t) => if t == stream then [H.Stop] else []
    case Advance(until) => [H.Wait(until)]
  }

  ghost predicate Exists(start: int, steps: seq<Step>, stream: nat) {
    stream < |Exec(start, steps).run.streams|
  }

  /** Everything the stream's monitor has observed since the stream was set up. */
  ghost function Observed(start: int, steps: seq<Step>, stream: nat): seq<H.Step>
    requires Exists(start, steps, stream)
  {
    var front := steps[..|steps| - 1];
    if !Exists(start, front, stream) then []
    else Observed(start, front, stream) + Seen(Exec(start, front), steps[|steps| - 1], stream)
  }

  /** When the stream was set up. */
  ghost function Born(start: int, steps: seq<Step>, stream: nat): int
    requires Exists(start, steps, stream)
  {
    var front := steps[..|steps| - 1];
    if !Exists(start, front, stream) then Exec(start, front).clock else Born(start, front, stream)
  }

  /** The state of the stream's monitor as the model of one monitor has it. */
  function MonitorOf(s: System, stream: nat): H.Monitor
    requires stream < |s.run.streams| == |s.watches|
  {
    H.Monitor(s.clock, G.Session(s.run.state, s.run.streams[stream].signer), s.watches[stream].nextTick, s.watches[stream].status)
  }

  lemma ExecSeen(start: int, delay: nat, before: seq<H.Step>, seen: seq<H.Step>)
    requires |seen| <= 1
    ensures H.Exec(start, delay, before + seen)
            == if seen == [] then H.Exec(start, delay, before) else H.Apply(H.Exec(start, delay, before), seen[0])
  {
    if seen == [] {
      assert before + seen == before;
    } else {
      assert (before + seen)[..|before|] == before;
    }
  }

  ghost predicate TicksAhead(s: System) {
    forall t: nat :: Watching(s, t) ==> s.clock <= s.watches[t].nextTick
  }

  lemma TicksAheadStep(s: System, step: Step)
    requires |s.watches| == |s.run.streams| && TicksAhead(s)
    ensures TicksAhead(Apply(s, step))
  {
    var s' := Apply(s, step);
    forall t: nat | Watching(s', t) ensures s'.clock <= s'.watches[t].nextTick {
      assert t < |s.watches| ==> Watching(s, t);
    }
  }

  lemma {:induction false} TicksAheadReachable(start: int, steps: seq<Step>)
    ensures TicksAhead(Exec(start, steps))
  {
    if steps != [] {
      TicksAheadReachable(start, steps[..|steps| - 1]);
      TicksAheadStep(Exec(start, steps[..|steps| - 1]), steps[|steps| - 1]);
    }
  }

  lemma GateStep(s: System, g: G.Step, stream: nat)
    requires |s.watches| == |s.run.streams| && stream < |s.run.streams| && Enabled(s, Gate(g)) && TicksAhead(s)
    ensures var s', seen := Apply(s, Gate(g)), Seen(s, Gate(g), stream);
            && stream < |s'.run.streams| == |s'.watches|
            && MonitorOf(s', stream) == if seen == [] then MonitorOf(s, stream) else H.Apply(MonitorOf(s, stream), seen[0])
  {
    G.SessionStep(s.run, g, s.run.streams[stream].signer);
  }

  lemma MonitorStep(s: System, step: Step, stream: nat)
    requires |s.watches| == |s.run.streams| && stream < |s.run.streams| && TicksAhead(s)
    ensures var s', seen := Apply(s, step), Seen(s, step, stream);
            && |seen| <= 1 && stream < |s'.run.streams| == |s'.watches|
            && MonitorOf(s', stream) == if seen == [] then MonitorOf(s, stream) else H.Apply(MonitorOf(s, stream), seen[0])
  {
    if step.Gate? && Enabled(s, step) {
      GateStep(s, step.step, stream);
    }
  }

  /** In every run of the whole gateway each stream's monitor goes through the run of the single-monitor model in
      which it observes what the gateway did, with the registry's session entry as its last reply. */
  lemma {:induction false} MonitorsFollowTheGateway(start: int, steps: seq<Step>, stream: nat)
    requires Exists(start, steps, stream)
    ensures MonitorOf(Exec(start, steps), stream)
            == H.Exec(Born(start, steps, stream), 0, Observed(start, steps, stream))
  {
    var front, last := steps[..|steps| - 1], steps[|steps| - 1];
    var s := Exec(start, front);
    if Exists(start, front, stream) {
      MonitorsFollowTheGateway(start, front, stream);
      TicksAheadReachable(start, front);
      MonitorStep(s, last, stream);
      ExecSeen(Born(start, front, stream), 0, Observed(start, front, stream), Seen(s, last, stream));
    } else {
      assert last.Gate? && last.step.Connect?;
    }
  }

  // ---------------------------------------------------------------- the two histories agree

  /** What happened at the gateway in a run, without the monitors and the clock. */
  ghost function Gates(start: int, steps: seq<Step>): seq<G.Step> {
    if steps == [] then [] else
    var front, last := steps[..|steps| - 1], steps[|steps| - 1];
    Gates(start, front) + if last.Gate? && Enabled(Exec(start, front), last) then [last.step] else []
  }

  /** The registries of the system go through a run of the gateway by itself. */
  lemma {:induction false} RunOfGateway(start: int, steps: seq<Step>)
    ensures Exec(start, steps).run == G.Exec(Gates(start, steps))
  {
    if steps != [] {
      var front, last := steps[..|steps| - 1], steps[|steps| - 1];
      var before := Gates(start, front);
      RunOfGateway(start, front);
      if last.Gate? && Enabled(Exec(start, front), last) {
        assert (before + [last.step])[..|before|] == before;
      } else {
        assert Gates(start, steps) == before;
      }
    }
  }

  /** The session entry that the gateway's history dictates is the one the monitor's own history dictates. */
  lemma {:induction false} HistoriesAgree(start: int, steps: seq<Step>, stream: nat)
    requires Exists(start, steps, stream)
    ensures var s, born, seen := Exec(start, steps), Born(start, steps, stream), Observed(start, steps, stream);
            G.SessionOf(Gates(start, steps), s.run.streams[stream].signer)
            == if H.ForgottenSince(born, 0, seen).Some? then None else Some(H.LastReply(born, 0, seen))
  {
    var s := Exec(start, steps);
    RunOfGateway(start, steps);
    G.SessionsFollowHistory(Gates(start, steps), s.run.streams[stream].signer);
    MonitorsFollowTheGateway(start, steps, stream);
    H.Reachable(Born(start, steps, stream), 0, Observed(start, steps, stream));
  }

  // ---------------------------------------------------------------- what a client of the gateway can rely on

  /** In every run of the gateway, a stream's tick closes it exactly if by the gateway's history its key has no session
      entry or one more than 180 seconds old. */
  lemma {:induction false} TickClosesIff(start: int, steps: seq<Step>, stream: nat, writeOk: bool)
    requires Exists(start, steps, stream) && Enabled(Exec(start, steps), Fire(stream, writeOk))
    ensures var s, s' := Exec(start, steps), Apply(Exec(start, steps), Fire(stream, writeOk));
            var entry := G.SessionOf(Gates(start, steps), s.run.streams[stream].signer);
            s'.watches[stream].status == H.Closed <==> entry.None? || s.clock - entry.value > 180
  {
    RunOfGateway(start, steps);
    G.SessionsFollowHistory(Gates(start, steps), Exec(start, steps).run.streams[stream].signer);
  }

  /** A key's last entry being more than 300 seconds old and the stream past its first tick, or the key having had no
      entry for more than 120 seconds, the stream's monitor has closed it, or has noticed that its read loop is over,
      or could not write a challenge. */
  lemma {:induction false} SilentStreamIsClosed(start: int, steps: seq<Step>, stream: nat)
    requires Exists(start, steps, stream)
    requires var s, born, seen := Exec(start, steps), Born(start, steps, stream), Observed(start, steps, stream);
             match G.SessionOf(Gates(start, steps), s.run.streams[stream].signer)
             case Some(at) => s.clock > H.Deadline(born, 0, at)
             case None => H.ForgottenSince(born, 0, seen).Some? ==> s.clock > H.ForgottenSince(born, 0, seen).value + 120
    ensures var status := Exec(start, steps).watches[stream].status;
            status == H.Closed || (status == H.Gone && H.Left(Observed(start, steps, stream)))
  {
    HistoriesAgree(start, steps, stream);
    MonitorsFollowTheGateway(start, steps, stream);
    H.SilentStreamIsClosed(Born(start, steps, stream), 0, Observed(start, steps, stream));
  }

  /** A read fails on a stream of the same key. */
  ghost predicate KeyReadFails(s: System, step: Step, stream: nat)
    requires stream < |s.run.streams|
  {
    && step.Gate? && step.step.FailRead? && Enabled(s, step)
    && s.run.streams[step.step.stream].signer == s.run.streams[stream].signer
  }

  /** No read of a stream of this key has failed since this stream was set up. */
  ghost predicate NoReadFailedSince(start: int, steps: seq<Step>, stream: nat) {
    forall k: nat :: k < |steps| && Exists(start, steps[..k], stream) ==>
      !KeyReadFails(Exec(start, steps[..k]), steps[k], stream)
  }

  /** Only such a read removes the entry. */
  lemma {:induction false} NothingForgotten(start: int, steps: seq<Step>, stream: nat)
    requires Exists(start, steps, stream) && NoReadFailedSince(start, steps, stream)
    ensures H.Forget !in Observed(start, steps, stream)
  {
    var front := steps[..|steps| - 1];
    if Exists(start, front, stream) {
      NoReadFailedBefore(start, steps, stream);
      NothingForgotten(start, front, stream);
    }
  }

  lemma NoReadFailedBefore(start: int, steps: seq<Step>, stream: nat)
    requires steps != [] && NoReadFailedSince(start, steps, stream) && Exists(start, steps[..|steps| - 1], stream)
    ensures NoReadFailedSince(start, steps[..|steps| - 1], stream)
    ensures H.Forget !in Seen(Exec(start, steps[..|steps| - 1]), steps[|steps| - 1], stream)
  {
    var front, last := steps[..|steps| - 1], steps[|steps| - 1];
    assert !KeyReadFails(Exec(start, front), last, stream);
    assert forall k: nat :: k < |front| ==> front[..k] == steps[..k];
  }

  lemma {:induction false} NeverForgotten(start: int, delay: nat, steps: seq<H.Step>)
    requires H.Forget !in steps
    ensures H.ForgottenSince(start, delay, steps).None?
  {
    if steps != [] {
      NeverForgotten(start, delay, steps[..|steps| - 1]);
    }
  }

  /** A stream with replies at most 180 seconds apart, and the next one not overdue, has not been closed by its
      monitor, whatever the rest of the gateway does, as long as no read of a stream of its key has failed since it
      was set up. Earlier streams of the key, and other ones now, do no harm. */
  lemma {:induction false} RegularStreamStaysOpen(start: int, steps: seq<Step>, stream: nat)
    requires Exists(start, steps, stream) && NoReadFailedSince(start, steps, stream)
    requires H.Regular(Born(start, steps, stream), 0, Observed(start, steps, stream))
    requires var s := Exec(start, steps);
             var entry := G.SessionOf(Gates(start, steps), s.run.streams[stream].signer);
             entry.Some? && s.clock - entry.value <= 180
    ensures Exec(start, steps).watches[stream].status != H.Closed
  {
    var born, seen := Born(start, steps, stream), Observed(start, steps, stream);
    HistoriesAgree(start, steps, stream);
    MonitorsFollowTheGateway(start, steps, stream);
    NothingForgotten(start, steps, stream);
    forall k: nat | k < |seen| && seen[k].Tick? ensures H.ForgottenSince(born, 0, seen[..k]).None? {
      NeverForgotten(born, 0, seen[..k]);
    }
    H.RegularStreamStaysOpen(born, 0, seen);
  }

  /** Once a stream's read loop is over its monitor can return at once, and then never closes the stream. */
  lemma {:induction false} MonitorReturnsAfterLoop(start: int, steps: seq<Step>, stream: nat, more: seq<Step>)
    requires Watching(Exec(start, steps), stream) && !G.IsOpen(Exec(start, steps).run, stream)
    ensures var s := Exec(start, steps + [Notice(stream)] + more);
            stream < |s.watches| && s.watches[stream].status == H.Gone
    decreases |more|
  {
    var noticed := steps + [Notice(stream)];
    if more == [] {
      assert noticed + more == noticed && noticed[..|steps|] == steps;
    } else {
      var front, last := more[..|more| - 1], more[|more| - 1];
      MonitorReturnsAfterLoop(start, steps, stream, front);
      assert noticed + more == noticed + front + [last];
      var all := After(start, noticed + front, last);
      GoneStays(Exec(start, noticed + front), last, stream);
    }
  }

  lemma GoneStays(s: System, step: Step, stream: nat)
    requires |s.watches| == |s.run.streams| && stream < |s.watches| && s.watches[stream].status == H.Gone
    ensures stream < |Apply(s, step).watches| && Apply(s, step).watches[stream].status == H.Gone
  {
  }

  // ---------------------------------------------------------------- hosts of closed streams

  /** The gateway has closed the stream: on leaving its read loop, or from its monitor while the loop may still read. */
  predicate IsClosed(s: System, stream: nat)
    requires |s.watches| == |s.run.streams|
  {
    stream < |s.run.streams| && (!G.IsOpen(s.run, stream) || s.watches[stream].status == H.Closed)
  }

  /** The stream asked a tunnel manager for a tunnel. */
  ghost predicate AskedForTunnel(start: int, steps: seq<Step>, stream: nat) {
    exists k: nat :: G.BoundAt(Gates(start, steps), stream, k)
  }

  /** A tick of the stream's monitor, while it was watching, was overdue by the history. */
  ghost predicate FoundOverdue(start: int, steps: seq<Step>, stream: nat) {
    Exists(start, steps, stream)
    && exists k: nat :: H.ClosedAt(Born(start, steps, stream), 0, Observed(start, steps, stream), k)
  }

  /** When a host is mapped to a closed stream, in every run: exactly when it is the latest registrant, its
      entries have not been cleared since, and it asked a tunnel manager for a tunnel or was found overdue by its monitor. */
  lemma {:induction false} HostMappedToClosedStreamIff(start: int, steps: seq<Step>, host: string, peer: HostPeer)
    ensures var s := Exec(start, steps);
            (G.Host(s.run.state, host) == Some(peer) && IsClosed(s, peer.stream))
            <==> (&& G.HostOf(Gates(start, steps), host) == Some(peer)
                  && (AskedForTunnel(start, steps, peer.stream) || FoundOverdue(start, steps, peer.stream)))
  {
    var s, gates := Exec(start, steps), Gates(start, steps);
    RunOfGateway(start, steps);
    G.HostsFollowHistory(gates, host);
    G.HostMappedAfterLeavingIff(gates, host, peer);
    G.EntriesPointToSurvivingStreams(gates);
    if G.Host(s.run.state, host) == Some(peer) {
      MonitorsFollowTheGateway(start, steps, peer.stream);
      H.StatusFollowsHistory(Born(start, steps, peer.stream), 0, Observed(start, steps, peer.stream));
    }
  }

  /** One stream, open, with its session entry from time 0 and its host registered. */
  ghost predicate OneHost(s: System, signer: Signer, host: string, clock: int, watch: Watch) {
    && s.clock == clock && s.watches == [watch]
    && s.run.streams == [G.Stream(signer, G.Open)]
    && signer in s.run.state.sessions && s.run.state.sessions[signer] == 0
    && host in s.run.state.hosts && s.run.state.hosts[host] == HostPeer(0, signer)
  }

  lemma RegisterFirst(signer: Signer, host: string, permits: (string, string) -> bool) returns (steps: seq<Step>)
    requires host != ""
    ensures OneHost(Exec(0, steps), signer, host, 0, Watch(120, H.Watching))
  {
    var env := Environment(Absent, None, permits, false, false, false, 0, "");
    var connected := ConnectFirst(signer);
    var s := Exec(0, connected);
    G.RegisterMeans(s.run, 0, host, env);
    steps := After(0, connected, Gate(G.Register(0, host, env)));
    assert Enabled(s, Gate(G.Register(0, host, env)));
  }

  lemma ConnectFirst(signer: Signer) returns (steps: seq<Step>)
    ensures Exec(0, steps)
            == System(G.Run(EMPTY.(sessions := map[signer := 0]), [G.Stream(signer, G.Open)]), 0, [Watch(120, H.Watching)])
  {
    steps := After(0, [], Gate(G.Connect(signer, 0)));
    assert Exec(0, []) == System(G.NOTHING, 0, []);
    assert Enabled(Exec(0, []), Gate(G.Connect(signer, 0)));
  }

  /** Time passes until the tick that is due, and the ticker fires. */
  lemma WaitAndFire(steps: seq<Step>, signer: Signer, host: string, clock: int, due: int) returns (more: seq<Step>)
    requires OneHost(Exec(0, steps), signer, host, clock, Watch(due, H.Watching)) && clock <= due
    ensures OneHost(Exec(0, more), signer, host, due,
                    if due > 180 then Watch(due, H.Closed) else Watch(due + 120, H.Watching))
  {
    var waited := After(0, steps, Advance(due));
    assert Enabled(Exec(0, steps), Advance(due));
    assert OneHost(Exec(0, waited), signer, host, due, Watch(due, H.Watching));
    more := After(0, waited, Fire(0, true));
  }

  /** The monitor's way is real: of a client that registers a host and then stays silent the stream is closed at the
      second tick, with its read loop still open, and the host stays mapped to it. */
  lemma SilentHostStaysMapped(signer: Signer, host: string, permits: (string, string) -> bool) returns (steps: seq<Step>)
    requires host != ""
    ensures var s := Exec(0, steps);
            && host in s.run.state.hosts && s.run.state.hosts[host] == HostPeer(0, signer)
            && IsClosed(s, 0) && G.IsOpen(s.run, 0)
  {
    var registered := RegisterFirst(signer, host, permits);
    var once := WaitAndFire(registered, signer, host, 0, 120);
    steps := WaitAndFire(once, signer, host, 120, 240);
  }

  lemma After(start: int, steps: seq<Step>, step: Step) returns (more: seq<Step>)
    ensures more == steps + [step] && Exec(start, more) == Apply(Exec(start, steps), step)
  {
    more := steps + [step];
    assert more[..|steps|] == steps;
  }
}
