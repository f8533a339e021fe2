/** What the gossip mesh does for its callers: which handlers run, on what, and that published envelopes get there. */
module GossipDelivery {
  import opened Common
  import opened Gossip
  import opened GossipMesh
  import opened GossipCache

  // ---------------------------------------------------------------- histories of registrations and publications

  ghost predicate WasRegistered(steps: seq<Step>, n: nat, serviceId: string) {
    exists i :: 0 <= i < |steps| && steps[i] == DoRegister(n, serviceId)
  }

  ghost predicate WasPublished(steps: seq<Step>, n: nat, env: Envelope) {
    exists i :: 0 <= i < |steps| && steps[i] == DoPublish(n, env.id, env.serviceId, env.payload, env.signature)
  }

  lemma HistorySnoc(steps: seq<Step>, n: nat, serviceId: string)
    requires steps != []
    ensures WasRegistered(steps, n, serviceId)
            <==> WasRegistered(steps[..|steps| - 1], n, serviceId) || steps[|steps| - 1] == DoRegister(n, serviceId)
  {
    var front := steps[..|steps| - 1];
    if WasRegistered(front, n, serviceId) {
      var i :| 0 <= i < |front| && front[i] == DoRegister(n, serviceId);
      assert steps[i] == front[i];
    }
    if WasRegistered(steps, n, serviceId) {
      var i :| 0 <= i < |steps| && steps[i] == DoRegister(n, serviceId);
      assert i < |front| ==> front[i] == steps[i];
    }
  }

  lemma {:induction false} ServicesFollowHistory(size: nat, time: int, steps: seq<Step>, n: nat, serviceId: string)
    requires n < size
    ensures serviceId in Exec(size, time, steps).nodes[n].services <==> WasRegistered(steps, n, serviceId)
  {
    if steps != [] {
      ServicesFollowHistory(size, time, steps[..|steps| - 1], n, serviceId);
      HistorySnoc(steps, n, serviceId);
    }
  }

  ghost predicate EventsWerePublished(ev: seq<Event>, steps: seq<Step>) {
    forall j :: 0 <= j < |ev| ==>
      match ev[j]
      case Published(n, env, _) => WasPublished(steps, n, env)
      case Accepted(_, env, _, origin, _) => origin < j && ev[origin].Published? && ev[origin].env == env
  }

  lemma PublishedStays(steps: seq<Step>, n: nat, env: Envelope)
    requires steps != [] && WasPublished(steps[..|steps| - 1], n, env)
    ensures WasPublished(steps, n, env)
  {
    var front := steps[..|steps| - 1];
    var i :| 0 <= i < |front| && front[i] == DoPublish(n, env.id, env.serviceId, env.payload, env.signature);
    assert steps[i] == front[i];
  }

  lemma {:induction false} EventsReachable(size: nat, time: int, steps: seq<Step>)
    ensures EventsWerePublished(Exec(size, time, steps).events, steps)
  {
    if steps != [] {
      var front, last := steps[..|steps| - 1], steps[|steps| - 1];
      var ev, ev' := Exec(size, time, front).events, Exec(size, time, steps).events;
      EventsReachable(size, time, front);
      EventsGrow(Exec(size, time, front), last);
      forall j | 0 <= j < |ev'| && ev'[j].Published? ensures WasPublished(steps, ev'[j].node, ev'[j].env) {
        if j < |ev| {
          PublishedStays(steps, ev[j].node, ev[j].env);
        } else {
          assert last == steps[|steps| - 1];
        }
      }
    }
  }

  // ---------------------------------------------------------------- what a step does, by the history

  lemma ExecSnoc(size: nat, time: int, steps: seq<Step>, step: Step)
    ensures Exec(size, time, steps + [step]) == Apply(Exec(size, time, steps), step)
  {
    assert (steps + [step])[..|steps|] == steps;
  }

  /** A dispatch takes its envelope off the list and calls the handler exactly if the service was registered at that
      node before. */
  lemma {:induction false} DispatchCallsIff(size: nat, time: int, steps: seq<Step>, k: nat)
    requires k < |Exec(size, time, steps).tasks| && Exec(size, time, steps).tasks[k].verified
    requires Exec(size, time, steps).tasks[k].node < size
    ensures var m, m' := Exec(size, time, steps), Exec(size, time, steps + [DoDispatch(k)]);
            var t := m.tasks[k];
            && m'.tasks == m.tasks[..k] + m.tasks[k + 1..]
            && |m'.outcomes| == |m.outcomes| + 1 && m.outcomes <= m'.outcomes
            && var o := m'.outcomes[|m.outcomes|];
               && o.event == t.event && o.node == t.node && o.env == t.env
               && (o.verdict == Called <==> WasRegistered(steps, t.node, t.env.serviceId))
               && (o.verdict == Unhandled <==> !WasRegistered(steps, t.node, t.env.serviceId))
  {
    var t := Exec(size, time, steps).tasks[k];
    ExecSnoc(size, time, steps, DoDispatch(k));
    ServicesFollowHistory(size, time, steps, t.node, t.env.serviceId);
  }

  /** An envelope is accepted exactly if its node never accepted its identifier or did so an hour ago or more; then it
      is underway once, unchanged, and otherwise nothing happens but the passing of time. Times are in nanoseconds. */
  lemma {:induction false} IngressAcceptsIff(size: nat, time: int, steps: seq<Step>, n: nat, origin: nat, now: int, stamp: int)
    requires n < size && Exec(size, time, steps).times[n] <= now <= stamp
    requires origin < |Exec(size, time, steps).events| && Exec(size, time, steps).events[origin].Published?
    ensures var m, m' := Exec(size, time, steps), Exec(size, time, steps + [DoIngress(n, origin, now, stamp)]);
            var env := m.events[origin].env;
            var accepted := Stamps(m.events, n, env.id);
            if accepted == [] || now - accepted[|accepted| - 1] >= 3_600_000_000_000 then
              && |m'.events| == |m.events| + 1 && m.events <= m'.events
              && (var e := m'.events[|m.events|];
                  e.Accepted? && e.node == n && e.env == env && e.origin == origin && e.stamp == stamp)
              && m'.tasks == m.tasks + [Task(|m.events|, n, env, false)] && m'.outcomes == m.outcomes
            else m'.events == m.events && m'.tasks == m.tasks && m'.outcomes == m.outcomes
  {
    ExecSnoc(size, time, steps, DoIngress(n, origin, now, stamp));
    PrunedCacheDecidesLikeFullHistory(size, time, steps, n, Exec(size, time, steps).events[origin].env.id, now);
  }

  // ---------------------------------------------------------------- delivery

  /** What HandleIngress comes to for an admitted envelope, by the history. */
  ghost function VerdictFor(steps: seq<Step>, n: nat, serviceId: string, accepts: bool): Verdict {
    if !accepts then Rejected else if WasRegistered(steps, n, serviceId) then Called else Unhandled
  }

  /** The steps of one uninterrupted ingress. */
  function Ingress(n: nat, origin: nat, now: int, stamp: int, task: nat, accepts: bool): seq<Step> {
    [DoIngress(n, origin, now, stamp), DoVerify(task, accepts)] + if accepts then [DoDispatch(task)] else []
  }

  lemma NewTask(m: Mesh, tasks: seq<Task>, t: Task)
    requires m.tasks == tasks + [t] && !t.verified && |m.times| == |m.nodes|
    ensures var v := Apply(m, DoVerify(|tasks|, true)); v.tasks == tasks + [t.(verified := true)] && v.outcomes == m.outcomes
    ensures var r := Apply(m, DoVerify(|tasks|, false));
            r.tasks == tasks && r.outcomes == m.outcomes + [Outcome(t.event, t.node, t.env, Rejected)]
  {
  }

  /** The verdict of a run's newest task, whose envelope the data engine is now asked about. */
  lemma {:induction false} TaskCompletes(size: nat, time: int, steps: seq<Step>, tasks: seq<Task>, t: Task, accepts: bool)
    requires Exec(size, time, steps).tasks == tasks + [t] && !t.verified && t.node < size
    ensures var m := Exec(size, time, steps);
            var m' := Exec(size, time, steps + [DoVerify(|tasks|, accepts)] + if accepts then [DoDispatch(|tasks|)] else []);
            && m'.tasks == tasks
            && m'.outcomes == m.outcomes + [Outcome(t.event, t.node, t.env, VerdictFor(steps, t.node, t.env.serviceId, accepts))]
  {
    var m, k, asked := Exec(size, time, steps), |tasks|, steps + [DoVerify(|tasks|, accepts)];
    ExecSnoc(size, time, steps, DoVerify(k, accepts));
    NewTask(m, tasks, t);
    if accepts {
      DispatchCallsIff(size, time, asked, k);
      RegisteredAfter(steps, [DoVerify(k, true)], t.node, t.env.serviceId);
      var m' := Exec(size, time, asked + [DoDispatch(k)]);
      assert m'.outcomes == m.outcomes + [m'.outcomes[|m.outcomes|]];
    } else {
      assert asked + [] == asked;
    }
  }

  lemma RegisteredAfter(steps: seq<Step>, more: seq<Step>, n: nat, serviceId: string)
    requires forall k :: 0 <= k < |more| ==> !more[k].DoRegister?
    ensures WasRegistered(steps + more, n, serviceId) <==> WasRegistered(steps, n, serviceId)
  {
    var all := steps + more;
    if WasRegistered(steps, n, serviceId) {
      var i :| 0 <= i < |steps| && steps[i] == DoRegister(n, serviceId);
      assert all[i] == steps[i];
    }
    if WasRegistered(all, n, serviceId) {
      var i :| 0 <= i < |all| && all[i] == DoRegister(n, serviceId);
      assert i >= |steps| ==> all[i] == more[i - |steps|];
    }
  }

  /** In every reachable state, an ingress that the duplicate history admits, run without interruption, ends with
      exactly one more outcome, that of HandleIngress: refused if the data engine refuses, called if a handler was
      registered at the node for the envelope's service, unhandled otherwise; and what the handler gets is the
      published envelope. */
  lemma {:induction false} IngressCompletes(size: nat, time: int, steps: seq<Step>, n: nat, origin: nat, now: int, stamp: int,
                                            accepts: bool)
    requires n < size && Exec(size, time, steps).times[n] <= now <= stamp
    requires origin < |Exec(size, time, steps).events| && Exec(size, time, steps).events[origin].Published?
    requires FullHistoryAdmits(Stamps(Exec(size, time, steps).events, n, Exec(size, time, steps).events[origin].env.id), now)
    ensures var m := Exec(size, time, steps);
            var m' := Exec(size, time, steps + Ingress(n, origin, now, stamp, |m.tasks|, accepts));
            var env := m.events[origin].env;
            && m'.tasks == m.tasks
            && m'.outcomes == m.outcomes + [Outcome(|m.events|, n, env, VerdictFor(steps, n, env.serviceId, accepts))]
  {
    var m := Exec(size, time, steps);
    var k, env, ingress := |m.tasks|, m.events[origin].env, DoIngress(n, origin, now, stamp);
    IngressAcceptsIff(size, time, steps, n, origin, now, stamp);
    TaskCompletes(size, time, steps + [ingress], m.tasks, Task(|m.events|, n, env, false), accepts);
    RegisteredAfter(steps, [ingress], n, env.serviceId);
    assert steps + Ingress(n, origin, now, stamp, k, accepts)
           == steps + [ingress] + [DoVerify(k, accepts)] + if accepts then [DoDispatch(k)] else [];
  }

  /** A publication adds the caller's own fields under the clock value it was given, and nothing else. */
  lemma {:induction false} PublishAdds(size: nat, time: int, steps: seq<Step>, n: nat, env: Envelope)
    requires n < size
    ensures var m := Exec(size, time, steps);
            var m' := Exec(size, time, steps + [DoPublish(n, env.id, env.serviceId, env.payload, env.signature)]);
            var clock := (m.nodes[n].lamport + 1) % 0x1_0000_0000_0000_0000;
            && m'.events == m.events + [Published(n, env.(lamport := clock), clock)]
            && m'.tasks == m.tasks && m'.outcomes == m.outcomes && m'.times == m.times
  {
    ExecSnoc(size, time, steps, DoPublish(n, env.id, env.serviceId, env.payload, env.signature));
  }

  /** Publication reaches handlers: from every reachable state, an envelope published at one node under an identifier
      another node never accepted, once it arrives there, is handed to that node's handler for its service if one was
      registered and the data engine accepts, with the publisher's identifier, payload and signature. */
  lemma {:induction false} PublicationReachesHandler(size: nat, time: int, steps: seq<Step>, a: nat, b: nat, env: Envelope,
                                                     now: int, stamp: int)
    requires a < size && b < size && Exec(size, time, steps).times[b] <= now <= stamp
    requires WasRegistered(steps, b, env.serviceId)
    requires Stamps(Exec(size, time, steps).events, b, env.id) == []
    ensures var m := Exec(size, time, steps);
            var publish := DoPublish(a, env.id, env.serviceId, env.payload, env.signature);
            var m' := Exec(size, time, steps + [publish] + Ingress(b, |m.events|, now, stamp, |m.tasks|, true));
            && |m'.outcomes| == |m.outcomes| + 1 && m.outcomes <= m'.outcomes
            && var o := m'.outcomes[|m.outcomes|];
               && o.verdict == Called && o.node == b && o.env.id == env.id && o.env.serviceId == env.serviceId
               && o.env.payload == env.payload && o.env.signature == env.signature
  {
    var m := Exec(size, time, steps);
    var publish := DoPublish(a, env.id, env.serviceId, env.payload, env.signature);
    PublishAdds(size, time, steps, a, env);
    StampsSnoc(m.events, Exec(size, time, steps + [publish]).events[|m.events|], b, env.id);
    IngressCompletes(size, time, steps + [publish], b, |m.events|, now, stamp, true);
    RegisteredAfter(steps, [publish], b, env.serviceId);
  }

  /** Conversely, in every run, a handler ran only for a service registered at its node, and only on an envelope whose
      fields some node published; the same envelope may have been refused or unhandled elsewhere. */
  lemma {:induction false} HandlersGetWhatWasPublished(size: nat, time: int, steps: seq<Step>, o: Outcome)
    requires o in Exec(size, time, steps).outcomes
    ensures exists a :: WasPublished(steps, a, o.env)
    ensures o.verdict == Called ==> WasRegistered(steps, o.node, o.env.serviceId)
  {
    var ev := Exec(size, time, steps).events;
    OfItsEventReachable(size, time, steps);
    EventsReachable(size, time, steps);
    assert IsAcceptance(ev, o.event) && ev[o.event].env == o.env;
    var e := ev[ev[o.event].origin];
    assert e.Published? && WasPublished(steps, e.node, e.env);
    if o.verdict == Called {
      ServicesFollowHistory(size, time, steps, o.node, o.env.serviceId);
    }
  }
}
