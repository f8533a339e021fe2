/** The time-windowed duplicate filter in every run of the gossip mesh: what pruning changes (nothing), how
    often one identifier gets through, what becomes of each acceptance, and how large the cache grows. */
module GossipCache {
  import opened Common
  import opened Gossip
  import opened GossipMesh

  predicate IsAcceptOf(e: Event, n: nat, id: string) {
    e.Accepted? && e.node == n && e.env.id == id
  }

  /** The times at which node n accepted identifier id, in order. */
  function Stamps(ev: seq<Event>, n: nat, id: string): seq<int> {
    if ev == [] then [] else
    var e := ev[|ev| - 1];
    Stamps(ev[..|ev| - 1], n, id) + if IsAcceptOf(e, n, id) then [e.stamp] else []
  }

  lemma StampsSnoc(ev: seq<Event>, e: Event, n: nat, id: string)
    ensures Stamps(ev + [e], n, id) == Stamps(ev, n, id) + if IsAcceptOf(e, n, id) then [e.stamp] else []
  {
    assert (ev + [e])[..|ev|] == ev;
  }

  ghost predicate Spaced(s: seq<int>) {
    forall i, j :: 0 <= i < j < |s| ==> s[j] - s[i] >= HOUR
  }

  function Last(s: seq<int>): int
    requires s != []
  {
    s[|s| - 1]
  }

  /** A cache that never forgets admits id exactly when it was never accepted or last accepted an hour ago or more. */
  predicate FullHistoryAdmits(accepted: seq<int>, now: int) {
    accepted == [] || now - Last(accepted) >= HOUR
  }

  /** How the cache entry for id stands to the whole history s of its acceptances, at the given time. */
  ghost predicate EntryOk(s: seq<int>, seen: map<string, int>, id: string, time: int) {
    && Spaced(s)
    && (s != [] ==> Last(s) <= time)
    && (id in seen ==> s != [] && Last(s) == seen[id])
    && (id !in seen && s != [] ==> time - Last(s) > HOUR)
  }

  ghost predicate CacheAt(m: Mesh, n: nat, id: string) {
    && |m.times| == |m.nodes| && n < |m.nodes|
    && EntryOk(Stamps(m.events, n, id), m.nodes[n].seen, id, m.times[n])
  }

  lemma SpacedSnoc(s: seq<int>, x: int)
    requires Spaced(s) && (s != [] ==> x - Last(s) >= HOUR)
    ensures Spaced(s + [x])
  {
    var t := s + [x];
    forall i, j | 0 <= i < j < |t| ensures t[j] - t[i] >= HOUR {
      if j == |s| && i < |s| - 1 {
        assert s[|s| - 1] - s[i] >= HOUR;
      }
    }
  }

  lemma EntryAccepted(s: seq<int>, n: Node, env: Envelope, time: int, now: int, stamp: int)
    requires EntryOk(s, n.seen, env.id, time) && time <= now <= stamp && Admits(n, env.id, now)
    ensures EntryOk(s + [stamp], Accept(n, env, stamp).seen, env.id, stamp)
  {
    SpacedSnoc(s, stamp);
  }

  lemma EntryPruned(s: seq<int>, seen: map<string, int>, id: string, time: int, now: int)
    requires EntryOk(s, seen, id, time) && time <= now
    ensures EntryOk(s, Prune(seen, now), id, now)
  {
  }

  lemma {:induction false} CacheIngress(m: Mesh, step: Step, n: nat, id: string)
    requires CacheAt(m, n, id) && step.DoIngress? && Enabled(m, step)
    requires Admits(m.nodes[step.n], m.events[step.origin].env.id, step.now)
    ensures CacheAt(Apply(m, step), n, id)
  {
    var env := m.events[step.origin].env;
    var m' := Apply(m, step);
    StampsSnoc(m.events, m'.events[|m.events|], n, id);
    if step.n == n && env.id == id {
      EntryAccepted(Stamps(m.events, n, id), m.nodes[n], env, m.times[n], step.now, step.stamp);
    }
  }

  lemma CacheFrame(m: Mesh, m': Mesh, n: nat, id: string)
    requires CacheAt(m, n, id) && |m'.times| == |m'.nodes| == |m.nodes|
    requires Stamps(m'.events, n, id) == Stamps(m.events, n, id)
    requires m'.nodes[n].seen == m.nodes[n].seen && m'.times[n] >= m.times[n]
    ensures CacheAt(m', n, id)
  {
  }

  lemma CacheCleanup(m: Mesh, step: Step, n: nat, id: string)
    requires CacheAt(m, n, id) && step.DoCleanup? && Enabled(m, step)
    ensures CacheAt(Apply(m, step), n, id)
  {
    if step.n == n {
      EntryPruned(Stamps(m.events, n, id), m.nodes[n].seen, id, m.times[n], step.now);
    }
  }

  lemma CachePublish(m: Mesh, step: Step, n: nat, id: string)
    requires CacheAt(m, n, id) && step.DoPublish? && Enabled(m, step)
    ensures CacheAt(Apply(m, step), n, id)
  {
    var m' := Apply(m, step);
    StampsSnoc(m.events, m'.events[|m.events|], n, id);
    CacheFrame(m, m', n, id);
  }

  lemma CacheOther(m: Mesh, step: Step, n: nat, id: string)
    requires CacheAt(m, n, id) && Enabled(m, step) && Apply(m, step).events == m.events && !step.DoCleanup?
    ensures CacheAt(Apply(m, step), n, id)
  {
    CacheFrame(m, Apply(m, step), n, id);
  }

  lemma CacheStep(m: Mesh, step: Step, n: nat, id: string)
    requires CacheAt(m, n, id)
    ensures CacheAt(Apply(m, step), n, id)
  {
    if Enabled(m, step) {
      if step.DoCleanup? {
        CacheCleanup(m, step, n, id);
      } else if step.DoPublish? {
        CachePublish(m, step, n, id);
      } else if step.DoIngress? && Admits(m.nodes[step.n], m.events[step.origin].env.id, step.now) {
        CacheIngress(m, step, n, id);
      } else {
        CacheOther(m, step, n, id);
      }
    }
  }

  lemma {:induction false} CacheReachable(size: nat, time: int, steps: seq<Step>, n: nat, id: string)
    requires n < size
    ensures CacheAt(Exec(size, time, steps), n, id)
  {
    if steps != [] {
      CacheReachable(size, time, steps[..|steps| - 1], n, id);
      CacheStep(Exec(size, time, steps[..|steps| - 1]), steps[|steps| - 1], n, id);
    }
  }

  /** In every run, however cleanups are interleaved, the next decision on any identifier is the one the
      whole acceptance history dictates. */
  lemma {:induction false} PrunedCacheDecidesLikeFullHistory(size: nat, time: int, steps: seq<Step>, n: nat, id: string, now: int)
    requires n < size && Exec(size, time, steps).times[n] <= now
    ensures var m := Exec(size, time, steps);
            Admits(m.nodes[n], id, now) <==> FullHistoryAdmits(Stamps(m.events, n, id), now)
  {
    CacheReachable(size, time, steps, n, id);
  }

  // ---------------------------------------------------------------- pruning is invisible

  /** The steps of a run that took effect, without the cleanups. */
  function WithoutCleanups(size: nat, time: int, steps: seq<Step>): (r: seq<Step>)
    ensures forall k :: 0 <= k < |r| ==> !r[k].DoCleanup?
  {
    if steps == [] then [] else
    var front, last := steps[..|steps| - 1], steps[|steps| - 1];
    WithoutCleanups(size, time, front)
    + if last.DoCleanup? || !Enabled(Exec(size, time, front), last) then [] else [last]
  }

  /** Same node up to the pruned entries, each of which is older than an hour. */
  ghost predicate SameNode(p: Node, pruned: int, u: Node, unpruned: int) {
    && p.lamport == u.lamport && p.services == u.services && unpruned <= pruned
    && (forall id :: id in p.seen ==> id in u.seen && u.seen[id] == p.seen[id])
    && (forall id :: id in u.seen && id !in p.seen ==> pruned - u.seen[id] > HOUR)
    && (forall id :: id in u.seen ==> u.seen[id] <= pruned)
  }

  ghost predicate SameMesh(p: Mesh, u: Mesh) {
    && |p.times| == |p.nodes| == |u.nodes| == |u.times|
    && p.events == u.events && p.tasks == u.tasks && p.outcomes == u.outcomes
    && forall n :: 0 <= n < |p.nodes| ==> SameNode(p.nodes[n], p.times[n], u.nodes[n], u.times[n])
  }

  lemma SameIngress(p: Mesh, u: Mesh, step: Step)
    requires SameMesh(p, u) && step.DoIngress? && Enabled(p, step)
    ensures SameMesh(Apply(p, step), Apply(u, step))
  {
    var n, id := step.n, p.events[step.origin].env.id;
    assert SameNode(p.nodes[n], p.times[n], u.nodes[n], u.times[n]);
    assert Enabled(u, step);
    assert Admits(p.nodes[n], id, step.now) <==> Admits(u.nodes[n], id, step.now);
    var p', u' := Apply(p, step), Apply(u, step);
    forall k | 0 <= k < |p'.nodes| ensures SameNode(p'.nodes[k], p'.times[k], u'.nodes[k], u'.times[k]) {
      assert SameNode(p.nodes[k], p.times[k], u.nodes[k], u.times[k]);
    }
  }

  lemma SameStep(p: Mesh, u: Mesh, step: Step)
    requires SameMesh(p, u) && Enabled(p, step) && !step.DoCleanup?
    ensures SameMesh(Apply(p, step), Apply(u, step))
  {
    if step.DoIngress? {
      SameIngress(p, u, step);
    } else if step.DoPublish? || step.DoRegister? {
      assert SameNode(p.nodes[step.n], p.times[step.n], u.nodes[step.n], u.times[step.n]);
    } else {
      var node := p.tasks[step.task].node;
      assert step.DoDispatch? ==> SameNode(p.nodes[node], p.times[node], u.nodes[node], u.times[node]);
    }
  }

  lemma SameCleanup(p: Mesh, u: Mesh, step: Step)
    requires SameMesh(p, u) && step.DoCleanup?
    ensures SameMesh(Apply(p, step), u)
  {
    if Enabled(p, step) {
      assert SameNode(p.nodes[step.n], p.times[step.n], u.nodes[step.n], u.times[step.n]);
    }
  }

  lemma {:induction false} SameReachable(size: nat, time: int, steps: seq<Step>)
    ensures SameMesh(Exec(size, time, steps), Exec(size, time, WithoutCleanups(size, time, steps)))
  {
    if steps != [] {
      var front, last := steps[..|steps| - 1], steps[|steps| - 1];
      SameReachable(size, time, front);
      var p, kept := Exec(size, time, front), WithoutCleanups(size, time, front);
      assert kept + [] == kept;
      if last.DoCleanup? {
        SameCleanup(p, Exec(size, time, kept), last);
      } else if Enabled(p, last) {
        assert (kept + [last])[..|kept|] == kept;
        SameStep(p, Exec(size, time, kept), last);
      }
    }
  }

  /** The janitor is an optimisation and nothing more: leaving out every cleanup of a run changes no event,
      no clock, no task and no outcome. */
  lemma {:induction false} CleanupIsInvisible(size: nat, time: int, steps: seq<Step>)
    ensures var p, u := Exec(size, time, steps), Exec(size, time, WithoutCleanups(size, time, steps));
            && p.events == u.events && p.tasks == u.tasks && p.outcomes == u.outcomes
            && forall n :: 0 <= n < size ==> p.nodes[n].lamport == u.nodes[n].lamport
  {
    SameReachable(size, time, steps);
    var p, u := Exec(size, time, steps), Exec(size, time, WithoutCleanups(size, time, steps));
    forall n | 0 <= n < size ensures p.nodes[n].lamport == u.nodes[n].lamport {
      assert SameNode(p.nodes[n], p.times[n], u.nodes[n], u.times[n]);
    }
  }

  // ---------------------------------------------------------------- how often one identifier gets through

  function CountBetween(s: seq<int>, lo: int, hi: int): nat {
    if s == [] then 0 else (if lo <= s[0] <= hi then 1 else 0) + CountBetween(s[1..], lo, hi)
  }

  lemma {:induction false} CountAfter(s: seq<int>, lo: int, lo': int, hi: int)
    requires lo <= lo' && forall k :: 0 <= k < |s| ==> s[k] >= lo'
    ensures CountBetween(s, lo, hi) == CountBetween(s, lo', hi)
    ensures lo' > hi ==> CountBetween(s, lo, hi) == 0
  {
    if s != [] {
      CountAfter(s[1..], lo, lo', hi);
    }
  }

  lemma {:induction false} SpacedCount(s: seq<int>, lo: int, hi: int)
    requires Spaced(s) && lo <= hi
    ensures CountBetween(s, lo, hi) <= (hi - lo) / HOUR + 1
    decreases |s|
  {
    if s != [] {
      assert Spaced(s[1..]) by {
        assert forall i, j :: 0 <= i < j < |s[1..]| ==> s[1..][j] - s[1..][i] == s[j + 1] - s[i + 1];
      }
      if lo <= s[0] <= hi {
        var next := s[0] + HOUR;
        CountAfter(s[1..], lo, next, hi);
        if next <= hi {
          SpacedCount(s[1..], next, hi);
          HourDiv(lo, s[0], hi);
        }
      } else {
        SpacedCount(s[1..], lo, hi);
      }
    }
  }

  lemma HourDiv(lo: int, x: int, hi: int)
    requires lo <= x && x + HOUR <= hi
    ensures (hi - (x + HOUR)) / HOUR + 1 <= (hi - lo) / HOUR
  {
    var a, b := hi - (x + HOUR), hi - lo;
    assert a + HOUR <= b;
    assert (a + HOUR) / HOUR == a / HOUR + 1;
  }

  /** Two acceptances of one identifier at one node are at least an hour apart, so a window of length T holds
      at most floor(T / 1h) + 1 of them. */
  lemma {:induction false} AcceptancesAreSpaced(size: nat, time: int, steps: seq<Step>, n: nat, id: string, from: int, length: nat)
    requires n < size
    ensures var s := Stamps(Exec(size, time, steps).events, n, id);
            Spaced(s) && CountBetween(s, from, from + length) <= length / HOUR + 1
  {
    CacheReachable(size, time, steps, n, id);
    SpacedCount(Stamps(Exec(size, time, steps).events, n, id), from, from + length);
  }

  // ---------------------------------------------------------------- what becomes of an acceptance

  function Count<T>(s: seq<T>, p: T -> bool): nat {
    if s == [] then 0 else Count(s[..|s| - 1], p) + if p(s[|s| - 1]) then 1 else 0
  }

  lemma CountSnoc<T>(s: seq<T>, x: T, p: T -> bool)
    ensures Count(s + [x], p) == Count(s, p) + if p(x) then 1 else 0
  {
    assert (s + [x])[..|s|] == s;
  }

  lemma {:induction false} CountRemove<T>(s: seq<T>, k: nat, p: T -> bool)
    requires k < |s|
    ensures Count(Remove(s, k), p) + (if p(s[k]) then 1 else 0) == Count(s, p)
  {
    var front, last := s[..|s| - 1], s[|s| - 1];
    if k == |s| - 1 {
      assert Remove(s, k) == front;
    } else {
      assert Remove(s, k) == Remove(front, k) + [last];
      CountSnoc(Remove(front, k), last, p);
      CountRemove(front, k, p);
    }
  }

  lemma {:induction false} CountUpdate<T>(s: seq<T>, k: nat, x: T, p: T -> bool)
    requires k < |s|
    ensures Count(s[k := x], p) + (if p(s[k]) then 1 else 0) == Count(s, p) + if p(x) then 1 else 0
  {
    var front, last := s[..|s| - 1], s[|s| - 1];
    if k == |s| - 1 {
      assert s[k := x][..|s| - 1] == front;
    } else {
      assert s[k := x][..|s| - 1] == front[k := x];
      CountUpdate(front, k, x, p);
    }
  }

  /** A choice of acceptances, by event index, node and envelope. */
  type Choice = (nat, nat, Envelope) -> bool

  function Accepts(ev: seq<Event>, q: Choice): nat {
    if ev == [] then 0 else
    var j: nat := |ev| - 1;
    Accepts(ev[..j], q) + if ev[j].Accepted? && q(j, ev[j].node, ev[j].env) then 1 else 0
  }

  function Underway(m: Mesh, q: Choice): nat {
    Count(m.tasks, (t: Task) => q(t.event, t.node, t.env))
  }

  function Finished(m: Mesh, q: Choice): nat {
    Count(m.outcomes, (o: Outcome) => q(o.event, o.node, o.env))
  }

  ghost predicate Conserved(m: Mesh, q: Choice) {
    Accepts(m.events, q) == Underway(m, q) + Finished(m, q)
  }

  lemma AcceptsSnoc(ev: seq<Event>, e: Event, q: Choice)
    ensures Accepts(ev + [e], q) == Accepts(ev, q) + if e.Accepted? && q(|ev|, e.node, e.env) then 1 else 0
  {
    assert (ev + [e])[..|ev|] == ev;
  }

  /** A task that leaves the list with an outcome. */
  lemma ConservedByOutcome(m: Mesh, m': Mesh, k: nat, verdict: Verdict, q: Choice)
    requires Conserved(m, q) && k < |m.tasks| && m'.events == m.events
    requires m'.tasks == Remove(m.tasks, k)
    requires m'.outcomes == m.outcomes + [Outcome(m.tasks[k].event, m.tasks[k].node, m.tasks[k].env, verdict)]
    ensures Conserved(m', q)
  {
    CountRemove(m.tasks, k, (t: Task) => q(t.event, t.node, t.env));
    CountSnoc(m.outcomes, m'.outcomes[|m.outcomes|], (o: Outcome) => q(o.event, o.node, o.env));
  }

  lemma ConservedByEvent(m: Mesh, step: Step, q: Choice)
    requires WellFormed(m) && Conserved(m, q) && Enabled(m, step) && (step.DoPublish? || step.DoIngress?)
    ensures Conserved(Apply(m, step), q)
  {
    var m' := Apply(m, step);
    if |m'.events| > |m.events| {
      AcceptsSnoc(m.events, m'.events[|m.events|], q);
      if step.DoIngress? {
        CountSnoc(m.tasks, m'.tasks[|m.tasks|], (t: Task) => q(t.event, t.node, t.env));
      }
    }
  }

  lemma ConservationStep(m: Mesh, step: Step, q: Choice)
    requires WellFormed(m) && Conserved(m, q)
    ensures Conserved(Apply(m, step), q)
  {
    var m' := Apply(m, step);
    if Enabled(m, step) {
      match step
      case DoVerify(k, true) => CountUpdate(m.tasks, k, m'.tasks[k], (t: Task) => q(t.event, t.node, t.env));
      case DoVerify(k, false) => ConservedByOutcome(m, m', k, Rejected, q);
      case DoDispatch(k) => ConservedByOutcome(m, m', k, m'.outcomes[|m.outcomes|].verdict, q);
      case DoPublish(_, _, _, _, _) => ConservedByEvent(m, step, q);
      case DoIngress(_, _, _, _) => ConservedByEvent(m, step, q);
      case _ =>
    }
  }

  lemma {:induction false} ConservedReachable(size: nat, time: int, steps: seq<Step>, q: Choice)
    ensures Conserved(Exec(size, time, steps), q)
  {
    if steps != [] {
      ConservedReachable(size, time, steps[..|steps| - 1], q);
      ConservationStep(Exec(size, time, steps[..|steps| - 1]), steps[|steps| - 1], q);
    }
  }

  predicate IsAcceptance(ev: seq<Event>, j: nat) {
    j < |ev| && ev[j].Accepted?
  }

  function OfEvent(j: nat): Choice {
    (event: nat, node: nat, env: Envelope) => event == j
  }

  function OfId(n: nat, id: string): Choice {
    (event: nat, node: nat, env: Envelope) => node == n && env.id == id
  }

  lemma {:induction false} AcceptsOfEvent(ev: seq<Event>, j: nat)
    ensures Accepts(ev, OfEvent(j)) == if IsAcceptance(ev, j) then 1 else 0
  {
    if ev != [] {
      AcceptsOfEvent(ev[..|ev| - 1], j);
    }
  }

  lemma {:induction false} AcceptsOfId(ev: seq<Event>, n: nat, id: string)
    ensures Accepts(ev, OfId(n, id)) == |Stamps(ev, n, id)|
  {
    if ev != [] {
      AcceptsOfId(ev[..|ev| - 1], n, id);
    }
  }

  /** What became of an acceptance is known by its event, and carries that event's node and envelope. */
  ghost predicate OfItsEvent(m: Mesh) {
    && |m.times| == |m.nodes|
    && (forall t :: t in m.tasks ==>
          IsAcceptance(m.events, t.event) && m.events[t.event].node == t.node && m.events[t.event].env == t.env)
    && (forall o :: o in m.outcomes ==>
          && IsAcceptance(m.events, o.event) && m.events[o.event].node == o.node && m.events[o.event].env == o.env
          && (o.verdict == Called ==> o.node < |m.nodes| && o.env.serviceId in m.nodes[o.node].services))
  }

  lemma OfItsEventTask(m: Mesh, step: Step, t: Task)
    requires OfItsEvent(m) && t in Apply(m, step).tasks
    ensures var ev := Apply(m, step).events; IsAcceptance(ev, t.event) && ev[t.event].node == t.node && ev[t.event].env == t.env
  {
    EventsGrow(m, step);
    var ev' := Apply(m, step).events;
    if t in m.tasks {
      assert ev'[t.event] == m.events[t.event];
    } else if step.DoVerify? {
      assert m.tasks[step.task] in m.tasks;
      assert ev'[t.event] == m.events[t.event];
    }
  }

  lemma OfItsEventStep(m: Mesh, step: Step)
    requires OfItsEvent(m)
    ensures OfItsEvent(Apply(m, step))
  {
    EventsGrow(m, step);
    var m' := Apply(m, step);
    forall t | t in m'.tasks
      ensures IsAcceptance(m'.events, t.event) && m'.events[t.event].node == t.node && m'.events[t.event].env == t.env
    {
      OfItsEventTask(m, step, t);
    }
    forall o | o in m'.outcomes
      ensures IsAcceptance(m'.events, o.event) && m'.events[o.event].node == o.node && m'.events[o.event].env == o.env
    {
      if o !in m.outcomes {
        assert m.tasks[step.task] in m.tasks;
      }
      assert m'.events[o.event] == m.events[o.event];
    }
  }

  lemma {:induction false} OfItsEventReachable(size: nat, time: int, steps: seq<Step>)
    ensures OfItsEvent(Exec(size, time, steps))
  {
    if steps != [] {
      OfItsEventReachable(size, time, steps[..|steps| - 1]);
      OfItsEventStep(Exec(size, time, steps[..|steps| - 1]), steps[|steps| - 1]);
    }
  }

  /** Acceptances on one side, ingresses underway and outcomes on the other, match one to one: each acceptance is
      either underway once or has exactly one outcome, with its own node and envelope, and nothing else is or has.
      A handler ran only for a service registered at its node. */
  lemma {:induction false} EachAcceptanceHasOneFate(size: nat, time: int, steps: seq<Step>, j: nat)
    ensures var m := Exec(size, time, steps);
            && Underway(m, OfEvent(j)) + Finished(m, OfEvent(j)) == (if IsAcceptance(m.events, j) then 1 else 0)
            && OfItsEvent(m)
  {
    ConservedReachable(size, time, steps, OfEvent(j));
    AcceptsOfEvent(Exec(size, time, steps).events, j);
    OfItsEventReachable(size, time, steps);
  }

  function HandlerCalls(m: Mesh, n: nat, id: string): nat {
    Count(m.outcomes, (o: Outcome) => OfId(n, id)(o.event, o.node, o.env) && o.verdict == Called)
  }

  lemma {:induction false} CallsAmongFinished(outcomes: seq<Outcome>, n: nat, id: string)
    ensures Count(outcomes, (o: Outcome) => OfId(n, id)(o.event, o.node, o.env) && o.verdict == Called)
            <= Count(outcomes, (o: Outcome) => OfId(n, id)(o.event, o.node, o.env))
  {
    if outcomes != [] {
      CallsAmongFinished(outcomes[..|outcomes| - 1], n, id);
    }
  }

  /** Hence handler calls for an identifier never exceed its acceptances. */
  lemma {:induction false} CallsNeverExceedAcceptances(size: nat, time: int, steps: seq<Step>, n: nat, id: string)
    ensures var m := Exec(size, time, steps); HandlerCalls(m, n, id) <= |Stamps(m.events, n, id)|
  {
    var m := Exec(size, time, steps);
    ConservedReachable(size, time, steps, OfId(n, id));
    AcceptsOfId(m.events, n, id);
    CallsAmongFinished(m.outcomes, n, id);
  }

  // ---------------------------------------------------------------- the data engine decides

  /** How often the data engine gave this answer for acceptance j. */
  function Answers(size: nat, time: int, steps: seq<Step>, j: nat, accepts: bool): nat {
    if steps == [] then 0 else
    var front, last := steps[..|steps| - 1], steps[|steps| - 1];
    Answers(size, time, front, j, accepts) + if Answered(Exec(size, time, front), last, j, accepts) then 1 else 0
  }

  predicate Answered(m: Mesh, step: Step, j: nat, accepts: bool)
    requires |m.times| == |m.nodes|
  {
    step.DoVerify? && step.accepts == accepts && Enabled(m, step) && m.tasks[step.task].event == j
  }

  function Refused(m: Mesh, j: nat): nat {
    Count(m.outcomes, (o: Outcome) => o.event == j && o.verdict == Rejected)
  }

  function Dispatched(m: Mesh, j: nat): nat {
    Count(m.outcomes, (o: Outcome) => o.event == j && o.verdict != Rejected)
  }

  function Verified(m: Mesh, j: nat): nat {
    Count(m.tasks, (t: Task) => t.event == j && t.verified)
  }

  lemma OutcomeCounted(m: Mesh, o: Outcome, m': Mesh, j: nat)
    requires m'.outcomes == m.outcomes + [o]
    ensures Refused(m', j) == Refused(m, j) + if o.event == j && o.verdict == Rejected then 1 else 0
    ensures Dispatched(m', j) == Dispatched(m, j) + if o.event == j && o.verdict != Rejected then 1 else 0
  {
    CountSnoc(m.outcomes, o, (o: Outcome) => o.event == j && o.verdict == Rejected);
    CountSnoc(m.outcomes, o, (o: Outcome) => o.event == j && o.verdict != Rejected);
  }

  lemma AnswerStep(m: Mesh, step: Step, j: nat)
    requires WellFormed(m)
    ensures var m' := Apply(m, step);
            && Refused(m', j) == Refused(m, j) + (if Answered(m, step, j, false) then 1 else 0)
            && Dispatched(m', j) + Verified(m', j)
               == Dispatched(m, j) + Verified(m, j) + (if Answered(m, step, j, true) then 1 else 0)
  {
    var m' := Apply(m, step);
    var verified := (t: Task) => t.event == j && t.verified;
    if Enabled(m, step) {
      match step
      case DoIngress(_, _, _, _) =>
        if |m'.tasks| > |m.tasks| {
          CountSnoc(m.tasks, m'.tasks[|m.tasks|], verified);
        }
      case DoVerify(k, accepts) =>
        if accepts {
          CountUpdate(m.tasks, k, m'.tasks[k], verified);
        } else {
          CountRemove(m.tasks, k, verified);
          OutcomeCounted(m, m'.outcomes[|m.outcomes|], m', j);
        }
      case DoDispatch(k) =>
        CountRemove(m.tasks, k, verified);
        OutcomeCounted(m, m'.outcomes[|m.outcomes|], m', j);
      case _ =>
    }
  }

  /** For each acceptance by itself: the data engine is asked at most once; the envelope is refused exactly if it
      said no, and dispatched or waiting to be exactly if it said yes. */
  lemma {:induction false} EngineDecides(size: nat, time: int, steps: seq<Step>, j: nat)
    ensures var m := Exec(size, time, steps);
            && Refused(m, j) == Answers(size, time, steps, j, false)
            && Dispatched(m, j) + Verified(m, j) == Answers(size, time, steps, j, true)
            && Answers(size, time, steps, j, false) + Answers(size, time, steps, j, true) <= 1
  {
    AnswersCounted(size, time, steps, j);
    EachAcceptanceHasOneFate(size, time, steps, j);
    var m := Exec(size, time, steps);
    PartsOfOutcomes(m.outcomes, j, OfEvent(j));
    VerifiedAmongUnderway(m.tasks, j, OfEvent(j));
  }

  lemma {:induction false} AnswersCounted(size: nat, time: int, steps: seq<Step>, j: nat)
    ensures var m := Exec(size, time, steps);
            && Refused(m, j) == Answers(size, time, steps, j, false)
            && Dispatched(m, j) + Verified(m, j) == Answers(size, time, steps, j, true)
  {
    if steps != [] {
      var front, last := steps[..|steps| - 1], steps[|steps| - 1];
      AnswersCounted(size, time, front, j);
      AnswerStep(Exec(size, time, front), last, j);
    }
  }

  ghost predicate Chooses(q: Choice, j: nat) {
    forall event: nat, node: nat, env: Envelope :: q(event, node, env) == (event == j)
  }

  lemma {:induction false} PartsOfOutcomes(outcomes: seq<Outcome>, j: nat, q: Choice)
    requires Chooses(q, j)
    ensures Count(outcomes, (o: Outcome) => o.event == j && o.verdict == Rejected)
            + Count(outcomes, (o: Outcome) => o.event == j && o.verdict != Rejected)
            == Count(outcomes, (o: Outcome) => q(o.event, o.node, o.env))
  {
    if outcomes != [] {
      PartsOfOutcomes(outcomes[..|outcomes| - 1], j, q);
    }
  }

  lemma {:induction false} VerifiedAmongUnderway(tasks: seq<Task>, j: nat, q: Choice)
    requires Chooses(q, j)
    ensures Count(tasks, (t: Task) => t.event == j && t.verified) <= Count(tasks, (t: Task) => q(t.event, t.node, t.env))
  {
    if tasks != [] {
      VerifiedAmongUnderway(tasks[..|tasks| - 1], j, q);
    }
  }

  // ---------------------------------------------------------------- the janitor bounds the cache

  const PERIOD: int := 15 * MINUTE

  /** The time of the latest janitor tick at node n, or of the start. */
  function LastTick(steps: seq<Step>, n: nat, start: int): int {
    if steps == [] then start else
    var last := steps[|steps| - 1];
    if last.DoCleanup? && last.n == n then last.now else LastTick(steps[..|steps| - 1], n, start)
  }

  /** The janitor of node n ticks exactly every period, and nothing at n overtakes a tick that is due. */
  ghost predicate OnSchedule(steps: seq<Step>, n: nat, start: int) {
    steps != [] ==>
      var front, last := steps[..|steps| - 1], steps[|steps| - 1];
      && OnSchedule(front, n, start)
      && (last.DoCleanup? && last.n == n ==> last.now == LastTick(front, n, start) + PERIOD)
      && (last.DoIngress? && last.n == n ==> last.now <= last.stamp <= LastTick(front, n, start) + PERIOD)
  }

  ghost predicate JanitorInv(m: Mesh, n: nat, tick: int) {
    && |m.times| == |m.nodes| && n < |m.nodes|
    && tick <= m.times[n] <= tick + PERIOD
    && forall id :: id in m.nodes[n].seen ==> m.nodes[n].seen[id] >= tick - HOUR
  }

  lemma {:induction false} JanitorReachable(size: nat, start: int, steps: seq<Step>, n: nat)
    requires n < size && OnSchedule(steps, n, start)
    ensures JanitorInv(Exec(size, start, steps), n, LastTick(steps, n, start))
  {
    if steps != [] {
      JanitorReachable(size, start, steps[..|steps| - 1], n);
    }
  }

  lemma {:induction false} LastStampHasEvent(ev: seq<Event>, n: nat, id: string) returns (k: nat)
    requires Stamps(ev, n, id) != []
    ensures k < |ev| && IsAcceptOf(ev[k], n, id) && ev[k].stamp == Last(Stamps(ev, n, id))
  {
    if IsAcceptOf(ev[|ev| - 1], n, id) {
      k := |ev| - 1;
    } else {
      k := LastStampHasEvent(ev[..|ev| - 1], n, id);
    }
  }

  /** Distinct identifiers need distinct events. */
  lemma {:induction false} DistinctIdsNeedEvents(ids: set<string>, ev: seq<Event>, p: Event -> bool)
    requires forall id :: id in ids ==> exists k :: 0 <= k < |ev| && p(ev[k]) && ev[k].env.id == id
    ensures |ids| <= Count(ev, p)
    decreases |ev|
  {
    if ev == [] {
      assert ids == {};
    } else {
      var front, e := ev[..|ev| - 1], ev[|ev| - 1];
      var rest := if p(e) then ids - {e.env.id} else ids;
      forall id | id in rest ensures exists k :: 0 <= k < |front| && p(front[k]) && front[k].env.id == id {
        var k :| 0 <= k < |ev| && p(ev[k]) && ev[k].env.id == id;
        assert front[k] == ev[k];
      }
      DistinctIdsNeedEvents(rest, front, p);
      assert ids <= rest + {e.env.id};
      CardinalityBound(ids, rest, e.env.id);
    }
  }

  lemma CardinalityBound(ids: set<string>, rest: set<string>, id: string)
    ensures ids <= rest + {id} && rest <= ids ==> |ids| <= |rest| + 1
  {
    if ids <= rest + {id} && rest <= ids {
      if id in rest {
        assert ids == rest;
      } else if id in ids {
        assert ids == rest + {id};
      } else {
        assert ids == rest;
      }
    }
  }

  function RecentAccepts(m: Mesh, n: nat, since: int): nat {
    Count(m.events, (e: Event) => e.Accepted? && e.node == n && e.stamp >= since)
  }

  /** With ticks exactly every 15 minutes no cached identifier is ever older than 75 minutes, and the cache is
      never larger than the number of acceptances in the last 75 minutes. */
  lemma {:induction false} CacheStaysSmall(size: nat, start: int, steps: seq<Step>, n: nat, now: int)
    requires n < size && OnSchedule(steps, n, start)
    requires Exec(size, start, steps).times[n] <= now <= LastTick(steps, n, start) + PERIOD
    ensures var m := Exec(size, start, steps);
            && (forall id :: id in m.nodes[n].seen ==> 0 <= now - m.nodes[n].seen[id] <= 75 * MINUTE)
            && |m.nodes[n].seen| <= RecentAccepts(m, n, now - 75 * MINUTE)
  {
    JanitorReachable(size, start, steps, n);
    var m, since := Exec(size, start, steps), now - 75 * MINUTE;
    var p := (e: Event) => e.Accepted? && e.node == n && e.stamp >= since;
    forall id | id in m.nodes[n].seen
      ensures since <= m.nodes[n].seen[id] <= now
      ensures exists k :: 0 <= k < |m.events| && p(m.events[k]) && m.events[k].env.id == id
    {
      CacheReachable(size, start, steps, n, id);
      var k := LastStampHasEvent(m.events, n, id);
      assert p(m.events[k]);
    }
    DistinctIdsNeedEvents(m.nodes[n].seen.Keys, m.events, p);
  }
}
