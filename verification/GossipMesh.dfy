/** Any number of gossip nodes over a network that loses, reorders and duplicates envelopes, and what
    holds in every run. A step's atomic sections are those of the source: the locked part of an ingress, the
    check by the data engine and the dispatch to a handler are three separate steps. */
module GossipMesh {
  import opened Common
  import opened Gossip

  /** The clock-bearing events, in the order they happened. An accepted envelope names the event that
      published it; `stamp` is the time written into the duplicate cache. */
  datatype Event =
    | Published(node: nat, env: Envelope, clock: nat)
    | Accepted(node: nat, env: Envelope, clock: nat, origin: nat, stamp: int)

  /** An ingress that has left the locked section; `event` is the index of its acceptance. */
  datatype Task = Task(event: nat, node: nat, env: Envelope, verified: bool)

  datatype Outcome = Outcome(event: nat, node: nat, env: Envelope, verdict: Verdict)

  /** `times[n]` is the last clock reading taken at node n. */
  datatype Mesh = Mesh(nodes: seq<Node>, times: seq<int>, events: seq<Event>, tasks: seq<Task>, outcomes: seq<Outcome>)

  datatype Step =
    | DoPublish(n: nat, id: string, serviceId: string, payload: seq<byte>, signature: seq<byte>)
    | DoIngress(n: nat, origin: nat, now: int, stamp: int)
    | DoCleanup(n: nat, now: int)
    | DoRegister(n: nat, serviceId: string)
    | DoVerify(task: nat, accepts: bool)
    | DoDispatch(task: nat)

  ghost predicate WellFormed(m: Mesh) {
    |m.times| == |m.nodes|
  }

  /** Any published envelope may arrive at any node at any later time, any number of times or never. */
  predicate Enabled(m: Mesh, step: Step)
    requires |m.times| == |m.nodes|
  {
    match step
    case DoPublish(n, _, _, _, _) => n < |m.nodes|
    case DoIngress(n, origin, now, stamp) =>
      && n < |m.nodes| && m.times[n] <= now <= stamp
      && origin < |m.events| && m.events[origin].Published?
    case DoCleanup(n, now) => n < |m.nodes| && m.times[n] <= now
    case DoRegister(n, _) => n < |m.nodes|
    case DoVerify(k, _) => k < |m.tasks| && !m.tasks[k].verified
    case DoDispatch(k) => k < |m.tasks| && m.tasks[k].verified && m.tasks[k].node < |m.nodes|
  }

  /** One atomic step; a step that is not enabled changes nothing. */
  function Apply(m: Mesh, step: Step): (m': Mesh)
    requires |m.times| == |m.nodes|
    ensures |m'.times| == |m'.nodes| == |m.nodes|
  {
    if !Enabled(m, step) then m else
    match step
    case DoPublish(n, id, serviceId, payload, signature) =>
      var node := Publish(m.nodes[n]);
      var env := Envelope(id, serviceId, payload, signature, node.lamport);
      m.(nodes := m.nodes[n := node], events := m.events + [Published(n, env, node.lamport)])
    case DoIngress(n, origin, now, stamp) =>
      var env := m.events[origin].env;
      if !Admits(m.nodes[n], env.id, now) then m.(times := m.times[n := now])
      else
        var node := Accept(m.nodes[n], env, stamp);
        m.(nodes := m.nodes[n := node],
           times := m.times[n := stamp],
           events := m.events + [Accepted(n, env, node.lamport, origin, stamp)],
           tasks := m.tasks + [Task(|m.events|, n, env, false)])
    case DoCleanup(n, now) =>
      m.(nodes := m.nodes[n := Cleanup(m.nodes[n], now)], times := m.times[n := now])
    case DoRegister(n, serviceId) =>
      m.(nodes := m.nodes[n := m.nodes[n].(services := m.nodes[n].services + {serviceId})])
    case DoVerify(k, accepts) =>
      var t := m.tasks[k];
      if accepts then m.(tasks := m.tasks[k := t.(verified := true)])
      else m.(tasks := Remove(m.tasks, k), outcomes := m.outcomes + [Outcome(t.event, t.node, t.env, Rejected)])
    case DoDispatch(k) =>
      var t := m.tasks[k];
      var verdict := if t.env.serviceId in m.nodes[t.node].services then Called else Unhandled;
      m.(tasks := Remove(m.tasks, k), outcomes := m.outcomes + [Outcome(t.event, t.node, t.env, verdict)])
  }

  function Start(n: nat, time: int): (m: Mesh)
    ensures |m.times| == |m.nodes| == n
  {
    Mesh(seq(n, _ => EMPTY_NODE), seq(n, _ => time), [], [], [])
  }

  function Exec(n: nat, time: int, steps: seq<Step>): (m: Mesh)
    ensures |m.times| == |m.nodes| == n
  {
    if steps == [] then Start(n, time)
    else Apply(Exec(n, time, steps[..|steps| - 1]), steps[|steps| - 1])
  }

  // ---------------------------------------------------------------- Lamport clocks

  /** Direct causation between events i and j: same node, or publication and acceptance of one envelope. */
  ghost predicate Edge(ev: seq<Event>, i: nat, j: nat) {
    && i < j < |ev|
    && (ev[i].node == ev[j].node || (ev[j].Accepted? && ev[j].origin == i))
  }

  /** A happens-before chain of events, given by their indices. */
  ghost predicate Chain(ev: seq<Event>, c: seq<nat>) {
    && c != []
    && (forall k :: 0 <= k < |c| ==> c[k] < |ev|)
    && (forall k :: 0 < k < |c| ==> Edge(ev, c[k - 1], c[k]))
  }

  ghost predicate ChainTo(ev: seq<Event>, c: seq<nat>, j: nat) {
    Chain(ev, c) && c[|c| - 1] == j
  }

  ghost predicate HappensBefore(ev: seq<Event>, i: nat, j: nat) {
    exists c :: ChainTo(ev, c, j) && c[0] == i && |c| > 1
  }

  /** Index of the latest event of node n among the first k, if any. */
  function Latest(ev: seq<Event>, k: nat, n: nat): (r: Option<nat>)
    requires k <= |ev|
    ensures r.Some? ==> r.value < k && ev[r.value].node == n
    ensures forall i :: 0 <= i < k && ev[i].node == n ==> r.Some? && i <= r.value
  {
    if k == 0 then None else if ev[k - 1].node == n then Some(k - 1) else Latest(ev, k - 1, n)
  }

  function LatestClock(ev: seq<Event>, k: nat, n: nat): nat
    requires k <= |ev|
  {
    match Latest(ev, k, n)
    case None => 0
    case Some(i) => ev[i].clock
  }

  /** The larger of the clocks event j builds on: the latest at its node, and that of the publication it accepts. */
  function Basis(ev: seq<Event>, j: nat): nat
    requires j < |ev|
  {
    var own := LatestClock(ev, j, ev[j].node);
    if ev[j].Accepted? && ev[j].origin < j then Max(own, ev[ev[j].origin].clock) else own
  }

  /** The rule every event's clock obeys, on 64 bits. */
  ghost predicate StampedAt(ev: seq<Event>, j: nat)
    requires j < |ev|
  {
    var e := ev[j];
    && e.clock == Increment(Basis(ev, j)) < TWO_64
    && (e.Published? ==> e.env.lamport == e.clock)
    && (e.Accepted? ==> e.origin < j && ev[e.origin].Published? && e.env == ev[e.origin].env)
  }

  ghost predicate Stamped(ev: seq<Event>) {
    forall j :: 0 <= j < |ev| ==> StampedAt(ev, j)
  }

  /** No increment has wrapped among the first k events. */
  ghost predicate Unwrapped(ev: seq<Event>, k: nat)
    requires k <= |ev|
  {
    forall j :: 0 <= j < k ==> ev[j].clock == Basis(ev, j) + 1
  }

  lemma BasisWitness(ev: seq<Event>, j: nat) returns (i: nat)
    requires j < |ev| && Basis(ev, j) > 0
    ensures Edge(ev, i, j) && ev[i].clock == Basis(ev, j)
  {
    var own := LatestClock(ev, j, ev[j].node);
    if ev[j].Accepted? && ev[j].origin < j && ev[ev[j].origin].clock > own {
      i := ev[j].origin;
    } else {
      i := Latest(ev, j, ev[j].node).value;
    }
  }

  lemma EdgeRaisesClock(ev: seq<Event>, i: nat, j: nat)
    requires Unwrapped(ev, |ev|) && Edge(ev, i, j)
    ensures ev[i].clock < ev[j].clock
    decreases j
  {
    if ev[i].node == ev[j].node {
      var latest := Latest(ev, j, ev[j].node);
      if i != latest.value {
        EdgeRaisesClock(ev, i, latest.value);
      }
    }
  }

  lemma ChainFront(ev: seq<Event>, c: seq<nat>)
    requires Chain(ev, c) && |c| > 1
    ensures Chain(ev, c[..|c| - 1]) && Edge(ev, c[|c| - 2], c[|c| - 1])
  {
    var front := c[..|c| - 1];
    assert Edge(ev, c[|c| - 2], c[|c| - 1]);
    forall k | 0 < k < |front| ensures Edge(ev, front[k - 1], front[k]) {
      assert Edge(ev, c[k - 1], c[k]);
    }
  }

  lemma {:induction false} ChainBound(ev: seq<Event>, c: seq<nat>)
    requires Unwrapped(ev, |ev|) && Chain(ev, c)
    ensures |c| <= ev[c[|c| - 1]].clock
    ensures |c| > 1 ==> ev[c[0]].clock < ev[c[|c| - 1]].clock
    decreases |c|
  {
    if |c| > 1 {
      ChainFront(ev, c);
      ChainBound(ev, c[..|c| - 1]);
      EdgeRaisesClock(ev, c[|c| - 2], c[|c| - 1]);
    }
  }

  lemma {:induction false} ChainNoLongerThanEvents(ev: seq<Event>, c: seq<nat>)
    requires Chain(ev, c)
    ensures |c| <= c[|c| - 1] + 1
    decreases |c|
  {
    if |c| > 1 {
      ChainFront(ev, c);
      ChainNoLongerThanEvents(ev, c[..|c| - 1]);
    }
  }

  lemma {:induction false} ChainExists(ev: seq<Event>, j: nat) returns (c: seq<nat>)
    requires j < |ev| && Unwrapped(ev, j + 1)
    ensures ChainTo(ev, c, j) && |c| == ev[j].clock
    decreases j
  {
    if Basis(ev, j) > 0 {
      var i := BasisWitness(ev, j);
      c := ChainExists(ev, i);
      c := ExtendChain(ev, c, i, j);
    } else {
      c := [j];
    }
  }

  lemma ExtendChain(ev: seq<Event>, c: seq<nat>, i: nat, j: nat) returns (d: seq<nat>)
    requires ChainTo(ev, c, i) && Edge(ev, i, j)
    ensures ChainTo(ev, d, j) && |d| == |c| + 1 && d[0] == c[0]
  {
    d := c + [j];
    forall k | 0 < k < |d| ensures Edge(ev, d[k - 1], d[k]) {
      if k < |c| {
        assert Edge(ev, c[k - 1], c[k]);
      }
    }
  }

  // ---------------------------------------------------------------- the clock invariant

  lemma {:induction false} LatestExtends(ev: seq<Event>, e: Event, k: nat, n: nat)
    requires k <= |ev|
    ensures Latest(ev + [e], k, n) == Latest(ev, k, n)
    ensures LatestClock(ev + [e], k, n) == LatestClock(ev, k, n)
  {
    if k > 0 {
      LatestExtends(ev, e, k - 1, n);
    }
  }

  lemma StampedExtends(ev: seq<Event>, e: Event)
    requires Stamped(ev) && StampedAt(ev + [e], |ev|)
    ensures Stamped(ev + [e])
  {
    var ev' := ev + [e];
    forall j | 0 <= j < |ev'| ensures StampedAt(ev', j) {
      if j < |ev| {
        assert StampedAt(ev, j);
        LatestExtends(ev, e, j, ev[j].node);
      }
    }
  }

  ghost predicate ClockInv(m: Mesh) {
    && |m.times| == |m.nodes|
    && Stamped(m.events)
    && (forall n :: 0 <= n < |m.nodes| ==> m.nodes[n].lamport == LatestClock(m.events, |m.events|, n))
  }

  lemma ClockEvent(m: Mesh, n: nat, node: Node, e: Event, m': Mesh)
    requires ClockInv(m) && n < |m.nodes| && e.node == n
    requires m'.nodes == m.nodes[n := node] && m'.events == m.events + [e] && |m'.times| == |m.times|
    requires node.lamport == e.clock
    requires StampedAt(m.events + [e], |m.events|)
    ensures ClockInv(m')
  {
    StampedExtends(m.events, e);
    forall i | 0 <= i < |m'.nodes| ensures m'.nodes[i].lamport == LatestClock(m'.events, |m'.events|, i) {
      LatestExtends(m.events, e, |m.events|, i);
    }
  }

  lemma ClockPublish(m: Mesh, step: Step)
    requires ClockInv(m) && step.DoPublish? && Enabled(m, step)
    ensures ClockInv(Apply(m, step))
  {
    var n, ev := step.n, m.events;
    var node := Publish(m.nodes[n]);
    var e := Published(n, Envelope(step.id, step.serviceId, step.payload, step.signature, node.lamport), node.lamport);
    LatestExtends(ev, e, |ev|, n);
    ClockEvent(m, n, node, e, Apply(m, step));
  }

  lemma ClockAccept(m: Mesh, step: Step)
    requires ClockInv(m) && step.DoIngress? && Enabled(m, step)
    requires Admits(m.nodes[step.n], m.events[step.origin].env.id, step.now)
    ensures ClockInv(Apply(m, step))
  {
    var n, ev, env := step.n, m.events, m.events[step.origin].env;
    var node := Accept(m.nodes[n], env, step.stamp);
    var e := Accepted(n, env, node.lamport, step.origin, step.stamp);
    LatestExtends(ev, e, |ev|, n);
    assert StampedAt(ev, step.origin);
    ClockEvent(m, n, node, e, Apply(m, step));
  }

  lemma ClockStep(m: Mesh, step: Step)
    requires ClockInv(m)
    ensures ClockInv(Apply(m, step))
  {
    if Enabled(m, step) {
      match step
      case DoPublish(_, _, _, _, _) => ClockPublish(m, step);
      case DoIngress(n, origin, now, _) =>
        if Admits(m.nodes[n], m.events[origin].env.id, now) {
          ClockAccept(m, step);
        }
      case _ =>
    }
  }

  lemma EventsGrow(m: Mesh, step: Step)
    requires WellFormed(m)
    ensures m.events <= Apply(m, step).events
  {
  }

  lemma {:induction false} ClockReachable(n: nat, time: int, steps: seq<Step>)
    ensures ClockInv(Exec(n, time, steps))
  {
    if steps != [] {
      ClockReachable(n, time, steps[..|steps| - 1]);
      ClockStep(Exec(n, time, steps[..|steps| - 1]), steps[|steps| - 1]);
    }
  }

  // ---------------------------------------------------------------- main results

  /** The clock of event j is the length of the longest happens-before chain that ends in it. */
  ghost predicate ClockIsLongest(ev: seq<Event>, j: nat)
    requires j < |ev|
  {
    && (exists c :: ChainTo(ev, c, j) && |c| == ev[j].clock)
    && (forall c :: ChainTo(ev, c, j) ==> |c| <= ev[j].clock)
  }

  /** No chain of events is as long as there are values of a uint64. */
  ghost predicate ChainsFit(ev: seq<Event>) {
    forall c :: Chain(ev, c) ==> |c| < TWO_64
  }

  /** Happens-before implies a strictly smaller clock. */
  ghost predicate CausalityOrders(ev: seq<Event>) {
    forall i: nat, j: nat :: i < |ev| && j < |ev| && HappensBefore(ev, i, j) ==> ev[i].clock < ev[j].clock
  }

  lemma BasisFits(ev: seq<Event>, j: nat)
    requires Stamped(ev) && j < |ev|
    ensures Basis(ev, j) < TWO_64
  {
    if Basis(ev, j) > 0 {
      var i := BasisWitness(ev, j);
      assert StampedAt(ev, i);
    }
  }

  lemma FittingChainBelowTop(ev: seq<Event>, j: nat)
    requires j < |ev| && ChainsFit(ev) && Unwrapped(ev, j)
    ensures Basis(ev, j) < TWO_64 - 1
  {
    if Basis(ev, j) > 0 {
      var i := BasisWitness(ev, j);
      var c := ChainExists(ev, i);
      c := ExtendChain(ev, c, i, j);
      assert |c| < TWO_64;
    }
  }

  lemma IncrementBelowTop(x: nat)
    requires x < TWO_64 - 1
    ensures Increment(x) == x + 1
  {
  }

  lemma FittingChainsDoNotWrap(ev: seq<Event>, j: nat)
    requires j < |ev| && Stamped(ev) && ChainsFit(ev) && Unwrapped(ev, j)
    ensures ev[j].clock == Basis(ev, j) + 1
  {
    FittingChainBelowTop(ev, j);
    IncrementBelowTop(Basis(ev, j));
    assert StampedAt(ev, j);
  }

  lemma UnwrappedOneMore(ev: seq<Event>, j: nat)
    requires j < |ev| && Unwrapped(ev, j) && ev[j].clock == Basis(ev, j) + 1
    ensures Unwrapped(ev, j + 1)
  {
  }

  lemma {:induction false} FittingChainsNeverWrap(ev: seq<Event>, k: nat)
    requires Stamped(ev) && ChainsFit(ev) && k <= |ev|
    ensures Unwrapped(ev, k)
  {
    if k > 0 {
      FittingChainsNeverWrap(ev, k - 1);
      FittingChainsDoNotWrap(ev, k - 1);
      UnwrappedOneMore(ev, k - 1);
    }
  }

  lemma EdgeHappensBefore(ev: seq<Event>, i: nat, j: nat)
    requires Edge(ev, i, j)
    ensures HappensBefore(ev, i, j)
  {
    assert ChainTo(ev, [i], i);
    var c := ExtendChain(ev, [i], i, j);
  }

  lemma CausalClocksNeverWrap(ev: seq<Event>)
    requires Stamped(ev) && CausalityOrders(ev)
    ensures Unwrapped(ev, |ev|)
  {
    forall j | 0 <= j < |ev| ensures ev[j].clock == Basis(ev, j) + 1 {
      BasisFits(ev, j);
      assert StampedAt(ev, j);
      if Basis(ev, j) > 0 {
        var i := BasisWitness(ev, j);
        EdgeHappensBefore(ev, i, j);
      }
    }
  }

  lemma UnwrappedClocks(ev: seq<Event>)
    requires Stamped(ev) && Unwrapped(ev, |ev|)
    ensures forall j :: 0 <= j < |ev| ==> ClockIsLongest(ev, j)
    ensures CausalityOrders(ev)
  {
    forall j | 0 <= j < |ev| ensures ClockIsLongest(ev, j) {
      var c := ChainExists(ev, j);
      forall c | ChainTo(ev, c, j) ensures |c| <= ev[j].clock {
        ChainBound(ev, c);
      }
    }
    forall i: nat, j: nat | i < |ev| && j < |ev| && HappensBefore(ev, i, j) ensures ev[i].clock < ev[j].clock {
      var c :| ChainTo(ev, c, j) && c[0] == i && |c| > 1;
      ChainBound(ev, c);
    }
  }

  lemma LongestClocksFit(ev: seq<Event>)
    requires Stamped(ev) && forall j :: 0 <= j < |ev| ==> ClockIsLongest(ev, j)
    ensures ChainsFit(ev)
  {
    forall c | Chain(ev, c) ensures |c| < TWO_64 {
      var j := c[|c| - 1];
      assert ChainTo(ev, c, j) && ClockIsLongest(ev, j) && StampedAt(ev, j);
    }
  }

  /** In every run, every event's clock is the length of the longest happens-before chain ending in it if and only
      if no chain has 2^64 events. */
  lemma {:induction false} ClockIsLongestChainIff(n: nat, time: int, steps: seq<Step>)
    ensures var ev := Exec(n, time, steps).events;
            (forall j :: 0 <= j < |ev| ==> ClockIsLongest(ev, j)) <==> ChainsFit(ev)
  {
    ClockReachable(n, time, steps);
    var ev := Exec(n, time, steps).events;
    if ChainsFit(ev) {
      FittingChainsNeverWrap(ev, |ev|);
      UnwrappedClocks(ev);
    }
    if forall j :: 0 <= j < |ev| ==> ClockIsLongest(ev, j) {
      LongestClocksFit(ev);
    }
  }

  /** And under the same condition, and no weaker one, clocks respect causality. */
  lemma {:induction false} CausalityOrdersClocksIff(n: nat, time: int, steps: seq<Step>)
    ensures var ev := Exec(n, time, steps).events; CausalityOrders(ev) <==> ChainsFit(ev)
  {
    ClockReachable(n, time, steps);
    var ev := Exec(n, time, steps).events;
    if CausalityOrders(ev) {
      CausalClocksNeverWrap(ev);
      UnwrappedClocks(ev);
      LongestClocksFit(ev);
    }
    if ChainsFit(ev) {
      FittingChainsNeverWrap(ev, |ev|);
      UnwrappedClocks(ev);
    }
  }

  /** In particular in any run of fewer than 2^64 events: no clock and no stamp in flight then exceeds the number
      of events so far. */
  lemma {:induction false} ClocksBoundedByEvents(n: nat, time: int, steps: seq<Step>)
    requires |Exec(n, time, steps).events| < TWO_64
    ensures var m := Exec(n, time, steps);
            && ChainsFit(m.events)
            && (forall i :: 0 <= i < n ==> m.nodes[i].lamport <= |m.events|)
            && (forall j :: 0 <= j < |m.events| ==> 1 <= m.events[j].clock <= j + 1 && m.events[j].env.lamport <= |m.events|)
  {
    ClockReachable(n, time, steps);
    var m := Exec(n, time, steps);
    forall c | Chain(m.events, c) ensures |c| < TWO_64 {
      ChainNoLongerThanEvents(m.events, c);
    }
    FittingChainsNeverWrap(m.events, |m.events|);
    forall j | 0 <= j < |m.events| ensures 1 <= m.events[j].clock <= j + 1 {
      var c := ChainExists(m.events, j);
      ChainNoLongerThanEvents(m.events, c);
    }
    forall j | 0 <= j < |m.events| ensures m.events[j].env.lamport <= |m.events| {
      assert StampedAt(m.events, j);
      if m.events[j].Accepted? {
        assert StampedAt(m.events, m.events[j].origin);
      }
    }
  }

  function Publishes(k: nat): (steps: seq<Step>)
    ensures |steps| == k
  {
    if k == 0 then [] else Publishes(k - 1) + [DoPublish(0, "", "", [], [])]
  }

  /** The bound is sharp: with one more event the clock can be back at zero. */
  lemma {:induction false} BoundIsSharp(k: nat)
    ensures var m := Exec(1, 0, Publishes(k));
            |m.events| == k && m.nodes[0].lamport == k % TWO_64
    ensures k == TWO_64 ==> Exec(1, 0, Publishes(k)).nodes[0].lamport == 0
  {
    if k > 0 {
      BoundIsSharp(k - 1);
      var steps := Publishes(k);
      assert steps[..|steps| - 1] == Publishes(k - 1);
      IncrementMod(k - 1);
    }
  }

  lemma IncrementMod(k: nat)
    ensures Increment(k % TWO_64) == (k + 1) % TWO_64
  {
    var q, r := k / TWO_64, k % TWO_64;
    assert k == q * TWO_64 + r;
    if r == TWO_64 - 1 {
      assert k + 1 == (q + 1) * TWO_64;
    } else {
      assert (k + 1) / TWO_64 == q;
    }
  }
}
