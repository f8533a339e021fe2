/** How far RPC traffic can spread: `nodes` nodes, handlers that send nothing themselves, and a network that
    delivers each packet at most once to each node. */
module RpcFlood {
  import opened Common
  import opened Rpc

  /** The nodes of the mesh and the procedures registered at each. */
  datatype Mesh = Mesh(nodes: nat, handlers: nat -> set<string>)

  /** A packet still to be delivered to a node. */
  datatype Arrival = Arrival(node: nat, packet: RPCPacket)

  /** Deliver the arrival at position `at`. When it is a request, `accepts` is the data engine's answer, `result`
      what the handler returns, if there is one, and `recipients` the nodes its reply will reach. */
  datatype Step = Deliver(at: nat, accepts: bool, result: HandlerResult, recipients: seq<nat>)

  ghost predicate OncePerNode(nodes: nat, recipients: seq<nat>) {
    && (forall k :: 0 <= k < |recipients| ==> recipients[k] < nodes)
    && (forall i, j :: 0 <= i < j < |recipients| ==> recipients[i] != recipients[j])
  }

  ghost predicate Enabled(m: Mesh, queue: seq<Arrival>, step: Step) {
    step.at < |queue| && OncePerNode(m.nodes, step.recipients)
  }

  function Copies(packet: RPCPacket, recipients: seq<nat>): (r: seq<Arrival>)
    ensures |r| == |recipients|
    ensures forall k :: 0 <= k < |r| ==> r[k].packet == packet
  {
    seq(|recipients|, k requires 0 <= k < |recipients| => Arrival(recipients[k], packet))
  }

  /** The packets one delivery adds: copies of the reply, if the node serves the request. */
  function Produced(m: Mesh, arrival: Arrival, step: Step): seq<Arrival> {
    if arrival.packet.response then [] else
    match Serve(m.handlers(arrival.node), arrival.packet, step.accepts, step.result)
    case None => []
    case Some(reply) => Copies(reply, step.recipients)
  }

  function Apply(m: Mesh, queue: seq<Arrival>, step: Step): seq<Arrival>
    requires step.at < |queue|
  {
    Remove(queue, step.at) + Produced(m, queue[step.at], step)
  }

  /** A run: each step is enabled where it is taken. */
  ghost predicate Run(m: Mesh, queue: seq<Arrival>, steps: seq<Step>)
    decreases |steps|
  {
    steps != [] ==> Enabled(m, queue, steps[0]) && Run(m, Apply(m, queue, steps[0]), steps[1..])
  }

  /** A request that has a handler where it arrives. */
  predicate Servable(m: Mesh, a: Arrival) {
    !a.packet.response && a.packet.procedure in m.handlers(a.node)
  }

  function Weight(m: Mesh, a: Arrival): nat {
    if Servable(m, a) then m.nodes + 1 else 1
  }

  function Measure(m: Mesh, queue: seq<Arrival>): nat {
    if queue == [] then 0 else Weight(m, queue[0]) + Measure(m, queue[1..])
  }

  lemma {:induction false} MeasureAppend(m: Mesh, a: seq<Arrival>, b: seq<Arrival>)
    ensures Measure(m, a + b) == Measure(m, a) + Measure(m, b)
  {
    if a == [] {
      assert a + b == b;
    } else {
      assert (a + b)[1..] == a[1..] + b;
      MeasureAppend(m, a[1..], b);
    }
  }

  lemma {:induction false} ResponsesWeighOne(m: Mesh, queue: seq<Arrival>)
    requires forall k :: 0 <= k < |queue| ==> queue[k].packet.response
    ensures Measure(m, queue) == |queue|
  {
    if queue != [] {
      ResponsesWeighOne(m, queue[1..]);
    }
  }

  lemma {:induction false} AtMostOncePerNode(nodes: nat, recipients: seq<nat>)
    requires OncePerNode(nodes, recipients)
    ensures |recipients| <= nodes
  {
    if recipients != [] {
      assert recipients[0] < nodes;
      if exists k :: 0 <= k < |recipients| && recipients[k] == nodes - 1 {
        var k :| 0 <= k < |recipients| && recipients[k] == nodes - 1;
        var others := recipients[..k] + recipients[k + 1..];
        assert OncePerNode(nodes - 1, others);
        AtMostOncePerNode(nodes - 1, others);
      } else {
        AtMostOncePerNode(nodes - 1, recipients);
      }
    }
  }

  lemma MeasureOfDelivery(m: Mesh, queue: seq<Arrival>, step: Step)
    requires step.at < |queue|
    ensures Measure(m, Apply(m, queue, step)) + Weight(m, queue[step.at])
            == Measure(m, queue) + |Produced(m, queue[step.at], step)|
  {
    var k, made := step.at, Produced(m, queue[step.at], step);
    var before, after := queue[..k], queue[k + 1..];
    assert queue == before + ([queue[k]] + after);
    MeasureAppend(m, before, [queue[k]] + after);
    MeasureAppend(m, [queue[k]], after);
    MeasureAppend(m, before + after, made);
    MeasureAppend(m, before, after);
    ResponsesWeighOne(m, made);
    assert Measure(m, [queue[k]]) == Weight(m, queue[k]) + Measure(m, []) by {
      assert [queue[k]][1..] == [];
    }
  }

  /** A delivery takes its packet out of the queue and adds nothing, unless it is a request that is accepted and has a
      handler where it arrives: then it adds one copy of one response, under the request's identifier and to its
      source, for each node the reply reaches. Every delivery lowers the measure. */
  lemma DeliveryLowersMeasure(m: Mesh, queue: seq<Arrival>, step: Step)
    requires Enabled(m, queue, step)
    ensures var next, rest := Apply(m, queue, step), Remove(queue, step.at);
            var q := queue[step.at].packet;
            && rest <= next
            && |next| == |rest| + (if Servable(m, queue[step.at]) && step.accepts then |step.recipients| else 0)
            && |step.recipients| <= m.nodes
            && (forall k :: |rest| <= k < |next| ==>
                  && next[k].node == step.recipients[k - |rest|]
                  && next[k].packet.response && next[k].packet.id == q.id && next[k].packet.target == q.source
                  && next[k].packet.payload == step.result.payload)
            && Measure(m, next) < Measure(m, queue)
  {
    MeasureOfDelivery(m, queue, step);
    AtMostOncePerNode(m.nodes, step.recipients);
  }

  /** Requests waiting where they have a handler. */
  function Requests(m: Mesh, queue: seq<Arrival>): nat {
    if queue == [] then 0 else (if Servable(m, queue[0]) then 1 else 0) + Requests(m, queue[1..])
  }

  lemma {:induction false} MeasureIsLinear(m: Mesh, queue: seq<Arrival>)
    ensures Measure(m, queue) == |queue| + m.nodes * Requests(m, queue)
  {
    if queue != [] {
      MeasureIsLinear(m, queue[1..]);
      assert m.nodes * (1 + Requests(m, queue[1..])) == m.nodes + m.nodes * Requests(m, queue[1..]);
    }
  }

  /** Finitely many packets cause finitely many deliveries: each waiting packet is delivered once, and each
      waiting request that has a handler causes at most one more delivery per node. */
  lemma {:induction false} DeliveriesAreFinite(m: Mesh, queue: seq<Arrival>, steps: seq<Step>)
    requires Run(m, queue, steps)
    ensures |steps| <= |queue| + m.nodes * Requests(m, queue)
    decreases |steps|
  {
    MeasureIsLinear(m, queue);
    if steps != [] {
      var next := Apply(m, queue, steps[0]);
      DeliveryLowersMeasure(m, queue, steps[0]);
      DeliveriesAreFinite(m, next, steps[1..]);
      MeasureIsLinear(m, next);
    }
  }

  // ---------------------------------------------------------------- the bound is reached

  function AllNodes(nodes: nat): (r: seq<nat>)
    ensures |r| == nodes
  {
    seq(nodes, k => k)
  }

  /** Accept everything and let every reply reach every node. */
  function BusyStep(m: Mesh): Step {
    Deliver(0, true, HandlerResult([], None), AllNodes(m.nodes))
  }

  function Busiest(m: Mesh, length: nat): (steps: seq<Step>)
    ensures |steps| == length
    ensures forall k :: 0 <= k < length ==> steps[k] == BusyStep(m)
  {
    seq(length, _ => BusyStep(m))
  }

  lemma BusiestStep(m: Mesh, queue: seq<Arrival>)
    requires queue != []
    ensures Enabled(m, queue, BusyStep(m))
    ensures var next := Apply(m, queue, BusyStep(m));
            |next| + m.nodes * Requests(m, next) + 1 == |queue| + m.nodes * Requests(m, queue)
  {
    MeasureOfDelivery(m, queue, BusyStep(m));
    MeasureIsLinear(m, queue);
    MeasureIsLinear(m, Apply(m, queue, BusyStep(m)));
  }

  /** A run of exactly that length exists from every queue. */
  lemma {:induction false} BoundIsReached(m: Mesh, queue: seq<Arrival>, bound: nat)
    requires bound == |queue| + m.nodes * Requests(m, queue)
    ensures |Busiest(m, bound)| == bound && Run(m, queue, Busiest(m, bound))
    decreases bound
  {
    if queue != [] {
      BusiestStep(m, queue);
      var steps := Busiest(m, bound);
      BoundIsReached(m, Apply(m, queue, steps[0]), bound - 1);
      assert steps[1..] == Busiest(m, bound - 1);
    } else {
      assert bound == m.nodes * 0;
    }
  }
}
