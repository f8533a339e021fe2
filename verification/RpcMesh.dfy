/** Concurrent calls, ingress goroutines and handlers at any number of nodes, as an interleaving transition
    system. The lookup of a waiter and the offer into its channel are separate steps, and so are a call's
    registration, send, wake-up and deferred removal. */
module RpcMesh {
  import opened Common
  import opened Rpc

  /** `reply` is the packet a call woke up with, if that is how it ended. */
  datatype Phase =
    | Registered
    | Waiting
    | Returning(result: CallResult, reply: Option<RPCPacket>)
    | Done(result: CallResult, reply: Option<RPCPacket>)

  /** `placed` is everything ever put into the call's channel, `buffer` what is in it now. */
  datatype Call = Call(node: nat, request: RPCPacket, phase: Phase, buffer: seq<RPCPacket>, placed: seq<RPCPacket>)

  /** The pending map leads from identifiers to calls, that is, to their waiters. */
  datatype Manager = Manager(pending: map<string, nat>, handlers: set<string>)

  /** An ingress goroutine that has found a waiter and not yet offered its packet. */
  datatype Delivery = Delivery(packet: RPCPacket, call: nat)

  datatype Execution = Execution(node: nat, request: RPCPacket, result: HandlerResult)

  /** `sent` and `executions` record every packet ever sent and every handler run. */
  datatype Net = Net(managers: seq<Manager>, calls: seq<Call>, deliveries: seq<Delivery>,
                     sent: set<RPCPacket>, executions: set<Execution>)

  datatype Step =
    | DoRegister(n: nat, procedure: string)
    | DoCall(n: nat, random: seq<byte>, target: seq<byte>, procedure: string, payload: seq<byte>)
    | DoSend(c: nat, ok: bool, onWire: bool)
    | DoReceive(c: nat)
    | DoCancel(c: nat)
    | DoTimeout(c: nat)
    | DoFinish(c: nat)
    | DoNotify(n: nat, target: seq<byte>, procedure: string, payload: seq<byte>)
    | DoLookup(n: nat, packet: RPCPacket)
    | DoPlace(d: nat)
    | DoDrop(d: nat)
    | DoServe(n: nat, packet: RPCPacket, accepts: bool, result: HandlerResult)

  /** Identifiers are drawn at random; that no two calls drew the same one is an assumption. */
  ghost predicate FreshId(s: Net, id: string) {
    forall k :: 0 <= k < |s.calls| ==> s.calls[k].request.id != id
  }

  /** The send branch of the ingress select is ready when the channel has room, the default branch when it has not. */
  ghost predicate Enabled(s: Net, step: Step) {
    match step
    case DoRegister(n, _) => n < |s.managers|
    case DoCall(n, random, _, _, _) => n < |s.managers| && |random| == ID_BYTES && FreshId(s, RequestId(random))
    case DoSend(c, ok, onWire) => c < |s.calls| && s.calls[c].phase == Registered && (ok ==> onWire)
    case DoReceive(c) => c < |s.calls| && s.calls[c].phase == Waiting && s.calls[c].buffer != []
    case DoCancel(c) => c < |s.calls| && s.calls[c].phase == Waiting
    case DoTimeout(c) => c < |s.calls| && s.calls[c].phase == Waiting
    case DoFinish(c) => c < |s.calls| && s.calls[c].phase.Returning? && s.calls[c].node < |s.managers|
    case DoNotify(n, _, _, _) => n < |s.managers|
    case DoLookup(n, packet) => n < |s.managers| && packet.response
    case DoPlace(d) => d < |s.deliveries| && s.deliveries[d].call < |s.calls| && |s.calls[s.deliveries[d].call].buffer| < 1
    case DoDrop(d) => d < |s.deliveries| && s.deliveries[d].call < |s.calls| && |s.calls[s.deliveries[d].call].buffer| >= 1
    case DoServe(n, packet, _, _) => n < |s.managers| && !packet.response
  }

  function SetCall(s: Net, c: nat, call: Call): Net
    requires c < |s.calls|
  {
    s.(calls := s.calls[c := call])
  }

  function SetPhase(s: Net, c: nat, phase: Phase): Net
    requires c < |s.calls|
  {
    SetCall(s, c, s.calls[c].(phase := phase))
  }

  function SetPending(s: Net, n: nat, pending: map<string, nat>): Net
    requires n < |s.managers|
  {
    s.(managers := s.managers[n := s.managers[n].(pending := pending)])
  }

  /** One atomic step; a step that is not enabled changes nothing. */
  ghost function Apply(s: Net, step: Step): Net {
    if !Enabled(s, step) then s else
    match step
    case DoRegister(n, procedure) =>
      s.(managers := s.managers[n := s.managers[n].(handlers := s.managers[n].handlers + {procedure})])
    case DoCall(n, random, target, procedure, payload) =>
      var request := Request(RequestId(random), target, procedure, payload);
      SetPending(s, n, s.managers[n].pending[request.id := |s.calls|])
        .(calls := s.calls + [Call(n, request, Registered, [], [])])
    case DoSend(c, ok, onWire) =>
      SetPhase(s, c, if ok then Waiting else Returning(SendFailed, None))
        .(sent := if onWire then s.sent + {s.calls[c].request} else s.sent)
    case DoReceive(c) =>
      var p := s.calls[c].buffer[0];
      SetCall(s, c, s.calls[c].(phase := Returning(ReadResponse(p), Some(p)), buffer := s.calls[c].buffer[1..]))
    case DoCancel(c) => SetPhase(s, c, Returning(Cancelled, None))
    case DoTimeout(c) => SetPhase(s, c, Returning(TimedOut, None))
    case DoFinish(c) =>
      var call := s.calls[c];
      SetPending(SetPhase(s, c, Done(call.phase.result, call.phase.reply)),
                 call.node, s.managers[call.node].pending - {call.request.id})
    case DoNotify(n, target, procedure, payload) =>
      s.(sent := s.sent + {Notification(target, procedure, payload)})
    case DoLookup(n, packet) =>
      if packet.id !in s.managers[n].pending then s
      else s.(deliveries := s.deliveries + [Delivery(packet, s.managers[n].pending[packet.id])])
    case DoPlace(d) =>
      var c, p := s.deliveries[d].call, s.deliveries[d].packet;
      var call := s.calls[c];
      SetCall(s, c, call.(buffer := Offer(call.buffer, p), placed := call.placed + [p]))
        .(deliveries := Remove(s.deliveries, d))
    case DoDrop(d) => s.(deliveries := Remove(s.deliveries, d))
    case DoServe(n, packet, accepts, result) =>
      match Serve(s.managers[n].handlers, packet, accepts, result)
      case None => s
      case Some(reply) =>
        s.(sent := s.sent + {reply}, executions := s.executions + {Execution(n, packet, result)})
  }

  function Start(size: nat): Net {
    Net(seq(size, _ => Manager(map[], {})), [], [], {}, {})
  }

  ghost function Exec(size: nat, steps: seq<Step>): Net {
    if steps == [] then Start(size) else Apply(Exec(size, steps[..|steps| - 1]), steps[|steps| - 1])
  }

  // ---------------------------------------------------------------- the invariant

  ghost predicate CallOk(size: nat, call: Call) {
    && call.node < size
    && !call.request.response && |call.request.id| == 32
    && |call.buffer| <= 1
    && (forall k :: 0 <= k < |call.placed| ==> call.placed[k].response && call.placed[k].id == call.request.id)
    && (call.phase.Registered? || call.phase.Waiting? ==> call.placed == call.buffer)
    && (call.phase.Returning? || call.phase.Done? ==>
          match call.phase.reply
          case Some(p) => call.placed == [p] + call.buffer && call.phase.result == ReadResponse(p)
          case None => call.placed == call.buffer && call.phase.result in {SendFailed, Cancelled, TimedOut})
  }

  ghost predicate CallsOk(s: Net) {
    && (forall k :: 0 <= k < |s.calls| ==> CallOk(|s.managers|, s.calls[k]))
    && (forall i, j :: 0 <= i < j < |s.calls| ==> s.calls[i].request.id != s.calls[j].request.id)
  }

  /** Entry id of manager n leads to an unfinished call of that node with that identifier. */
  ghost predicate EntryOk(s: Net, n: nat, id: string)
    requires n < |s.managers| && id in s.managers[n].pending
  {
    var k := s.managers[n].pending[id];
    k < |s.calls| && s.calls[k].node == n && s.calls[k].request.id == id && !s.calls[k].phase.Done?
  }

  ghost predicate IsPending(s: Net, k: nat)
    requires k < |s.calls|
  {
    var call := s.calls[k];
    && call.node < |s.managers|
    && call.request.id in s.managers[call.node].pending
    && s.managers[call.node].pending[call.request.id] == k
  }

  ghost predicate PendingOk(s: Net) {
    && (forall n, id :: 0 <= n < |s.managers| && id in s.managers[n].pending ==> EntryOk(s, n, id))
    && (forall k :: 0 <= k < |s.calls| && !s.calls[k].phase.Done? ==> IsPending(s, k))
  }

  ghost predicate DeliveryOk(s: Net, d: Delivery) {
    d.call < |s.calls| && d.packet.response && d.packet.id == s.calls[d.call].request.id
  }

  ghost predicate DeliveriesOk(s: Net) {
    forall d :: 0 <= d < |s.deliveries| ==> DeliveryOk(s, s.deliveries[d])
  }

  ghost predicate Inv(s: Net) {
    CallsOk(s) && PendingOk(s) && DeliveriesOk(s)
  }

  lemma CallUpdated(s: Net, s': Net, c: nat)
    requires CallsOk(s) && c < |s.calls| && |s'.calls| == |s.calls| && |s'.managers| == |s.managers|
    requires s'.calls == s.calls[c := s'.calls[c]] && s'.calls[c].request == s.calls[c].request
    requires CallOk(|s.managers|, s'.calls[c])
    ensures CallsOk(s')
  {
  }

  lemma CallOkPlaced(size: nat, call: Call, p: RPCPacket)
    requires CallOk(size, call) && |call.buffer| < 1 && p.response && p.id == call.request.id
    ensures CallOk(size, call.(buffer := Offer(call.buffer, p), placed := call.placed + [p]))
  {
  }

  /** The call a step works on, if it changes one. */
  ghost function Touched(s: Net, step: Step): Option<nat> {
    match step
    case DoSend(c, _, _) => Some(c)
    case DoReceive(c) => Some(c)
    case DoCancel(c) => Some(c)
    case DoTimeout(c) => Some(c)
    case DoFinish(c) => Some(c)
    case DoPlace(d) => if d < |s.deliveries| then Some(s.deliveries[d].call) else None
    case _ => None
  }

  lemma TouchedCallOk(s: Net, step: Step)
    requires Inv(s) && Enabled(s, step) && Touched(s, step).Some?
    ensures var c, s' := Touched(s, step).value, Apply(s, step);
            && c < |s.calls| && |s'.calls| == |s.calls| && |s'.managers| == |s.managers|
            && s'.calls == s.calls[c := s'.calls[c]] && s'.calls[c].request == s.calls[c].request
            && CallOk(|s.managers|, s'.calls[c])
  {
    var c := Touched(s, step).value;
    assert CallOk(|s.managers|, s.calls[c]);
    if step.DoPlace? {
      assert DeliveryOk(s, s.deliveries[step.d]);
      CallOkPlaced(|s.managers|, s.calls[c], s.deliveries[step.d].packet);
    }
  }

  lemma CallsStep(s: Net, step: Step)
    requires Inv(s)
    ensures CallsOk(Apply(s, step))
  {
    if Enabled(s, step) {
      if Touched(s, step).Some? {
        TouchedCallOk(s, step);
        CallUpdated(s, Apply(s, step), Touched(s, step).value);
      }
    }
  }

  /** Same pending maps over the same calls, none of which has been finished. */
  ghost predicate SameRegistry(s: Net, s': Net) {
    && |s'.managers| == |s.managers| && |s'.calls| == |s.calls|
    && (forall n :: 0 <= n < |s.managers| ==> s'.managers[n].pending == s.managers[n].pending)
    && (forall k :: 0 <= k < |s.calls| ==>
          && s'.calls[k].node == s.calls[k].node && s'.calls[k].request == s.calls[k].request
          && s'.calls[k].phase.Done? == s.calls[k].phase.Done?)
  }

  lemma PendingFrame(s: Net, s': Net)
    requires PendingOk(s) && SameRegistry(s, s')
    ensures PendingOk(s')
  {
    forall n, id | 0 <= n < |s'.managers| && id in s'.managers[n].pending ensures EntryOk(s', n, id) {
      assert EntryOk(s, n, id);
    }
    forall k | 0 <= k < |s'.calls| && !s'.calls[k].phase.Done? ensures IsPending(s', k) {
      assert IsPending(s, k);
    }
  }

  lemma PendingCall(s: Net, step: Step)
    requires PendingOk(s) && step.DoCall? && Enabled(s, step)
    ensures PendingOk(Apply(s, step))
  {
    var s' := Apply(s, step);
    forall n, id | 0 <= n < |s'.managers| && id in s'.managers[n].pending ensures EntryOk(s', n, id) {
      assert id in s.managers[n].pending ==> EntryOk(s, n, id);
    }
    forall k | 0 <= k < |s'.calls| && !s'.calls[k].phase.Done? ensures IsPending(s', k) {
      assert k < |s.calls| ==> IsPending(s, k);
    }
  }

  lemma PendingFinish(s: Net, c: nat)
    requires Inv(s) && Enabled(s, DoFinish(c))
    ensures PendingOk(Apply(s, DoFinish(c)))
  {
    var s' := Apply(s, DoFinish(c));
    assert IsPending(s, c);
    forall n, id | 0 <= n < |s'.managers| && id in s'.managers[n].pending ensures EntryOk(s', n, id) {
      FinishKeepsEntry(s, c, n, id);
    }
    forall k | 0 <= k < |s'.calls| && !s'.calls[k].phase.Done? ensures IsPending(s', k) {
      assert k != c && s'.calls[k] == s.calls[k];
      assert IsPending(s, k);
    }
  }

  lemma FinishKeepsEntry(s: Net, c: nat, n: nat, id: string)
    requires PendingOk(s) && Enabled(s, DoFinish(c)) && IsPending(s, c)
    requires n < |s.managers| && id in Apply(s, DoFinish(c)).managers[n].pending
    ensures EntryOk(Apply(s, DoFinish(c)), n, id)
  {
    assert EntryOk(s, n, id);
  }

  lemma TouchKeepsRegistry(s: Net, step: Step)
    requires Inv(s) && Enabled(s, step) && !step.DoFinish? && Touched(s, step).Some?
    ensures SameRegistry(s, Apply(s, step))
  {
    TouchedCallOk(s, step);
    var c, s' := Touched(s, step).value, Apply(s, step);
    assert s'.managers == s.managers;
    assert s'.calls[c].node == s.calls[c].node && s'.calls[c].phase.Done? == s.calls[c].phase.Done?;
  }

  lemma OtherKeepsRegistry(s: Net, step: Step)
    requires Enabled(s, step) && !step.DoCall? && Touched(s, step).None?
    ensures SameRegistry(s, Apply(s, step))
  {
    var s' := Apply(s, step);
    assert s'.calls == s.calls;
    assert !step.DoRegister? ==> s'.managers == s.managers;
  }

  lemma PendingStep(s: Net, step: Step)
    requires Inv(s)
    ensures PendingOk(Apply(s, step))
  {
    if Enabled(s, step) {
      if step.DoCall? {
        PendingCall(s, step);
      } else if step.DoFinish? {
        PendingFinish(s, step.c);
      } else {
        if Touched(s, step).Some? {
          TouchKeepsRegistry(s, step);
        } else {
          OtherKeepsRegistry(s, step);
        }
        PendingFrame(s, Apply(s, step));
      }
    }
  }

  lemma RequestsKept(s: Net, step: Step)
    ensures |Apply(s, step).managers| == |s.managers|
    ensures |s.calls| <= |Apply(s, step).calls|
    ensures forall k :: 0 <= k < |s.calls| ==> Apply(s, step).calls[k].request == s.calls[k].request
  {
  }

  lemma DeliveriesStep(s: Net, step: Step)
    requires Inv(s)
    ensures DeliveriesOk(Apply(s, step))
  {
    var s' := Apply(s, step);
    RequestsKept(s, step);
    forall d | 0 <= d < |s'.deliveries| ensures DeliveryOk(s', s'.deliveries[d]) {
      if s'.deliveries[d] in s.deliveries {
        var k :| 0 <= k < |s.deliveries| && s.deliveries[k] == s'.deliveries[d];
        assert DeliveryOk(s, s.deliveries[k]);
      } else {
        assert EntryOk(s, step.n, step.packet.id);
      }
    }
  }

  lemma {:induction false} Reachable(size: nat, steps: seq<Step>)
    ensures Inv(Exec(size, steps)) && |Exec(size, steps).managers| == size
  {
    if steps != [] {
      var s, last := Exec(size, steps[..|steps| - 1]), steps[|steps| - 1];
      Reachable(size, steps[..|steps| - 1]);
      CallsStep(s, last);
      PendingStep(s, last);
      DeliveriesStep(s, last);
    }
  }

  // ---------------------------------------------------------------- one manager

  /** In every reachable state the pending maps hold exactly the registered, unfinished calls; every channel
      buffers at most one packet, a response with the call's own identifier. */
  lemma {:induction false} PendingIsExact(size: nat, steps: seq<Step>)
    ensures var s := Exec(size, steps);
            && |s.managers| == size
            && (forall n, id, k :: 0 <= n < size ==>
                  ((id in s.managers[n].pending && s.managers[n].pending[id] == k)
                   <==> (0 <= k < |s.calls| && s.calls[k].node == n && s.calls[k].request.id == id && !s.calls[k].phase.Done?)))
            && (forall k :: 0 <= k < |s.calls| ==>
                  && |s.calls[k].buffer| <= 1
                  && forall p :: p in s.calls[k].buffer ==> p.response && p.id == s.calls[k].request.id)
  {
    Reachable(size, steps);
    var s := Exec(size, steps);
    forall n, id, k | 0 <= n < size && id in s.managers[n].pending && s.managers[n].pending[id] == k
      ensures 0 <= k < |s.calls| && s.calls[k].node == n && s.calls[k].request.id == id && !s.calls[k].phase.Done?
    {
      assert EntryOk(s, n, id);
    }
    forall k | 0 <= k < |s.calls| && !s.calls[k].phase.Done?
      ensures s.calls[k].node < size && s.calls[k].request.id in s.managers[s.calls[k].node].pending
      ensures s.managers[s.calls[k].node].pending[s.calls[k].request.id] == k
    {
      assert IsPending(s, k);
    }
    forall k, p | 0 <= k < |s.calls| && p in s.calls[k].buffer ensures p.response && p.id == s.calls[k].request.id {
      assert CallOk(size, s.calls[k]);
      assert p in s.calls[k].placed;
    }
  }

  /** A pending map is empty exactly when every call of its node has returned: nothing leaks, and nothing is
      dropped early. */
  lemma {:induction false} NoLeak(size: nat, steps: seq<Step>, n: nat)
    requires n < size
    ensures var s := Exec(size, steps);
            && n < |s.managers|
            && (s.managers[n].pending == map[] <==> forall k :: 0 <= k < |s.calls| && s.calls[k].node == n ==> s.calls[k].phase.Done?)
  {
    Reachable(size, steps);
    var s := Exec(size, steps);
    if forall k :: 0 <= k < |s.calls| && s.calls[k].node == n ==> s.calls[k].phase.Done? {
      assert forall id :: id in s.managers[n].pending ==> EntryOk(s, n, id);
      assert s.managers[n].pending.Keys == {};
    } else {
      var k :| 0 <= k < |s.calls| && s.calls[k].node == n && !s.calls[k].phase.Done?;
      assert IsPending(s, k);
    }
  }

  ghost predicate Ended(call: Call) {
    call.phase.Returning? || call.phase.Done?
  }

  /** A call that ended by a reply returned the first response ever placed in its channel. */
  lemma {:induction false} FirstResponseWins(size: nat, steps: seq<Step>, k: nat)
    requires k < |Exec(size, steps).calls| && Ended(Exec(size, steps).calls[k])
    ensures var call := Exec(size, steps).calls[k];
            match call.phase.reply
            case Some(p) => call.placed != [] && p == call.placed[0] && call.phase.result == ReadResponse(p)
                            && p.response && p.id == call.request.id
            case None => call.phase.result in {SendFailed, Cancelled, TimedOut}
  {
    Reachable(size, steps);
    var s := Exec(size, steps);
    assert CallOk(|s.managers|, s.calls[k]);
    assert s.calls[k].phase.reply.Some? ==> s.calls[k].placed[0] == s.calls[k].phase.reply.value;
  }

  /** What a call ended with never changes again. */
  ghost predicate SameEnd(a: Call, b: Call) {
    Ended(a) ==> Ended(b) && b.phase.result == a.phase.result && b.phase.reply == a.phase.reply
  }

  lemma EndKeptByStep(s: Net, step: Step, k: nat)
    requires k < |s.calls|
    ensures k < |Apply(s, step).calls| && SameEnd(s.calls[k], Apply(s, step).calls[k])
  {
  }

  /** Whatever happens afterwards, late and duplicate responses included, an ended call keeps its outcome. */
  lemma {:induction false} OutcomeIsFinal(size: nat, steps: seq<Step>, more: seq<Step>, k: nat)
    requires k < |Exec(size, steps).calls|
    ensures k < |Exec(size, steps + more).calls|
    ensures SameEnd(Exec(size, steps).calls[k], Exec(size, steps + more).calls[k])
    decreases |more|
  {
    if more == [] {
      assert steps + more == steps;
    } else {
      var front := more[..|more| - 1];
      OutcomeIsFinal(size, steps, front, k);
      assert (steps + more)[..|steps + more| - 1] == steps + front;
      EndKeptByStep(Exec(size, steps + front), more[|more| - 1], k);
    }
  }

  /** The packet an ingress step works on. */
  ghost function Carried(s: Net, step: Step): Option<RPCPacket> {
    match step
    case DoLookup(_, p) => Some(p)
    case DoPlace(d) => if d < |s.deliveries| then Some(s.deliveries[d].packet) else None
    case DoDrop(d) => if d < |s.deliveries| then Some(s.deliveries[d].packet) else None
    case _ => None
  }

  /** A response touches no call but the one with its identifier, changes no call's phase and no pending map. */
  lemma {:induction false} ResponsesAreIsolated(size: nat, steps: seq<Step>, step: Step, k: nat)
    requires k < |Exec(size, steps).calls| && Carried(Exec(size, steps), step).Some?
    ensures var s, s' := Exec(size, steps), Apply(Exec(size, steps), step);
            && |s'.calls| == |s.calls| && s'.managers == s.managers
            && s'.calls[k].phase == s.calls[k].phase
            && (Carried(s, step).value.id != s.calls[k].request.id ==> s'.calls[k] == s.calls[k])
  {
    Reachable(size, steps);
    var s := Exec(size, steps);
    if step.DoPlace? {
      assert DeliveryOk(s, s.deliveries[step.d]);
    }
  }

  /** What ingress steps leave alone. */
  ghost predicate SameCallers(s: Net, s': Net) {
    && s'.managers == s.managers && |s'.calls| == |s.calls|
    && (forall k :: 0 <= k < |s.calls| ==> s'.calls[k].phase == s.calls[k].phase)
  }

  /** The first waiting ingress goroutine can finish in one step of its own. */
  lemma DrainStep(s: Net) returns (step: Step)
    requires Inv(s) && s.deliveries != []
    ensures step.DoPlace? || step.DoDrop?
    ensures |Apply(s, step).deliveries| == |s.deliveries| - 1 && SameCallers(s, Apply(s, step))
  {
    assert DeliveryOk(s, s.deliveries[0]);
    step := if Enabled(s, DoPlace(0)) then DoPlace(0) else DoDrop(0);
    assert Enabled(s, step);
  }

  /** Ingress goroutines never block, whatever the callers do: from every reachable state they all finish by their
      own steps alone, one each, without any caller moving, and change no phase, pending map or handler. */
  lemma {:induction false} IngressNeverBlocks(size: nat, steps: seq<Step>) returns (drain: seq<Step>)
    ensures var s, s' := Exec(size, steps), Exec(size, steps + drain);
            && |drain| == |s.deliveries| && (forall k :: 0 <= k < |drain| ==> drain[k].DoPlace? || drain[k].DoDrop?)
            && s'.deliveries == [] && SameCallers(s, s')
  {
    drain := DrainOf(size, steps, |Exec(size, steps).deliveries|);
  }

  lemma {:induction false} DrainOf(size: nat, steps: seq<Step>, count: nat) returns (drain: seq<Step>)
    requires count == |Exec(size, steps).deliveries|
    ensures |drain| == count && (forall k :: 0 <= k < |drain| ==> drain[k].DoPlace? || drain[k].DoDrop?)
    ensures Exec(size, steps + drain).deliveries == []
    ensures SameCallers(Exec(size, steps), Exec(size, steps + drain))
    decreases count
  {
    if count == 0 {
      drain := [];
      assert steps + drain == steps;
    } else {
      var step := OneDrained(size, steps);
      var rest := DrainOf(size, steps + [step], count - 1);
      drain := [step] + rest;
      assert steps + drain == steps + [step] + rest;
    }
  }

  lemma OneDrained(size: nat, steps: seq<Step>) returns (step: Step)
    requires Exec(size, steps).deliveries != []
    ensures step.DoPlace? || step.DoDrop?
    ensures |Exec(size, steps + [step]).deliveries| == |Exec(size, steps).deliveries| - 1
    ensures SameCallers(Exec(size, steps), Exec(size, steps + [step]))
  {
    Reachable(size, steps);
    step := DrainStep(Exec(size, steps));
    assert (steps + [step])[..|steps|] == steps;
  }

  /** Pending keys are 32 hexadecimal characters, so a reply to a notification finds no waiter anywhere. */
  lemma {:induction false} NotificationRepliesAreIgnored(size: nat, steps: seq<Step>, n: nat, p: RPCPacket)
    requires |p.id| != 32
    ensures Apply(Exec(size, steps), DoLookup(n, p)) == Exec(size, steps)
  {
    Reachable(size, steps);
    var s := Exec(size, steps);
    if n < size {
      forall id | id in s.managers[n].pending ensures |id| == 32 {
        assert EntryOk(s, n, id);
        assert CallOk(size, s.calls[s.managers[n].pending[id]]);
      }
    }
  }

  // ---------------------------------------------------------------- the whole mesh

  /** Nothing is delivered that was not sent. */
  ghost predicate Honest(size: nat, steps: seq<Step>) {
    steps != [] ==>
      var front, last := steps[..|steps| - 1], steps[|steps| - 1];
      && Honest(size, front)
      && (last.DoLookup? || last.DoServe? ==> last.packet in Exec(size, front).sent)
  }

  ghost predicate SentByCall(s: Net, p: RPCPacket) {
    exists k :: 0 <= k < |s.calls| && s.calls[k].request == p
  }

  ghost predicate SentByHandler(s: Net, p: RPCPacket) {
    exists e :: e in s.executions && p == Response(e.request, e.result)
  }

  ghost predicate PacketOk(s: Net, p: RPCPacket) {
    if p.response then SentByHandler(s, p) else p.id == "" || SentByCall(s, p)
  }

  ghost predicate ExecutionOk(s: Net, e: Execution) {
    && e.node < |s.managers| && e.request.procedure in s.managers[e.node].handlers
    && e.request in s.sent && !e.request.response
  }

  ghost predicate ProvenanceOk(s: Net) {
    && (forall p :: p in s.sent ==> PacketOk(s, p))
    && (forall e :: e in s.executions ==> ExecutionOk(s, e))
    && (forall d :: 0 <= d < |s.deliveries| ==> s.deliveries[d].packet in s.sent)
    && (forall k, p :: 0 <= k < |s.calls| && p in s.calls[k].placed ==> p in s.sent)
  }

  lemma HistoryGrows(s: Net, step: Step)
    ensures s.sent <= Apply(s, step).sent && s.executions <= Apply(s, step).executions
    ensures forall n :: 0 <= n < |s.managers| ==> s.managers[n].handlers <= Apply(s, step).managers[n].handlers
  {
  }

  lemma {:induction false} PacketStays(s: Net, step: Step, p: RPCPacket)
    requires PacketOk(s, p)
    ensures PacketOk(Apply(s, step), p)
  {
    RequestsKept(s, step);
    HistoryGrows(s, step);
    if p.response {
      var e :| e in s.executions && p == Response(e.request, e.result);
      assert e in Apply(s, step).executions;
    } else if p.id != "" {
      var k :| 0 <= k < |s.calls| && s.calls[k].request == p;
      assert Apply(s, step).calls[k].request == p;
    }
  }

  lemma {:induction false} NewPacketOk(s: Net, step: Step, p: RPCPacket)
    requires CallsOk(s) && p in Apply(s, step).sent && p !in s.sent
    ensures PacketOk(Apply(s, step), p)
  {
    var s' := Apply(s, step);
    match step
    case DoSend(c, _, _) =>
      assert CallOk(|s.managers|, s.calls[c]);
      assert s'.calls[c].request == p;
    case DoServe(n, packet, _, result) =>
      assert Execution(n, packet, result) in s'.executions;
    case _ =>
  }

  lemma ExecutionsStep(s: Net, step: Step, e: Execution)
    requires ProvenanceOk(s) && e in Apply(s, step).executions
    requires step.DoServe? ==> step.packet in s.sent
    ensures ExecutionOk(Apply(s, step), e)
  {
    RequestsKept(s, step);
    HistoryGrows(s, step);
    if e in s.executions {
      assert ExecutionOk(s, e);
    }
  }

  lemma DeliveredWasSent(s: Net, step: Step, d: nat)
    requires ProvenanceOk(s) && d < |Apply(s, step).deliveries|
    requires step.DoLookup? ==> step.packet in s.sent
    ensures Apply(s, step).deliveries[d].packet in s.sent
  {
  }

  lemma PlacedWasSent(s: Net, step: Step, k: nat, p: RPCPacket)
    requires ProvenanceOk(s) && k < |Apply(s, step).calls| && p in Apply(s, step).calls[k].placed
    ensures p in s.sent
  {
    if k < |s.calls| && p !in s.calls[k].placed {
      assert step.DoPlace? && p == s.deliveries[step.d].packet;
    }
  }

  lemma ProvenanceStep(s: Net, step: Step)
    requires CallsOk(s) && ProvenanceOk(s)
    requires step.DoLookup? || step.DoServe? ==> step.packet in s.sent
    ensures ProvenanceOk(Apply(s, step))
  {
    var s' := Apply(s, step);
    HistoryGrows(s, step);
    forall p | p in s'.sent ensures PacketOk(s', p) {
      if p in s.sent {
        PacketStays(s, step, p);
      } else {
        NewPacketOk(s, step, p);
      }
    }
    forall e | e in s'.executions ensures ExecutionOk(s', e) {
      ExecutionsStep(s, step, e);
    }
    forall d | 0 <= d < |s'.deliveries| ensures s'.deliveries[d].packet in s'.sent {
      DeliveredWasSent(s, step, d);
    }
    forall k, p | 0 <= k < |s'.calls| && p in s'.calls[k].placed ensures p in s'.sent {
      PlacedWasSent(s, step, k, p);
    }
  }

  lemma {:induction false} ProvenanceReachable(size: nat, steps: seq<Step>)
    requires Honest(size, steps)
    ensures ProvenanceOk(Exec(size, steps))
  {
    if steps != [] {
      var front := steps[..|steps| - 1];
      Reachable(size, front);
      ProvenanceReachable(size, front);
      ProvenanceStep(Exec(size, front), steps[|steps| - 1]);
    }
  }

  /** Handler run e answers the call's own request, and p is that answer. */
  ghost predicate AnsweredBy(s: Net, call: Call, p: RPCPacket, e: Execution) {
    && e in s.executions
    && e.node < |s.managers| && call.request.procedure in s.managers[e.node].handlers
    && e.request == call.request
    && p == Response(e.request, e.result)
  }

  /** Only the call that asked can be completed by a reply, wherever it was delivered, and a completed call's
      result is what some node's handler for its procedure returned on its own payload. */
  lemma {:induction false} RepliesComeFromHandlers(size: nat, steps: seq<Step>, k: nat)
    requires Honest(size, steps)
    requires k < |Exec(size, steps).calls|
    requires Ended(Exec(size, steps).calls[k]) && Exec(size, steps).calls[k].phase.reply.Some?
    ensures var s := Exec(size, steps);
            var call, p := s.calls[k], s.calls[k].phase.reply.value;
            && (exists e :: AnsweredBy(s, call, p, e))
            && (forall e :: AnsweredBy(s, call, p, e) ==>
                  if e.result.err.Some? && e.result.err.value != "" then call.phase.result == RemoteError(e.result.err.value)
                  else call.phase.result == Returned(e.result.payload))
            && (forall j :: 0 <= j < |s.calls| && s.calls[j].request.id == p.id ==> j == k)
  {
    Reachable(size, steps);
    ProvenanceReachable(size, steps);
    FirstResponseWins(size, steps, k);
    var s := Exec(size, steps);
    var e := AnswerExists(s, k, s.calls[k].phase.reply.value);
  }

  lemma {:induction false} AnswerExists(s: Net, k: nat, p: RPCPacket) returns (e: Execution)
    requires CallsOk(s) && ProvenanceOk(s) && k < |s.calls| && p in s.calls[k].placed
    ensures AnsweredBy(s, s.calls[k], p, e)
    ensures p.id == s.calls[k].request.id
    ensures forall j :: 0 <= j < |s.calls| && s.calls[j].request.id == p.id ==> j == k
  {
    assert CallOk(|s.managers|, s.calls[k]);
    assert p.response && p.id == s.calls[k].request.id && |p.id| == 32;
    assert PacketOk(s, p);
    e :| e in s.executions && p == Response(e.request, e.result);
    assert ExecutionOk(s, e);
    assert PacketOk(s, e.request);
    var j :| 0 <= j < |s.calls| && s.calls[j].request == e.request;
    assert j == k;
  }
}
