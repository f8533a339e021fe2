/** What the RPC mesh does for its callers: calls and notifications get through, refused requests run nothing, and
    every result comes from the step that stands for it. */
module RpcDelivery {
  import opened Common
  import opened Rpc
  import opened RpcMesh

  lemma ExecSnoc(size: nat, steps: seq<Step>, step: Step)
    ensures Exec(size, steps + [step]) == Apply(Exec(size, steps), step)
  {
    assert (steps + [step])[..|steps|] == steps;
  }

  // ---------------------------------------------------------------- serving

  ghost predicate WasRegistered(steps: seq<Step>, n: nat, procedure: string) {
    exists i :: 0 <= i < |steps| && steps[i] == DoRegister(n, procedure)
  }

  lemma HistorySnoc(steps: seq<Step>, n: nat, procedure: string)
    requires steps != []
    ensures WasRegistered(steps, n, procedure)
            <==> WasRegistered(steps[..|steps| - 1], n, procedure) || steps[|steps| - 1] == DoRegister(n, procedure)
  {
    var front := steps[..|steps| - 1];
    if WasRegistered(front, n, procedure) {
      var i :| 0 <= i < |front| && front[i] == DoRegister(n, procedure);
      assert steps[i] == front[i];
    }
    if WasRegistered(steps, n, procedure) {
      var i :| 0 <= i < |steps| && steps[i] == DoRegister(n, procedure);
      assert i < |front| ==> front[i] == steps[i];
    }
  }

  lemma HandlersStep(s: Net, step: Step, n: nat, procedure: string)
    requires n < |s.managers|
    ensures n < |Apply(s, step).managers|
    ensures procedure in Apply(s, step).managers[n].handlers
            <==> procedure in s.managers[n].handlers || step == DoRegister(n, procedure)
  {
  }

  lemma {:induction false} HandlersFollowHistory(size: nat, steps: seq<Step>, n: nat, procedure: string)
    requires n < size
    ensures n < |Exec(size, steps).managers|
    ensures procedure in Exec(size, steps).managers[n].handlers <==> WasRegistered(steps, n, procedure)
  {
    if steps != [] {
      HandlersFollowHistory(size, steps[..|steps| - 1], n, procedure);
      HistorySnoc(steps, n, procedure);
      HandlersStep(Exec(size, steps[..|steps| - 1]), steps[|steps| - 1], n, procedure);
    }
  }

  /** The reply to a request, field by field. */
  function ReplyTo(q: RPCPacket, result: HandlerResult): RPCPacket {
    RPCPacket(q.id, q.procedure, result.payload, [], q.source, true,
              match result.err case None => "" case Some(message) => message)
  }

  /** A request that arrives runs a handler and sends its reply exactly if the data engine accepts it and a handler
      for its procedure was registered at the node before; otherwise nothing happens at all. */
  lemma {:induction false} ServedIff(size: nat, steps: seq<Step>, n: nat, q: RPCPacket, accepts: bool, result: HandlerResult)
    requires n < size && !q.response
    ensures var s, s' := Exec(size, steps), Exec(size, steps + [DoServe(n, q, accepts, result)]);
            if accepts && WasRegistered(steps, n, q.procedure) then
              s' == s.(sent := s.sent + {ReplyTo(q, result)}, executions := s.executions + {Execution(n, q, result)})
            else s' == s
  {
    ExecSnoc(size, steps, DoServe(n, q, accepts, result));
    HandlersFollowHistory(size, steps, n, q.procedure);
  }

  /** Broadcast, Notify and NotifyPeer reach handlers: the packet goes out with the caller's fields and no identifier,
      and a node where its procedure was registered runs the handler on it. */
  lemma {:induction false} NotificationsAreServed(size: nat, steps: seq<Step>, n: nat, target: seq<byte>, procedure: string,
                                                  payload: seq<byte>, h: nat, result: HandlerResult)
    requires n < size && h < size && WasRegistered(steps, h, procedure)
    ensures var q := RPCPacket("", procedure, payload, [], target, false, "");
            var sent := steps + [DoNotify(n, target, procedure, payload)];
            && q in Exec(size, sent).sent
            && Execution(h, q, result) in Exec(size, sent + [DoServe(h, q, true, result)]).executions
  {
    var sent := steps + [DoNotify(n, target, procedure, payload)];
    Reachable(size, steps);
    ExecSnoc(size, steps, DoNotify(n, target, procedure, payload));
    RegisteredLater(steps, [DoNotify(n, target, procedure, payload)], h, procedure);
    ServedIff(size, sent, h, RPCPacket("", procedure, payload, [], target, false, ""), true, result);
  }

  lemma RegisteredLater(steps: seq<Step>, more: seq<Step>, n: nat, procedure: string)
    requires WasRegistered(steps, n, procedure)
    ensures WasRegistered(steps + more, n, procedure)
  {
    var i :| 0 <= i < |steps| && steps[i] == DoRegister(n, procedure);
    assert (steps + more)[i] == steps[i];
  }

  // ---------------------------------------------------------------- a response completes its call

  lemma LookupStep(s: Net, k: nat, p: RPCPacket)
    requires Inv(s) && k < |s.calls| && s.calls[k].phase == Waiting && p.response && p.id == s.calls[k].request.id
    ensures Apply(s, DoLookup(s.calls[k].node, p)) == s.(deliveries := s.deliveries + [Delivery(p, k)])
  {
    assert IsPending(s, k);
  }

  lemma PlaceStep(s: Net, deliveries: seq<Delivery>, k: nat, p: RPCPacket)
    requires k < |s.calls| && s.calls[k].buffer == [] && s.deliveries == deliveries + [Delivery(p, k)]
    ensures Apply(s, DoPlace(|deliveries|))
            == s.(deliveries := deliveries,
                  calls := s.calls[k := s.calls[k].(buffer := [p], placed := s.calls[k].placed + [p])])
  {
    var d := |deliveries|;
    assert s.deliveries[d] == Delivery(p, k) && Remove(s.deliveries, d) == deliveries;
    assert Enabled(s, DoPlace(d));
    assert [] + [p] == [p];
  }

  /** What the caller returns for a response. */
  function ResultOf(p: RPCPacket): CallResult {
    if p.error != "" then RemoteError(p.error) else Returned(p.payload)
  }

  lemma ReceiveStep(s: Net, k: nat, p: RPCPacket)
    requires k < |s.calls| && s.calls[k].phase == Waiting && s.calls[k].buffer == [p]
    ensures Apply(s, DoReceive(k))
            == s.(calls := s.calls[k := s.calls[k].(phase := Returning(ResultOf(p), Some(p)), buffer := [])])
  {
    assert [p][1..] == [];
  }

  lemma FinishStep(s: Net, k: nat)
    requires k < |s.calls| && s.calls[k].phase.Returning? && s.calls[k].node < |s.managers|
    ensures var s', phase := Apply(s, DoFinish(k)), s.calls[k].phase;
            s'.calls == s.calls[k := s.calls[k].(phase := Done(phase.result, phase.reply))] && s'.deliveries == s.deliveries
  {
  }

  function Completion(node: nat, p: RPCPacket, d: nat, k: nat): seq<Step> {
    [DoLookup(node, p), DoPlace(d), DoReceive(k), DoFinish(k)]
  }

  /** In every reachable state, the first response to reach a waiting call ends it, with its error if it has one and
      its payload otherwise, and no other call is touched. */
  lemma {:induction false} ResponseCompletesCall(size: nat, steps: seq<Step>, k: nat, p: RPCPacket)
    requires k < |Exec(size, steps).calls| && Exec(size, steps).calls[k].phase == Waiting
    requires Exec(size, steps).calls[k].buffer == []
    requires p.response && p.id == Exec(size, steps).calls[k].request.id
    ensures var s := Exec(size, steps);
            var s' := Exec(size, steps + Completion(s.calls[k].node, p, |s.deliveries|, k));
            && |s'.calls| == |s.calls| && s'.calls[k].phase == Done(ResultOf(p), Some(p))
            && s'.calls[k].request == s.calls[k].request && s'.deliveries == s.deliveries
            && (forall j :: 0 <= j < |s.calls| && j != k ==> s'.calls[j] == s.calls[j])
  {
    var s := Exec(size, steps);
    var node, d := s.calls[k].node, |s.deliveries|;
    Reachable(size, steps);
    assert CallOk(size, s.calls[k]);
    LookupStep(s, k, p);
    var l, r := steps + [DoLookup(node, p)], steps + [DoLookup(node, p)] + [DoPlace(d)] + [DoReceive(k)];
    ExecSnoc(size, steps, DoLookup(node, p));
    PlaceStep(Exec(size, l), s.deliveries, k, p);
    ExecSnoc(size, l, DoPlace(d));
    ReceiveStep(Exec(size, l + [DoPlace(d)]), k, p);
    ExecSnoc(size, l + [DoPlace(d)], DoReceive(k));
    FinishStep(Exec(size, r), k);
    ExecSnoc(size, r, DoFinish(k));
    assert r + [DoFinish(k)] == steps + Completion(node, p, d, k);
  }

  // ---------------------------------------------------------------- a whole call

  lemma CallIsWaiting(size: nat, steps: seq<Step>, n: nat, random: seq<byte>, target: seq<byte>, procedure: string, payload: seq<byte>)
    requires n < size && |random| == ID_BYTES && FreshId(Exec(size, steps), RequestId(random))
    ensures var s := Exec(size, steps);
            var q := RPCPacket(RequestId(random), procedure, payload, [], target, false, "");
            var s' := Exec(size, steps + [DoCall(n, random, target, procedure, payload), DoSend(|s.calls|, true, true)]);
            && s'.calls == s.calls + [Call(n, q, Waiting, [], [])]
            && s'.deliveries == s.deliveries && s'.sent == s.sent + {q}
  {
    var s, call := Exec(size, steps), DoCall(n, random, target, procedure, payload);
    var send := DoSend(|s.calls|, true, true);
    Reachable(size, steps);
    ExecSnoc(size, steps, call);
    ExecSnoc(size, steps + [call], send);
    assert steps + [call] + [send] == steps + [call, send];
  }

  /** The steps of a call that is sent, served at node h and answered, with nothing in between. */
  function WholeCall(n: nat, random: seq<byte>, target: seq<byte>, procedure: string, payload: seq<byte>, h: nat,
                     result: HandlerResult, c: nat, d: nat): seq<Step>
    requires |random| == ID_BYTES
  {
    var q := RPCPacket(RequestId(random), procedure, payload, [], target, false, "");
    [DoCall(n, random, target, procedure, payload), DoSend(c, true, true), DoServe(h, q, true, result)]
    + Completion(n, ReplyTo(q, result), d, c)
  }

  /** A call gets its answer: from every reachable state, a call whose request is delivered to a node where its
      procedure was registered, is accepted there, and whose reply is delivered back, returns what the handler
      returned: its error if that has a message, and otherwise its payload. */
  lemma {:induction false} CallCompletes(size: nat, steps: seq<Step>, n: nat, random: seq<byte>, target: seq<byte>,
                                         procedure: string, payload: seq<byte>, h: nat, result: HandlerResult)
    requires n < size && h < size && |random| == ID_BYTES && FreshId(Exec(size, steps), RequestId(random))
    requires WasRegistered(steps, h, procedure)
    ensures var s := Exec(size, steps);
            var s' := Exec(size, steps + WholeCall(n, random, target, procedure, payload, h, result, |s.calls|, |s.deliveries|));
            && |s'.calls| == |s.calls| + 1
            && s'.calls[|s.calls|].phase.Done?
            && s'.calls[|s.calls|].phase.result
               == (if result.err.Some? && result.err.value != "" then RemoteError(result.err.value) else Returned(result.payload))
            && (forall j :: 0 <= j < |s.calls| ==> s'.calls[j] == s.calls[j])
  {
    var s := Exec(size, steps);
    var c, q := |s.calls|, RPCPacket(RequestId(random), procedure, payload, [], target, false, "");
    var waiting := steps + [DoCall(n, random, target, procedure, payload), DoSend(c, true, true)];
    var served := waiting + [DoServe(h, q, true, result)];
    CallIsWaiting(size, steps, n, random, target, procedure, payload);
    RegisteredLater(steps, waiting[|steps|..], h, procedure);
    assert waiting == steps + waiting[|steps|..];
    ServedIff(size, waiting, h, q, true, result);
    ResponseCompletesCall(size, served, c, ReplyTo(q, result));
    assert served + Completion(n, ReplyTo(q, result), |s.deliveries|, c)
           == steps + WholeCall(n, random, target, procedure, payload, h, result, c, |s.deliveries|);
  }

  lemma HonestSnoc(size: nat, steps: seq<Step>, step: Step)
    requires Honest(size, steps) && (step.DoLookup? || step.DoServe? ==> step.packet in Exec(size, steps).sent)
    ensures Honest(size, steps + [step])
  {
    assert (steps + [step])[..|steps|] == steps;
  }

  /** Nothing in such a call is delivered that was not sent. */
  lemma {:induction false} WholeCallIsHonest(size: nat, steps: seq<Step>, n: nat, random: seq<byte>, target: seq<byte>,
                                             procedure: string, payload: seq<byte>, h: nat, result: HandlerResult)
    requires Honest(size, steps)
    requires n < size && h < size && |random| == ID_BYTES && FreshId(Exec(size, steps), RequestId(random))
    requires WasRegistered(steps, h, procedure)
    ensures var s := Exec(size, steps);
            Honest(size, steps + WholeCall(n, random, target, procedure, payload, h, result, |s.calls|, |s.deliveries|))
  {
    var s := Exec(size, steps);
    var c, d, q := |s.calls|, |s.deliveries|, RPCPacket(RequestId(random), procedure, payload, [], target, false, "");
    var call, send, serve := DoCall(n, random, target, procedure, payload), DoSend(c, true, true), DoServe(h, q, true, result);
    var p := ReplyTo(q, result);
    CallIsWaiting(size, steps, n, random, target, procedure, payload);
    var waiting := steps + [call, send];
    QuietStepsAreHonest(size, steps, [call, send]);
    HonestSnoc(size, waiting, serve);
    RegisteredLater(steps, [call, send], h, procedure);
    ServedIff(size, waiting, h, q, true, result);
    CompletionIsHonest(size, waiting + [serve], n, p, d, c);
    assert waiting + [serve] + Completion(n, p, d, c)
           == steps + WholeCall(n, random, target, procedure, payload, h, result, c, d);
  }

  /** Steps that deliver nothing from the network keep a run honest. */
  lemma {:induction false} QuietStepsAreHonest(size: nat, steps: seq<Step>, more: seq<Step>)
    requires Honest(size, steps) && forall k :: 0 <= k < |more| ==> !more[k].DoLookup? && !more[k].DoServe?
    ensures Honest(size, steps + more)
    decreases |more|
  {
    if more == [] {
      assert steps + more == steps;
    } else {
      var front, last := more[..|more| - 1], more[|more| - 1];
      QuietStepsAreHonest(size, steps, front);
      HonestSnoc(size, steps + front, last);
      assert steps + more == steps + front + [last];
    }
  }

  lemma CompletionIsHonest(size: nat, steps: seq<Step>, n: nat, p: RPCPacket, d: nat, c: nat)
    requires Honest(size, steps) && p in Exec(size, steps).sent
    ensures Honest(size, steps + Completion(n, p, d, c))
  {
    HonestSnoc(size, steps, DoLookup(n, p));
    QuietStepsAreHonest(size, steps + [DoLookup(n, p)], [DoPlace(d), DoReceive(c), DoFinish(c)]);
    assert steps + [DoLookup(n, p)] + [DoPlace(d), DoReceive(c), DoFinish(c)] == steps + Completion(n, p, d, c);
  }

  // ---------------------------------------------------------------- the other ways to end

  /** The step that makes call k end with a result other than a reply. */
  ghost predicate Stands(step: Step, k: nat, result: CallResult) {
    match result
    case SendFailed => step.DoSend? && step.c == k && !step.ok
    case Cancelled => step == DoCancel(k)
    case TimedOut => step == DoTimeout(k)
    case _ => false
  }

  ghost predicate StoodFor(steps: seq<Step>, k: nat, result: CallResult) {
    exists i :: 0 <= i < |steps| && Stands(steps[i], k, result)
  }

  lemma StoodStays(steps: seq<Step>, k: nat, result: CallResult)
    requires steps != [] && StoodFor(steps[..|steps| - 1], k, result)
    ensures StoodFor(steps, k, result)
  {
    var front := steps[..|steps| - 1];
    var i :| 0 <= i < |front| && Stands(front[i], k, result);
    assert steps[i] == front[i];
  }

  lemma EndStep(s: Net, step: Step, k: nat)
    requires k < |Apply(s, step).calls| && Ended(Apply(s, step).calls[k]) && Apply(s, step).calls[k].phase.reply.None?
    ensures var result := Apply(s, step).calls[k].phase.result;
            || Stands(step, k, result)
            || (k < |s.calls| && Ended(s.calls[k]) && s.calls[k].phase.reply.None? && s.calls[k].phase.result == result)
  {
  }

  /** A call that ended without a reply returned the error of the step that ended it: a failed send, the caller's
      cancellation, or the timeout. */
  lemma {:induction false} ErrorsFollowHistory(size: nat, steps: seq<Step>, k: nat)
    requires k < |Exec(size, steps).calls| && Ended(Exec(size, steps).calls[k]) && Exec(size, steps).calls[k].phase.reply.None?
    ensures StoodFor(steps, k, Exec(size, steps).calls[k].phase.result)
  {
    var front := steps[..|steps| - 1];
    EndStep(Exec(size, front), steps[|steps| - 1], k);
    var result := Exec(size, steps).calls[k].phase.result;
    if Stands(steps[|steps| - 1], k, result) {
    } else {
      ErrorsFollowHistory(size, front, k);
      StoodStays(steps, k, result);
    }
  }

  /** And each of them is possible wherever a call waits, or has not been sent: it ends the call at once. */
  lemma {:induction false} EveryWayEndsACall(size: nat, steps: seq<Step>, k: nat, step: Step, result: CallResult)
    requires k < |Exec(size, steps).calls| && Stands(step, k, result)
    requires Exec(size, steps).calls[k].phase == if step.DoSend? then Registered else Waiting
    ensures var s' := Exec(size, steps + [step] + [DoFinish(k)]);
            k < |s'.calls| && s'.calls[k].phase == Done(result, None)
  {
    Reachable(size, steps);
    assert CallOk(size, Exec(size, steps).calls[k]);
    ExecSnoc(size, steps, step);
    ExecSnoc(size, steps + [step], DoFinish(k));
  }
}
