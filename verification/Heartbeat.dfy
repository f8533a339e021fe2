/** Liveness of one stream: the heartbeat monitor of gateway.go, with time in whole seconds. */
module Heartbeat {
  import opened Common

  const PERIOD: int := 120
  const PATIENCE: int := 180

  /** The monitor's test of the stored time of the last accepted reply. */
  predicate Expired(lastSeen: Option<int>, now: int) {
    lastSeen.None? || now - lastSeen.value > PATIENCE
  }

  /** The monitor is in its loop, has closed the stream, or has returned without closing it. */
  datatype Status = Watching | Closed | Gone

  /** One stream's monitor: `lastSeen` is its entry among the active sessions, `nextTick` when the ticker fires. */
  datatype Monitor = Monitor(now: int, lastSeen: Option<int>, nextTick: int, status: Status)

  /** The session entry is stored anew (a reply is accepted, or the key connects again), the ticker fires and the
      challenge, if it comes to that, is written or not, time passes, the session entry is removed by the end of
      another stream of the key, or the stop channel is closed because this stream's read loop is over. */
  datatype Step = Refresh(at: int) | Tick(writeOk: bool) | Wait(until: int) | Forget | Stop

  /** Nothing overtakes a tick that is due; within one second replies and the tick come in either order. */
  predicate Enabled(m: Monitor, step: Step) {
    match step
    case Refresh(at) => m.now <= at && (m.status == Watching ==> at <= m.nextTick)
    case Wait(until) => m.now <= until && (m.status == Watching ==> until <= m.nextTick)
    case Forget => true
    case _ => m.status == Watching
  }

  function Apply(m: Monitor, step: Step): Monitor {
    if !Enabled(m, step) then m else
    match step
    case Refresh(at) => m.(now := at, lastSeen := Some(at))
    case Tick(writeOk) =>
      if Expired(m.lastSeen, m.nextTick) then m.(now := m.nextTick, status := Closed)
      else m.(now := m.nextTick, nextTick := m.nextTick + PERIOD, status := if writeOk then Watching else Gone)
    case Wait(until) => m.(now := until)
    case Forget => m.(lastSeen := None)
    case Stop => m.(status := Gone)
  }

  /** The session entry is stored at `start`; the monitor's ticker starts `delay` seconds later. */
  function Begin(start: int, delay: nat): Monitor {
    Monitor(start + delay, Some(start), start + delay + PERIOD, Watching)
  }

  function Exec(start: int, delay: nat, steps: seq<Step>): Monitor {
    if steps == [] then Begin(start, delay) else Apply(Exec(start, delay, steps[..|steps| - 1]), steps[|steps| - 1])
  }

  // ---------------------------------------------------------------- the history

  predicate Accepted(start: int, delay: nat, front: seq<Step>, step: Step) {
    step.Refresh? && Enabled(Exec(start, delay, front), step)
  }

  /** Time of the latest reply accepted in a run, or of the start: the history the monitor should go by. */
  function LastReply(start: int, delay: nat, steps: seq<Step>): int {
    if steps == [] then start else
    var front, last := steps[..|steps| - 1], steps[|steps| - 1];
    if Accepted(start, delay, front, last) then last.at else LastReply(start, delay, front)
  }

  /** When the session entry was removed, if no reply has been accepted since. */
  function ForgottenSince(start: int, delay: nat, steps: seq<Step>): Option<int> {
    if steps == [] then None else
    var front, last := steps[..|steps| - 1], steps[|steps| - 1];
    var before := ForgottenSince(start, delay, front);
    if Accepted(start, delay, front, last) then None
    else if last.Forget? && before.None? then Some(Exec(start, delay, front).now)
    else before
  }

  function Ticks(steps: seq<Step>): nat {
    if steps == [] then 0 else Ticks(steps[..|steps| - 1]) + if steps[|steps| - 1].Tick? then 1 else 0
  }

  /** When the next tick after these steps is due. */
  function DueTick(start: int, delay: nat, steps: seq<Step>): int {
    start + delay + PERIOD * (1 + Ticks(steps))
  }

  /** The next tick will find the entry removed, or the last reply more than PATIENCE seconds old. */
  ghost predicate Overdue(start: int, delay: nat, steps: seq<Step>) {
    || ForgottenSince(start, delay, steps).Some?
    || DueTick(start, delay, steps) - LastReply(start, delay, steps) > PATIENCE
  }

  /** Step k ends a monitor that has lasted so far. */
  ghost predicate Ends(start: int, delay: nat, steps: seq<Step>, k: nat)
    requires k < |steps|
  {
    steps[k].Stop? || (steps[k].Tick? && (!steps[k].writeOk || Overdue(start, delay, steps[..k])))
  }

  // ---------------------------------------------------------------- state and history

  /** 300 seconds after the last reply, or the time of the first tick if that is later. */
  function Deadline(start: int, delay: nat, reply: int): int {
    if reply + PATIENCE < start + delay then start + delay + PERIOD else reply + PATIENCE + PERIOD
  }

  ghost predicate Inv(start: int, delay: nat, steps: seq<Step>) {
    var m, l, f := Exec(start, delay, steps), LastReply(start, delay, steps), ForgottenSince(start, delay, steps);
    && m.lastSeen == (if f.Some? then None else Some(l))
    && l <= m.now
    && (f.Some? ==> f.value <= m.now)
    && (m.status == Watching ==>
          && m.nextTick == DueTick(start, delay, steps)
          && m.now <= m.nextTick <= m.now + PERIOD
          && m.nextTick <= Deadline(start, delay, l)
          && (f.Some? ==> m.nextTick <= f.value + PERIOD))
  }

  lemma {:induction false} Reachable(start: int, delay: nat, steps: seq<Step>)
    ensures Inv(start, delay, steps)
  {
    if steps != [] {
      Reachable(start, delay, steps[..|steps| - 1]);
    }
  }

  /** Replies that come in order count: one that comes no earlier than anything before it, and on a watched stream no
      later than the tick that is due, is the last reply from then on. */
  lemma {:induction false} RepliesInOrderCount(start: int, delay: nat, steps: seq<Step>, at: int)
    requires Exec(start, delay, steps).now <= at
    requires Exec(start, delay, steps).status == Watching ==> at <= DueTick(start, delay, steps)
    ensures LastReply(start, delay, steps + [Refresh(at)]) == at
    ensures ForgottenSince(start, delay, steps + [Refresh(at)]).None?
    ensures Exec(start, delay, steps + [Refresh(at)]).now == at
  {
    Reachable(start, delay, steps);
    assert (steps + [Refresh(at)])[..|steps|] == steps;
  }

  /** What one step does to a stream that is being watched, for every run: it closes the stream iff it is a tick
      that is overdue by the history, and it loses the monitor iff the stream's read loop is over or a challenge
      that was due could not be written. */
  lemma {:induction false} ClosesIff(start: int, delay: nat, steps: seq<Step>, step: Step)
    requires Exec(start, delay, steps).status == Watching
    ensures var after, overdue := Apply(Exec(start, delay, steps), step), Overdue(start, delay, steps);
            && (after.status == Closed <==> step.Tick? && overdue)
            && (after.status == Gone <==> step.Stop? || (step.Tick? && !step.writeOk && !overdue))
            && (after.status == Closed ==> after.now == DueTick(start, delay, steps))
  {
    Reachable(start, delay, steps);
  }

  /** The same over whole runs: the first step that ends the monitor decides whether the stream was closed. */
  lemma {:induction false} StatusFollowsHistory(start: int, delay: nat, steps: seq<Step>)
    ensures var status := Exec(start, delay, steps).status;
            && (status == Watching <==> forall k: nat :: k < |steps| ==> !Ends(start, delay, steps, k))
            && (status == Closed <==> exists k: nat :: ClosedAt(start, delay, steps, k))
  {
    if steps != [] {
      var front, n := steps[..|steps| - 1], |steps| - 1;
      StatusFollowsHistory(start, delay, front);
      EndsOfFront(start, delay, steps);
      if Exec(start, delay, front).status == Watching {
        ClosesIff(start, delay, front, steps[n]);
        assert Ends(start, delay, steps, n) ==> FirstEnd(start, delay, steps, n);
        assert ClosedAt(start, delay, steps, n) <==> steps[n].Tick? && Overdue(start, delay, front) by {
          assert steps[..n] == front;
        }
        assert forall k: nat :: !ClosedAt(start, delay, front, k);
      } else {
        var k: nat :| k < |front| && Ends(start, delay, front, k);
        assert Ends(start, delay, steps, k);
      }
    }
  }

  ghost predicate FirstEnd(start: int, delay: nat, steps: seq<Step>, k: nat)
    requires k < |steps|
  {
    Ends(start, delay, steps, k) && forall i: nat :: i < k ==> !Ends(start, delay, steps, i)
  }

  /** Step k is the first that ends the monitor, and it is a tick that is overdue by the history. */
  ghost predicate ClosedAt(start: int, delay: nat, steps: seq<Step>, k: nat) {
    k < |steps| && FirstEnd(start, delay, steps, k) && steps[k].Tick? && Overdue(start, delay, steps[..k])
  }

  lemma EndsOfFront(start: int, delay: nat, steps: seq<Step>)
    requires steps != []
    ensures var front := steps[..|steps| - 1];
            forall k: nat :: k < |front| ==>
              && (Ends(start, delay, front, k) <==> Ends(start, delay, steps, k))
              && (FirstEnd(start, delay, front, k) <==> FirstEnd(start, delay, steps, k))
              && (ClosedAt(start, delay, front, k) <==> ClosedAt(start, delay, steps, k))
              && front[..k] == steps[..k]
  {
    var front := steps[..|steps| - 1];
    forall k: nat | k < |front|
      ensures front[..k] == steps[..k] && (Ends(start, delay, front, k) <==> Ends(start, delay, steps, k))
    {
      assert front[..k] == steps[..k];
    }
  }

  // ---------------------------------------------------------------- what a client can rely on

  /** Successive replies, counting from the start, are at most PATIENCE seconds apart. */
  ghost predicate Regular(start: int, delay: nat, steps: seq<Step>) {
    steps != [] ==>
      var front, last := steps[..|steps| - 1], steps[|steps| - 1];
      && Regular(start, delay, front)
      && (Accepted(start, delay, front, last) ==> last.at - LastReply(start, delay, front) <= PATIENCE)
  }

  /** No tick comes while the entry is removed. */
  ghost predicate NeverFoundForgotten(start: int, delay: nat, steps: seq<Step>) {
    forall k: nat :: k < |steps| && steps[k].Tick? ==> ForgottenSince(start, delay, steps[..k]).None?
  }

  /** A stream whose accepted replies are never more than 180 seconds apart, and whose next one is not overdue,
      is not closed, unless a tick came after another stream of the key had removed the entry. */
  lemma {:induction false} RegularStreamStaysOpen(start: int, delay: nat, steps: seq<Step>)
    requires Regular(start, delay, steps) && NeverFoundForgotten(start, delay, steps)
    requires Exec(start, delay, steps).now - LastReply(start, delay, steps) <= PATIENCE
    ensures Exec(start, delay, steps).status != Closed
  {
    if steps != [] {
      var front := steps[..|steps| - 1];
      Reachable(start, delay, front);
      assert forall k: nat :: k < |front| ==> front[..k] == steps[..k];
      RegularStreamStaysOpen(start, delay, front);
    }
  }

  /** A tick that closes a stream whose entry is there finds the last reply more than 180 seconds old, and at most
      300, or else it is the first tick. */
  lemma {:induction false} ClosesBetween180And300(start: int, delay: nat, steps: seq<Step>, writeOk: bool)
    requires Exec(start, delay, steps).status == Watching && ForgottenSince(start, delay, steps).None?
    ensures var after, l := Apply(Exec(start, delay, steps), Tick(writeOk)), LastReply(start, delay, steps);
            after.status == Closed ==> 180 < after.now - l && after.now <= Deadline(start, delay, l)
  {
    Reachable(start, delay, steps);
  }

  /** Some step made the monitor return by itself. */
  ghost predicate Left(steps: seq<Step>) {
    exists k :: 0 <= k < |steps| && (steps[k] == Stop || steps[k] == Tick(false))
  }

  lemma {:induction false} GoneMeansLeft(start: int, delay: nat, steps: seq<Step>)
    requires Exec(start, delay, steps).status == Gone
    ensures Left(steps)
  {
    var front, last := steps[..|steps| - 1], steps[|steps| - 1];
    if Exec(start, delay, front).status == Gone {
      GoneMeansLeft(start, delay, front);
      var k :| 0 <= k < |front| && (front[k] == Stop || front[k] == Tick(false));
      assert steps[k] == front[k];
    }
  }

  /** A stream silent for more than 300 seconds and past its first tick, or without an entry for more than 120, has
      been closed, unless the monitor returned: on the stop channel, or because it could not write a challenge. */
  lemma {:induction false} SilentStreamIsClosed(start: int, delay: nat, steps: seq<Step>)
    requires var now, l := Exec(start, delay, steps).now, LastReply(start, delay, steps);
             var f := ForgottenSince(start, delay, steps);
             now > Deadline(start, delay, l) || (f.Some? && now > f.value + PERIOD)
    ensures Exec(start, delay, steps).status == Closed || (Exec(start, delay, steps).status == Gone && Left(steps))
  {
    Reachable(start, delay, steps);
    if Exec(start, delay, steps).status == Gone {
      GoneMeansLeft(start, delay, steps);
    }
  }

  /** The exception is real: after one failed write, however long the silence, the stream is not closed. */
  lemma FailedWriteLeavesStreamOpen(start: int, delay: nat, until: int) returns (steps: seq<Step>)
    requires delay + PERIOD <= PATIENCE && until >= start + delay + PERIOD
    ensures var m := Exec(start, delay, steps);
            m.status == Gone && m.now == until && LastReply(start, delay, steps) == start
  {
    var first := [Tick(false)];
    steps := [Tick(false), Wait(until)];
    assert steps[..1] == first && first[..0] == [];
    assert Exec(start, delay, first).status == Gone;
    assert LastReply(start, delay, first) == start;
  }

  // ---------------------------------------------------------------- the loop

  lemma {:induction false} EndIsFinal(start: int, delay: nat, steps: seq<Step>, k: nat)
    requires k <= |steps| && Exec(start, delay, steps[..k]).status != Watching
    ensures Exec(start, delay, steps).status == Exec(start, delay, steps[..k]).status
  {
    if k == |steps| {
      assert steps[..k] == steps;
    } else {
      assert steps[..|steps| - 1][..k] == steps[..k];
      EndIsFinal(start, delay, steps[..|steps| - 1], k);
    }
  }

  /** The monitor's loop against an environment that stores and removes the entry, lets the ticker fire and closes
      the stop channel. */
  method MonitorHeartbeat(start: int, delay: nat, env: seq<Step>) returns (status: Status)
    ensures status == Exec(start, delay, env).status
  {
    var now, lastSeen, nextTick := start + delay, Some(start), start + delay + PERIOD;
    for i := 0 to |env|
      invariant Exec(start, delay, env[..i]) == Monitor(now, lastSeen, nextTick, Watching)
    {
      assert env[..i + 1][..i] == env[..i];
      match env[i] {
        case Tick(writeOk) =>
          now := nextTick;
          if lastSeen.None? || now - lastSeen.value > PATIENCE {
            EndIsFinal(start, delay, env, i + 1);
            return Closed;
          }
          if !writeOk {
            EndIsFinal(start, delay, env, i + 1);
            return Gone;
          }
          nextTick := nextTick + PERIOD;
        case Stop =>
          EndIsFinal(start, delay, env, i + 1);
          return Gone;
        case Refresh(at) =>
          if now <= at <= nextTick {
            now, lastSeen := at, Some(at);
          }
        case Wait(until) =>
          if now <= until <= nextTick {
            now := until;
          }
        case Forget =>
          lastSeen := None;
      }
    }
    assert env[..|env|] == env;
    status := Watching;
  }
}
