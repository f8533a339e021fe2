/** Tunnel claims of tunnel.go: a map from subdomains to connections, and one watcher goroutine per claim that
    waits for its connection to end and then deletes the map entry by name. */
module Tunnel {
  import opened Common

  type Conn = nat

  /** A claim's watcher: the name it will delete and the connection it waits for. */
  datatype Watcher = Watcher(subdomain: string, conn: Conn)

  /** `spawning` are claims whose goroutine has not started, `watching` those that wait; `ended` are the
      connections that are over. */
  datatype Tunnels = Tunnels(tunnels: map<string, Conn>, ended: set<Conn>,
                             spawning: multiset<Watcher>, watching: multiset<Watcher>)

  const EMPTY: Tunnels := Tunnels(map[], {}, multiset{}, multiset{})

  datatype Step =
    | Claim(subdomain: string, conn: Conn)
    | Spawn(w: Watcher)
    | End(conn: Conn)
    | Fire(w: Watcher)

  /** Claims, and only those, get here after authentication and policy have accepted them. */
  predicate Enabled(s: Tunnels, step: Step) {
    match step
    case Claim(_, _) => true
    case Spawn(w) => w in s.spawning
    case End(_) => true
    case Fire(w) => w in s.watching && w.conn in s.ended
  }

  function Apply(s: Tunnels, step: Step): Tunnels {
    if !Enabled(s, step) then s else
    match step
    case Claim(subdomain, conn) =>
      s.(ended := if subdomain in s.tunnels then s.ended + {s.tunnels[subdomain]} else s.ended,
         tunnels := s.tunnels[subdomain := conn],
         spawning := s.spawning + multiset{Watcher(subdomain, conn)})
    case Spawn(w) => s.(spawning := s.spawning - multiset{w}, watching := s.watching + multiset{w})
    case End(conn) => s.(ended := s.ended + {conn})
    case Fire(w) => s.(tunnels := s.tunnels - {w.subdomain}, watching := s.watching - multiset{w})
  }

  function ExecFrom(s: Tunnels, steps: seq<Step>): Tunnels {
    if steps == [] then s else Apply(ExecFrom(s, steps[..|steps| - 1]), steps[|steps| - 1])
  }

  predicate Unfired(s: Tunnels, w: Watcher) {
    w in s.spawning || w in s.watching
  }

  // ---------------------------------------------------------------- no tunnel without a watcher

  ghost predicate Watched(s: Tunnels) {
    forall name :: name in s.tunnels ==> Unfired(s, Watcher(name, s.tunnels[name]))
  }

  lemma WatchedStep(s: Tunnels, step: Step)
    requires Watched(s)
    ensures Watched(Apply(s, step))
  {
    var s' := Apply(s, step);
    forall name | name in s'.tunnels ensures Unfired(s', Watcher(name, s'.tunnels[name])) {
      if name in s.tunnels {
        assert Unfired(s, Watcher(name, s.tunnels[name]));
      }
    }
  }

  /** In every run each mapped name has an unfired watcher for the connection it is mapped to. */
  lemma {:induction false} EveryTunnelIsWatched(steps: seq<Step>)
    ensures Watched(ExecFrom(EMPTY, steps))
  {
    if steps != [] {
      EveryTunnelIsWatched(steps[..|steps| - 1]);
      WatchedStep(ExecFrom(EMPTY, steps[..|steps| - 1]), steps[|steps| - 1]);
    }
  }

  // ---------------------------------------------------------------- the state follows the history

  /** The connection a step ends: by itself, or because the name it has is claimed, by whomever. */
  predicate Ends(s: Tunnels, step: Step, conn: Conn) {
    match step
    case End(c) => c == conn
    case Claim(name, _) => name in s.tunnels && s.tunnels[name] == conn
    case _ => false
  }

  ghost predicate EndedAt(steps: seq<Step>, conn: Conn, k: nat) {
    k < |steps| && Ends(ExecFrom(EMPTY, steps[..k]), steps[k], conn)
  }

  /** Whom a name is mapped to: its latest claimant, unless a watcher for the name has fired since. */
  function MappedTo(steps: seq<Step>, name: string): Option<Conn> {
    if steps == [] then None else
    var front, last := steps[..|steps| - 1], steps[|steps| - 1];
    match last
    case Claim(n, conn) => if n == name then Some(conn) else MappedTo(front, name)
    case Fire(w) =>
      if w.subdomain == name && w in ExecFrom(EMPTY, front).watching && w.conn in ExecFrom(EMPTY, front).ended then None
      else MappedTo(front, name)
    case _ => MappedTo(front, name)
  }

  function Mapped(s: Tunnels, name: string): Option<Conn> {
    if name in s.tunnels then Some(s.tunnels[name]) else None
  }

  /** In every run a name is mapped to whom the history dictates. */
  lemma {:induction false} NamesFollowHistory(steps: seq<Step>, name: string)
    ensures Mapped(ExecFrom(EMPTY, steps), name) == MappedTo(steps, name)
  {
    if steps != [] {
      NamesFollowHistory(steps[..|steps| - 1], name);
    }
  }

  lemma EndedStep(s: Tunnels, step: Step, conn: Conn)
    ensures conn in Apply(s, step).ended <==> conn in s.ended || Ends(s, step, conn)
  {
  }

  lemma EndedSplit(steps: seq<Step>, conn: Conn)
    requires steps != []
    ensures var front, last := steps[..|steps| - 1], steps[|steps| - 1];
            (exists k: nat :: EndedAt(steps, conn, k))
            <==> (exists k: nat :: EndedAt(front, conn, k)) || Ends(ExecFrom(EMPTY, front), last, conn)
  {
    var front, n := steps[..|steps| - 1], |steps| - 1;
    assert steps[..n] == front;
    forall k: nat | k < n ensures EndedAt(steps, conn, k) <==> EndedAt(front, conn, k) {
      assert front[..k] == steps[..k];
    }
    assert EndedAt(steps, conn, n) <==> Ends(ExecFrom(EMPTY, front), steps[n], conn);
  }

  /** In every run a connection is over exactly if it ended by itself, or a name it had was claimed, by another
      connection or by the very same one. */
  lemma {:induction false} EndsFollowHistory(steps: seq<Step>, conn: Conn)
    ensures conn in ExecFrom(EMPTY, steps).ended <==> exists k: nat :: EndedAt(steps, conn, k)
  {
    if steps != [] {
      EndsFollowHistory(steps[..|steps| - 1], conn);
      EndedSplit(steps, conn);
      EndedStep(ExecFrom(EMPTY, steps[..|steps| - 1]), steps[|steps| - 1], conn);
    }
  }

  function Claims(steps: seq<Step>, w: Watcher): nat {
    if steps == [] then 0 else
    Claims(steps[..|steps| - 1], w) + if steps[|steps| - 1] == Claim(w.subdomain, w.conn) then 1 else 0
  }

  function Fired(steps: seq<Step>, w: Watcher): nat {
    if steps == [] then 0 else
    var front, last := steps[..|steps| - 1], steps[|steps| - 1];
    Fired(front, w) + if last == Fire(w) && w in ExecFrom(EMPTY, front).watching && w.conn in ExecFrom(EMPTY, front).ended then 1 else 0
  }

  /** Every claim has exactly one watcher: it is starting, waiting, or has fired once. */
  lemma {:induction false} WatchersAreConserved(steps: seq<Step>, w: Watcher)
    ensures var s := ExecFrom(EMPTY, steps); s.spawning[w] + s.watching[w] + Fired(steps, w) == Claims(steps, w)
  {
    if steps != [] {
      WatchersAreConserved(steps[..|steps| - 1], w);
    }
  }

  // ---------------------------------------------------------------- settled states

  /** Every watcher of a connection that is over has run. */
  ghost predicate Settled(s: Tunnels) {
    forall w :: Unfired(s, w) ==> w.conn !in s.ended
  }

  /** Once the watchers of ended connections have run, everything listed as online is. */
  lemma {:induction false} SettledMeansOnline(steps: seq<Step>)
    requires Settled(ExecFrom(EMPTY, steps))
    ensures var s := ExecFrom(EMPTY, steps); forall name :: name in s.tunnels ==> s.tunnels[name] !in s.ended
  {
    EveryTunnelIsWatched(steps);
    var s := ExecFrom(EMPTY, steps);
    forall name | name in s.tunnels ensures s.tunnels[name] !in s.ended {
      assert Unfired(s, Watcher(name, s.tunnels[name]));
    }
  }

  // ---------------------------------------------------------------- when a claim lasts

  /** A later history of this claim: nobody claims the name again and the connection does not end. */
  ghost predicate Undisturbed(s: Tunnels, steps: seq<Step>, name: string, conn: Conn) {
    && (forall k :: 0 <= k < |steps| ==> !(steps[k].Claim? && steps[k].subdomain == name))
    && conn !in ExecFrom(s, steps).ended
  }

  /** The name stays with the connection through every such history. */
  ghost predicate Lasts(s: Tunnels, name: string, conn: Conn) {
    forall steps :: Undisturbed(s, steps, name, conn) ==>
      name in ExecFrom(s, steps).tunnels && ExecFrom(s, steps).tunnels[name] == conn
  }

  /** No unfired watcher for the name belongs to another connection. */
  ghost predicate NoStaleWatcher(s: Tunnels, name: string, conn: Conn) {
    forall w :: Unfired(s, w) && w.subdomain == name ==> w.conn == conn
  }

  ghost predicate Held(s: Tunnels, name: string, conn: Conn) {
    name in s.tunnels && s.tunnels[name] == conn && NoStaleWatcher(s, name, conn)
  }

  lemma EndedGrows(s: Tunnels, step: Step)
    ensures s.ended <= Apply(s, step).ended
  {
  }

  lemma HeldStep(s: Tunnels, step: Step, name: string, conn: Conn)
    requires Held(s, name, conn) && conn !in Apply(s, step).ended
    requires !(step.Claim? && step.subdomain == name)
    ensures Held(Apply(s, step), name, conn)
  {
    var s' := Apply(s, step);
    EndedGrows(s, step);
    forall w | Unfired(s', w) && w.subdomain == name ensures w.conn == conn {
      assert Unfired(s, w);
    }
    assert step.Fire? && Enabled(s, step) ==> Unfired(s, step.w);
  }

  lemma {:induction false} HeldThroughout(s: Tunnels, steps: seq<Step>, name: string, conn: Conn)
    requires Held(s, name, conn) && Undisturbed(s, steps, name, conn)
    ensures Held(ExecFrom(s, steps), name, conn)
    decreases |steps|
  {
    if steps != [] {
      var front, last := steps[..|steps| - 1], steps[|steps| - 1];
      EndedGrows(ExecFrom(s, front), last);
      HeldThroughout(s, front, name, conn);
      HeldStep(ExecFrom(s, front), last, name, conn);
    }
  }

  lemma ExecSnoc(s: Tunnels, steps: seq<Step>, step: Step)
    ensures ExecFrom(s, steps + [step]) == Apply(ExecFrom(s, steps), step)
  {
    assert (steps + [step])[..|steps|] == steps;
  }

  function Readying(s: Tunnels, w: Watcher): seq<Step> {
    if w in s.watching then [] else [] + [Spawn(w)]
  }

  /** The history in which a stale watcher removes the name. */
  function Eviction(s: Tunnels, w: Watcher): (steps: seq<Step>)
    ensures forall k :: 0 <= k < |steps| ==> !steps[k].Claim?
  {
    Readying(s, w) + [End(w.conn)] + [Fire(w)]
  }

  lemma ReadyingWatches(s: Tunnels, w: Watcher)
    requires Unfired(s, w)
    ensures w in ExecFrom(s, Readying(s, w)).watching && ExecFrom(s, Readying(s, w)).ended == s.ended
  {
    ExecSnoc(s, [], Spawn(w));
  }

  lemma EndThenFire(s: Tunnels, w: Watcher)
    requires w in s.watching
    ensures var s' := Apply(Apply(s, End(w.conn)), Fire(w));
            w.subdomain !in s'.tunnels && s'.ended == s.ended + {w.conn}
  {
  }

  lemma EvictionRemoves(s: Tunnels, w: Watcher, conn: Conn)
    requires Unfired(s, w) && w.conn != conn && conn !in s.ended
    ensures w.subdomain !in ExecFrom(s, Eviction(s, w)).tunnels
    ensures Undisturbed(s, Eviction(s, w), w.subdomain, conn)
  {
    ExecSnoc(s, Readying(s, w), End(w.conn));
    ExecSnoc(s, Readying(s, w) + [End(w.conn)], Fire(w));
    ReadyingWatches(s, w);
    EndThenFire(ExecFrom(s, Readying(s, w)), w);
  }

  /** A claim on an open connection lasts until that connection ends or the name is claimed again if and only if,
      when it is made, no earlier watcher for the name that has not fired belongs to another connection.
      Watchers delete by name only, so after a takeover the old watcher removes the new tunnel. */
  lemma {:induction false} ClaimLastsIff(before: seq<Step>, name: string, conn: Conn)
    requires conn !in ExecFrom(EMPTY, before + [Claim(name, conn)]).ended
    ensures Lasts(ExecFrom(EMPTY, before + [Claim(name, conn)]), name, conn)
            <==> NoStaleWatcher(ExecFrom(EMPTY, before), name, conn)
  {
    var s0 := ExecFrom(EMPTY, before);
    ExecSnoc(EMPTY, before, Claim(name, conn));
    var s := ExecFrom(EMPTY, before + [Claim(name, conn)]);
    assert NoStaleWatcher(s0, name, conn) <==> NoStaleWatcher(s, name, conn) by {
      forall w: Watcher | w.subdomain == name && w.conn != conn ensures Unfired(s, w) <==> Unfired(s0, w) {
      }
    }
    if NoStaleWatcher(s0, name, conn) {
      forall steps | Undisturbed(s, steps, name, conn)
        ensures name in ExecFrom(s, steps).tunnels && ExecFrom(s, steps).tunnels[name] == conn
      {
        HeldThroughout(s, steps, name, conn);
      }
    } else {
      var w :| Unfired(s, w) && w.subdomain == name && w.conn != conn;
      EvictionRemoves(s, w, conn);
    }
  }

  /** In particular, taking a name over from another connection ends that connection, and never lasts on its own. */
  lemma {:induction false} TakeoverIsUnstable(before: seq<Step>, name: string, conn: Conn)
    requires name in ExecFrom(EMPTY, before).tunnels && ExecFrom(EMPTY, before).tunnels[name] != conn
    requires conn !in ExecFrom(EMPTY, before + [Claim(name, conn)]).ended
    ensures ExecFrom(EMPTY, before).tunnels[name] in ExecFrom(EMPTY, before + [Claim(name, conn)]).ended
    ensures !Lasts(ExecFrom(EMPTY, before + [Claim(name, conn)]), name, conn)
  {
    EveryTunnelIsWatched(before);
    ExecSnoc(EMPTY, before, Claim(name, conn));
    var s0 := ExecFrom(EMPTY, before);
    assert Unfired(s0, Watcher(name, s0.tunnels[name]));
    ClaimLastsIff(before, name, conn);
  }

  /** Such a run from scratch: the second claim takes the name over, then the first watcher takes it away. */
  lemma TakeoverRun(name: string, first: Conn, second: Conn)
    requires first != second
    ensures var s := ExecFrom(EMPTY, [] + [Claim(name, first)] + [Claim(name, second)]);
            var w := Watcher(name, first);
            && name in s.tunnels && s.tunnels[name] == second && second !in s.ended
            && name !in ExecFrom(s, Eviction(s, w)).tunnels && second !in ExecFrom(s, Eviction(s, w)).ended
  {
    var w := Watcher(name, first);
    ExecSnoc(EMPTY, [], Claim(name, first));
    ExecSnoc(EMPTY, [] + [Claim(name, first)], Claim(name, second));
    var s := ExecFrom(EMPTY, [] + [Claim(name, first)] + [Claim(name, second)]);
    assert w in s.spawning;
    EvictionRemoves(s, w, second);
  }

  // ---------------------------------------------------------------- the imperative code

  datatype TunnelEntry = TunnelEntry(subdomain: string, online: bool)

  datatype RegisterResult = Registered | Malformed | Unauthenticated | Forbidden

  class TunnelManager {
    var tunnels: map<string, Conn>
    var ended: set<Conn>
    var spawning: multiset<Watcher>
    var watching: multiset<Watcher>

    function View(): Tunnels
      reads this
    {
      Tunnels(tunnels, ended, spawning, watching)
    }

    constructor ()
      ensures View() == EMPTY
    {
      tunnels, ended, spawning, watching := map[], {}, multiset{}, multiset{};
    }

    /** `subdomain` is None when the payload does not parse; `subject` and `permits` are the answers of the
        authentication and of the policy engine. Only an accepted claim changes anything. */
    method RegisterTunnel(conn: Conn, subdomain: Option<string>, subject: Option<string>, permits: (string, string) -> bool)
      returns (result: RegisterResult)
      modifies this
      ensures result == if subdomain.None? then Malformed
                        else if subject.None? then Unauthenticated
                        else if !permits(subject.value, "tunnel:" + subdomain.value) then Forbidden
                        else Registered
      ensures View() == if result.Registered? then Apply(old(View()), Claim(subdomain.value, conn)) else old(View())
    {
      if subdomain.None? {
        return Malformed;
      }
      if subject.None? {
        return Unauthenticated;
      }
      var name := subdomain.value;
      if !permits(subject.value, "tunnel:" + name) {
        return Forbidden;
      }
      if name in tunnels {
        ended := ended + {tunnels[name]};
      }
      tunnels := tunnels[name := conn];
      spawning := spawning + multiset{Watcher(name, conn)};
      result := Registered;
    }

    /** The watcher goroutine after its connection has ended. */
    method WatcherFires(w: Watcher)
      requires w in watching && w.conn in ended
      modifies this`tunnels, this`watching
      ensures View() == Apply(old(View()), Fire(w))
    {
      tunnels := tunnels - {w.subdomain};
      watching := watching - multiset{w};
    }

    /** Each mapped name once, in some order, always as online. */
    method ListTunnels() returns (out: seq<TunnelEntry>)
      ensures |out| == |tunnels|
      ensures forall e :: e in out <==> e.online && e.subdomain in tunnels
    {
      out := [];
      var left := tunnels.Keys;
      while left != {}
        invariant left <= tunnels.Keys && |out| + |left| == |tunnels|
        invariant forall e :: e in out <==> e.online && e.subdomain in tunnels && e.subdomain !in left
        decreases |left|
      {
        var name :| name in left;
        out := out + [TunnelEntry(name, true)];
        left := left - {name};
      }
    }
  }
}
