/** The gossip manager of gossip.go: one node's state, its atomic sections, and the class that runs them. */
module Gossip {
  import opened Common

  const TWO_64: nat := 0x1_0000_0000_0000_0000

  // Times are in nanoseconds.
  const MINUTE: int := 60_000_000_000
  const HOUR: int := 60 * MINUTE

  datatype Envelope = Envelope(id: string, serviceId: string, payload: seq<byte>, signature: seq<byte>, lamport: nat)

  /** The fields guarded by `mu`. Handlers are known by the service they are registered for. */
  datatype Node = Node(lamport: nat, seen: map<string, int>, services: set<string>)

  const EMPTY_NODE: Node := Node(0, map[], {})

  function Max(a: nat, b: nat): nat {
    if a > b then a else b
  }

  /** `lamport++` on a uint64. */
  function Increment(x: nat): nat {
    (x + 1) % TWO_64
  }

  function Publish(n: Node): Node {
    n.(lamport := Increment(n.lamport))
  }

  /** The duplicate filter lets the envelope through. */
  predicate Admits(n: Node, id: string, now: int) {
    id in n.seen ==> now - n.seen[id] >= HOUR
  }

  /** The rest of the locked section of HandleIngress, for an envelope the filter lets through. */
  function Accept(n: Node, env: Envelope, stamp: int): Node {
    n.(seen := n.seen[env.id := stamp], lamport := Increment(Max(env.lamport, n.lamport)))
  }

  /** What CleanupSeenCache keeps: everything not stamped before the cutoff. */
  function Prune(seen: map<string, int>, now: int): map<string, int> {
    map id | id in seen && seen[id] >= now - HOUR :: seen[id]
  }

  function Cleanup(n: Node, now: int): Node {
    n.(seen := Prune(n.seen, now))
  }

  datatype Verdict = Called | Rejected | Unhandled

  class GossipManager {
    var lamport: nat
    var seen: map<string, int>
    var services: set<string>

    function View(): Node
      reads this
    {
      Node(lamport, seen, services)
    }

    constructor ()
      ensures View() == EMPTY_NODE
    {
      lamport, seen, services := 0, map[], {};
    }

    method RegisterHandler(serviceId: string)
      modifies this`services
      ensures View() == old(View()).(services := old(services) + {serviceId})
    {
      services := services + {serviceId};
    }

    /** The envelope carries the clock value this call was given under the lock. */
    method PublishEnvelope(id: string, serviceId: string, payload: seq<byte>, signature: seq<byte>)
      returns (env: Envelope)
      modifies this`lamport
      ensures View() == Publish(old(View()))
      ensures env == Envelope(id, serviceId, payload, signature, lamport)
    {
      lamport := (lamport + 1) % TWO_64;
      env := Envelope(id, serviceId, payload, signature, lamport);
    }

    /** The section of HandleIngress under the lock; `stamp` is its second reading of the clock. */
    method Admit(env: Envelope, now: int, stamp: int) returns (admitted: bool)
      modifies this`lamport, this`seen
      ensures admitted <==> Admits(old(View()), env.id, now)
      ensures View() == if admitted then Accept(old(View()), env, stamp) else old(View())
    {
      if env.id in seen {
        var ts := seen[env.id];
        if now - ts < HOUR {
          return false;
        }
      }
      seen := seen[env.id := stamp];
      if env.lamport > lamport {
        lamport := env.lamport;
      }
      lamport := (lamport + 1) % TWO_64;
      admitted := true;
    }

    /** The whole of HandleIngress run without interruption. A payload that does not parse is None; `sdfAccepts`
        is the data engine's answer. A rejected envelope stays marked as seen and keeps its clock tick. */
    method HandleIngress(parsed: Option<Envelope>, now: int, stamp: int, sdfAccepts: bool) returns (verdict: Option<Verdict>)
      modifies this`lamport, this`seen
      ensures parsed.None? || !Admits(old(View()), parsed.value.id, now) ==> verdict == None && View() == old(View())
      ensures parsed.Some? && Admits(old(View()), parsed.value.id, now) ==>
                && View() == Accept(old(View()), parsed.value, stamp)
                && verdict == Some(if !sdfAccepts then Rejected
                                   else if parsed.value.serviceId in services then Called else Unhandled)
    {
      if parsed.None? {
        return None;
      }
      var admitted := Admit(parsed.value, now, stamp);
      if !admitted {
        return None;
      }
      if !sdfAccepts {
        return Some(Rejected);
      }
      if parsed.value.serviceId !in services {
        return Some(Unhandled);
      }
      verdict := Some(Called);
    }

    /** Ranges over the map and deletes in place. */
    method CleanupSeenCache(now: int)
      modifies this`seen
      ensures View() == Cleanup(old(View()), now)
    {
      var cutoff := now - HOUR;
      var left := seen.Keys;
      ghost var s0 := seen;
      while left != {}
        invariant left <= s0.Keys
        invariant forall id :: id in seen <==> id in s0 && (id in left || s0[id] >= cutoff)
        invariant forall id :: id in seen ==> seen[id] == s0[id]
        decreases |left|
      {
        var id :| id in left;
        if seen[id] < cutoff {
          seen := seen - {id};
        }
        left := left - {id};
      }
      assert seen == Prune(s0, now);
    }
  }
}
