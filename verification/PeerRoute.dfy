/** The peer and policy registry of peer_route.go, and the swarm handshake it decides. */
module PeerRoute {
  import opened Common

  /** Policies are plain integers in the source; Other is any value without a name. */
  datatype AccessPolicy = Deny | ReadOnly | See | Write | Admin | Other(code: int)

  const ID_LENGTH: nat := 32

  type NodeID = s: seq<byte> | |s| == ID_LENGTH witness seq(ID_LENGTH, _ => 0)

  // ---------------------------------------------------------------- specification

  /** Peers are filed under the hexadecimal text of their identifier; `peers` gives each one's LastSeen. */
  datatype Registry = Registry(peers: map<string, int>, policies: map<NodeID, AccessPolicy>)

  const EMPTY: Registry := Registry(map[], map[])

  datatype Event = AddPeer(id: NodeID, lastSeen: int) | RemovePeer(id: NodeID) | SetPolicy(id: NodeID, policy: AccessPolicy) | Touch(id: NodeID, now: int)

  function Apply(r: Registry, e: Event): Registry {
    match e
    case AddPeer(id, lastSeen) => r.(peers := r.peers[HexEncode(id) := lastSeen])
    case RemovePeer(id) => Registry(r.peers - {HexEncode(id)}, r.policies - {id})
    case SetPolicy(id, policy) => r.(policies := r.policies[id := policy])
    case Touch(id, now) => if HexEncode(id) in r.peers then r.(peers := r.peers[HexEncode(id) := now]) else r
  }

  function Exec(events: seq<Event>): Registry {
    if events == [] then EMPTY else Apply(Exec(events[..|events| - 1]), events[|events| - 1])
  }

  function PolicyOf(r: Registry, id: NodeID): AccessPolicy {
    if id in r.policies then r.policies[id] else Deny
  }

  /** What the switch in EvaluateSwarmHandshake lets through. */
  predicate Permits(policy: AccessPolicy, intent: string) {
    match policy
    case Admin => true
    case See => true
    case Write => intent in {"WRITE_INTENT", "READ_INTENT", "S2P_PULL"}
    case ReadOnly => intent in {"READ_INTENT", "S2P_PULL"}
    case Deny => false
    case Other(_) => false
  }

  datatype Decision = Granted | BadLength | SdfRejected | NoPolicy | Denied | IntentRejected

  // ---------------------------------------------------------------- histories

  ghost predicate DecidesPolicy(e: Event, id: NodeID) {
    (e.SetPolicy? || e.RemovePeer?) && e.id == id
  }

  /** events[i] is the last event that set or removed the policy of id. */
  ghost predicate LastPolicyEvent(events: seq<Event>, id: NodeID, i: nat) {
    && i < |events| && DecidesPolicy(events[i], id)
    && forall j :: i < j < |events| ==> !DecidesPolicy(events[j], id)
  }

  ghost predicate PolicyIs(events: seq<Event>, id: NodeID, policy: AccessPolicy) {
    exists i: nat :: LastPolicyEvent(events, id, i) && events[i] == SetPolicy(id, policy)
  }

  lemma PolicyIsStep(events: seq<Event>, e: Event, id: NodeID, policy: AccessPolicy)
    ensures PolicyIs(events + [e], id, policy)
            <==> if DecidesPolicy(e, id) then e == SetPolicy(id, policy) else PolicyIs(events, id, policy)
  {
    var all := events + [e];
    if DecidesPolicy(e, id) {
      assert all[|events|] == e && LastPolicyEvent(all, id, |events|);
      assert forall i: nat :: i < |events| ==> !LastPolicyEvent(all, id, i);
    } else {
      forall i: nat | i < |all| ensures LastPolicyEvent(all, id, i) <==> LastPolicyEvent(events, id, i) {
        assert all[|events|] == e;
        assert forall j :: 0 <= j < |events| ==> all[j] == events[j];
      }
      if PolicyIs(events, id, policy) {
        var i: nat :| LastPolicyEvent(events, id, i) && events[i] == SetPolicy(id, policy);
        assert LastPolicyEvent(all, id, i) && all[i] == events[i];
      }
    }
  }

  /** The policy table holds exactly the policies whose last set-or-remove event is that set. */
  lemma {:induction false} PolicyFollowsHistory(events: seq<Event>, id: NodeID, policy: AccessPolicy)
    ensures (id in Exec(events).policies && Exec(events).policies[id] == policy) <==> PolicyIs(events, id, policy)
  {
    if events != [] {
      var front, last := events[..|events| - 1], events[|events| - 1];
      PolicyFollowsHistory(front, id, policy);
      assert events == front + [last];
      PolicyIsStep(front, last, id, policy);
    }
  }

  /** The policy reported for a node is the one its history leaves in force, and Deny when that leaves none. */
  lemma {:induction false} ReportedPolicyIff(events: seq<Event>, id: NodeID, policy: AccessPolicy)
    ensures PolicyOf(Exec(events), id) == policy
            <==> PolicyIs(events, id, policy) || (policy == Deny && forall p :: !PolicyIs(events, id, p))
  {
    forall p ensures (id in Exec(events).policies && Exec(events).policies[id] == p) <==> PolicyIs(events, id, p) {
      PolicyFollowsHistory(events, id, p);
    }
    assert id in Exec(events).policies ==> PolicyIs(events, id, Exec(events).policies[id]);
  }

  /** LastSeen of a peer by its history: the latest addition or later touch, unless it was removed since. */
  function SeenAt(events: seq<Event>, id: NodeID): Option<int> {
    if events == [] then None else
    var before, last := SeenAt(events[..|events| - 1], id), events[|events| - 1];
    if last.id != id then before else
    match last
    case AddPeer(_, lastSeen) => Some(lastSeen)
    case RemovePeer(_) => None
    case SetPolicy(_, _) => before
    case Touch(_, now) => if before.Some? then Some(now) else None
  }

  function PeerSeen(r: Registry, id: NodeID): Option<int> {
    if HexEncode(id) in r.peers then Some(r.peers[HexEncode(id)]) else None
  }

  /** Filing peers under text loses nothing: each identifier has its own entry, which its own history determines. */
  lemma {:induction false} PeersFollowHistory(events: seq<Event>, id: NodeID)
    ensures PeerSeen(Exec(events), id) == SeenAt(events, id)
  {
    if events != [] {
      var last := events[|events| - 1];
      PeersFollowHistory(events[..|events| - 1], id);
      if HexEncode(last.id) == HexEncode(id) {
        HexInjective(last.id, id);
      }
    }
  }

  // ---------------------------------------------------------------- the imperative code

  /** A peer record is shared with whoever added it; its identifier does not change. */
  class PeerIdentity {
    const nodeID: NodeID
    var lastSeen: int

    constructor (nodeID: NodeID, lastSeen: int)
      ensures this.nodeID == nodeID && this.lastSeen == lastSeen
    {
      this.nodeID := nodeID;
      this.lastSeen := lastSeen;
    }
  }

  class PeerRoute {
    var peers: map<string, PeerIdentity>
    var policies: map<NodeID, AccessPolicy>

    /** The registry as a value. */
    ghost var view: Registry

    ghost predicate Valid()
      reads this, peers.Values
    {
      && view.policies == policies
      && view.peers.Keys == peers.Keys
      && forall key :: key in peers ==> key == HexEncode(peers[key].nodeID) && peers[key].lastSeen == view.peers[key]
    }

    constructor ()
      ensures Valid() && view == EMPTY
    {
      peers, policies, view := map[], map[], EMPTY;
    }

    method Add(peer: PeerIdentity)
      requires Valid()
      modifies this
      ensures Valid() && view == Apply(old(view), AddPeer(peer.nodeID, peer.lastSeen))
    {
      peers := peers[HexEncode(peer.nodeID) := peer];
      view := Apply(view, AddPeer(peer.nodeID, peer.lastSeen));
    }

    method RemoveById(id: NodeID)
      requires Valid()
      modifies this
      ensures Valid() && view == Apply(old(view), RemovePeer(id))
    {
      peers := peers - {HexEncode(id)};
      policies := policies - {id};
      view := Apply(view, RemovePeer(id));
    }

    method SetAccessPolicy(id: NodeID, policy: AccessPolicy)
      requires Valid()
      modifies this
      ensures Valid() && view == Apply(old(view), SetPolicy(id, policy))
    {
      policies := policies[id := policy];
      view := Apply(view, SetPolicy(id, policy));
    }

    /** Updates the shared record in place; no other peer's record changes. */
    method TouchPeer(id: NodeID, now: int)
      requires Valid()
      modifies this`view, peers.Values
      ensures Valid() && view == Apply(old(view), Touch(id, now))
    {
      var key := HexEncode(id);
      if key in peers {
        var peer := peers[key];
        assert peer in peers.Values;
        peer.lastSeen := now;
      }
      view := Apply(view, Touch(id, now));
    }

    method GetAccessPolicy(id: NodeID) returns (policy: AccessPolicy)
      requires Valid()
      ensures policy == PolicyOf(view, id)
    {
      if id in policies {
        return policies[id];
      }
      policy := Deny;
    }

    method ListPeers() returns (out: seq<PeerIdentity>)
      requires Valid()
      ensures |out| == |peers|
      ensures forall p :: p in out <==> p in peers.Values
    {
      out := [];
      var left := peers.Keys;
      while left != {}
        invariant left <= peers.Keys && |out| + |left| == |peers|
        invariant forall key :: key in peers && key !in left ==> peers[key] in out
        invariant forall p :: p in out ==> p in peers.Values
        decreases |left|
      {
        var key :| key in left;
        out := out + [peers[key]];
        left := left - {key};
      }
    }

    /** Reads the registry only. `sdfAccepts` is the data engine's answer. */
    method EvaluateSwarmHandshake(remotePub: seq<byte>, intent: string, sdfAccepts: bool) returns (decision: Decision)
      requires Valid()
      ensures decision == Evaluate(view, remotePub, intent, sdfAccepts)
    {
      if |remotePub| < ID_LENGTH {
        return BadLength;
      }
      var id: NodeID := remotePub[..ID_LENGTH];
      if !sdfAccepts {
        return SdfRejected;
      }
      if id !in policies {
        return NoPolicy;
      }
      match policies[id] {
        case Admin => return Granted;
        case See => return Granted;
        case Write =>
          if intent == "WRITE_INTENT" || intent == "READ_INTENT" || intent == "S2P_PULL" {
            return Granted;
          }
        case ReadOnly =>
          if intent == "READ_INTENT" || intent == "S2P_PULL" {
            return Granted;
          }
        case Deny => return Denied;
        case Other(_) =>
      }
      decision := IntentRejected;
    }
  }

  function Evaluate(r: Registry, remotePub: seq<byte>, intent: string, sdfAccepts: bool): Decision {
    if |remotePub| < ID_LENGTH then BadLength
    else if !sdfAccepts then SdfRejected
    else if remotePub[..ID_LENGTH] !in r.policies then NoPolicy
    else
      var policy := r.policies[remotePub[..ID_LENGTH]];
      if Permits(policy, intent) then Granted else if policy == Deny then Denied else IntentRejected
  }

  /** After any history, what a handshake comes to, and why: the length of the key, the answer of the data engine, and
      the policy that the history leaves in force for the key's first 32 bytes decide, the policies each as listed. */
  lemma {:induction false} HandshakeDecidedIff(events: seq<Event>, remotePub: seq<byte>, intent: string, sdfAccepts: bool)
    requires |remotePub| >= 32 && sdfAccepts
    ensures var decision, id := Evaluate(Exec(events), remotePub, intent, sdfAccepts), remotePub[..32];
            var write, read := intent == "WRITE_INTENT", intent == "READ_INTENT" || intent == "S2P_PULL";
            && (decision == Granted
                <==> (|| PolicyIs(events, id, Admin)
                      || PolicyIs(events, id, See)
                      || (PolicyIs(events, id, Write) && (write || read))
                      || (PolicyIs(events, id, ReadOnly) && read)))
            && (decision == Denied <==> PolicyIs(events, id, Deny))
            && (decision == NoPolicy <==> forall policy :: !PolicyIs(events, id, policy))
            && (decision == IntentRejected
                <==> (|| (PolicyIs(events, id, Write) && !write && !read)
                      || (PolicyIs(events, id, ReadOnly) && !read)
                      || exists code :: PolicyIs(events, id, Other(code))))
  {
    var id: NodeID := remotePub[..ID_LENGTH];
    forall policy ensures (id in Exec(events).policies && Exec(events).policies[id] == policy) <==> PolicyIs(events, id, policy) {
      PolicyFollowsHistory(events, id, policy);
    }
    if id in Exec(events).policies {
      var policy := Exec(events).policies[id];
      assert PolicyIs(events, id, policy);
      assert policy.Other? ==> PolicyIs(events, id, Other(policy.code));
    }
  }

  /** The key's length and the data engine come before any policy; so a handshake is granted exactly when the key has at
      least 32 bytes, the data engine accepts, and the last set-or-remove event for its first 32 bytes is a set to Admin
      or See, or to Write or ReadOnly with an intent of theirs. */
  lemma {:induction false} HandshakeGrantedIff(events: seq<Event>, remotePub: seq<byte>, intent: string, sdfAccepts: bool)
    ensures var decision := Evaluate(Exec(events), remotePub, intent, sdfAccepts);
            && (decision == BadLength <==> |remotePub| < 32)
            && (decision == SdfRejected <==> |remotePub| >= 32 && !sdfAccepts)
            && (decision == Granted
                <==> (&& |remotePub| >= 32 && sdfAccepts
                      && var id := remotePub[..32];
                         (|| PolicyIs(events, id, Admin)
                          || PolicyIs(events, id, See)
                          || (PolicyIs(events, id, Write) && intent in {"WRITE_INTENT", "READ_INTENT", "S2P_PULL"})
                          || (PolicyIs(events, id, ReadOnly) && intent in {"READ_INTENT", "S2P_PULL"}))))
  {
    if |remotePub| >= 32 && sdfAccepts {
      HandshakeDecidedIff(events, remotePub, intent, sdfAccepts);
    }
  }

  /** A removed peer is refused until a policy is set for it again, whatever else happens. */
  lemma {:induction false} RemovalRevokes(events: seq<Event>, later: seq<Event>, id: NodeID, suffix: seq<byte>, intent: string, sdfAccepts: bool)
    requires forall k :: 0 <= k < |later| ==> !(later[k].SetPolicy? && later[k].id == id)
    ensures Evaluate(Exec(events + [RemovePeer(id)] + later), id + suffix, intent, sdfAccepts) != Granted
  {
    var all := events + [RemovePeer(id)] + later;
    HandshakeGrantedIff(all, id + suffix, intent, sdfAccepts);
    assert (id + suffix)[..ID_LENGTH] == id;
    forall policy ensures !PolicyIs(all, id, policy) {
      assert all[|events|] == RemovePeer(id);
      forall i: nat | LastPolicyEvent(all, id, i) ensures all[i] != SetPolicy(id, policy) {
        assert i >= |events| by {
          assert DecidesPolicy(all[|events|], id);
        }
        assert i > |events| ==> all[i] == later[i - |events| - 1];
      }
    }
  }
}
