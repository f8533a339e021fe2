/** Request routing and the registries of gateway.go: session entries, host registrations and vote rows. */
module Gateway {
  import opened Common

  datatype APIPayload = APIPayload(action: string, content: string, target: string, value: int)

  datatype ContentMeta = ContentMeta(signer: seq<byte>, content: string, target: string, value: int, createdAt: int)

  /** A static public key: 32 bytes, of which only the presence of the first 8 matters here. */
  type Signer = key: seq<byte> | |key| >= 8 witness [0, 0, 0, 0, 0, 0, 0, 0]

  datatype HostPeer = HostPeer(stream: nat, signer: Signer)

  /** What the router has under the name mesh_tunnel: nothing, a module of another type, or a tunnel manager. */
  datatype TunnelModule = Absent | Foreign | Manager

  /** What the rest of the program answers while one request is handled: the tunnel module, the host identifier if
      the content parses as a registration, the policy engine, the write to a host's stream, the protocol
      dispatcher, whether the content parses as an RPC, the clock in seconds, and the digits of the clock in
      nanoseconds. */
  datatype Environment = Environment(tunnels: TunnelModule, hostId: Option<string>, permits: (string, string) -> bool,
                                     hostWriteOk: bool, dispatched: bool, rpcParses: bool, now: int, nanos: string)

  /** What handling one request amounts to. */
  datatype Effect =
    | Ignored
    | RegisteredHost(host: string, peer: HostPeer)
    | Denied
    | Forwarded(host: string)
    | Dispatched
    | Refreshed(now: int)
    | Posted(key: string, meta: ContentMeta)
    | Voted(target: string, meta: ContentMeta)
    | SentToBus
    | BoundTunnel

  datatype Registries = Registries(sessions: map<seq<byte>, int>, hosts: map<string, HostPeer>, rows: map<string, ContentMeta>)

  const EMPTY: Registries := Registries(map[], map[], map[])

  const HOST_PREFIX: string := "host:"

  function Resource(req: APIPayload): string {
    if HOST_PREFIX <= req.target && req.action == "ssh_proto" then "ssh:exec"
    else if HOST_PREFIX <= req.target && req.action == "k8s_proto" then "k8s:exec"
    else if req.target == "" then "*"
    else req.target
  }

  function VoteKey(target: string, voter: seq<byte>): string {
    "data:karma:" + target + ":" + HexEncode(voter)
  }

  function PostKey(nanos: string, author: seq<byte>): string {
    "data:post:" + nanos + ":" + HexEncode(author)
  }

  /** The branch routeToAPI takes, for a payload that parses (None otherwise). */
  function Route(g: Registries, signer: Signer, stream: nat, req: Option<APIPayload>, env: Environment): Effect
  {
    if req.None? then Ignored else
    var r := req.value;
    if r.action == "mesh_register" then
      if env.hostId.Some? && env.hostId.value != "" then RegisteredHost(env.hostId.value, HostPeer(stream, signer)) else Ignored
    else if !env.permits(r.action, Resource(r)) then Denied
    else if HOST_PREFIX <= r.target && r.target[|HOST_PREFIX|..] in g.hosts && env.hostWriteOk then
      Forwarded(r.target[|HOST_PREFIX|..])
    else if env.dispatched then Dispatched
    else if r.action == "dbsc_heartbeat_resp" then Refreshed(env.now)
    else if r.action == "post" then
      Posted(PostKey(env.nanos, signer[..4]), ContentMeta(signer, r.content, "", 0, env.now))
    else if r.action == "karma" then
      if r.target == "" then Ignored else Voted(r.target, ContentMeta(signer, "", r.target, r.value, env.now))
    else if r.action == "rpc" && env.rpcParses then SentToBus
    else Ignored
  }

  function Perform(g: Registries, signer: Signer, effect: Effect): Registries
  {
    match effect
    case RegisteredHost(host, peer) => g.(hosts := g.hosts[host := peer])
    case Refreshed(now) => g.(sessions := g.sessions[signer := now])
    case Posted(key, meta) => g.(rows := g.rows[key := meta])
    case Voted(target, meta) => g.(rows := g.rows[VoteKey(target, signer[..8]) := meta])
    case _ => g
  }

  function ClearHosts(hosts: map<string, HostPeer>, signer: seq<byte>): map<string, HostPeer> {
    map h | h in hosts && hosts[h].signer != signer :: hosts[h]
  }

  /** What follows the read loop when it was left by a failed read: the session entry goes, and every host
      registered by the signer. */
  function Clear(g: Registries, signer: seq<byte>): Registries {
    g.(sessions := g.sessions - {signer}, hosts := ClearHosts(g.hosts, signer))
  }

  /** The frame asks for a tunnel and there is a tunnel manager to ask. Whether the manager accepts the connection or
      refuses it, which the client is told, the read loop is left. */
  predicate Binds(req: Option<APIPayload>, env: Environment) {
    req.Some? && req.value.action == "tunnel_bind" && env.tunnels == Manager
  }

  /** What the read loop does with one frame, decrypted and parsed (None if either fails). */
  function OnFrame(g: Registries, signer: Signer, stream: nat, req: Option<APIPayload>, env: Environment): Effect {
    if Binds(req, env) then BoundTunnel
    else if req.Some? && req.value.action == "tunnel_bind" && env.tunnels == Foreign then Ignored
    else Route(g, signer, stream, req, env)
  }

  // ---------------------------------------------------------------- the same by the request alone

  /** The policy engine permits the request. The two protocols that run commands on a host are judged as such; every
      other request by its target, or by "*" when it names none. */
  predicate Permitted(r: APIPayload, env: Environment) {
    if "host:" <= r.target && r.action == "ssh_proto" then env.permits("ssh_proto", "ssh:exec")
    else if "host:" <= r.target && r.action == "k8s_proto" then env.permits("k8s_proto", "k8s:exec")
    else if r.target == "" then env.permits(r.action, "*")
    else env.permits(r.action, r.target)
  }

  /** The host is registered, the request names it, and writing to it works. */
  predicate TakenBy(g: Registries, r: APIPayload, env: Environment, host: string) {
    r.target == "host:" + host && host in g.hosts && env.hostWriteOk
  }

  /** Neither a tunnel request nor a registration, and permitted. */
  predicate Passes(r: APIPayload, env: Environment) {
    !(r.action == "tunnel_bind" && env.tunnels != Absent) && r.action != "mesh_register" && Permitted(r, env)
  }

  /** Permitted, and taken neither by a host nor by a protocol module. */
  ghost predicate ReachesSwitch(g: Registries, r: APIPayload, env: Environment) {
    Passes(r, env) && !env.dispatched && forall host :: !TakenBy(g, r, env, host)
  }

  /** Every effect a frame can have, and exactly when it has it. */
  lemma FrameEffectIff(g: Registries, signer: Signer, stream: nat, r: APIPayload, env: Environment)
    ensures var effect := OnFrame(g, signer, stream, Some(r), env);
            && (effect == BoundTunnel <==> r.action == "tunnel_bind" && env.tunnels == Manager)
            && (forall host, peer :: effect == RegisteredHost(host, peer)
                  <==> r.action == "mesh_register" && env.hostId == Some(host) && host != "" && peer == HostPeer(stream, signer))
            && (effect == Denied
                <==> (&& r.action != "mesh_register" && !(r.action == "tunnel_bind" && env.tunnels != Absent)
                      && !Permitted(r, env)))
            && (forall host :: effect == Forwarded(host) <==> Passes(r, env) && TakenBy(g, r, env, host))
            && (effect == Dispatched <==> Passes(r, env) && env.dispatched && forall host :: !TakenBy(g, r, env, host))
            && (forall now :: effect == Refreshed(now)
                  <==> ReachesSwitch(g, r, env) && r.action == "dbsc_heartbeat_resp" && now == env.now)
            && (forall key, meta :: effect == Posted(key, meta)
                  <==> && ReachesSwitch(g, r, env) && r.action == "post"
                       && key == "data:post:" + env.nanos + ":" + HexEncode(signer[..4])
                       && meta == ContentMeta(signer, r.content, "", 0, env.now))
            && (forall target, meta :: effect == Voted(target, meta)
                  <==> && ReachesSwitch(g, r, env) && r.action == "karma" && target == r.target != ""
                       && meta == ContentMeta(signer, "", target, r.value, env.now))
            && (effect == SentToBus <==> ReachesSwitch(g, r, env) && r.action == "rpc" && env.rpcParses)
  {
    HostTaken(g, r, env);
  }

  lemma HostTaken(g: Registries, r: APIPayload, env: Environment)
    ensures (HOST_PREFIX <= r.target && r.target[|HOST_PREFIX|..] in g.hosts && env.hostWriteOk)
            <==> exists host :: TakenBy(g, r, env, host)
    ensures forall host :: TakenBy(g, r, env, host) ==> HOST_PREFIX <= r.target && host == r.target[|HOST_PREFIX|..]
  {
    if HOST_PREFIX <= r.target {
      assert r.target == HOST_PREFIX + r.target[|HOST_PREFIX|..];
      if r.target[|HOST_PREFIX|..] in g.hosts && env.hostWriteOk {
        assert TakenBy(g, r, env, r.target[|HOST_PREFIX|..]);
      }
    }
    forall host | TakenBy(g, r, env, host) ensures HOST_PREFIX <= r.target && host == r.target[|HOST_PREFIX|..] {
    }
  }

  // ---------------------------------------------------------------- the read loop

  datatype Frame = Frame(req: Option<APIPayload>, env: Environment)

  /** The registries after these frames of one stream, and whether the stream has left its read loop. */
  datatype Loop = Loop(state: Registries, left: bool)

  function AfterFrames(g: Registries, signer: Signer, stream: nat, frames: seq<Frame>): Loop {
    if frames == [] then Loop(g, false) else
    var before, f := AfterFrames(g, signer, stream, frames[..|frames| - 1]), frames[|frames| - 1];
    if before.left then before else
    var effect := OnFrame(before.state, signer, stream, f.req, f.env);
    Loop(Perform(before.state, signer, effect), effect.BoundTunnel?)
  }

  lemma {:induction false} LeavingIsFinal(g: Registries, signer: Signer, stream: nat, frames: seq<Frame>, k: nat)
    requires k <= |frames| && AfterFrames(g, signer, stream, frames[..k]).left
    ensures AfterFrames(g, signer, stream, frames) == AfterFrames(g, signer, stream, frames[..k])
  {
    if k == |frames| {
      assert frames[..k] == frames;
    } else {
      assert frames[..|frames| - 1][..k] == frames[..k];
      LeavingIsFinal(g, signer, stream, frames[..|frames| - 1], k);
    }
  }

  /** Frame k is the first that asks for a tunnel. */
  ghost predicate FirstBind(frames: seq<Frame>, k: nat) {
    && k < |frames| && Binds(frames[k].req, frames[k].env)
    && forall i :: 0 <= i < k ==> !Binds(frames[i].req, frames[i].env)
  }

  /** The loop is left for the tunnel exactly if some frame asks for one, and then the registries are as the frames
      before the first such frame left them. */
  lemma {:induction false} LeavesIffSomeFrameBinds(g: Registries, signer: Signer, stream: nat, frames: seq<Frame>)
    ensures var loop := AfterFrames(g, signer, stream, frames);
            && (loop.left <==> exists k: nat :: FirstBind(frames, k))
            && (forall k: nat :: FirstBind(frames, k) ==> loop.state == AfterFrames(g, signer, stream, frames[..k]).state)
  {
    if frames != [] {
      var front, n := frames[..|frames| - 1], |frames| - 1;
      LeavesIffSomeFrameBinds(g, signer, stream, front);
      FirstBindOfFront(frames);
      assert frames[..n] == front;
      forall k: nat | FirstBind(frames, k)
        ensures AfterFrames(g, signer, stream, frames).state == AfterFrames(g, signer, stream, frames[..k]).state
      {
        if k < n {
          assert FirstBind(front, k);
        }
      }
    }
  }

  lemma {:induction false} FirstBindOfFront(frames: seq<Frame>)
    requires frames != []
    ensures var front, n := frames[..|frames| - 1], |frames| - 1;
            && (forall k: nat :: k < n ==> (FirstBind(frames, k) <==> FirstBind(front, k)) && frames[..k] == front[..k])
            && (FirstBind(frames, n) <==> Binds(frames[n].req, frames[n].env) && forall k: nat :: !FirstBind(front, k))
  {
    var front, n := frames[..|frames| - 1], |frames| - 1;
    if Binds(frames[n].req, frames[n].env) && forall k: nat :: !FirstBind(front, k) {
      for i := 0 to n
        invariant forall j :: 0 <= j < i ==> !Binds(frames[j].req, frames[j].env)
      {
        assert !FirstBind(front, i);
        assert front[i] == frames[i];
      }
    }
  }

  class Gateway {
    var sessions: map<seq<byte>, int>
    var hosts: map<string, HostPeer>
    var rows: map<string, ContentMeta>

    function View(): Registries
      reads this
    {
      Registries(sessions, hosts, rows)
    }

    constructor ()
      ensures View() == EMPTY
    {
      sessions, hosts, rows := map[], map[], map[];
    }

    method RouteToAPI(signer: Signer, stream: nat, req: Option<APIPayload>, env: Environment) returns (effect: Effect)
      modifies this
      ensures effect == Route(old(View()), signer, stream, req, env)
      ensures View() == Perform(old(View()), signer, effect)
    {
      if req.None? {
        return Ignored;
      }
      var r := req.value;
      if r.action == "mesh_register" {
        if env.hostId.Some? && env.hostId.value != "" {
          hosts := hosts[env.hostId.value := HostPeer(stream, signer)];
          return RegisteredHost(env.hostId.value, HostPeer(stream, signer));
        }
        return Ignored;
      }
      var resource := r.target;
      if HOST_PREFIX <= resource {
        match r.action {
          case "ssh_proto" => resource := "ssh:exec";
          case "k8s_proto" => resource := "k8s:exec";
          case _ =>
        }
      }
      if resource == "" {
        resource := "*";
      }
      if !env.permits(r.action, resource) {
        return Denied;
      }
      if HOST_PREFIX <= r.target {
        var host := r.target[|HOST_PREFIX|..];
        if host in hosts && env.hostWriteOk {
          return Forwarded(host);
        }
      }
      if env.dispatched {
        return Dispatched;
      }
      match r.action {
        case "dbsc_heartbeat_resp" =>
          sessions := sessions[signer := env.now];
          effect := Refreshed(env.now);
        case "post" =>
          var meta := ContentMeta(signer, r.content, "", 0, env.now);
          rows := rows[PostKey(env.nanos, signer[..4]) := meta];
          effect := Posted(PostKey(env.nanos, signer[..4]), meta);
        case "karma" =>
          if r.target == "" {
            return Ignored;
          }
          var meta := ContentMeta(signer, "", r.target, r.value, env.now);
          rows := rows[VoteKey(r.target, signer[..8]) := meta];
          effect := Voted(r.target, meta);
        case "rpc" =>
          effect := if env.rpcParses then SentToBus else Ignored;
        case _ =>
          effect := Ignored;
      }
    }

    /** Ranges over the host registry and deletes in place. */
    method ClearHostSessions(signer: seq<byte>)
      modifies this`hosts
      ensures hosts == ClearHosts(old(hosts), signer)
    {
      var left := hosts.Keys;
      ghost var h0 := hosts;
      while left != {}
        invariant left <= h0.Keys
        invariant forall h :: h in hosts <==> h in h0 && (h in left || h0[h].signer != signer)
        invariant forall h :: h in hosts ==> hosts[h] == h0[h]
        decreases |left|
      {
        var h :| h in left;
        if hosts[h].signer == signer {
          hosts := hosts - {h};
        }
        left := left - {h};
      }
    }

    method ClearEntries(signer: seq<byte>)
      modifies this`sessions, this`hosts
      ensures View() == Clear(old(View()), signer)
    {
      sessions := sessions - {signer};
      ClearHostSessions(signer);
    }

    /** The read loop of one stream, for the frames that arrive until a read fails. It returns from inside the loop
        once a tunnel manager has been handed the connection; only when a read fails does it clear the entries. */
    method ReadLoop(signer: Signer, stream: nat, frames: seq<Frame>)
      modifies this
      ensures var loop := AfterFrames(old(View()), signer, stream, frames);
              View() == if loop.left then loop.state else Clear(loop.state, signer)
    {
      ghost var g := View();
      for i := 0 to |frames|
        invariant AfterFrames(g, signer, stream, frames[..i]) == Loop(View(), false)
      {
        assert frames[..i + 1][..i] == frames[..i];
        var req, env := frames[i].req, frames[i].env;
        if req.Some? && req.value.action == "tunnel_bind" && env.tunnels != Absent {
          if env.tunnels == Foreign {
            continue;
          }
          LeavingIsFinal(g, signer, stream, frames, i + 1);
          return;
        }
        var _ := RouteToAPI(signer, stream, req, env);
      }
      assert frames[..|frames|] == frames;
      ClearEntries(signer);
    }
  }
}
