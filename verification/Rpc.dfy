/** The RPC manager of mesh_rpc.go: packets, capacity-one reply channels and the pending map. */
module Rpc {
  import opened Common

  /** Timestamps take part in no decision and are left out. */
  datatype RPCPacket = RPCPacket(id: string, procedure: string, payload: seq<byte>,
                                 source: seq<byte>, target: seq<byte>, response: bool, error: string)

  /** What a handler returns; `err` is the message of its error, if it returned one. */
  datatype HandlerResult = HandlerResult(payload: seq<byte>, err: Option<string>)

  datatype CallResult = Returned(payload: seq<byte>) | RemoteError(message: string) | SendFailed | Cancelled | TimedOut

  const ID_BYTES: nat := 16

  function RequestId(random: seq<byte>): (id: string)
    requires |random| == ID_BYTES
    ensures |id| == 32
  {
    HexEncode(random)
  }

  /** Calls that draw different random bytes have different identifiers. */
  lemma RequestIdsDiffer(a: seq<byte>, b: seq<byte>)
    requires |a| == |b| == ID_BYTES && a != b
    ensures RequestId(a) != RequestId(b)
  {
    if RequestId(a) == RequestId(b) {
      HexInjective(a, b);
    }
  }

  function Request(id: string, target: seq<byte>, procedure: string, payload: seq<byte>): RPCPacket {
    RPCPacket(id, procedure, payload, [], target, false, "")
  }

  /** Broadcast, Notify and NotifyPeer send requests without an identifier. */
  function Notification(target: seq<byte>, procedure: string, payload: seq<byte>): RPCPacket {
    Request("", target, procedure, payload)
  }

  function Response(request: RPCPacket, result: HandlerResult): RPCPacket {
    RPCPacket(request.id, request.procedure, result.payload, [], request.source, true,
              if result.err.Some? then result.err.value else "")
  }

  /** What a node sends back for a request: nothing if the data engine refuses it or no handler is registered. */
  function Serve(handlers: set<string>, request: RPCPacket, accepts: bool, result: HandlerResult): Option<RPCPacket> {
    if accepts && request.procedure in handlers then Some(Response(request, result)) else None
  }

  /** How the caller reads a response. */
  function ReadResponse(response: RPCPacket): CallResult {
    if response.error != "" then RemoteError(response.error) else Returned(response.payload)
  }

  /** A send into a channel of capacity one inside a select with a default branch. */
  function Offer(buffer: seq<RPCPacket>, p: RPCPacket): seq<RPCPacket> {
    if |buffer| < 1 then buffer + [p] else buffer
  }

  /** The first response for id among some packets, as a channel content. */
  function FirstReply(packets: seq<RPCPacket>, id: string): (r: seq<RPCPacket>)
    ensures |r| <= 1
    ensures r != [] ==> r[0] in packets && r[0].response && r[0].id == id
    ensures r == [] ==> forall k :: 0 <= k < |packets| ==> !(packets[k].response && packets[k].id == id)
  {
    if packets == [] then []
    else
      var before, last := FirstReply(packets[..|packets| - 1], id), packets[|packets| - 1];
      if before == [] && last.response && last.id == id then [last] else before
  }

  /** It is the first: no packet before it is a response with that identifier. */
  lemma {:induction false} FirstReplyIsFirst(packets: seq<RPCPacket>, id: string, k: nat)
    requires k < |packets| && packets[k].response && packets[k].id == id
    requires forall j :: 0 <= j < k ==> !(packets[j].response && packets[j].id == id)
    ensures FirstReply(packets, id) == [packets[k]]
  {
    if k < |packets| - 1 {
      FirstReplyIsFirst(packets[..|packets| - 1], id, k);
    }
  }

  /** What a channel holds after some packets were offered to it in turn. */
  function Filled(buffer: seq<RPCPacket>, packets: seq<RPCPacket>, id: string): seq<RPCPacket> {
    if |buffer| < 1 then FirstReply(packets, id) else buffer
  }

  lemma FilledSnoc(buffer: seq<RPCPacket>, packets: seq<RPCPacket>, p: RPCPacket, id: string)
    requires |buffer| <= 1
    ensures Filled(buffer, packets + [p], id)
            == if p.response && p.id == id then Offer(Filled(buffer, packets, id), p) else Filled(buffer, packets, id)
  {
    assert (packets + [p])[..|packets|] == packets;
  }

  class Waiter {
    var ch: seq<RPCPacket>

    constructor ()
      ensures ch == []
    {
      ch := [];
    }

    /** Never blocks: the packet is placed if there is room and dropped otherwise. */
    method TrySend(p: RPCPacket)
      modifies this
      ensures ch == Offer(old(ch), p) == if old(ch) == [] then [p] else old(ch)
    {
      if |ch| < 1 {
        ch := ch + [p];
      }
    }
  }

  /** Which branch of the caller's select fires. */
  datatype WakeUp = OnReply | OnCancel | OnTimeout

  datatype Route = ToPeer(target: seq<byte>) | ToAll

  class RPCManager {
    var pending: map<string, Waiter>
    var handlers: set<string>

    constructor ()
      ensures pending == map[] && handlers == {}
    {
      pending, handlers := map[], {};
    }

    method Register(procedure: string)
      modifies this`handlers
      ensures handlers == old(handlers) + {procedure}
    {
      handlers := handlers + {procedure};
    }

    /** The request path of handleIngress. The reply goes to the request's source, or to every node when it
        names none; a Call's request never does. */
    method HandleRequest(p: RPCPacket, accepts: bool, result: HandlerResult) returns (reply: Option<RPCPacket>, route: Route)
      requires !p.response
      ensures reply == Serve(handlers, p, accepts, result)
      ensures reply.Some? <==> accepts && p.procedure in handlers
      ensures reply.Some? ==>
                reply.value == RPCPacket(p.id, p.procedure, result.payload, [], p.source, true,
                                         match result.err case None => "" case Some(message) => message)
      ensures route == if p.source == [] then ToAll else ToPeer(p.source)
    {
      route := if |p.source| > 0 then ToPeer(p.source) else ToAll;
      if !accepts {
        return None, route;
      }
      if p.procedure !in handlers {
        return None, route;
      }
      var error := "";
      if result.err.Some? {
        error := result.err.value;
      }
      reply := Some(RPCPacket(p.id, p.procedure, result.payload, [], p.source, true, error));
    }

    /** No two calls share a channel. */
    ghost predicate Valid()
      reads this
    {
      forall i, j :: i in pending && j in pending && i != j ==> pending[i] != pending[j]
    }

    /** The response path of handleIngress. */
    method HandleResponse(p: RPCPacket)
      requires Valid() && p.response
      modifies pending.Values
      ensures p.id in pending ==> pending[p.id].ch == Offer(old(pending[p.id].ch), p)
      ensures forall id :: id in pending && id != p.id ==> pending[id].ch == old(pending[id].ch)
    {
      if p.id in pending {
        var waiter := pending[p.id];
        assert waiter in pending.Values;
        waiter.TrySend(p);
      }
    }

    /** What comes in at this manager while a call waits: every waiter's channel ends up with the first
        response for it, unless it held one already. */
    method WhileWaiting(arrivals: seq<RPCPacket>)
      requires Valid() && forall id :: id in pending ==> |pending[id].ch| <= 1
      modifies pending.Values
      ensures forall id :: id in pending ==> pending[id].ch == Filled(old(pending[id].ch), arrivals, id)
    {
      var i := 0;
      while i < |arrivals|
        invariant i <= |arrivals|
        invariant forall id :: id in pending ==> pending[id].ch == Filled(old(pending[id].ch), arrivals[..i], id)
      {
        assert arrivals[..i + 1] == arrivals[..i] + [arrivals[i]];
        forall id | id in pending ensures true {
          FilledSnoc(old(pending[id].ch), arrivals[..i], arrivals[i], id);
        }
        if arrivals[i].response {
          HandleResponse(arrivals[i]);
        }
        i := i + 1;
      }
      assert arrivals[..|arrivals|] == arrivals;
    }

    /** A call takes its place in the pending map, with a channel of its own. */
    method BeginCall(id: string) returns (waiter: Waiter)
      requires Valid() && id !in pending
      modifies this`pending
      ensures Valid() && fresh(waiter) && waiter.ch == [] && pending == old(pending)[id := waiter]
    {
      waiter := new Waiter();
      pending := pending[id := waiter];
    }

    /** The caller's select, once one of its branches has fired. */
    method Await(waiter: Waiter, wake: WakeUp) returns (result: CallResult)
      requires wake == OnReply ==> waiter.ch != []
      ensures result == match wake
                        case OnReply => ReadResponse(waiter.ch[0])
                        case OnCancel => Cancelled
                        case OnTimeout => TimedOut
    {
      match wake {
        case OnReply => result := ReadResponse(waiter.ch[0]);
        case OnCancel => result := Cancelled;
        case OnTimeout => result := TimedOut;
      }
    }

    /** One call, during which `arrivals` come in at this manager. Its result is that of the
        first response with its own identifier when the reply branch fires, its pending entry is gone whatever
        happened, and the other calls have got exactly their own responses. */
    method Call(random: seq<byte>, sendOk: bool, arrivals: seq<RPCPacket>, wake: WakeUp) returns (result: CallResult)
      requires Valid() && |random| == ID_BYTES && RequestId(random) !in pending
      requires forall id :: id in pending ==> |pending[id].ch| <= 1
      requires wake == OnReply ==> FirstReply(arrivals, RequestId(random)) != []
      modifies this`pending, pending.Values
      ensures Valid() && pending == old(pending)
      ensures result == if !sendOk then SendFailed
                        else match wake
                             case OnReply => ReadResponse(FirstReply(arrivals, RequestId(random))[0])
                             case OnCancel => Cancelled
                             case OnTimeout => TimedOut
      ensures forall id :: id in pending ==>
                pending[id].ch == Filled(old(pending[id].ch), if sendOk then arrivals else [], id)
    {
      var id := RequestId(random);
      ghost var others := pending;
      var waiter := BeginCall(id);
      assert forall w :: w in pending.Values ==> w == waiter || w in others.Values;
      assert forall k :: k in others ==> pending[k] == others[k] && others[k].ch == old(others[k].ch);
      if sendOk {
        WhileWaiting(arrivals);
        assert pending[id] == waiter && waiter.ch == FirstReply(arrivals, id);
        assert forall k :: k in others ==> pending[k] == others[k] && others[k].ch == Filled(old(others[k].ch), arrivals, k);
        result := Await(waiter, wake);
      } else {
        result := SendFailed;
      }
      pending := pending - {id};
      assert pending == others;
    }
  }
}
