/** Four-byte big-endian length framing over an ordered byte stream (framing.go). */
module Framing {
  import opened Common

  const MAX_FRAME_SIZE: nat := 16 * 1024 * 1024
  const TWO_32: nat := 0x1_0000_0000

  // ---------------------------------------------------------------- specification

  function Limit(n: nat): nat {
    if n == 0 then 1 else 0x100 * Limit(n - 1)
  }

  /** The n least significant bytes of v, most significant first. */
  function BigEndian(v: nat, n: nat): (h: seq<byte>)
    ensures |h| == n
  {
    if n == 0 then [] else BigEndian(v / 0x100, n - 1) + [v % 0x100]
  }

  function FromBigEndian(h: seq<byte>): nat {
    if h == [] then 0 else FromBigEndian(h[..|h| - 1]) * 0x100 + h[|h| - 1]
  }

  lemma {:induction false} BigEndianInverse(v: nat, n: nat)
    requires v < Limit(n)
    ensures FromBigEndian(BigEndian(v, n)) == v
  {
    if n > 0 {
      BigEndianInverse(v / 0x100, n - 1);
      assert BigEndian(v, n)[..n - 1] == BigEndian(v / 0x100, n - 1);
    }
  }

  lemma {:induction false} FromBigEndianInverse(h: seq<byte>)
    ensures FromBigEndian(h) < Limit(|h|)
    ensures BigEndian(FromBigEndian(h), |h|) == h
  {
    if h != [] {
      var front, last: nat := h[..|h| - 1], h[|h| - 1];
      FromBigEndianInverse(front);
      var v := FromBigEndian(front) * 0x100 + last;
      assert v / 0x100 == FromBigEndian(front) && v % 0x100 == last;
      assert h == front + [h[|h| - 1]];
    }
  }

  lemma LimitOfFour()
    ensures Limit(4) == TWO_32
  {
    assert Limit(2) == 0x1_0000;
  }

  lemma FourBytes(v: nat)
    requires v < TWO_32
    ensures BigEndian(v, 4) == [v / 0x100_0000, v / 0x1_0000 % 0x100, v / 0x100 % 0x100, v % 0x100]
  {
    var a, b := v / 0x100, v / 0x100 / 0x100;
    assert BigEndian(b, 2) == [b / 0x100 % 0x100, b % 0x100] by {
      assert BigEndian(b / 0x100, 1) == BigEndian(b / 0x100 / 0x100, 0) + [b / 0x100 % 0x100];
    }
    assert BigEndian(v, 4) == BigEndian(a, 3) + [v % 0x100];
    assert BigEndian(a, 3) == BigEndian(b, 2) + [a % 0x100];
    assert b == v / 0x1_0000 && b / 0x100 == v / 0x100_0000;
  }

  /** What WriteFrame puts on the wire. The length is converted to 32 bits, so it wraps. */
  function Header(payload: seq<byte>): (h: seq<byte>)
    ensures |h| == 4
  {
    BigEndian(|payload| % TWO_32, 4)
  }

  lemma HeaderValue(payload: seq<byte>)
    ensures FromBigEndian(Header(payload)) == |payload| % TWO_32
    ensures |payload| < TWO_32 ==> FromBigEndian(Header(payload)) == |payload|
  {
    LimitOfFour();
    BigEndianInverse(|payload| % TWO_32, 4);
  }

  function Encode(payload: seq<byte>): seq<byte> {
    Header(payload) + payload
  }

  function EncodeAll(payloads: seq<seq<byte>>): seq<byte> {
    if payloads == [] then [] else Encode(payloads[0]) + EncodeAll(payloads[1..])
  }

  datatype ReadError = EndOfStream | UnexpectedEnd | EmptyFrame | TooLarge

  datatype ReadResult = Frame(payload: seq<byte>, rest: seq<byte>) | Failed(error: ReadError, rest: seq<byte>)

  function ShortRead(available: nat): ReadError {
    if available == 0 then EndOfStream else UnexpectedEnd
  }

  /** The outcome of one ReadFrame on the bytes `s`, and what it leaves unread. */
  function Decode(s: seq<byte>, maxSize: nat): ReadResult {
    if |s| < 4 then Failed(ShortRead(|s|), [])
    else
      var size := FromBigEndian(s[..4]);
      if size == 0 then Failed(EmptyFrame, s[4..])
      else if size > maxSize then Failed(TooLarge, s[4..])
      else if |s| - 4 < size then Failed(ShortRead(|s| - 4), [])
      else Frame(s[4..4 + size], s[4 + size..])
  }

  datatype Drained = Drained(frames: seq<seq<byte>>, error: ReadError, rest: seq<byte>)

  /** Repeated ReadFrame until the first error. */
  function DecodeAll(s: seq<byte>, maxSize: nat): Drained
    decreases |s|
  {
    match Decode(s, maxSize)
    case Failed(e, rest) => Drained([], e, rest)
    case Frame(p, rest) =>
      var d := DecodeAll(rest, maxSize);
      d.(frames := [p] + d.frames)
  }

  // ---------------------------------------------------------------- properties of the code

  ghost predicate Sendable(payload: seq<byte>, maxSize: nat) {
    1 <= |payload| <= maxSize
  }

  /** A frame survives the wire exactly when its length is between one and the reader's limit. */
  lemma FrameSurvivesIff(payload: seq<byte>, rest: seq<byte>, maxSize: nat)
    requires maxSize < TWO_32
    ensures Decode(Encode(payload) + rest, maxSize) == Frame(payload, rest) <==> Sendable(payload, maxSize)
  {
    var s := Encode(payload) + rest;
    HeaderValue(payload);
    assert s[..4] == Header(payload);
    if Sendable(payload, maxSize) {
      assert s[4..4 + |payload|] == payload;
      assert s[4 + |payload|..] == rest;
    }
  }

  /** The reader notices: the length field, which has wrapped if the length does not fit it, is zero or over the limit. */
  predicate Reported(payload: seq<byte>, maxSize: nat) {
    var size := |payload| % TWO_32;
    size == 0 || size > maxSize
  }

  /** What the reader makes of any frame at all. It reports exactly the frames whose length field is zero or over the
      limit, and leaves their bodies in the stream; of any other it returns as many bytes as the length field says,
      and goes on reading inside the payload if that is not all of it. */
  lemma ReaderSees(payload: seq<byte>, rest: seq<byte>, maxSize: nat)
    requires maxSize < TWO_32
    ensures var size := |payload| % TWO_32;
            Decode(Encode(payload) + rest, maxSize)
            == if Reported(payload, maxSize) then Failed(if size == 0 then EmptyFrame else TooLarge, payload + rest)
               else Frame(payload[..size], payload[size..] + rest)
  {
    var s, size := Encode(payload) + rest, |payload| % TWO_32;
    HeaderValue(payload);
    assert s[..4] == Header(payload);
    assert s[4..] == payload + rest;
    assert size <= |payload|;
    if !Reported(payload, maxSize) {
      assert s[4..4 + size] == payload[..size];
      assert s[4 + size..] == payload[size..] + rest;
    }
  }

  /** A frame is silently cut, not refused and not delivered whole, exactly when its length wraps into the limits. */
  lemma SilentlyCutIff(payload: seq<byte>, rest: seq<byte>, maxSize: nat)
    requires maxSize < TWO_32
    ensures var r := Decode(Encode(payload) + rest, maxSize);
            r.Frame? && r.payload != payload <==> |payload| >= TWO_32 && 1 <= |payload| % TWO_32 <= maxSize
  {
    ReaderSees(payload, rest, maxSize);
  }

  lemma HeaderOfDecoded(s: seq<byte>, payload: seq<byte>)
    requires |s| >= 4 && |payload| == FromBigEndian(s[..4])
    ensures Header(payload) == s[..4]
  {
    LimitOfFour();
    FromBigEndianInverse(s[..4]);
    assert |payload| % TWO_32 == |payload|;
  }

  /** A successful read consumed exactly the encoding of what it returned. */
  lemma DecodeConsumesEncoding(s: seq<byte>, maxSize: nat)
    requires maxSize < TWO_32
    requires Decode(s, maxSize).Frame?
    ensures var r := Decode(s, maxSize); Sendable(r.payload, maxSize) && s == Encode(r.payload) + r.rest
  {
    var r := Decode(s, maxSize);
    var size := FromBigEndian(s[..4]);
    assert r.payload == s[4..4 + size] && r.rest == s[4 + size..];
    HeaderOfDecoded(s, r.payload);
    assert s == s[..4] + s[4..4 + size] + s[4 + size..];
  }

  lemma HeadersAgreeIff(p: seq<byte>, q: seq<byte>)
    ensures Header(p) == Header(q) <==> |p| % TWO_32 == |q| % TWO_32
  {
    HeaderValue(p);
    HeaderValue(q);
  }

  /** One encoding is a prefix of another exactly when the payloads are and their lengths agree modulo 2^32: among
      payloads whose lengths fit the length field none is, except of itself. */
  lemma EncodingPrefixIff(p: seq<byte>, q: seq<byte>)
    ensures Encode(p) <= Encode(q) <==> p <= q && |p| % TWO_32 == |q| % TWO_32
    ensures |p| < TWO_32 && |q| < TWO_32 && Encode(p) <= Encode(q) ==> p == q
  {
    HeadersAgreeIff(p, q);
    assert Encode(p)[..4] == Header(p) && Encode(q)[..4] == Header(q);
    assert Encode(p)[4..] == p && Encode(q)[4..] == q;
    if Encode(p) <= Encode(q) {
      assert Encode(q)[..|Encode(p)|][..4] == Encode(q)[..4];
      assert Encode(q)[..|Encode(p)|][4..] == Encode(q)[4..][..|p|];
    }
  }

  /** The same with any bytes behind the encodings, for lengths that fit the length field. */
  lemma PrefixFree(p: seq<byte>, q: seq<byte>, afterP: seq<byte>, afterQ: seq<byte>)
    requires |p| < TWO_32 && |q| < TWO_32
    requires Encode(p) + afterP == Encode(q) + afterQ
    ensures p == q && afterP == afterQ
  {
    TakeFirst(Header(p), p, afterP);
    TakeFirst(Header(q), q, afterQ);
    HeaderGivesLength(p, q);
    SplitAt(p, afterP);
    SplitAt(q, afterQ);
  }

  lemma HeaderGivesLength(p: seq<byte>, q: seq<byte>)
    requires |p| < TWO_32 && |q| < TWO_32 && Header(p) == Header(q)
    ensures |p| == |q|
  {
    HeaderValue(p);
    HeaderValue(q);
  }

  lemma TakeFirst(a: seq<byte>, b: seq<byte>, c: seq<byte>)
    ensures ((a + b) + c)[..|a|] == a
  {
  }

  lemma SplitAt(p: seq<byte>, after: seq<byte>)
    ensures var s := Encode(p) + after; p == s[4..4 + |p|] && after == s[4 + |p|..]
  {
  }

  lemma {:induction false} EncodeAllAppend(a: seq<seq<byte>>, b: seq<seq<byte>>)
    ensures EncodeAll(a + b) == EncodeAll(a) + EncodeAll(b)
  {
    if a == [] {
      assert a + b == b;
    } else {
      assert (a + b)[1..] == a[1..] + b;
      EncodeAllAppend(a[1..], b);
    }
  }

  ghost predicate AllSendable(payloads: seq<seq<byte>>, maxSize: nat) {
    forall k :: 0 <= k < |payloads| ==> Sendable(payloads[k], maxSize)
  }

  function Prepend(frames: seq<seq<byte>>, d: Drained): Drained {
    d.(frames := frames + d.frames)
  }

  lemma DecodeAllFirst(payload: seq<byte>, rest: seq<byte>, maxSize: nat)
    requires maxSize < TWO_32 && Sendable(payload, maxSize)
    ensures DecodeAll(Encode(payload) + rest, maxSize) == Prepend([payload], DecodeAll(rest, maxSize))
  {
    FrameSurvivesIff(payload, rest, maxSize);
  }

  lemma EncodeAllFirst(payloads: seq<seq<byte>>, tail: seq<byte>)
    requires payloads != []
    ensures EncodeAll(payloads) + tail == Encode(payloads[0]) + (EncodeAll(payloads[1..]) + tail)
  {
  }

  lemma PrependTwice(a: seq<seq<byte>>, d: Drained)
    requires a != []
    ensures Prepend([a[0]], Prepend(a[1..], d)) == Prepend(a, d)
  {
    assert [a[0]] + (a[1..] + d.frames) == a + d.frames;
  }

  /** Reading past a run of whole frames leaves the reader at the bytes that follow them. */
  lemma {:induction false} DecodeAllAfterFrames(payloads: seq<seq<byte>>, tail: seq<byte>, maxSize: nat)
    requires maxSize < TWO_32 && AllSendable(payloads, maxSize)
    ensures DecodeAll(EncodeAll(payloads) + tail, maxSize) == Prepend(payloads, DecodeAll(tail, maxSize))
  {
    if payloads == [] {
      assert EncodeAll(payloads) + tail == tail;
      assert payloads + DecodeAll(tail, maxSize).frames == DecodeAll(tail, maxSize).frames;
    } else {
      EncodeAllFirst(payloads, tail);
      DecodeAllAfterFrames(payloads[1..], tail, maxSize);
      DecodeAllFirst(payloads[0], EncodeAll(payloads[1..]) + tail, maxSize);
      PrependTwice(payloads, DecodeAll(tail, maxSize));
    }
  }

  /** The stream of a list of frames gives the list back, uses every byte and ends cleanly,
      exactly when every frame is sendable. */
  lemma {:induction false} StreamRoundTripIff(payloads: seq<seq<byte>>, maxSize: nat)
    requires maxSize < TWO_32
    ensures DecodeAll(EncodeAll(payloads), maxSize) == Drained(payloads, EndOfStream, [])
            <==> AllSendable(payloads, maxSize)
  {
    if AllSendable(payloads, maxSize) {
      DecodeAllAfterFrames(payloads, [], maxSize);
      assert EncodeAll(payloads) + [] == EncodeAll(payloads);
      assert payloads + [] == payloads;
    } else {
      DecodeAllConsumesEncodings(EncodeAll(payloads), maxSize);
    }
  }

  /** The unfinished part of one frame yields no frame. */
  lemma PartOfFrameYieldsNothing(payload: seq<byte>, part: seq<byte>, maxSize: nat)
    requires maxSize < TWO_32 && |payload| < TWO_32 && part < Encode(payload)
    ensures DecodeAll(part, maxSize).frames == []
  {
    if Decode(part, maxSize).Frame? {
      var r := Decode(part, maxSize);
      DecodeConsumesEncoding(part, maxSize);
      var more := Encode(payload)[|part|..];
      assert Encode(r.payload) + (r.rest + more) == Encode(payload) + [] by {
        assert Encode(payload) == part + more;
      }
      PrefixFree(r.payload, payload, r.rest + more, []);
    }
  }

  ghost predicate FirstUnsendable(payloads: seq<seq<byte>>, k: nat, maxSize: nat) {
    k < |payloads| && !Sendable(payloads[k], maxSize) && forall i :: 0 <= i < k ==> Sendable(payloads[i], maxSize)
  }

  lemma FindFirstUnsendable(payloads: seq<seq<byte>>, maxSize: nat) returns (k: nat)
    requires !AllSendable(payloads, maxSize)
    ensures FirstUnsendable(payloads, k, maxSize)
  {
    k := 0;
    while k < |payloads| && Sendable(payloads[k], maxSize)
      invariant k <= |payloads| && forall i :: 0 <= i < k ==> Sendable(payloads[i], maxSize)
    {
      k := k + 1;
    }
  }

  /** What is read up to and including the first frame outside the limits. */
  lemma ReadUpToUnsendable(payloads: seq<seq<byte>>, k: nat, maxSize: nat)
    requires maxSize < TWO_32 && FirstUnsendable(payloads, k, maxSize)
    ensures var d, size := DecodeAll(EncodeAll(payloads), maxSize), |payloads[k]| % TWO_32;
            if Reported(payloads[k], maxSize)
            then d.frames == payloads[..k] && d.error == if size == 0 then EmptyFrame else TooLarge
            else payloads[..k] + [payloads[k][..size]] <= d.frames && size < |payloads[k]|
  {
    var p, after := payloads[k], EncodeAll(payloads[k..][1..]);
    assert payloads == payloads[..k] + payloads[k..];
    EncodeAllAppend(payloads[..k], payloads[k..]);
    assert EncodeAll(payloads[k..]) == Encode(p) + after;
    DecodeAllAfterFrames(payloads[..k], Encode(p) + after, maxSize);
    ReaderSees(p, after, maxSize);
    assert payloads[..k] + [] == payloads[..k];
  }

  /** The first frame outside the limits ends the session there, with everything before it read and nothing after it,
      exactly when the reader reports it; if its length has wrapped into the limits the session goes on inside it. */
  lemma {:induction false} StopsAtFirstUnsendableIff(payloads: seq<seq<byte>>, k: nat, maxSize: nat)
    requires maxSize < TWO_32 && FirstUnsendable(payloads, k, maxSize)
    ensures var d := DecodeAll(EncodeAll(payloads), maxSize);
            && (d.frames == payloads[..k] <==> Reported(payloads[k], maxSize))
            && (Reported(payloads[k], maxSize) ==>
                  d.error == if |payloads[k]| % TWO_32 == 0 then EmptyFrame else TooLarge)
  {
    ReadUpToUnsendable(payloads, k, maxSize);
  }

  /** The first frame outside the limits, if there is one, is one the reader reports. */
  ghost predicate FailureReported(payloads: seq<seq<byte>>, maxSize: nat) {
    forall k: nat :: FirstUnsendable(payloads, k, maxSize) ==> Reported(payloads[k], maxSize)
  }

  /** The frames read are the first of those written exactly when the first frame outside the limits, if there is
      one, is reported. */
  lemma {:induction false} FramesReadArePrefixIff(payloads: seq<seq<byte>>, maxSize: nat)
    requires maxSize < TWO_32
    ensures DecodeAll(EncodeAll(payloads), maxSize).frames <= payloads <==> FailureReported(payloads, maxSize)
  {
    if AllSendable(payloads, maxSize) {
      StreamRoundTripIff(payloads, maxSize);
    } else {
      var k := FindFirstUnsendable(payloads, maxSize);
      ReadUpToUnsendable(payloads, k, maxSize);
      if !Reported(payloads[k], maxSize) {
        var frames := DecodeAll(EncodeAll(payloads), maxSize).frames;
        assert frames[k] == (payloads[..k] + [payloads[k][..|payloads[k]| % TWO_32]])[k];
        assert |frames[k]| < |payloads[k]|;
      }
    }
  }

  lemma ZeroHeaderEndsSession(tail: seq<byte>, maxSize: nat)
    requires |tail| >= 4 && forall k :: 0 <= k < 4 ==> tail[k] == 0
    ensures DecodeAll(tail, maxSize).frames == []
  {
    assert forall k :: 1 <= k <= 4 ==> tail[..k][..k - 1] == tail[..k - 1];
    assert FromBigEndian(tail[..0]) == 0;
    assert FromBigEndian(tail[..1]) == 0;
    assert FromBigEndian(tail[..2]) == 0;
    assert FromBigEndian(tail[..3]) == 0;
  }

  /** The other case is real: of 2^32 + 1 zero bytes the reader returns one byte as the frame, and fails only on what
      it then finds inside the payload. */
  lemma WrappedFrameIsCut(maxSize: nat)
    requires 1 <= maxSize < TWO_32
    ensures DecodeAll(EncodeAll([seq(TWO_32 + 1, _ => 0)]), maxSize).frames == [[0]]
  {
    var p: seq<byte> := seq(TWO_32 + 1, _ => 0);
    assert EncodeAll([p]) == Encode(p) + [] by {
      assert [p][1..] == [];
    }
    ReaderSees(p, [], maxSize);
    assert p[..1] == [0] && p[1..] + [] == p[1..];
    ZeroHeaderEndsSession(p[1..], maxSize);
  }

  /** Converse of the round trip, for any bytes at all: the frames read re-encode to what was consumed. */
  lemma {:induction false} DecodeAllConsumesEncodings(s: seq<byte>, maxSize: nat)
    requires maxSize < TWO_32
    ensures AllSendable(DecodeAll(s, maxSize).frames, maxSize)
    ensures EncodeAll(DecodeAll(s, maxSize).frames) <= s
    decreases |s|
  {
    var r := Decode(s, maxSize);
    if r.Frame? {
      DecodeConsumesEncoding(s, maxSize);
      DecodeAllConsumesEncodings(r.rest, maxSize);
      var d := DecodeAll(r.rest, maxSize);
      assert ([r.payload] + d.frames)[1..] == d.frames;
    }
  }

  lemma DecodePrefix(s: seq<byte>, k: nat, maxSize: nat)
    requires k <= |s| && Decode(s[..k], maxSize).Frame?
    ensures Decode(s, maxSize).Frame?
    ensures Decode(s, maxSize).payload == Decode(s[..k], maxSize).payload
    ensures Decode(s[..k], maxSize).rest <= Decode(s, maxSize).rest
  {
    var t := s[..k];
    assert t[..4] == s[..4];
    var size := FromBigEndian(t[..4]);
    assert t[4..4 + size] == s[4..4 + size];
    assert t[4 + size..] == s[4 + size..k];
    assert s[4 + size..][..k - 4 - size] == s[4 + size..k];
  }

  /** Cutting any stream anywhere only cuts the list of frames. */
  lemma {:induction false} CutStreamCutsFrames(s: seq<byte>, k: nat, maxSize: nat)
    requires k <= |s|
    ensures DecodeAll(s[..k], maxSize).frames <= DecodeAll(s, maxSize).frames
    decreases |s|
  {
    if Decode(s[..k], maxSize).Frame? {
      DecodePrefix(s, k, maxSize);
      var cut, all := Decode(s[..k], maxSize).rest, Decode(s, maxSize).rest;
      assert cut == all[..|cut|];
      CutStreamCutsFrames(all, |cut|, maxSize);
    }
  }

  lemma CutFrame(payload: seq<byte>, j: nat, maxSize: nat)
    requires maxSize < TWO_32 && Sendable(payload, maxSize) && j < 4 + |payload|
    ensures Decode(Encode(payload)[..j], maxSize) == Failed(if j == 0 || j == 4 then EndOfStream else UnexpectedEnd, [])
  {
    var part := Encode(payload)[..j];
    HeaderValue(payload);
    if j >= 4 {
      assert part[..4] == Encode(payload)[..4] == Header(payload);
    }
  }

  /** A stream that breaks off inside a frame yields the frames before it, and says so, unless it breaks off exactly
      before the frame or exactly after its header: then the end looks like a clean one. */
  lemma {:induction false} BrokenStreamReads(payloads: seq<seq<byte>>, last: seq<byte>, j: nat, maxSize: nat)
    requires maxSize < TWO_32 && AllSendable(payloads, maxSize) && Sendable(last, maxSize) && j < |Encode(last)|
    ensures var d := DecodeAll(EncodeAll(payloads) + Encode(last)[..j], maxSize);
            && d.frames == payloads && d.rest == []
            && (d.error == EndOfStream <==> j == 0 || j == 4)
            && (d.error == UnexpectedEnd <==> j != 0 && j != 4)
  {
    DecodeAllAfterFrames(payloads, Encode(last)[..j], maxSize);
    CutFrame(last, j, maxSize);
    assert payloads + [] == payloads;
  }

  // ---------------------------------------------------------------- the imperative code

  /** An ordered byte stream's read end. Each read hands over any non-empty chunk the transport likes. */
  class Source {
    var rest: seq<byte>

    constructor (bytes: seq<byte>)
      ensures rest == bytes
    {
      rest := bytes;
    }

    method Read(want: nat) returns (chunk: seq<byte>)
      requires want > 0
      modifies this
      ensures old(rest) == chunk + rest
      ensures |chunk| <= want
      ensures old(rest) != [] ==> chunk != []
    {
      if rest == [] {
        return [];
      }
      var k: nat :| 1 <= k <= want && k <= |rest|;
      chunk := rest[..k];
      rest := rest[k..];
    }
  }

  /** A byte stream's write end, which accepts `room` more bytes and then fails. */
  class Sink {
    var data: seq<byte>
    var room: nat

    constructor (room: nat)
      ensures data == [] && this.room == room
    {
      data := [];
      this.room := room;
    }

    method Write(bytes: seq<byte>) returns (ok: bool)
      modifies this
      ensures ok <==> |bytes| <= old(room)
      ensures data == old(data) + if ok then bytes else bytes[..old(room)]
      ensures room == if ok then old(room) - |bytes| else 0
    {
      ok := |bytes| <= room;
      if ok {
        data := data + bytes;
        room := room - |bytes|;
      } else {
        data := data + bytes[..room];
        room := 0;
      }
    }
  }

  method PutUint32(hdr: array<byte>, v: nat)
    requires hdr.Length == 4 && v < TWO_32
    modifies hdr
    ensures hdr[..] == BigEndian(v, 4) == [v / 0x100_0000, v / 0x1_0000 % 0x100, v / 0x100 % 0x100, v % 0x100]
  {
    hdr[0] := v / 0x100_0000;
    hdr[1] := v / 0x1_0000 % 0x100;
    hdr[2] := v / 0x100 % 0x100;
    hdr[3] := v % 0x100;
    FourBytes(v);
  }

  /** Succeeds with the whole encoding, or fails having written only a proper prefix of it. */
  method WriteFrame(w: Sink, payload: seq<byte>) returns (ok: bool)
    modifies w
    ensures ok <==> |Encode(payload)| <= old(w.room)
    ensures w.data == old(w.data) + if ok then Encode(payload) else Encode(payload)[..old(w.room)]
    ensures w.room == if ok then old(w.room) - |Encode(payload)| else 0
  {
    var hdr := new byte[4];
    PutUint32(hdr, |payload| % TWO_32);
    ghost var room := w.room;
    ok := w.Write(hdr[..]);
    if !ok {
      assert Encode(payload)[..room] == Header(payload)[..room];
      return;
    }
    ok := w.Write(payload);
    if !ok {
      assert Encode(payload)[..room] == Header(payload) + payload[..room - 4];
    }
  }

  /** io.ReadFull: fill the buffer however the transport cuts its reads. */
  method ReadFull(r: Source, buf: array<byte>) returns (n: nat)
    modifies r, buf
    ensures n == if |old(r.rest)| < buf.Length then |old(r.rest)| else buf.Length
    ensures buf[..n] == old(r.rest)[..n] && r.rest == old(r.rest)[n..]
  {
    n := 0;
    ghost var s := r.rest;
    while n < buf.Length
      invariant n <= buf.Length && n <= |s|
      invariant buf[..n] == s[..n] && r.rest == s[n..]
      decreases buf.Length - n
    {
      var chunk := r.Read(buf.Length - n);
      if chunk == [] {
        return;
      }
      assert s[n..] == chunk + r.rest;
      assert s[n..n + |chunk|] == chunk;
      CopyInto(buf, n, chunk);
      assert buf[..n + |chunk|] == s[..n] + chunk;
      n := n + |chunk|;
      assert r.rest == s[n..];
    }
  }

  method CopyInto(buf: array<byte>, at: nat, chunk: seq<byte>)
    requires at + |chunk| <= buf.Length
    modifies buf
    ensures buf[..at + |chunk|] == old(buf[..at]) + chunk
  {
    forall i | 0 <= i < |chunk| {
      buf[at + i] := chunk[i];
    }
  }

  /** One frame, or the reason there is none; what is left unread is part of the contract. */
  method ReadFrame(r: Source, maxSize: nat) returns (result: ReadResult)
    modifies r
    ensures result == Decode(old(r.rest), maxSize)
    ensures r.rest == result.rest
  {
    ghost var s := r.rest;
    var hdr := new byte[4];
    var n := ReadFull(r, hdr);
    if n < 4 {
      return Failed(ShortRead(n), r.rest);
    }
    assert hdr[..] == s[..4] && r.rest == s[4..];
    var size := FromBigEndian(hdr[..]);
    if size == 0 {
      return Failed(EmptyFrame, r.rest);
    }
    if size > maxSize {
      return Failed(TooLarge, r.rest);
    }
    var buf := new byte[size];
    n := ReadFull(r, buf);
    if n < size {
      return Failed(ShortRead(n), r.rest);
    }
    assert buf[..] == s[4..][..size] == s[4..4 + size];
    assert r.rest == s[4..][size..] == s[4 + size..];
    result := Frame(buf[..], r.rest);
  }
}
