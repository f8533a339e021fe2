/** The encrypted, mutex-serialised stream of mesh.go: any number of goroutines call SendAction on one
    side, one read loop recovers their payloads on the other. */
module SecureStream {
  import opened Common
  import opened Framing

  /** Nonce 2^64-1 is reserved (section 5.1 of the Noise Protocol Framework): using it is an error. */
  const NONCE_LIMIT: nat := 0xFFFF_FFFF_FFFF_FFFF

  /** Authenticated encryption under the session key, as functions of the nonce. */
  datatype Cipher = Cipher(seal: (nat, seq<byte>) -> seq<byte>, open: (nat, seq<byte>) -> Option<seq<byte>>)

  /** The paired cipher states agree: opening undoes sealing, and only a sealed text opens. */
  ghost predicate Ideal(c: Cipher) {
    && (forall n: nat, p: seq<byte> {:trigger c.seal(n, p)} :: c.open(n, c.seal(n, p)) == Some(p))
    && (forall n: nat, x: seq<byte> {:trigger c.open(n, x)} :: c.open(n, x).Some? ==> c.seal(n, c.open(n, x).value) == x)
  }

  // ---------------------------------------------------------------- receiving

  function Decrypt(c: Cipher, nonce: nat, frame: seq<byte>): Option<seq<byte>> {
    if nonce < NONCE_LIMIT then c.open(nonce, frame) else None
  }

  /** The plaintexts a read loop extracts from frames: a frame that does not open is skipped and
      leaves the nonce where it was. */
  function Receive(c: Cipher, nonce: nat, frames: seq<seq<byte>>): seq<seq<byte>>
    decreases |frames|
  {
    if frames == [] then [] else
    match Decrypt(c, nonce, frames[0])
    case None => Receive(c, nonce, frames[1..])
    case Some(p) => [p] + Receive(c, nonce + 1, frames[1..])
  }

  /** Everything the read loop hands on, given the bytes that arrived. */
  function Listen(c: Cipher, wire: seq<byte>): seq<seq<byte>> {
    Receive(c, 0, DecodeAll(wire, MAX_FRAME_SIZE).frames)
  }

  lemma {:induction false} ReceiveAppend(c: Cipher, nonce: nat, a: seq<seq<byte>>, b: seq<seq<byte>>)
    ensures Receive(c, nonce, a + b)
            == Receive(c, nonce, a) + Receive(c, nonce + |Receive(c, nonce, a)|, b)
    decreases |a|
  {
    if a == [] {
      assert a + b == b;
    } else {
      assert (a + b)[1..] == a[1..] + b;
      match Decrypt(c, nonce, a[0])
      case None => ReceiveAppend(c, nonce, a[1..], b);
      case Some(p) => ReceiveAppend(c, nonce + 1, a[1..], b);
    }
  }

  /** What is on the wire, frame by frame: the next sealed payload, or a well-framed intruder. */
  datatype Item = Good(payload: seq<byte>) | Junk(frame: seq<byte>)

  function Goods(items: seq<Item>): seq<seq<byte>> {
    if items == [] then [] else (if items[0].Good? then [items[0].payload] else []) + Goods(items[1..])
  }

  function NextNonce(nonce: nat, item: Item): nat {
    if item.Good? then nonce + 1 else nonce
  }

  function FrameOf(c: Cipher, nonce: nat, item: Item): seq<byte> {
    match item
    case Good(p) => c.seal(nonce, p)
    case Junk(f) => f
  }

  function FramesOf(c: Cipher, nonce: nat, items: seq<Item>): seq<seq<byte>>
    decreases |items|
  {
    if items == [] then []
    else [FrameOf(c, nonce, items[0])] + FramesOf(c, NextNonce(nonce, items[0]), items[1..])
  }

  /** No intruder happens to open under the nonce the receiver has reached. */
  ghost predicate Undecryptable(c: Cipher, nonce: nat, items: seq<Item>)
    decreases |items|
  {
    items != [] ==>
      && (items[0].Junk? ==> c.open(nonce, items[0].frame) == None)
      && Undecryptable(c, NextNonce(nonce, items[0]), items[1..])
  }

  /** Undecryptable frames are skipped without losing, changing or reordering any sent payload. */
  lemma {:induction false} ReceiveSkipsJunk(c: Cipher, nonce: nat, items: seq<Item>)
    requires Ideal(c) && Undecryptable(c, nonce, items)
    requires nonce + |Goods(items)| <= NONCE_LIMIT
    ensures Receive(c, nonce, FramesOf(c, nonce, items)) == Goods(items)
    decreases |items|
  {
    if items != [] {
      ReceiveSkipsJunk(c, NextNonce(nonce, items[0]), items[1..]);
      var frames := FramesOf(c, nonce, items);
      assert frames[1..] == FramesOf(c, NextNonce(nonce, items[0]), items[1..]);
    }
  }

  /** The same through the framing, from bytes to payloads. */
  lemma {:induction false} ListenSkipsJunk(c: Cipher, items: seq<Item>)
    requires Ideal(c) && Undecryptable(c, 0, items) && |Goods(items)| <= NONCE_LIMIT
    requires AllSendable(FramesOf(c, 0, items), MAX_FRAME_SIZE)
    ensures Listen(c, EncodeAll(FramesOf(c, 0, items))) == Goods(items)
  {
    var frames := FramesOf(c, 0, items);
    forall k | 0 <= k < |frames| ensures |frames[k]| < TWO_32 {
      assert Sendable(frames[k], MAX_FRAME_SIZE);
    }
    StreamRoundTripIff(frames, MAX_FRAME_SIZE);
    ReceiveSkipsJunk(c, 0, items);
  }

  /** `got` is read off some of the frames in order, its i-th element sealed under nonce + i. */
  ghost predicate SealedInOrder(c: Cipher, nonce: nat, frames: seq<seq<byte>>, got: seq<seq<byte>>)
    decreases |frames|
  {
    got == []
    || (frames != [] && (
          || (frames[0] == c.seal(nonce, got[0]) && SealedInOrder(c, nonce + 1, frames[1..], got[1..]))
          || SealedInOrder(c, nonce, frames[1..], got)))
  }

  /** For any frames whatever, the i-th payload handed on is what the i-th nonce opens one of them to, in order. */
  lemma {:induction false} ReceivedWasSealed(c: Cipher, nonce: nat, frames: seq<seq<byte>>)
    requires Ideal(c)
    ensures SealedInOrder(c, nonce, frames, Receive(c, nonce, frames))
    decreases |frames|
  {
    if frames != [] {
      match Decrypt(c, nonce, frames[0])
      case None =>
        ReceivedWasSealed(c, nonce, frames[1..]);
      case Some(p) =>
        ReceivedWasSealed(c, nonce + 1, frames[1..]);
        assert Receive(c, nonce, frames)[1..] == Receive(c, nonce + 1, frames[1..]);
        assert c.seal(nonce, p) == frames[0];
    }
  }

  // ---------------------------------------------------------------- sending

  /** Where a goroutine is inside SendAction. */
  datatype Stage =
    | Idle
    | Locked
    | Encrypted(text: seq<byte>)
    | HeaderWritten(text: seq<byte>)
    | Leaving

  /** A goroutine sends the payloads of its program in order; `pos` calls have returned and
      `sent` of its payloads have been encrypted. */
  datatype Thread = Thread(program: seq<seq<byte>>, pos: nat, sent: nat, stage: Stage)

  datatype Entry = Entry(thread: nat, payload: seq<byte>)

  /** `log` lists the payloads in the order the lock was used to encrypt them. */
  datatype Session = Session(threads: seq<Thread>, holder: Option<nat>, nonce: nat, wire: seq<byte>, log: seq<Entry>)

  datatype Step = Acquire(t: nat) | Seal(t: nat) | WriteHeader(t: nat) | WriteBody(t: nat) | Release(t: nat)

  predicate Enabled(s: Session, step: Step) {
    && step.t < |s.threads|
    && var th := s.threads[step.t];
       match step
       case Acquire(t) => s.holder == None && th.stage == Idle && th.pos < |th.program|
       case Seal(t) => s.holder == Some(t) && th.stage == Locked && th.pos < |th.program|
       case WriteHeader(t) => s.holder == Some(t) && th.stage.Encrypted?
       case WriteBody(t) => s.holder == Some(t) && th.stage.HeaderWritten?
       case Release(t) => s.holder == Some(t) && th.stage == Leaving
  }

  /** One step of one goroutine; a step that is not enabled changes nothing. */
  function Apply(c: Cipher, s: Session, step: Step): Session {
    if !Enabled(s, step) then s else
    var t := step.t;
    var th := s.threads[t];
    match step
    case Acquire(_) =>
      s.(holder := Some(t), threads := s.threads[t := th.(stage := Locked)])
    case Seal(_) =>
      if s.nonce >= NONCE_LIMIT then
        s.(threads := s.threads[t := th.(stage := Leaving)])
      else
        var p := th.program[th.pos];
        s.(threads := s.threads[t := th.(sent := th.sent + 1, stage := Encrypted(c.seal(s.nonce, p)))],
           nonce := s.nonce + 1,
           log := s.log + [Entry(t, p)])
    case WriteHeader(_) =>
      s.(wire := s.wire + Header(th.stage.text),
         threads := s.threads[t := th.(stage := HeaderWritten(th.stage.text))])
    case WriteBody(_) =>
      s.(wire := s.wire + th.stage.text, threads := s.threads[t := th.(stage := Leaving)])
    case Release(_) =>
      s.(holder := None, threads := s.threads[t := th.(pos := th.pos + 1, stage := Idle)])
  }

  function Start(programs: seq<seq<seq<byte>>>): (s: Session)
    ensures |s.threads| == |programs|
  {
    Session(seq(|programs|, i requires 0 <= i < |programs| => Thread(programs[i], 0, 0, Idle)), None, 0, [], [])
  }

  function Exec(c: Cipher, programs: seq<seq<seq<byte>>>, steps: seq<Step>): (s: Session)
    ensures |s.threads| == |programs|
  {
    if steps == [] then Start(programs)
    else Apply(c, Exec(c, programs, steps[..|steps| - 1]), steps[|steps| - 1])
  }

  /** The frames the log stands for: its i-th payload sealed under nonce i. */
  function SealedFrames(c: Cipher, log: seq<Entry>): (frames: seq<seq<byte>>)
    ensures |frames| == |log|
  {
    seq(|log|, i requires 0 <= i < |log| => c.seal(i, log[i].payload))
  }

  function Payloads(log: seq<Entry>): seq<seq<byte>> {
    seq(|log|, i requires 0 <= i < |log| => log[i].payload)
  }

  /** The payloads of goroutine t, in log order. */
  function SentBy(log: seq<Entry>, t: nat): seq<seq<byte>> {
    if log == [] then [] else
    var last := log[|log| - 1];
    SentBy(log[..|log| - 1], t) + if last.thread == t then [last.payload] else []
  }

  /** What the lock holder has yet to put on the wire of the last logged frame. */
  function Missing(s: Session): seq<byte>
    requires s.holder.Some? ==> s.holder.value < |s.threads|
  {
    if s.holder == None then [] else
    match s.threads[s.holder.value].stage
    case Encrypted(text) => Encode(text)
    case HeaderWritten(text) => text
    case _ => []
  }

  ghost predicate HolderOk(c: Cipher, s: Session) {
    && (s.holder.Some? ==>
          && s.holder.value < |s.threads|
          && s.threads[s.holder.value].stage != Idle
          && var th := s.threads[s.holder.value];
             (th.stage.Encrypted? || th.stage.HeaderWritten?) ==>
               && s.log != []
               && s.log[|s.log| - 1].thread == s.holder.value
               && th.stage.text == c.seal(|s.log| - 1, s.log[|s.log| - 1].payload))
    && forall t :: 0 <= t < |s.threads| && s.holder != Some(t) ==> s.threads[t].stage == Idle
  }

  ghost predicate WireOk(c: Cipher, s: Session)
    requires HolderOk(c, s)
  {
    && s.nonce == |s.log| <= NONCE_LIMIT
    && s.wire + Missing(s) == EncodeAll(SealedFrames(c, s.log))
  }

  /** Goroutine t's payloads were logged in program order; a payload is left out only once the nonces ran out. */
  ghost predicate ThreadOk(s: Session, t: nat)
    requires t < |s.threads|
  {
    var th := s.threads[t];
    && th.sent <= |th.program| && th.pos <= |th.program|
    && (th.stage != Idle ==> th.pos < |th.program|)
    && SentBy(s.log, t) == th.program[..th.sent]
    && (s.nonce < NONCE_LIMIT ==> th.sent == th.pos + if th.stage.Idle? || th.stage.Locked? then 0 else 1)
  }

  ghost predicate Inv(c: Cipher, s: Session) {
    && HolderOk(c, s)
    && WireOk(c, s)
    && forall t :: 0 <= t < |s.threads| ==> ThreadOk(s, t)
  }

  lemma SealedFramesSnoc(c: Cipher, log: seq<Entry>, e: Entry)
    ensures SealedFrames(c, log + [e]) == SealedFrames(c, log) + [c.seal(|log|, e.payload)]
    ensures EncodeAll(SealedFrames(c, log + [e]))
            == EncodeAll(SealedFrames(c, log)) + Encode(c.seal(|log|, e.payload))
  {
    var last := [c.seal(|log|, e.payload)];
    EncodeAllAppend(SealedFrames(c, log), last);
    assert EncodeAll(last) == Encode(last[0]) + EncodeAll(last[1..]);
    assert EncodeAll(last) == Encode(last[0]);
  }

  lemma SentBySnoc(log: seq<Entry>, e: Entry, t: nat)
    ensures SentBy(log + [e], t) == SentBy(log, t) + if e.thread == t then [e.payload] else []
  {
    assert (log + [e])[..|log|] == log;
  }

  lemma HolderSeal(c: Cipher, s: Session, t: nat)
    requires HolderOk(c, s) && s.nonce == |s.log| && Enabled(s, Seal(t)) && s.nonce < NONCE_LIMIT
    ensures HolderOk(c, Apply(c, s, Seal(t)))
  {
    var s' := Apply(c, s, Seal(t));
    assert s'.log[|s'.log| - 1] == Entry(t, s.threads[t].program[s.threads[t].pos]);
  }

  lemma HolderStep(c: Cipher, s: Session, step: Step)
    requires Inv(c, s) && Enabled(s, step)
    ensures HolderOk(c, Apply(c, s, step))
  {
    var t, s' := step.t, Apply(c, s, step);
    if step.Seal? && s.nonce < NONCE_LIMIT {
      HolderSeal(c, s, t);
    } else {
      assert s'.log == s.log && s'.threads == s.threads[t := s'.threads[t]];
    }
  }

  lemma WireSeal(c: Cipher, s: Session, t: nat)
    requires HolderOk(c, s) && WireOk(c, s) && Enabled(s, Seal(t)) && s.nonce < NONCE_LIMIT && HolderOk(c, Apply(c, s, Seal(t)))
    ensures WireOk(c, Apply(c, s, Seal(t)))
  {
    var p := s.threads[t].program[s.threads[t].pos];
    SealedFramesSnoc(c, s.log, Entry(t, p));
    assert s.wire + [] == s.wire;
  }

  lemma WireHeader(c: Cipher, s: Session, t: nat)
    requires HolderOk(c, s) && WireOk(c, s) && Enabled(s, WriteHeader(t)) && HolderOk(c, Apply(c, s, WriteHeader(t)))
    ensures WireOk(c, Apply(c, s, WriteHeader(t)))
  {
    var text := s.threads[t].stage.text;
    assert Missing(s) == Header(text) + text;
    Reassociate(s.wire, Header(text), text);
  }

  lemma Reassociate<T>(a: seq<T>, b: seq<T>, c: seq<T>)
    ensures (a + b) + c == a + (b + c)
  {
  }

  lemma WireBody(c: Cipher, s: Session, t: nat)
    requires HolderOk(c, s) && WireOk(c, s) && Enabled(s, WriteBody(t)) && HolderOk(c, Apply(c, s, WriteBody(t)))
    ensures WireOk(c, Apply(c, s, WriteBody(t)))
  {
    var text := s.threads[t].stage.text;
    assert s.wire + text == (s.wire + text) + [];
  }

  lemma WireStep(c: Cipher, s: Session, step: Step)
    requires Inv(c, s) && Enabled(s, step) && HolderOk(c, Apply(c, s, step))
    ensures WireOk(c, Apply(c, s, step))
  {
    match step
    case Seal(t) =>
      if s.nonce < NONCE_LIMIT {
        WireSeal(c, s, t);
      }
    case WriteHeader(t) => WireHeader(c, s, t);
    case WriteBody(t) => WireBody(c, s, t);
    case _ =>
  }

  /** Every step but a successful seal leaves the log alone, and other goroutines untouched. */
  lemma OtherStep(c: Cipher, s: Session, step: Step, t: nat)
    requires Enabled(s, step) && t < |s.threads| && ThreadOk(s, t)
    requires step.Seal? ==> s.nonce >= NONCE_LIMIT
    ensures ThreadOk(Apply(c, s, step), t)
  {
    var s' := Apply(c, s, step);
    assert s'.log == s.log && s'.nonce == s.nonce;
    assert t != step.t ==> s'.threads[t] == s.threads[t];
  }

  lemma ThreadStep(c: Cipher, s: Session, step: Step, t: nat)
    requires Inv(c, s) && Enabled(s, step) && t < |s.threads|
    ensures ThreadOk(Apply(c, s, step), t)
  {
    assert ThreadOk(s, t);
    if step.Seal? && s.nonce < NONCE_LIMIT {
      SealStep(c, s, step.t, t);
    } else {
      OtherStep(c, s, step, t);
    }
  }

  lemma SealStep(c: Cipher, s: Session, actor: nat, t: nat)
    requires Enabled(s, Seal(actor)) && s.nonce < NONCE_LIMIT && t < |s.threads| && ThreadOk(s, t)
    requires t != actor ==> s.threads[t].stage == Idle
    ensures ThreadOk(Apply(c, s, Seal(actor)), t)
  {
    var th := s.threads[actor];
    var p := th.program[th.pos];
    SentBySnoc(s.log, Entry(actor, p), t);
    if t == actor {
      assert th.program[..th.sent] + [p] == th.program[..th.sent + 1];
    }
  }

  lemma InvStep(c: Cipher, s: Session, step: Step)
    requires Inv(c, s)
    ensures Inv(c, Apply(c, s, step))
  {
    if Enabled(s, step) {
      HolderStep(c, s, step);
      WireStep(c, s, step);
      forall t | 0 <= t < |s.threads| ensures ThreadOk(Apply(c, s, step), t) {
        ThreadStep(c, s, step, t);
      }
    }
  }

  lemma StartInv(c: Cipher, programs: seq<seq<seq<byte>>>)
    ensures Inv(c, Start(programs))
  {
    var s := Start(programs);
    assert SealedFrames(c, s.log) == [];
    assert s.wire + Missing(s) == [];
  }

  lemma ProgramsKept(c: Cipher, s: Session, step: Step, t: nat)
    requires t < |s.threads|
    ensures t < |Apply(c, s, step).threads| && Apply(c, s, step).threads[t].program == s.threads[t].program
  {
  }

  lemma {:induction false} ProgramsStay(c: Cipher, programs: seq<seq<seq<byte>>>, steps: seq<Step>, t: nat)
    requires t < |programs|
    ensures Exec(c, programs, steps).threads[t].program == programs[t]
  {
    if steps != [] {
      ProgramsStay(c, programs, steps[..|steps| - 1], t);
      ProgramsKept(c, Exec(c, programs, steps[..|steps| - 1]), steps[|steps| - 1], t);
    }
  }

  lemma {:induction false} Reachable(c: Cipher, programs: seq<seq<seq<byte>>>, steps: seq<Step>)
    ensures Inv(c, Exec(c, programs, steps))
  {
    if steps != [] {
      Reachable(c, programs, steps[..|steps| - 1]);
      InvStep(c, Exec(c, programs, steps[..|steps| - 1]), steps[|steps| - 1]);
    } else {
      StartInv(c, programs);
    }
  }

  // ---------------------------------------------------------------- main results

  /** The five steps of one call. */
  function WholeCall(t: nat): seq<Step> {
    [Acquire(t), Seal(t), WriteHeader(t), WriteBody(t), Release(t)]
  }

  function ApplyAll(c: Cipher, s: Session, steps: seq<Step>): Session
    decreases |steps|
  {
    if steps == [] then s else ApplyAll(c, Apply(c, s, steps[0]), steps[1..])
  }

  /** A call nobody interrupts does what SendAction's contract says: one nonce, one frame, one log entry. */
  lemma {:induction false} UninterruptedCall(c: Cipher, s: Session, t: nat)
    requires s.holder == None && t < |s.threads| && s.threads[t].stage == Idle && s.nonce < NONCE_LIMIT
    requires s.threads[t].pos < |s.threads[t].program|
    ensures var p, s' := s.threads[t].program[s.threads[t].pos], ApplyAll(c, s, WholeCall(t));
            && s'.wire == s.wire + Encode(c.seal(s.nonce, p)) && s'.nonce == s.nonce + 1
            && s'.log == s.log + [Entry(t, p)] && s'.holder == None
            && s'.threads == s.threads[t := s.threads[t].(pos := s.threads[t].pos + 1, sent := s.threads[t].sent + 1)]
  {
    var steps := WholeCall(t);
    var s1 := Apply(c, s, steps[0]);
    var s2 := Apply(c, s1, steps[1]);
    var s3 := Apply(c, s2, steps[2]);
    var s4 := Apply(c, s3, steps[3]);
    var s5 := Apply(c, s4, steps[4]);
    assert ApplyAll(c, s4, steps[4..]) == s5;
    assert ApplyAll(c, s3, steps[3..]) == s5 by { assert steps[3..][1..] == steps[4..]; }
    assert ApplyAll(c, s2, steps[2..]) == s5 by { assert steps[2..][1..] == steps[3..]; }
    assert ApplyAll(c, s1, steps[1..]) == s5 by { assert steps[1..][1..] == steps[2..]; }
  }

  /** The wire is `whole` complete frames followed by `partial`. */
  ghost predicate WholePlusPartial(c: Cipher, s: Session, whole: nat, partial: seq<byte>) {
    && whole <= |s.log|
    && s.wire == EncodeAll(SealedFrames(c, s.log[..whole])) + partial
  }

  /** In every interleaving the stream is whole frames, the i-th under nonce i, plus at most a proper part
      of one more frame, and that part belongs to the goroutine holding the lock. */
  lemma {:induction false} FramesAreNeverInterleaved(c: Cipher, programs: seq<seq<seq<byte>>>, steps: seq<Step>)
    returns (whole: nat, partial: seq<byte>)
    ensures var s := Exec(c, programs, steps);
            && WholePlusPartial(c, s, whole, partial)
            && (whole == |s.log| ==> partial == [])
            && (whole != |s.log| ==>
                  && whole == |s.log| - 1
                  && s.holder == Some(s.log[whole].thread)
                  && partial < Encode(c.seal(whole, s.log[whole].payload)))
  {
    var s := Exec(c, programs, steps);
    Reachable(c, programs, steps);
    assert s.log[..|s.log|] == s.log;
    if Missing(s) == [] {
      whole, partial := |s.log|, [];
      assert s.wire + [] == s.wire;
    } else {
      whole, partial := MidFrame(c, s);
    }
  }

  lemma MidFrame(c: Cipher, s: Session) returns (whole: nat, partial: seq<byte>)
    requires Inv(c, s) && Missing(s) != []
    ensures whole == |s.log| - 1 && WholePlusPartial(c, s, whole, partial)
    ensures s.holder == Some(s.log[whole].thread)
    ensures partial < Encode(c.seal(whole, s.log[whole].payload))
  {
    var text := s.threads[s.holder.value].stage.text;
    whole := |s.log| - 1;
    partial := if s.threads[s.holder.value].stage.Encrypted? then [] else Header(text);
    assert s.log == s.log[..whole] + [s.log[whole]];
    SealedFramesSnoc(c, s.log[..whole], s.log[whole]);
    var before := EncodeAll(SealedFrames(c, s.log[..whole]));
    SplitFrame(s.wire, Missing(s), before, partial, Encode(text));
  }

  lemma SplitFrame(wire: seq<byte>, missing: seq<byte>, before: seq<byte>, partial: seq<byte>, frame: seq<byte>)
    requires wire + missing == before + frame && partial + missing == frame && missing != []
    ensures wire == before + partial && partial < frame
  {
    assert (before + partial) + missing == before + frame;
    CancelSuffix(wire, before + partial, missing);
  }

  lemma CancelSuffix<T>(a: seq<T>, b: seq<T>, suffix: seq<T>)
    requires a + suffix == b + suffix
    ensures a == b
  {
    assert |a| == |b|;
    assert a == (a + suffix)[..|a|] && b == (b + suffix)[..|b|];
  }

  lemma {:induction false} ReceiveSealed(c: Cipher, log: seq<Entry>)
    requires Ideal(c) && |log| <= NONCE_LIMIT
    ensures Receive(c, 0, SealedFrames(c, log)) == Payloads(log)
  {
    if log == [] {
    } else {
      var before, e := log[..|log| - 1], log[|log| - 1];
      assert log == before + [e];
      ReceiveSealed(c, before);
      SealedFramesSnoc(c, before, e);
      ReceiveAppend(c, 0, SealedFrames(c, before), [c.seal(|before|, e.payload)]);
      assert Payloads(log) == Payloads(before) + [e.payload];
      ReceiveOne(c, |before|, e.payload);
    }
  }

  lemma ReceiveOne(c: Cipher, nonce: nat, p: seq<byte>)
    requires Ideal(c) && nonce < NONCE_LIMIT
    ensures Receive(c, nonce, [c.seal(nonce, p)]) == [p]
  {
    var frames := [c.seal(nonce, p)];
    assert frames[1..] == [];
  }

  lemma {:induction false} SealedInOrderSendable(c: Cipher, nonce: nat, frames: seq<seq<byte>>, got: seq<seq<byte>>, i: nat)
    requires SealedInOrder(c, nonce, frames, got) && AllSendable(frames, MAX_FRAME_SIZE) && i < |got|
    ensures Sendable(c.seal(nonce + i, got[i]), MAX_FRAME_SIZE)
    decreases |frames|
  {
    assert Sendable(frames[0], MAX_FRAME_SIZE);
    assert AllSendable(frames[1..], MAX_FRAME_SIZE);
    if frames[0] == c.seal(nonce, got[0]) && SealedInOrder(c, nonce + 1, frames[1..], got[1..]) {
      if i > 0 {
        SealedInOrderSendable(c, nonce + 1, frames[1..], got[1..], i - 1);
      }
    } else {
      SealedInOrderSendable(c, nonce, frames[1..], got, i);
    }
  }

  /** What arrives completely was sendable, whatever the sizes. */
  lemma ArrivedWasSendable(c: Cipher, log: seq<Entry>, wire: seq<byte>)
    requires Ideal(c) && Listen(c, wire) == Payloads(log)
    ensures AllSendable(SealedFrames(c, log), MAX_FRAME_SIZE)
  {
    var frames := DecodeAll(wire, MAX_FRAME_SIZE).frames;
    DecodeAllConsumesEncodings(wire, MAX_FRAME_SIZE);
    ReceivedWasSealed(c, 0, frames);
    forall i | 0 <= i < |log| ensures Sendable(SealedFrames(c, log)[i], MAX_FRAME_SIZE) {
      SealedInOrderSendable(c, 0, frames, Payloads(log), i);
    }
  }

  /** While a frame is half-written its payload has not arrived. */
  lemma MissingNotArrived(c: Cipher, s: Session)
    requires Inv(c, s) && Missing(s) != [] && AllSendable(SealedFrames(c, s.log), MAX_FRAME_SIZE)
    ensures |Listen(c, s.wire)| < |s.log|
  {
    var whole, partial := MidFrame(c, s);
    var frames := SealedFrames(c, s.log[..whole]);
    assert Sendable(SealedFrames(c, s.log)[whole], MAX_FRAME_SIZE);
    assert forall k :: 0 <= k < whole ==> frames[k] == SealedFrames(c, s.log)[k];
    DecodeAllAfterFrames(frames, partial, MAX_FRAME_SIZE);
    PartOfFrameYieldsNothing(c.seal(whole, s.log[whole].payload), partial, MAX_FRAME_SIZE);
    assert frames + [] == frames;
    ReceiveNoMore(c, 0, frames);
  }

  /** At any moment of any interleaving, the read loop yields exactly the sent payloads in lock order if and only
      if no frame is half-written and every sealed payload has between one and MAX_FRAME_SIZE bytes. */
  lemma {:induction false} EndToEndIff(c: Cipher, programs: seq<seq<seq<byte>>>, steps: seq<Step>)
    requires Ideal(c)
    ensures var s := Exec(c, programs, steps);
            && (s.holder.Some? ==> s.holder.value < |s.threads|)
            && (Listen(c, s.wire) == Payloads(s.log)
                <==> Missing(s) == [] && AllSendable(SealedFrames(c, s.log), MAX_FRAME_SIZE))
  {
    var s := Exec(c, programs, steps);
    Reachable(c, programs, steps);
    if Listen(c, s.wire) == Payloads(s.log) {
      ArrivedWasSendable(c, s.log, s.wire);
      if Missing(s) != [] {
        MissingNotArrived(c, s);
      }
    } else if Missing(s) == [] && AllSendable(SealedFrames(c, s.log), MAX_FRAME_SIZE) {
      assert s.wire + [] == s.wire;
      StreamRoundTripIff(SealedFrames(c, s.log), MAX_FRAME_SIZE);
      ReceiveSealed(c, s.log);
    }
  }

  /** Section 4.2 of the Noise Protocol Framework: sealing adds 16 bytes of authentication data. */
  const TAG_SIZE: nat := 16

  ghost predicate Tagged(c: Cipher) {
    forall n: nat, p: seq<byte> {:trigger c.seal(n, p)} :: |c.seal(n, p)| == |p| + TAG_SIZE
  }

  /** The same with a bound a caller can check before the call. */
  lemma {:induction false} EndToEndByPayloadSize(c: Cipher, programs: seq<seq<seq<byte>>>, steps: seq<Step>)
    requires Ideal(c) && Tagged(c)
    ensures var s := Exec(c, programs, steps);
            && (s.holder.Some? ==> s.holder.value < |s.threads|)
            && (Listen(c, s.wire) == Payloads(s.log)
                <==> Missing(s) == [] && forall e :: e in s.log ==> |e.payload| <= 16_777_200)
  {
    EndToEndIff(c, programs, steps);
    SendableByPayloadSize(c, Exec(c, programs, steps).log);
  }

  lemma SendableByPayloadSize(c: Cipher, log: seq<Entry>)
    requires Tagged(c)
    ensures AllSendable(SealedFrames(c, log), MAX_FRAME_SIZE)
            <==> forall e :: e in log ==> |e.payload| <= MAX_FRAME_SIZE - TAG_SIZE
  {
    if forall e :: e in log ==> |e.payload| <= MAX_FRAME_SIZE - TAG_SIZE {
      forall k | 0 <= k < |log| ensures Sendable(SealedFrames(c, log)[k], MAX_FRAME_SIZE) {
        assert log[k] in log;
      }
    }
    if AllSendable(SealedFrames(c, log), MAX_FRAME_SIZE) {
      forall e | e in log ensures |e.payload| <= MAX_FRAME_SIZE - TAG_SIZE {
        var k :| 0 <= k < |log| && log[k] == e;
        assert Sendable(SealedFrames(c, log)[k], MAX_FRAME_SIZE);
      }
    }
  }

  /** Nobody else has the key: a frame that opens under some nonce is the one the sender sealed under it. */
  ghost predicate Unforged(c: Cipher, log: seq<Entry>, frames: seq<seq<byte>>) {
    forall n: nat, f {:trigger c.open(n, f)} :: f in frames && c.open(n, f).Some? ==> n < |log| && f == c.seal(n, log[n].payload)
  }

  lemma {:induction false} ReceiveWithinLog(c: Cipher, log: seq<Entry>, nonce: nat, frames: seq<seq<byte>>)
    requires Ideal(c) && Unforged(c, log, frames) && nonce <= |log|
    ensures Receive(c, nonce, frames) <= Payloads(log)[nonce..]
    decreases |frames|
  {
    if frames != [] {
      assert frames[0] in frames;
      assert forall f :: f in frames[1..] ==> f in frames;
      match Decrypt(c, nonce, frames[0])
      case None => ReceiveWithinLog(c, log, nonce, frames[1..]);
      case Some(p) =>
        assert c.seal(nonce, log[nonce].payload) == frames[0];
        ReceiveWithinLog(c, log, nonce + 1, frames[1..]);
        assert Payloads(log)[nonce..] == [p] + Payloads(log)[nonce + 1..];
    }
  }

  /** Frames dropped, reordered, replayed or injected: whatever bytes arrive, at any moment of any run, the read
      loop hands on a prefix of the sent payloads in lock order, each once. */
  lemma {:induction false} OnlyThePrefixArrives(c: Cipher, programs: seq<seq<seq<byte>>>, steps: seq<Step>, bytes: seq<byte>)
    requires Ideal(c)
    requires Unforged(c, Exec(c, programs, steps).log, DecodeAll(bytes, MAX_FRAME_SIZE).frames)
    ensures Listen(c, bytes) <= Payloads(Exec(c, programs, steps).log)
  {
    var log := Exec(c, programs, steps).log;
    ReceiveWithinLog(c, log, 0, DecodeAll(bytes, MAX_FRAME_SIZE).frames);
    assert Payloads(log)[0..] == Payloads(log);
  }

  /** The receiver's nonces run out like the sender's: whatever arrives, one session hands on fewer than 2^64 payloads. */
  lemma {:induction false} NoncesBoundDelivery(c: Cipher, nonce: nat, frames: seq<seq<byte>>)
    requires nonce < 0x1_0000_0000_0000_0000
    ensures nonce + |Receive(c, nonce, frames)| < 0x1_0000_0000_0000_0000
    decreases |frames|
  {
    if frames != [] {
      match Decrypt(c, nonce, frames[0])
      case None => NoncesBoundDelivery(c, nonce, frames[1..]);
      case Some(p) => NoncesBoundDelivery(c, nonce + 1, frames[1..]);
    }
  }

  lemma {:induction false} ReceiveNoMore(c: Cipher, nonce: nat, frames: seq<seq<byte>>)
    ensures |Receive(c, nonce, frames)| <= |frames|
    decreases |frames|
  {
    if frames != [] {
      ReceiveNoMore(c, nonce, frames[1..]);
      ReceiveNoMore(c, nonce + 1, frames[1..]);
    }
  }

  /** At every moment of every interleaving, however many of the written bytes have arrived, the read loop
      has handed on a prefix of the payloads in lock order; and each goroutine's payloads are in lock order
      exactly the first `sent` of its program. When the length field of the first frame outside the
      limits wraps into them, the reader takes pieces of ciphertext for frames; then the result rests on such
      pieces not opening. */
  lemma {:induction false} EveryCutIsAPrefix(c: Cipher, programs: seq<seq<seq<byte>>>, steps: seq<Step>, arrived: nat)
    requires Ideal(c)
    requires arrived <= |Exec(c, programs, steps).wire|
    requires var s := Exec(c, programs, steps);
             || FailureReported(SealedFrames(c, s.log), MAX_FRAME_SIZE)
             || Unforged(c, s.log, DecodeAll(s.wire[..arrived], MAX_FRAME_SIZE).frames)
    ensures var s := Exec(c, programs, steps);
            && Listen(c, s.wire[..arrived]) <= Payloads(s.log)
            && forall t :: 0 <= t < |programs| ==>
                 s.threads[t].sent <= |programs[t]| && SentBy(s.log, t) == programs[t][..s.threads[t].sent]
  {
    var s := Exec(c, programs, steps);
    Reachable(c, programs, steps);
    forall t | 0 <= t < |programs|
      ensures s.threads[t].sent <= |programs[t]| && SentBy(s.log, t) == programs[t][..s.threads[t].sent]
    {
      ProgramsStay(c, programs, steps, t);
      assert ThreadOk(s, t);
    }
    if Unforged(c, s.log, DecodeAll(s.wire[..arrived], MAX_FRAME_SIZE).frames) {
      OnlyThePrefixArrives(c, programs, steps, s.wire[..arrived]);
    } else {
      CutOfFrames(c, s.log, s.wire, Missing(s), arrived);
    }
  }

  lemma CutOfFrames(c: Cipher, log: seq<Entry>, wire: seq<byte>, missing: seq<byte>, arrived: nat)
    requires Ideal(c) && |log| <= NONCE_LIMIT && arrived <= |wire|
    requires wire + missing == EncodeAll(SealedFrames(c, log))
    requires FailureReported(SealedFrames(c, log), MAX_FRAME_SIZE)
    ensures Listen(c, wire[..arrived]) <= Payloads(log)
  {
    var full := wire + missing;
    assert full[..arrived] == wire[..arrived];
    CutStreamCutsFrames(full, arrived, MAX_FRAME_SIZE);
    FramesReadArePrefixIff(SealedFrames(c, log), MAX_FRAME_SIZE);
    ReceiveSealed(c, log);
    ReceivePrefix(c, DecodeAll(wire[..arrived], MAX_FRAME_SIZE).frames, SealedFrames(c, log));
  }

  lemma ReceivePrefix(c: Cipher, a: seq<seq<byte>>, b: seq<seq<byte>>)
    requires a <= b
    ensures Receive(c, 0, a) <= Receive(c, 0, b)
  {
    assert b == a + b[|a|..];
    ReceiveAppend(c, 0, a, b[|a|..]);
  }

  // ---------------------------------------------------------------- when everything arrives

  function TotalCalls(programs: seq<seq<seq<byte>>>): nat {
    if programs == [] then 0 else TotalCalls(programs[..|programs| - 1]) + |programs[|programs| - 1]|
  }

  function TotalSent(threads: seq<Thread>): nat {
    if threads == [] then 0 else TotalSent(threads[..|threads| - 1]) + threads[|threads| - 1].sent
  }

  lemma {:induction false} TotalSentUpdate(threads: seq<Thread>, t: nat, th: Thread)
    requires t < |threads|
    ensures TotalSent(threads[t := th]) + threads[t].sent == TotalSent(threads) + th.sent
  {
    var n := |threads| - 1;
    if t == n {
      assert threads[t := th][..n] == threads[..n];
    } else {
      assert threads[t := th][..n] == threads[..n][t := th];
      TotalSentUpdate(threads[..n], t, th);
    }
  }

  lemma {:induction false} NothingSentYet(threads: seq<Thread>)
    requires forall t :: 0 <= t < |threads| ==> threads[t].sent == 0
    ensures TotalSent(threads) == 0
  {
    if threads != [] {
      NothingSentYet(threads[..|threads| - 1]);
    }
  }

  lemma {:induction false} LogCountsSent(c: Cipher, programs: seq<seq<seq<byte>>>, steps: seq<Step>)
    ensures TotalSent(Exec(c, programs, steps).threads) == |Exec(c, programs, steps).log|
  {
    if steps == [] {
      NothingSentYet(Start(programs).threads);
    } else {
      var s, last := Exec(c, programs, steps[..|steps| - 1]), steps[|steps| - 1];
      LogCountsSent(c, programs, steps[..|steps| - 1]);
      if Enabled(s, last) {
        TotalSentUpdate(s.threads, last.t, Apply(c, s, last).threads[last.t]);
      }
    }
  }

  /** Nobody sends more than its program; the totals agree only if everybody sent all of it. */
  lemma {:induction false} TotalsCompare(threads: seq<Thread>, programs: seq<seq<seq<byte>>>)
    requires |threads| == |programs|
    requires forall t :: 0 <= t < |threads| ==> threads[t].sent <= |programs[t]|
    ensures TotalSent(threads) <= TotalCalls(programs)
    ensures TotalSent(threads) == TotalCalls(programs) <==> forall t :: 0 <= t < |threads| ==> threads[t].sent == |programs[t]|
  {
    if threads != [] {
      var n := |threads| - 1;
      TotalsCompare(threads[..n], programs[..n]);
    }
  }

  ghost predicate AllReturned(s: Session) {
    forall t :: 0 <= t < |s.threads| ==> s.threads[t].stage == Idle && s.threads[t].pos == |s.threads[t].program|
  }

  lemma AllSentIff(c: Cipher, programs: seq<seq<seq<byte>>>, steps: seq<Step>)
    requires AllReturned(Exec(c, programs, steps))
    ensures var s := Exec(c, programs, steps);
            (forall t :: 0 <= t < |programs| ==> SentBy(s.log, t) == programs[t]) <==> TotalCalls(programs) <= NONCE_LIMIT
  {
    var s := Exec(c, programs, steps);
    Reachable(c, programs, steps);
    LogCountsSent(c, programs, steps);
    forall t | 0 <= t < |programs|
      ensures s.threads[t].sent <= |programs[t]| && SentBy(s.log, t) == programs[t][..s.threads[t].sent]
      ensures s.nonce < NONCE_LIMIT ==> s.threads[t].sent == |programs[t]|
    {
      ProgramsStay(c, programs, steps, t);
      assert ThreadOk(s, t);
    }
    TotalsCompare(s.threads, programs);
    assert s.nonce == |s.log| <= NONCE_LIMIT;
    forall t | 0 <= t < |programs|
      ensures SentBy(s.log, t) == programs[t] <==> s.threads[t].sent == |programs[t]|
    {
      assert programs[t][..|programs[t]|] == programs[t];
    }
  }

  /** Once every call has returned, every goroutine's whole program has arrived in order if and only if the
      programs make no more calls than there are nonces and all sealed sizes are within the limits. */
  lemma {:induction false} FinishedProgramsArriveIff(c: Cipher, programs: seq<seq<seq<byte>>>, steps: seq<Step>)
    requires Ideal(c) && AllReturned(Exec(c, programs, steps))
    ensures var s := Exec(c, programs, steps);
            (&& Listen(c, s.wire) == Payloads(s.log)
             && forall t :: 0 <= t < |programs| ==> SentBy(s.log, t) == programs[t])
            <==> TotalCalls(programs) <= NONCE_LIMIT && AllSendable(SealedFrames(c, s.log), MAX_FRAME_SIZE)
  {
    Reachable(c, programs, steps);
    EndToEndIff(c, programs, steps);
    AllSentIff(c, programs, steps);
  }

  lemma {:induction false} LoggedIsSent(log: seq<Entry>, p: seq<byte>, t: nat)
    ensures p in SentBy(log, t) <==> Entry(t, p) in log
  {
    if log != [] {
      LoggedIsSent(log[..|log| - 1], p, t);
      assert log == log[..|log| - 1] + [log[|log| - 1]];
    }
  }

  lemma {:induction false} LoggedByThreads(c: Cipher, programs: seq<seq<seq<byte>>>, steps: seq<Step>)
    ensures forall e :: e in Exec(c, programs, steps).log ==> e.thread < |programs|
  {
    if steps != [] {
      LoggedByThreads(c, programs, steps[..|steps| - 1]);
    }
  }

  /** The same with a condition on the programs alone: no more calls than there are nonces, and no payload over the
      limit. */
  lemma {:induction false} FinishedProgramsArriveByPayloadSize(c: Cipher, programs: seq<seq<seq<byte>>>, steps: seq<Step>)
    requires Ideal(c) && Tagged(c) && AllReturned(Exec(c, programs, steps))
    ensures var s := Exec(c, programs, steps);
            (&& Listen(c, s.wire) == Payloads(s.log)
             && forall t :: 0 <= t < |programs| ==> SentBy(s.log, t) == programs[t])
            <==> (&& TotalCalls(programs) < 0x1_0000_0000_0000_0000
                  && forall t, p :: 0 <= t < |programs| && p in programs[t] ==> |p| <= 16_777_200)
  {
    var s := Exec(c, programs, steps);
    FinishedProgramsArriveIff(c, programs, steps);
    SendableByPayloadSize(c, s.log);
    if TotalCalls(programs) <= NONCE_LIMIT {
      AllSentIff(c, programs, steps);
      LoggedByThreads(c, programs, steps);
      forall t, p | 0 <= t < |programs| ensures p in programs[t] <==> Entry(t, p) in s.log {
        LoggedIsSent(s.log, p, t);
      }
      assert forall e :: e in s.log ==> e == Entry(e.thread, e.payload);
    }
  }

  // ---------------------------------------------------------------- every schedule finishes

  const STEPS_PER_CALL: nat := 5

  /** How many of the steps of its current call a goroutine has behind it. */
  function StageIndex(stage: Stage): nat {
    match stage
    case Idle => 0
    case Locked => 1
    case Encrypted(_) => 2
    case HeaderWritten(_) => 3
    case Leaving => 4
  }

  function Work(th: Thread): int {
    STEPS_PER_CALL * (|th.program| - th.pos) - StageIndex(th.stage)
  }

  function TotalWork(threads: seq<Thread>): int {
    if threads == [] then 0 else TotalWork(threads[..|threads| - 1]) + Work(threads[|threads| - 1])
  }

  lemma {:induction false} TotalWorkUpdate(threads: seq<Thread>, t: nat, th: Thread)
    requires t < |threads|
    ensures TotalWork(threads[t := th]) + Work(threads[t]) == TotalWork(threads) + Work(th)
  {
    var n := |threads| - 1;
    if t == n {
      assert threads[t := th][..n] == threads[..n];
    } else {
      assert threads[t := th][..n] == threads[..n][t := th];
      TotalWorkUpdate(threads[..n], t, th);
    }
  }

  lemma {:induction false} WorkAtStart(threads: seq<Thread>, programs: seq<seq<seq<byte>>>)
    requires |threads| == |programs|
    requires forall t :: 0 <= t < |threads| ==> threads[t] == Thread(programs[t], 0, 0, Idle)
    ensures TotalWork(threads) == STEPS_PER_CALL * TotalCalls(programs)
  {
    if threads != [] {
      WorkAtStart(threads[..|threads| - 1], programs[..|programs| - 1]);
    }
  }

  lemma {:induction false} WorkNotNegative(threads: seq<Thread>)
    requires forall t :: 0 <= t < |threads| ==> Work(threads[t]) >= 0
    ensures TotalWork(threads) >= 0
  {
    if threads != [] {
      WorkNotNegative(threads[..|threads| - 1]);
    }
  }

  lemma StepLowersWork(c: Cipher, s: Session, step: Step)
    requires Enabled(s, step)
    ensures TotalWork(Apply(c, s, step).threads) < TotalWork(s.threads)
  {
    TotalWorkUpdate(s.threads, step.t, Apply(c, s, step).threads[step.t]);
  }

  /** The steps of a run that were enabled where they stood. */
  function Taken(c: Cipher, programs: seq<seq<seq<byte>>>, steps: seq<Step>): nat {
    if steps == [] then 0 else
    var front, last := steps[..|steps| - 1], steps[|steps| - 1];
    Taken(c, programs, front) + if Enabled(Exec(c, programs, front), last) then 1 else 0
  }

  lemma {:induction false} TakenLowersWork(c: Cipher, programs: seq<seq<seq<byte>>>, steps: seq<Step>)
    ensures Taken(c, programs, steps) + TotalWork(Exec(c, programs, steps).threads) <= STEPS_PER_CALL * TotalCalls(programs)
  {
    if steps == [] {
      WorkAtStart(Start(programs).threads, programs);
    } else {
      var front, last := steps[..|steps| - 1], steps[|steps| - 1];
      TakenLowersWork(c, programs, front);
      if Enabled(Exec(c, programs, front), last) {
        StepLowersWork(c, Exec(c, programs, front), last);
      }
    }
  }

  /** Somebody can move as long as a call is left. */
  lemma SomebodyCanMove(c: Cipher, s: Session) returns (step: Step)
    requires Inv(c, s) && !AllReturned(s)
    ensures Enabled(s, step)
  {
    if s.holder.Some? {
      var t := s.holder.value;
      assert ThreadOk(s, t);
      step := match s.threads[t].stage
              case Locked => Seal(t)
              case Encrypted(_) => WriteHeader(t)
              case HeaderWritten(_) => WriteBody(t)
              case _ => Release(t);
    } else {
      var t :| 0 <= t < |s.threads| && !(s.threads[t].stage == Idle && s.threads[t].pos == |s.threads[t].program|);
      assert ThreadOk(s, t);
      step := Acquire(t);
    }
  }

  /** No deadlock and no livelock, under any schedule: calls are left exactly as long as some goroutine can move, and
      no run has more moves than five for each call. */
  lemma {:induction false} EveryScheduleFinishes(c: Cipher, programs: seq<seq<seq<byte>>>, steps: seq<Step>)
    ensures var s := Exec(c, programs, steps);
            && (AllReturned(s) <==> forall step :: !Enabled(s, step))
            && Taken(c, programs, steps) <= STEPS_PER_CALL * TotalCalls(programs)
  {
    var s := Exec(c, programs, steps);
    Reachable(c, programs, steps);
    TakenLowersWork(c, programs, steps);
    forall t | 0 <= t < |s.threads| ensures Work(s.threads[t]) >= 0 {
      assert ThreadOk(s, t);
    }
    WorkNotNegative(s.threads);
    if !AllReturned(s) {
      var step := SomebodyCanMove(c, s);
    }
  }

  lemma FramesStep(s: seq<byte>, maxSize: nat)
    requires Decode(s, maxSize).Frame?
    ensures var r := Decode(s, maxSize);
            && DecodeAll(s, maxSize).frames == [r.payload] + DecodeAll(r.rest, maxSize).frames
            && DecodeAll(s, maxSize).frames[1..] == DecodeAll(r.rest, maxSize).frames
            && |r.rest| < |s|
  {
  }

  lemma ReceiveStep(c: Cipher, nonce: nat, frames: seq<seq<byte>>)
    requires frames != []
    ensures var d, all := Decrypt(c, nonce, frames[0]), Receive(c, nonce, frames);
            if d.None? then all == Receive(c, nonce, frames[1..])
            else all != [] && all[0] == d.value && all[1..] == Receive(c, nonce + 1, frames[1..])
  {
  }

  /** All that is handed on in the end if `delivered` has been so far and the frames `left` are still to be read. */
  function Outlook(c: Cipher, delivered: seq<seq<byte>>, nonce: nat, left: seq<seq<byte>>): seq<seq<byte>> {
    delivered + Receive(c, nonce, left)
  }

  lemma OutlookAtStart(c: Cipher, nonce: nat, left: seq<seq<byte>>)
    ensures Outlook(c, [], nonce, left) == Receive(c, nonce, left)
  {
  }

  /** Stopping anywhere hands on a prefix, and stopping where no frame is left hands on everything. */
  lemma OutlookAtEnd(c: Cipher, delivered: seq<seq<byte>>, nonce: nat, left: seq<seq<byte>>)
    ensures delivered <= Outlook(c, delivered, nonce, left)
    ensures left == [] ==> delivered == Outlook(c, delivered, nonce, left)
  {
  }

  function Extended(delivered: seq<seq<byte>>, got: Option<seq<byte>>): seq<seq<byte>> {
    if got.Some? then delivered + [got.value] else delivered
  }

  /** A round of the loop changes nothing about what is handed on in the end. */
  lemma OutlookKept(c: Cipher, delivered: seq<seq<byte>>, nonce: nat, left: seq<seq<byte>>, got: Option<seq<byte>>)
    requires left != [] && got == Decrypt(c, nonce, left[0])
    ensures Outlook(c, Extended(delivered, got), nonce + if got.Some? then 1 else 0, left[1..]) == Outlook(c, delivered, nonce, left)
  {
    ReceiveStep(c, nonce, left);
    if got.Some? {
      MoveFirst(delivered, Receive(c, nonce, left));
    }
  }

  lemma MoveFirst<T>(a: seq<T>, b: seq<T>)
    requires b != []
    ensures a + b == (a + [b[0]]) + b[1..]
  {
  }

  // ---------------------------------------------------------------- the imperative code

  /** One direction of an established session. */
  class MeshNode {
    const cipher: Cipher
    var stream: Sink?
    var sendNonce: nat
    var recvNonce: nat

    constructor (cipher: Cipher)
      ensures this.cipher == cipher && stream == null && sendNonce == 0 && recvNonce == 0
    {
      this.cipher := cipher;
      stream := null;
      sendNonce, recvNonce := 0, 0;
    }

    /** SendAction with the lock held throughout: the next nonce seals the payload and one whole frame is
        written, or the call fails. The nonce is used up even when the write fails. */
    method SendAction(data: seq<byte>) returns (ok: bool)
      modifies this`sendNonce, stream
      ensures stream == null ==> !ok && sendNonce == old(sendNonce)
      ensures stream != null && old(sendNonce) >= NONCE_LIMIT ==>
        !ok && sendNonce == old(sendNonce) && stream.data == old(stream.data) && stream.room == old(stream.room)
      ensures stream != null && old(sendNonce) < NONCE_LIMIT ==>
        var frame := Encode(cipher.seal(old(sendNonce), data));
        && sendNonce == old(sendNonce) + 1
        && (ok <==> |frame| <= old(stream.room))
        && stream.data == old(stream.data) + (if ok then frame else frame[..old(stream.room)])
        && stream.room == (if ok then old(stream.room) - |frame| else 0)
    {
      if stream == null {
        return false;
      }
      if sendNonce >= NONCE_LIMIT {
        return false;
      }
      var encrypted := cipher.seal(sendNonce, data);
      sendNonce := sendNonce + 1;
      ok := WriteFrame(stream, encrypted);
    }

    /** One round of the read loop: whether there was a frame, and what it opened to. */
    method ListenOnce(r: Source) returns (more: bool, got: Option<seq<byte>>)
      modifies r, this`recvNonce
      ensures var frames := DecodeAll(old(r.rest), MAX_FRAME_SIZE).frames;
              && (more <==> frames != [])
              && (more ==>
                    && |r.rest| < |old(r.rest)| && DecodeAll(r.rest, MAX_FRAME_SIZE).frames == frames[1..]
                    && got == Decrypt(cipher, old(recvNonce), frames[0]))
      ensures recvNonce == old(recvNonce) + if more && got.Some? then 1 else 0
    {
      ghost var before := r.rest;
      var result := ReadFrame(r, MAX_FRAME_SIZE);
      if result.Failed? {
        return false, None;
      }
      FramesStep(before, MAX_FRAME_SIZE);
      got := Decrypt(cipher, recvNonce, result.payload);
      if got.Some? {
        recvNonce := recvNonce + 1;
      }
      more := true;
    }

    /** The read loop: runs until the stream gives no more frames, or until it is cancelled between two
        frames. It hands on exactly what the specification says, or a prefix of it when cancelled. */
    method ListenLoop(r: Source) returns (delivered: seq<seq<byte>>, cancelled: bool)
      modifies r, this`recvNonce
      ensures var all := Receive(cipher, old(recvNonce), DecodeAll(old(r.rest), MAX_FRAME_SIZE).frames);
              delivered <= all && (!cancelled ==> delivered == all)
      ensures recvNonce == old(recvNonce) + |delivered|
    {
      delivered, cancelled := [], false;
      ghost var start, left := recvNonce, DecodeAll(r.rest, MAX_FRAME_SIZE).frames;
      ghost var all := Receive(cipher, start, left);
      OutlookAtStart(cipher, start, left);
      while true
        invariant left == DecodeAll(r.rest, MAX_FRAME_SIZE).frames
        invariant recvNonce == start + |delivered| && all == Outlook(cipher, delivered, recvNonce, left)
        decreases |r.rest|
      {
        cancelled := *;
        if cancelled {
          break;
        }
        ghost var nonce := recvNonce;
        var more, got := ListenOnce(r);
        if !more {
          break;
        }
        OutlookKept(cipher, delivered, nonce, left, got);
        if got.Some? {
          delivered := delivered + [got.value];
        }
        left := left[1..];
      }
      OutlookAtEnd(cipher, delivered, recvNonce, left);
    }
  }
}
