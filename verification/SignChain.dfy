/**
 Listing, signing and unlocking from the Go client through the bridge to the
 firmware and back, over whole sessions: neither side of the serial line is cleared
 between requests, so what one request leaves behind reaches the next.
 */
module SignChain {
  import opened Bytes
  import opened FirmwareSpec
  import opened WireSpec
  import opened BridgeSpec
  import opened Options
  import opened Words

  // ---------------------------------------------------------------- whole runs on the serial line

  ghost predicate SizedCrypto(c: Crypto) {
    (forall m, k, p :: |c.sign(m, k, p)| == 64) && forall seed :: |c.publicOf(seed)| == 32
  }

  /** Everything sent while the steps are taken. */
  function AllSent(c: Crypto, nvs: Nvs, steps: seq<Step>): seq<Output> {
    if steps == [] then [] else
      var n := |steps| - 1;
      AllSent(c, nvs, steps[..n]) + Sent(c, Run(c, nvs, steps[..n]), steps[n])
  }

  lemma {:induction false} RunSized(c: Crypto, nvs: Nvs, steps: seq<Step>)
    requires SizedCrypto(c)
    ensures WellSized(c, Run(c, nvs, steps))
  {
    if steps != [] {
      var n := |steps| - 1;
      RunSized(c, nvs, steps[..n]);
      StepSized(c, Run(c, nvs, steps[..n]), steps[n]);
    }
  }

  lemma StepSized(c: Crypto, s: State, step: Step)
    requires SizedCrypto(c) && WellSized(c, s)
    ensures WellSized(c, Next(c, s, step))
  {
    hide HandleSignChallenge, HandleSignRequest, HandleIdentities, HandleGetPublicKey, GenerateText, Pad, ValidPadding;
  }

  lemma {:induction false} FramesOfConcat(a: seq<Output>, b: seq<Output>)
    ensures FramesOf(a + b) == FramesOf(a) + FramesOf(b)
  {
    if a == [] {
      assert a + b == b;
    } else {
      assert (a + b)[1..] == a[1..] + b;
      FramesOfConcat(a[1..], b);
    }
  }

  lemma {:induction false} AllSentReadable(c: Crypto, nvs: Nvs, steps: seq<Step>)
    requires SizedCrypto(c) && forall i :: 0 <= i < |steps| ==> steps[i].Receive?
    ensures forall o :: o in AllSent(c, nvs, steps) ==> Readable(o)
    ensures |FramesOf(AllSent(c, nvs, steps))| == |steps|
  {
    if steps != [] {
      var n := |steps| - 1;
      var s := Run(c, nvs, steps[..n]);
      AllSentReadable(c, nvs, steps[..n]);
      RunSized(c, nvs, steps[..n]);
      SentIsReadable(c, s, steps[n].packet);
      FramesOfConcat(AllSent(c, nvs, steps[..n]), Sent(c, s, steps[n]));
    }
  }

  /** Over any run of packets the bridge receives one response per packet, the right one, in order. */
  lemma RunIsReceived(c: Crypto, nvs: Nvs, steps: seq<Step>)
    requires SizedCrypto(c) && forall i :: 0 <= i < |steps| ==> steps[i].Receive?
    ensures RecvMany(LineBytes(AllSent(c, nvs, steps)), |steps|) == Somes(FramesOf(AllSent(c, nvs, steps)))
  {
    AllSentReadable(c, nvs, steps);
    FramingRoundTrip(AllSent(c, nvs, steps));
  }

  // ---------------------------------------------------------------- the line between requests

  /** The device, what it has read of a packet that is not complete, and what it has sent that is not received. */
  datatype Link = Link(device: State, toDevice: seq<byte>, toHost: seq<byte>)

  /** The surroundings of one exchange, and whether an incomplete packet has timed out before it. */
  datatype Moment = Moment(env: Env, waited: bool)

  /** One packet down and one response up; the device has answered before the bridge gives up. */
  function Ask(c: Crypto, m: Moment): Exchange<Link> {
    (l: Link, kind: byte, payload: seq<byte>) =>
      var served := Serve(c, l.device, m.env, (if m.waited then [] else l.toDevice) + SendBytes(kind, payload));
      var got := Recv(l.toHost + LineBytes(served.outs));
      (Link(served.device, served.left, got.rest), got.frame)
  }

  /** The line holds exactly these responses, between NUL-free texts. */
  ghost predicate Queued(line: seq<byte>, frames: seq<seq<byte>>) {
    exists noise, outs :: Lined(line, frames, noise, outs)
  }

  ghost predicate Lined(line: seq<byte>, frames: seq<seq<byte>>, noise: seq<byte>, outs: seq<Output>) {
    && 0 !in noise && (forall o :: o in outs ==> Readable(o))
    && line == noise + LineBytes(outs) && frames == FramesOf(outs)
  }

  lemma {:induction false} LineBytesConcat(a: seq<Output>, b: seq<Output>)
    ensures LineBytes(a + b) == LineBytes(a) + LineBytes(b)
  {
    if a == [] {
      assert a + b == b;
    } else {
      assert (a + b)[1..] == a[1..] + b;
      LineBytesConcat(a[1..], b);
      hide OutputBytes;
    }
  }

  /** What is sent queues up behind what is there. */
  lemma {:induction false} QueuedAppend(line: seq<byte>, frames: seq<seq<byte>>, more: seq<Output>)
    requires Queued(line, frames) && forall o :: o in more ==> Readable(o)
    ensures Queued(line + LineBytes(more), frames + FramesOf(more))
  {
    var noise, outs :| Lined(line, frames, noise, outs);
    LinedAppend(line, frames, noise, outs, more);
    LinedIsQueued(line + LineBytes(more), frames + FramesOf(more), noise, outs + more);
  }

  lemma {:induction false} LinedAppend(line: seq<byte>, frames: seq<seq<byte>>, noise: seq<byte>,
                                       outs: seq<Output>, more: seq<Output>)
    requires Lined(line, frames, noise, outs) && forall o :: o in more ==> Readable(o)
    ensures Lined(line + LineBytes(more), frames + FramesOf(more), noise, outs + more)
  {
    hide LineBytes, FramesOf, Readable;
    LineBytesConcat(outs, more);
    FramesOfConcat(outs, more);
    Reassociate(noise, LineBytes(outs), LineBytes(more));
  }

  lemma LinedIsQueued(line: seq<byte>, frames: seq<seq<byte>>, noise: seq<byte>, outs: seq<Output>)
    requires Lined(line, frames, noise, outs)
    ensures Queued(line, frames)
  {
    hide Lined;
  }

  /** Receiving takes the first response off the queue. */
  lemma QueuedRecv(line: seq<byte>, frames: seq<seq<byte>>)
    requires Queued(line, frames) && frames != []
    ensures Recv(line).frame == Some(frames[0]) && Queued(Recv(line).rest, frames[1..])
  {
    var noise, outs :| Lined(line, frames, noise, outs);
    TakeFirst(noise, outs);
  }

  lemma {:induction false} TakeFirst(noise: seq<byte>, outs: seq<Output>)
    requires 0 !in noise && (forall o :: o in outs ==> Readable(o)) && FramesOf(outs) != []
    ensures var r := Recv(noise + LineBytes(outs));
            r.frame == Some(FramesOf(outs)[0]) && Queued(r.rest, FramesOf(outs)[1..])
    decreases |outs|
  {
    var o, rest := outs[0], outs[1..];
    assert o in outs && forall x :: x in rest ==> x in outs;
    LineOfCons(noise, outs);
    if o.Frame? {
      hide Recv, Readable;
      assert Readable(o);
      RecvFrame(noise, o.bytes, LineBytes(rest));
      FrameIsReadable(o);
      assert noise + OutputBytes(o) + LineBytes(rest) == noise + (Str(o.bytes) + LineBytes(rest));
      assert Lined(LineBytes(rest), FramesOf(rest), [], rest) by {
        assert LineBytes(rest) == [] + LineBytes(rest);
      }
    } else {
      TextIsNoise(o.text);
      TakeFirst(noise + OutputBytes(o), rest);
    }
  }

  lemma FrameIsReadable(o: Output)
    requires o.Frame? && Readable(o)
    ensures 1 <= |o.bytes| <= 4096
  {
  }

  lemma {:induction false} SkipMore(line: seq<byte>, more: seq<byte>)
    requires SkipText(line) != []
    ensures SkipText(line + more) == SkipText(line) + more
  {
    if line[0] != 0 {
      SkipMore(line[1..], more);
      assert (line + more)[1..] == line[1..] + more;
    }
  }

  /** What arrives later does not change a response that is complete. */
  lemma RecvMore(line: seq<byte>, more: seq<byte>)
    requires Recv(line).frame.Some?
    ensures Recv(line + more) == Received(Recv(line).frame, Recv(line).rest + more)
  {
    SkipMore(line, more);
    hide SkipText;
    var l := SkipText(line);
    var n := Word(l, 0);
    assert Word(l + more, 0) == n;
    assert (l + more)[4..4 + n] == l[4..4 + n] && (l + more)[4 + n..] == l[4 + n..] + more;
  }

  /** A queue that already holds a response gives it to whoever receives next, whatever is sent meanwhile. */
  lemma StaleFirst(line: seq<byte>, frames: seq<seq<byte>>, more: seq<byte>)
    requires Queued(line, frames) && frames != []
    ensures Recv(line + more).frame == Some(frames[0])
  {
    hide Queued, Recv;
    QueuedRecv(line, frames);
    RecvMore(line, more);
  }

  /** The response of a handler to one packet. */
  function AnswerTo(c: Crypto, s: State, p: Packet): seq<byte>
    requires |FramesOf(Sent(c, s, Receive(p)))| == 1
  {
    FramesOf(Sent(c, s, Receive(p)))[0]
  }

  /** A packet that fits is handled alone and leaves nothing unread. */
  lemma ServedAlone(c: Crypto, s: State, env: Env, kind: byte, payload: seq<byte>)
    requires |payload| <= 4096
    ensures var p := env(0, kind, payload);
            Serve(c, s, env, SendBytes(kind, payload)) == Served(Dispatch(c, s, p).0, Dispatch(c, s, p).1, [])
  {
    var line := SendBytes(kind, payload);
    PacketRoundTrip(kind, payload, []);
    hide Dispatch, SendBytes;
    assert line + [] == line;
    var (t, out) := Dispatch(c, s, env(0, kind, payload));
    assert Serve(c, t, env, []) == Served(t, [], []);
  }

  /** The device reads packets whole from here on. */
  predicate Aligned(l: Link, m: Moment) {
    m.waited || l.toDevice == []
  }

  /**
   The line is a queue: a packet that fits is handled on its own, its response queues
   up behind those still unreceived, and the bridge receives the one in front.
   */
  lemma AskQueued(c: Crypto, m: Moment, l: Link, kind: byte, payload: seq<byte>, frames: seq<seq<byte>>)
    requires WellSized(c, l.device) && Delivers(m.env) && |payload| <= 4096
    requires Aligned(l, m) && Queued(l.toHost, frames)
    ensures var p := m.env(0, kind, payload);
            && |FramesOf(Sent(c, l.device, Receive(p)))| == 1
            && var (l', frame) := Ask(c, m)(l, kind, payload);
               var queue := frames + [AnswerTo(c, l.device, p)];
               && l'.device == Next(c, l.device, Receive(p)) && l'.toDevice == []
               && frame == Some(queue[0]) && Queued(l'.toHost, queue[1..])
  {
    var p := m.env(0, kind, payload);
    var outs := Sent(c, l.device, Receive(p));
    SentIsReadable(c, l.device, p);
    ServedAlone(c, l.device, m.env, kind, payload);
    assert [] + SendBytes(kind, payload) == SendBytes(kind, payload);
    hide Dispatch, Serve, SendBytes, Recv, LineBytes, FramesOf, Queued, Readable;
    QueuedAppend(l.toHost, frames, outs);
    assert FramesOf(outs) == [AnswerTo(c, l.device, p)];
    QueuedRecv(l.toHost + LineBytes(outs), frames + FramesOf(outs));
  }

  // ---------------------------------------------------------------- the firmware's side of signing

  /** The device holds a key that it may use. */
  ghost predicate Ready(c: Crypto, s: State, pk: seq<byte>) {
    WellSized(c, s) && s.keyLoaded && !IsLocked(s) && s.publicKey == pk && |pk| == 32
  }

  lemma PacketBytes(p: Packet, k: nat, n: nat)
    requires k + n <= |p.data|
    ensures BytesAt(p, k, n) == p.data[k..k + n]
  {
    forall i | 0 <= i < n
      ensures BytesAt(p, k, n)[i] == p.data[k..k + n][i]
    {
    }
  }

  lemma PacketWord(p: Packet, k: nat)
    requires k + 4 <= |p.data|
    ensures WordAt(p, k) == Word(p.data, k)
  {
    PacketBytes(p, k, 4);
  }

  /** The firmware signs exactly the bytes that the bridge put into the payload. */
  lemma FirmwareSigns(c: Crypto, s: State, p: Packet, pk: seq<byte>, d: seq<byte>, flags: byte)
    requires Ready(c, s, pk) && |d| < TWO_32 && p.data == SignPayload(pk, d, flags)
    ensures HandleSignRequest(c, s, p) == [Frame([SIGN_RESPONSE, 0, 0, 0, 64] + c.sign(d, s.privateKey, pk))]
  {
    var data := p.data;
    assert data == [] + Str(pk) + (Str(d) + [flags]);
    ReadStr([], pk, Str(d) + [flags]);
    assert data == Str(pk) + Str(d) + [flags];
    ReadStr(Str(pk), d, [flags]);
    PacketWord(p, 0);
    PacketWord(p, 36);
    PacketBytes(p, 4, 32);
    PacketBytes(p, 40, |d|);
  }

  lemma ReadyLists(c: Crypto, s: State, p: Packet, pk: seq<byte>)
    requires Ready(c, s, pk) && p.kind == REQUEST_IDENTITIES
    ensures Dispatch(c, s, p) == (s, [Frame([IDENTITIES_ANSWER, 0, 0, 0, 1, 0, 0, 0, 32] + pk + [0, 0, 0, 0])])
  {
  }

  lemma ReadySigns(c: Crypto, s: State, p: Packet, pk: seq<byte>, d: seq<byte>)
    requires Ready(c, s, pk) && |d| < TWO_32 && p.kind == SIGN_REQUEST && p.data == SignPayload(pk, d, 0)
    ensures Dispatch(c, s, p) == (s, [Frame([SIGN_RESPONSE, 0, 0, 0, 64] + c.sign(d, s.privateKey, pk))])
  {
    FirmwareSigns(c, s, p, pk, d, 0);
    hide HandleSignRequest, SignPayload;
  }

  // ---------------------------------------------------------------- sessions

  /** A call of the Go client: sign a message, or list the keys. */
  datatype Call = Sign(d: seq<byte>, flags: byte, moment: Moment) | List(moment: Moment)

  datatype Outcome = Signature(blob: Option<seq<byte>>) | Keys(listing: Listing)

  /** One call, for the key pk. */
  function Make(c: Crypto, pk: seq<byte>, l: Link, call: Call): (Link, Outcome) {
    match call
    case Sign(d, flags, m) => var (t, blob) := GoSign(Ask(c, m), l, Blob(pk), d, flags); (t, Signature(blob))
    case List(m) => var (t, keys) := GoList(Ask(c, m), l); (t, Keys(keys))
  }

  /** A session: calls one after another on the same line. */
  function Session(c: Crypto, pk: seq<byte>, l: Link, calls: seq<Call>): (Link, seq<Outcome>) {
    if calls == [] then (l, []) else
      var n := |calls| - 1;
      var (t, outcomes) := Session(c, pk, l, calls[..n]);
      var (u, outcome) := Make(c, pk, t, calls[n]);
      (u, outcomes + [outcome])
  }

  lemma {:induction false} SessionLength(c: Crypto, pk: seq<byte>, l: Link, calls: seq<Call>)
    ensures |Session(c, pk, l, calls).1| == |calls|
  {
    if calls != [] {
      SessionLength(c, pk, l, calls[..|calls| - 1]);
    }
  }

  /** A message that fits into one packet. */
  predicate Short(call: Call) {
    call.Sign? ==> |call.d| <= 4055
  }

  ghost predicate Proper(call: Call) {
    Delivers(call.moment.env) && (call.Sign? ==> |call.d| + 61 < TWO_32)
  }

  /** The response that the device owes a call. */
  function Owed(c: Crypto, s: State, pk: seq<byte>, call: Call): seq<byte> {
    match call
    case Sign(d, _, _) => [SIGN_RESPONSE, 0, 0, 0, 64] + c.sign(d, s.privateKey, pk)
    case List(_) => [IDENTITIES_ANSWER, 0, 0, 0, 1, 0, 0, 0, 32] + pk + [0, 0, 0, 0]
  }

  /** What a call makes of a response, be it its own or not. */
  function Made(call: Call, frame: seq<byte>): Outcome {
    match call
    case Sign(_, _, _) => Signature(SignatureOfFrame(Some(frame)))
    case List(_) => Keys(KeysOfFrame(Some(frame)))
  }

  /** The call's own signature of its message, or the device's one key. */
  function Right(c: Crypto, s: State, pk: seq<byte>, call: Call): Outcome {
    match call
    case Sign(d, _, _) => Signature(Some(Blob(c.sign(d, s.privateKey, pk))))
    case List(_) => Keys(Listed([AgentKey(Blob(pk), COMMENT)]))
  }

  /** A call that receives its own response is right, and the manager's parsers read what it returns. */
  lemma OwnResponseIsRight(c: Crypto, s: State, pk: seq<byte>, call: Call)
    requires Ready(c, s, pk)
    ensures Made(call, Owed(c, s, pk, call)) == Right(c, s, pk, call)
    ensures match call
            case Sign(d, _, _) => var sig := c.sign(d, s.privateKey, pk); ParseSshSig(Blob(sig)) == Some(sig)
            case List(_) => ParseSshPubkey(Blob(pk)) == Some(pk)
  {
    hide SignatureOfFrame, KeysOfFrame, Blob, ParseTyped;
    match call
    case Sign(d, _, _) => SignatureComesBack(c.sign(d, s.privateKey, pk));
    case List(_) => KeyComesBack(pk);
  }

  /** A short call is one exchange on the queue and leaves the device as it was. */
  lemma ShortCall(c: Crypto, pk: seq<byte>, l: Link, call: Call, frames: seq<seq<byte>>)
    requires Ready(c, l.device, pk) && Proper(call) && Short(call)
    requires Aligned(l, call.moment) && Queued(l.toHost, frames)
    ensures var (l', outcome) := Make(c, pk, l, call);
            var queue := frames + [Owed(c, l.device, pk, call)];
            && l'.device == l.device && l'.toDevice == []
            && outcome == Made(call, queue[0]) && Queued(l'.toHost, queue[1..])
  {
    var m := call.moment;
    var kind := if call.Sign? then SIGN_REQUEST else REQUEST_IDENTITIES;
    var payload := if call.Sign? then SignPayload(pk, call.d, 0) else [];
    var p := m.env(0, kind, payload);
    if call.Sign? {
      ReadySigns(c, l.device, p, pk, call.d);
    } else {
      ReadyLists(c, l.device, p, pk);
    }
    FramesOfReply([], Owed(c, l.device, pk, call));
    assert Dispatch(c, l.device, p) == (l.device, [Frame(Owed(c, l.device, pk, call))]);
    assert |payload| <= 4096;
    hide Ask, Dispatch, Queued, GoSign, GoList, SignPayload, Blob, Delivers, SignatureOfFrame;
    hide KeysOfFrame, Owed, IsLocked, FramesOf;
    AskQueued(c, m, l, kind, payload, frames);
    if call.Sign? {
      GoSignReaches(Ask(c, m), l, pk, call.d, call.flags);
    } else {
      GoListReaches(Ask(c, m), l);
    }
  }

  // ---------------------------------------------------------------- sessions of short messages

  lemma SessionStep(c: Crypto, pk: seq<byte>, l: Link, calls: seq<Call>)
    requires calls != []
    ensures var n := |calls| - 1;
            var (t, before) := Session(c, pk, l, calls[..n]);
            var (u, outcome) := Make(c, pk, t, calls[n]);
            Session(c, pk, l, calls) == (u, before + [outcome])
  {
    hide Make;
  }

  /** The responses that the device owes a session. */
  function AllOwed(c: Crypto, s: State, pk: seq<byte>, calls: seq<Call>): (frames: seq<seq<byte>>)
    ensures |frames| == |calls|
  {
    seq(|calls|, i requires 0 <= i < |calls| => Owed(c, s, pk, calls[i]))
  }

  /**
   A session of short messages and listings on a line with stale responses: every
   call receives the response that is in front, its own or an older one, the line
   keeps as many unreceived responses as it had, and the device does not change.
   */
  lemma {:induction false} ShortSession(c: Crypto, pk: seq<byte>, l: Link, calls: seq<Call>, stale: seq<seq<byte>>)
    requires Ready(c, l.device, pk) && Queued(l.toHost, stale)
    requires forall i :: 0 <= i < |calls| ==> Proper(calls[i]) && Short(calls[i])
    requires calls != [] ==> Aligned(l, calls[0].moment)
    ensures var (l', outcomes) := Session(c, pk, l, calls);
            var queue := stale + AllOwed(c, l.device, pk, calls);
            && l'.device == l.device && l'.toDevice == (if calls == [] then l.toDevice else [])
            && |outcomes| == |calls| && (forall i :: 0 <= i < |calls| ==> outcomes[i] == Made(calls[i], queue[i]))
            && Queued(l'.toHost, queue[|calls|..])
  {
    hide Ready, Queued, Make, Made, Owed, Proper, Short;
    if calls == [] {
      assert stale + AllOwed(c, l.device, pk, calls) == stale;
      assert stale[0..] == stale;
    } else {
      var n := |calls| - 1;
      var t := Session(c, pk, l, calls[..n]).0;
      ShortSession(c, pk, l, calls[..n], stale);
      var queue := stale + AllOwed(c, l.device, pk, calls);
      assert queue == stale + AllOwed(c, l.device, pk, calls[..n]) + [Owed(c, l.device, pk, calls[n])];
      var front := (stale + AllOwed(c, l.device, pk, calls[..n]))[n..];
      ShortCall(c, pk, t, calls[n], front);
      SessionStep(c, pk, l, calls);
      assert front + [Owed(c, l.device, pk, calls[n])] == queue[n..];
      assert queue[n..][1..] == queue[n + 1..];
    }
  }

  /** Nothing is under way in either direction. */
  ghost predicate Synced(l: Link) {
    l.toDevice == [] && Queued(l.toHost, [])
  }

  /** After connecting, with only text on the line, it is synced. */
  lemma FreshIsSynced(s: State, text: seq<byte>)
    requires 0 !in text
    ensures Synced(Link(s, [], text))
  {
    assert text == text + LineBytes([]);
    LinedIsQueued(text, [], text, []);
  }

  /** All calls of a session of short messages are right, and the line is synced again. */
  lemma ShortSessionIsRight(c: Crypto, pk: seq<byte>, l: Link, calls: seq<Call>)
    requires Ready(c, l.device, pk) && Synced(l)
    requires forall i :: 0 <= i < |calls| ==> Proper(calls[i]) && Short(calls[i])
    ensures var (l', outcomes) := Session(c, pk, l, calls);
            && l'.device == l.device && Synced(l')
            && |outcomes| == |calls| && forall i :: 0 <= i < |calls| ==> outcomes[i] == Right(c, l.device, pk, calls[i])
  {
    ShortSession(c, pk, l, calls, []);
    var owed := AllOwed(c, l.device, pk, calls);
    assert [] + owed == owed && owed[|calls|..] == [];
    hide Session, Made, Owed, Right, Ready, Queued;
    forall i | 0 <= i < |calls| ensures Made(calls[i], owed[i]) == Right(c, l.device, pk, calls[i]) {
      OwnResponseIsRight(c, l.device, pk, calls[i]);
    }
  }

  // ---------------------------------------------------------------- long messages

  /**
   How the firmware takes a message that does not fit: the request is skipped, its
   payload is read as a packet of type 0 that holds the key and is refused, and what
   follows is read as packets again.  Up to 4096 bytes that is the message in one more
   refused packet; a longer message is executed as packets itself.
   */
  lemma LongIsRead(c: Crypto, s: State, env: Env, pk: seq<byte>, d: seq<byte>)
    requires |pk| == 32 && Delivers(env) && 4055 < |d| <= 65475
    ensures var served := Serve(c, s, env, SendBytes(SIGN_REQUEST, SignPayload(pk, d, 0)));
            && (|d| <= 4096 ==> served == Served(s, Status(FAILURE) + Status(FAILURE), [0]))
            && (|d| > 4096 ==> var inner := Serve(c, s, env, d + [0]);
                               served == Served(inner.device, Status(FAILURE) + inner.outs, inner.left))
  {
    var payload := SignPayload(pk, d, 0);
    var line, rest := SendBytes(SIGN_REQUEST, payload), Str(d) + [0];
    LongPayload(pk, d);
    RestOfLong(d);
    RefusedPacket(c, s, env(|rest|, 0, pk));
    RefusedPacket(c, s, env(1, 0, d));
    hide Dispatch, SendBytes, SignPayload, ReadPacket, Str, Status;
    assert Serve(c, s, env, line) == Serve(c, s, env, payload);
    var inner := Serve(c, s, env, rest);
    assert Serve(c, s, env, payload) == inner.(outs := Status(FAILURE) + inner.outs);
    if |d| <= 4096 {
      assert Serve(c, s, env, [0]) == Served(s, [], [0]);
      assert Status(FAILURE) + [] == Status(FAILURE);
    }
  }

  lemma RefusedPacket(c: Crypto, s: State, p: Packet)
    requires p.kind == 0
    ensures Dispatch(c, s, p) == (s, Status(FAILURE))
  {
  }

  /** The rejected packet's payload begins like a packet of type 0 that holds the key. */
  lemma LongPayload(pk: seq<byte>, d: seq<byte>)
    requires |pk| == 32 && 4055 < |d| <= 65475
    ensures var payload := SignPayload(pk, d, 0);
            && ReadPacket(SendBytes(SIGN_REQUEST, payload)) == TooLong(payload)
            && ReadPacket(payload) == Got(0, pk, Str(d) + [0])
  {
    var payload, rest := SignPayload(pk, d, 0), Str(d) + [0];
    var line := SendBytes(SIGN_REQUEST, payload);
    PacketRoundTrip(SIGN_REQUEST, payload, []);
    hide SendBytes;
    assert line + [] == line && payload + [] == payload;
    assert payload == [0, 0, 0, 32] + pk + rest;
    KeyInFront(pk, rest);
  }

  lemma KeyInFront(pk: seq<byte>, rest: seq<byte>)
    requires |pk| == 32
    ensures ReadPacket([0, 0, 0, 32] + pk + rest) == Got(0, pk, rest)
  {
    var payload := [0, 0, 0, 32] + pk + rest;
    assert payload[4..36] == pk && payload[36..] == rest;
  }

  /** The length of the message and the message look like one more packet of type 0. */
  lemma RestOfLong(d: seq<byte>)
    requires |d| <= 65475
    ensures |d| <= 4096 ==> ReadPacket(Str(d) + [0]) == Got(0, d, [0])
    ensures |d| > 4096 ==> ReadPacket(Str(d) + [0]) == TooLong(d + [0])
    ensures ReadPacket([0]) == Incomplete
  {
    PacketRoundTrip(0, d, [0]);
    assert Str(d) + [0] == SendBytes(0, d) + [0];
  }

  /** A byte that the device waits on, and a failure that the bridge has not received. */
  function OutOfStep(s: State): Link {
    Link(s, [0], LineBytes(Status(FAILURE)))
  }

  /** What a long message leaves on a synced line. */
  ghost predicate LeftBy(c: Crypto, s: State, env: Env, d: seq<byte>, l': Link) {
    if |d| <= 4096 then
      l' == OutOfStep(s)
    else
      var inner := Serve(c, s, env, d + [0]);
      l'.device == inner.device && l'.toDevice == inner.left && l'.toHost == LineBytes(inner.outs)
  }

  /**
   A call with a long message fails.  Beyond what the bridge accepts the connection is
   closed and the line is untouched; otherwise a failure stays queued up (up to 4096
   bytes), or whatever the device made of the message.
   */
  lemma LongCall(c: Crypto, pk: seq<byte>, l: Link, call: Call)
    requires |pk| == 32 && Synced(l) && Proper(call) && !Short(call)
    ensures var (l', outcome) := Make(c, pk, l, call);
            && outcome == Signature(None)
            && (|call.d| > 65475 ==> l' == l)
            && (|call.d| <= 65475 ==> LeftBy(c, l.device, call.moment.env, call.d, l'))
  {
    var m, d := call.moment, call.d;
    GoSignReaches(Ask(c, m), l, pk, d, call.flags);
    hide GoSign, Blob, SignatureOfFrame;
    if |d| <= 65475 {
      LongAsk(c, m, l, pk, d);
      FailureComesBack();
      hide Ask, LeftBy;
    }
  }

  lemma LongAsk(c: Crypto, m: Moment, l: Link, pk: seq<byte>, d: seq<byte>)
    requires |pk| == 32 && Synced(l) && Delivers(m.env) && 4055 < |d| <= 65475
    ensures var (l', frame) := Ask(c, m)(l, SIGN_REQUEST, SignPayload(pk, d, 0));
            frame == Some([FAILURE]) && LeftBy(c, l.device, m.env, d, l')
  {
    var line := SendBytes(SIGN_REQUEST, SignPayload(pk, d, 0));
    assert [] + line == line;
    LongIsRead(c, l.device, m.env, pk, d);
    var served := Serve(c, l.device, m.env, line);
    hide Serve, SendBytes, SignPayload, Recv, Queued, Delivers;
    FailureFirst(l.toHost, served.outs[1..]);
    assert served.outs == Status(FAILURE) + served.outs[1..];
    if |d| <= 4096 {
      assert served.outs[1..] == Status(FAILURE);
    }
  }

  lemma FailureFirst(line: seq<byte>, more: seq<Output>)
    requires Queued(line, [])
    ensures Recv(line + LineBytes(Status(FAILURE) + more)) == Received(Some([FAILURE]), LineBytes(more))
  {
    var noise, outs :| Lined(line, [], noise, outs);
    TextsOnly(noise, outs);
    hide Recv, LineBytes;
    StatusLine(more);
    RecvFrame(line, [FAILURE], LineBytes(more));
    assert line + LineBytes(Status(FAILURE) + more) == line + (Str([FAILURE]) + LineBytes(more));
  }

  lemma StatusLine(more: seq<Output>)
    ensures LineBytes(Status(FAILURE) + more) == Str([FAILURE]) + LineBytes(more)
  {
    assert (Status(FAILURE) + more)[1..] == more;
    assert OutputBytes(Frame([FAILURE])) == Str([FAILURE]);
    hide Str;
  }

  /** Without responses the line has no NUL. */
  lemma {:induction false} TextsOnly(noise: seq<byte>, outs: seq<Output>)
    requires 0 !in noise && (forall o :: o in outs ==> Readable(o)) && FramesOf(outs) == []
    ensures 0 !in noise + LineBytes(outs)
    decreases |outs|
  {
    if outs != [] {
      assert outs[0] in outs && forall x :: x in outs[1..] ==> x in outs;
      assert outs[0].Text?;
      TextIsNoise(outs[0].text);
      LineOfCons(noise, outs);
      TextsOnly(noise + OutputBytes(outs[0]), outs[1..]);
    }
  }

  lemma QueuedFailure()
    ensures Queued(LineBytes(Status(FAILURE)), [[FAILURE]])
  {
    var line := LineBytes(Status(FAILURE));
    FramesOfReply([], [FAILURE]);
    hide LineBytes, FramesOf;
    assert [] + line == line;
    assert Readable(Status(FAILURE)[0]) && forall o :: o in Status(FAILURE) ==> o == Status(FAILURE)[0];
    LinedIsQueued(line, [[FAILURE]], [], Status(FAILURE));
  }

  /**
   Signing over a whole session: all calls are right, each signature that of the
   call's own message, exactly when every message has at most 4055 bytes.
   */
  lemma {:induction false} SessionWorksIffShort(c: Crypto, pk: seq<byte>, l: Link, calls: seq<Call>)
    requires Ready(c, l.device, pk) && Synced(l)
    requires forall i :: 0 <= i < |calls| ==> Proper(calls[i])
    ensures |Session(c, pk, l, calls).1| == |calls|
    ensures (forall i :: 0 <= i < |calls| ==> Session(c, pk, l, calls).1[i] == Right(c, l.device, pk, calls[i]))
            <==> forall i :: 0 <= i < |calls| ==> Short(calls[i])
  {
    hide Ready, Queued, Proper, Short, Synced, Right, Make;
    SessionLength(c, pk, l, calls);
    if forall i :: 0 <= i < |calls| ==> Short(calls[i]) {
      ShortSessionIsRight(c, pk, l, calls);
    } else {
      var n := |calls| - 1;
      SessionLength(c, pk, l, calls[..n]);
      SessionStep(c, pk, l, calls);
      SessionWorksIffShort(c, pk, l, calls[..n]);
      var before := Session(c, pk, l, calls[..n]).1;
      assert forall i :: 0 <= i < n ==> Session(c, pk, l, calls).1[i] == before[i] && calls[..n][i] == calls[i];
      if forall i :: 0 <= i < n ==> Short(calls[..n][i]) {
        LastLongFails(c, pk, l, calls);
      }
    }
  }

  lemma LastLongFails(c: Crypto, pk: seq<byte>, l: Link, calls: seq<Call>)
    requires calls != [] && Ready(c, l.device, pk) && Synced(l)
    requires forall i :: 0 <= i < |calls| ==> Proper(calls[i])
    requires var n := |calls| - 1; (forall i :: 0 <= i < n ==> Short(calls[..n][i])) && !Short(calls[n])
    ensures |Session(c, pk, l, calls).1| == |calls|
    ensures Session(c, pk, l, calls).1[|calls| - 1] != Right(c, l.device, pk, calls[|calls| - 1])
  {
    var n := |calls| - 1;
    assert calls[n].Sign?;
    hide Queued, Proper, Short, Synced, Make, Blob;
    SessionLength(c, pk, l, calls[..n]);
    SessionStep(c, pk, l, calls);
    ShortSessionIsRight(c, pk, l, calls[..n]);
    LongCall(c, pk, Session(c, pk, l, calls[..n]).0, calls[n]);
  }

  // ---------------------------------------------------------------- after a long message

  /** While a response is left over, whatever is called next receives it, and none of its own. */
  lemma NextTakesStale(c: Crypto, pk: seq<byte>, l: Link, call: Call, stale: seq<seq<byte>>)
    requires |pk| == 32 && Queued(l.toHost, stale) && stale != [] && Proper(call)
    requires call.Sign? ==> |call.d| <= 65475
    ensures Make(c, pk, l, call).1 == Made(call, stale[0])
  {
    var m := call.moment;
    var kind := if call.Sign? then SIGN_REQUEST else REQUEST_IDENTITIES;
    var payload := if call.Sign? then SignPayload(pk, call.d, 0) else [];
    var line := (if m.waited then [] else l.toDevice) + SendBytes(kind, payload);
    StaleFirst(l.toHost, stale, LineBytes(Serve(c, l.device, m.env, line).outs));
    hide GoSign, GoList, Blob, Serve, Queued, Recv, LineBytes, SendBytes, SignPayload, SignatureOfFrame, KeysOfFrame;
    if call.Sign? {
      GoSignReaches(Ask(c, m), l, pk, call.d, call.flags);
    } else {
      GoListReaches(Ask(c, m), l);
    }
  }

  /** What a failure is to a call. */
  function Fails(call: Call): Outcome {
    if call.Sign? then Signature(None) else Keys(Failed)
  }

  /** After a message of 4056 to 4096 bytes the next call fails, however short, whether or not the device has waited. */
  lemma NextCallFails(c: Crypto, pk: seq<byte>, l: Link, long: Call, next: Call)
    requires |pk| == 32 && Synced(l) && Proper(long) && Proper(next)
    requires long.Sign? && 4055 < |long.d| <= 4096
    ensures Make(c, pk, Make(c, pk, l, long).0, next).1 == Fails(next)
  {
    var l' := Make(c, pk, l, long).0;
    LongCall(c, pk, l, long);
    QueuedFailure();
    FailureComesBack();
    if next.Sign? && |next.d| > 65475 {
      GoSignReaches(Ask(c, next.moment), l', pk, next.d, next.flags);
    } else {
      NextTakesStale(c, pk, l', next, [[FAILURE]]);
    }
  }

  lemma {:induction false} SessionFirst(c: Crypto, pk: seq<byte>, l: Link, calls: seq<Call>)
    requires calls != []
    ensures |Session(c, pk, l, calls).1| == |calls|
    ensures Session(c, pk, l, calls).1[0] == Make(c, pk, l, calls[0]).1
  {
    hide Make;
    var n := |calls| - 1;
    SessionStep(c, pk, l, calls);
    SessionLength(c, pk, l, calls[..n]);
    if n > 0 {
      SessionFirst(c, pk, l, calls[..n]);
    } else {
      assert Session(c, pk, l, calls[..n]) == (l, []);
    }
  }

  /**
   After a message of 4056 to 4096 bytes the first call fails.  If it is made when the
   firmware has given up on the byte left over, every short call from then on receives
   the response of the one before it, and the device is unchanged.
   */
  lemma AnswersShift(c: Crypto, pk: seq<byte>, l: Link, long: Call, calls: seq<Call>)
    requires Ready(c, l.device, pk) && Synced(l) && Proper(long) && long.Sign? && 4055 < |long.d| <= 4096
    requires calls != [] && forall i :: 0 <= i < |calls| ==> Proper(calls[i]) && Short(calls[i])
    ensures var (l', first) := Make(c, pk, l, long);
            var (l'', outcomes) := Session(c, pk, l', calls);
            && first == Signature(None) && |outcomes| == |calls| && outcomes[0] == Fails(calls[0])
            && (calls[0].moment.waited ==>
                  && l''.device == l.device
                  && forall i :: 0 < i < |calls| ==> outcomes[i] == Made(calls[i], Owed(c, l.device, pk, calls[i - 1])))
  {
    var l' := Make(c, pk, l, long).0;
    LongCall(c, pk, l, long);
    NextCallFails(c, pk, l, long, calls[0]);
    SessionFirst(c, pk, l', calls);
    QueuedFailure();
    assert Queued(l'.toHost, [[FAILURE]]) && l'.device == l.device;
    hide Queued, Make, Made, Owed, Proper, Short, LeftBy, Synced;
    if calls[0].moment.waited {
      ShortSession(c, pk, l', calls, [[FAILURE]]);
    }
  }

  /**
   The signature of the previous message is taken for the signature of this one, which
   is right only when the two signatures are the same, as for a repeated message.
   */
  lemma StaleSignature(c: Crypto, s: State, pk: seq<byte>, previous: Call, call: Call)
    requires Ready(c, s, pk) && previous.Sign? && call.Sign?
    ensures Made(call, Owed(c, s, pk, previous)) == Signature(Some(Blob(c.sign(previous.d, s.privateKey, pk))))
    ensures Made(call, Owed(c, s, pk, previous)) == Right(c, s, pk, call)
            <==> c.sign(previous.d, s.privateKey, pk) == c.sign(call.d, s.privateKey, pk)
  {
    OwnResponseIsRight(c, s, pk, previous);
    OwnResponseIsRight(c, s, pk, call);
    hide SignatureOfFrame, Blob, ParseTyped;
  }

  // ---------------------------------------------------------------- which long messages the device survives

  /** The device after each packet that it reads from the line can still sign. */
  ghost predicate StaysUsable(c: Crypto, s: State, env: Env, line: seq<byte>)
    decreases |line|
  {
    match ReadPacket(line)
    case Incomplete => true
    case TooLong(rest) => StaysUsable(c, s, env, rest)
    case Got(kind, data, rest) =>
      var t := Dispatch(c, s, env(|rest|, kind, data)).0;
      t.keyLoaded && !IsLocked(t) && StaysUsable(c, t, env, rest)
  }

  /** No packet on the line generates a key, or locks an encrypted one. */
  predicate Harmless(encrypted: bool, line: seq<byte>)
    decreases |line|
  {
    match ReadPacket(line)
    case Incomplete => true
    case TooLong(rest) => Harmless(encrypted, rest)
    case Got(kind, data, rest) =>
      && !(kind == LOCK && encrypted) && !(kind == GENERATE_ENCRYPTED && |data| >= 1)
      && Harmless(encrypted, rest)
  }

  /** Key generation succeeds. */
  ghost predicate Generates(env: Env) {
    forall n, k, d {:trigger env(n, k, d)} :: Completes(env(n, k, d))
  }

  lemma UsablePacket(c: Crypto, s: State, p: Packet)
    requires s.keyLoaded && !IsLocked(s)
    ensures var harmless := !(p.kind == LOCK && s.keyEncrypted) && !(p.kind == GENERATE_ENCRYPTED && |p.data| >= 1);
            var t := Dispatch(c, s, p).0;
            && (harmless ==> t == s)
            && (!harmless && p.kdfOk && p.aesOk ==> IsLocked(t))
  {
  }

  /** A harmless line leaves the device exactly as it was. */
  lemma {:induction false} HarmlessKeepsState(c: Crypto, s: State, env: Env, line: seq<byte>)
    requires s.keyLoaded && !IsLocked(s) && Delivers(env) && Harmless(s.keyEncrypted, line)
    ensures Serve(c, s, env, line).device == s && StaysUsable(c, s, env, line)
    decreases |line|
  {
    match ReadPacket(line)
    case Incomplete =>
    case TooLong(rest) => HarmlessKeepsState(c, s, env, rest);
    case Got(kind, data, rest) =>
      UsablePacket(c, s, env(|rest|, kind, data));
      hide Dispatch;
      HarmlessKeepsState(c, s, env, rest);
  }

  /** And only a harmless line does, when the generations in it succeed: anything else locks the key on the way. */
  lemma {:induction false} UsableIffHarmless(c: Crypto, s: State, env: Env, line: seq<byte>)
    requires s.keyLoaded && !IsLocked(s) && Delivers(env) && Generates(env)
    ensures StaysUsable(c, s, env, line) <==> Harmless(s.keyEncrypted, line)
    decreases |line|
  {
    match ReadPacket(line)
    case Incomplete =>
    case TooLong(rest) => UsableIffHarmless(c, s, env, rest);
    case Got(kind, data, rest) =>
      UsablePacket(c, s, env(|rest|, kind, data));
      hide Dispatch;
      if !(kind == LOCK && s.keyEncrypted) && !(kind == GENERATE_ENCRYPTED && |data| >= 1) {
        UsableIffHarmless(c, s, env, rest);
      }
  }

  /** An encrypted or plain key is loaded and may be used. */
  predicate Usable(s: State) {
    s.keyLoaded && !IsLocked(s)
  }

  /** The last unlock on the line that checks a password against a locked key is followed by harmless packets only. */
  ghost predicate UnlocksLast(c: Crypto, s: State, env: Env, line: seq<byte>)
    decreases |line|
  {
    match ReadPacket(line)
    case Incomplete => false
    case TooLong(rest) => UnlocksLast(c, s, env, rest)
    case Got(kind, data, rest) =>
      var p := env(|rest|, kind, data);
      var t := Dispatch(c, s, p).0;
      (Unlocks(c, s, Receive(p)) && Harmless(t.keyEncrypted, rest)) || UnlocksLast(c, t, env, rest)
  }

  /** What a packet does to a loaded key, as far as it can be used. */
  lemma PacketUsable(c: Crypto, s: State, p: Packet)
    requires s.keyLoaded
    ensures var harmless := !(p.kind == LOCK && s.keyEncrypted) && !(p.kind == GENERATE_ENCRYPTED && |p.data| >= 1);
            var t := Dispatch(c, s, p).0;
            && t.keyLoaded
            && (Usable(s) ==> !Unlocks(c, s, Receive(p)) && (harmless ==> t == s))
            && (Usable(s) && !harmless && p.kdfOk && p.aesOk ==> !Usable(t))
            && (!Usable(s) ==> (Usable(t) <==> Unlocks(c, s, Receive(p))))
  {
    hide HandleSignChallenge, HandleSignRequest, HandleIdentities, HandleGetPublicKey, GenerateText, Ascii, Pad;
  }

  /**
   Whether the device can sign after the packets of a line: if it could before and they
   are harmless, or if an unlock among them has the last word.
   */
  lemma {:induction false} UsableAfterIff(c: Crypto, s: State, env: Env, line: seq<byte>)
    requires s.keyLoaded && Delivers(env) && Generates(env)
    ensures Usable(Serve(c, s, env, line).device)
            <==> (Usable(s) && Harmless(s.keyEncrypted, line)) || UnlocksLast(c, s, env, line)
    decreases |line|
  {
    match ReadPacket(line)
    case Incomplete =>
    case TooLong(rest) => UsableAfterIff(c, s, env, rest);
    case Got(kind, data, rest) =>
      var p := env(|rest|, kind, data);
      PacketUsable(c, s, p);
      assert p.kind == kind && p.data == data && p.kdfOk && p.aesOk;
      hide Dispatch, Unlocks, Usable;
      UsableAfterIff(c, Dispatch(c, s, p).0, env, rest);
  }

  /**
   When the device survives a long message: always up to 4096 bytes, and beyond that
   exactly when the message, read as packets, holds no key generation and no lock of
   an encrypted key, or unlocks the key again after the last of these.  It is usable all
   the way through exactly in the first case, and is then left as it was.
   */
  lemma LongMessageSurvivedIff(c: Crypto, pk: seq<byte>, l: Link, call: Call)
    requires Ready(c, l.device, pk) && Synced(l) && Proper(call) && Generates(call.moment.env)
    requires call.Sign? && 4055 < |call.d| <= 65475
    ensures |call.d| <= 4096 ==> Make(c, pk, l, call).0.device == l.device
    ensures var env, line := call.moment.env, call.d + [0];
            |call.d| > 4096 ==>
              && (Usable(Make(c, pk, l, call).0.device)
                  <==> Harmless(l.device.keyEncrypted, line) || UnlocksLast(c, l.device, env, line))
              && (StaysUsable(c, l.device, env, line) <==> Harmless(l.device.keyEncrypted, line))
              && (Harmless(l.device.keyEncrypted, line) ==> Make(c, pk, l, call).0.device == l.device)
  {
    LongCall(c, pk, l, call);
    hide Make, Queued, Serve, StaysUsable, Harmless, UnlocksLast;
    if |call.d| > 4096 {
      UsableIffHarmless(c, l.device, call.moment.env, call.d + [0]);
      UsableAfterIff(c, l.device, call.moment.env, call.d + [0]);
      if Harmless(l.device.keyEncrypted, call.d + [0]) {
        HarmlessKeepsState(c, l.device, call.moment.env, call.d + [0]);
      }
    }
  }

  function Filler(n: nat): (s: seq<byte>)
    ensures |s| == n
  {
    seq(n, _ => 255)
  }

  /** n bytes of 255 and a zero hold no packet. */
  lemma {:induction false} FillerHoldsNothing(c: Crypto, s: State, env: Env, n: nat)
    ensures Serve(c, s, env, Filler(n) + [0]).device == s
    decreases n
  {
    var line := Filler(n) + [0];
    if n >= 4 {
      FillerHoldsNothing(c, s, env, n - 4);
      assert line[4..] == Filler(n - 4) + [0];
    }
  }

  /** A packet in front of the filler is all that the device reads. */
  lemma PacketBeforeFiller(c: Crypto, s: State, env: Env, kind: byte, data: seq<byte>, n: nat)
    requires |data| <= 4096
    ensures var filler := Filler(n) + [0];
            Serve(c, s, env, SendBytes(kind, data) + filler).device == Dispatch(c, s, env(|filler|, kind, data)).0
  {
    var filler := Filler(n) + [0];
    PacketRoundTrip(kind, data, filler);
    hide SendBytes, Dispatch, ReadPacket;
    FillerHoldsNothing(c, Dispatch(c, s, env(|filler|, kind, data)).0, env, n);
  }

  /** A long message that begins like a packet and goes on with 255s has the device execute that packet. */
  lemma MessageIsExecuted(c: Crypto, pk: seq<byte>, l: Link, flags: byte, m: Moment, kind: byte, data: seq<byte>, n: nat)
    requires |pk| == 32 && Synced(l) && Delivers(m.env)
    requires |data| <= 4096 < |SendBytes(kind, data)| + n <= 65475
    ensures var d := SendBytes(kind, data) + Filler(n);
            var (l', outcome) := Make(c, pk, l, Sign(d, flags, m));
            outcome == Signature(None) && l'.device == Dispatch(c, l.device, m.env(n + 1, kind, data)).0
  {
    var d := SendBytes(kind, data) + Filler(n);
    hide Make, Serve, Dispatch, Synced, SendBytes, Filler, LeftBy;
    LongDevice(c, pk, l, Sign(d, flags, m));
    PacketBeforeFiller(c, l.device, m.env, kind, data, n);
    assert d + [0] == SendBytes(kind, data) + (Filler(n) + [0]);
  }

  lemma LongDevice(c: Crypto, pk: seq<byte>, l: Link, call: Call)
    requires |pk| == 32 && Synced(l) && Delivers(call.moment.env) && call.Sign? && 4096 < |call.d| <= 65475
    ensures var (l', outcome) := Make(c, pk, l, call);
            outcome == Signature(None) && l'.device == Serve(c, l.device, call.moment.env, call.d + [0]).device
  {
    LongCall(c, pk, l, call);
    hide Make, Serve, Queued;
  }

  /** The message [4, 0, 0, 0, 255, ...] of more than 4096 bytes locks an encrypted key: no later message is signed. */
  lemma MessageLocksDevice(c: Crypto, pk: seq<byte>, l: Link, flags: byte, m: Moment, n: nat)
    requires Ready(c, l.device, pk) && l.device.keyEncrypted && Synced(l) && Delivers(m.env) && 4093 <= n <= 65471
    ensures var d := [4, 0, 0, 0] + Filler(n);
            var (l', outcome) := Make(c, pk, l, Sign(d, flags, m));
            outcome == Signature(None) && IsLocked(l'.device) && l'.device.privateKey == Zeros(32)
  {
    assert SendBytes(LOCK, []) == [4, 0, 0, 0];
    LockPacket(c, l.device, m.env(n + 1, LOCK, []));
    hide Make, Synced, Dispatch, IsLocked;
    MessageIsExecuted(c, pk, l, flags, m, LOCK, [], n);
  }

  lemma LockPacket(c: Crypto, s: State, p: Packet)
    requires p.kind == LOCK && s.keyLoaded && s.keyEncrypted
    ensures var t := Dispatch(c, s, p).0; IsLocked(t) && t.privateKey == Zeros(32)
  {
  }

  /** But followed by [3, length, password] it unlocks it again: a harmful message that leaves the key as it was. */
  lemma MessageUnlocksAgain(c: Crypto, pk: seq<byte>, l: Link, flags: byte, m: Moment, pw: seq<byte>, draw: Draw,
                            n: nat)
    requires Inverts(c) && WellDrawn(c, draw) && HoldsKey(c, l.device, pw, draw) && |pw| <= 4096
    requires |pk| == 32 && Synced(l) && Delivers(m.env) && Generates(m.env) && 4096 < |pw| + 8 + n <= 65475
    ensures var d := SendBytes(LOCK, []) + SendBytes(UNLOCK, pw) + Filler(n);
            var (l', outcome) := Make(c, pk, l, Sign(d, flags, m));
            && outcome == Signature(None) && l'.device == l.device.(privateKey := draw.seed, keyUnlocked := true)
            && !Harmless(true, d + [0])
  {
    hide Make, Dispatch, Synced, SendBytes, Filler, LeftBy, HoldsKey, ReadPacket, IsLocked, Inverts, WellDrawn;
    hide FramesOf;
    var d := SendBytes(LOCK, []) + SendBytes(UNLOCK, pw) + Filler(n);
    var rest := SendBytes(UNLOCK, pw) + (Filler(n) + [0]);
    var locked := Dispatch(c, l.device, m.env(|rest|, LOCK, [])).0;
    SendLength(LOCK, []);
    SendLength(UNLOCK, pw);
    PacketRoundTrip(LOCK, [], rest);
    LockHolds(c, l.device, m.env(|rest|, LOCK, []), pw, draw);
    UnlockAnswers(c, locked, m.env(n + 1, UNLOCK, pw), draw);
    Reassociate(SendBytes(LOCK, []), SendBytes(UNLOCK, pw), Filler(n) + [0]);
    assert d + [0] == SendBytes(LOCK, []) + SendBytes(UNLOCK, pw) + (Filler(n) + [0]);
    LongDevice(c, pk, l, Sign(d, flags, m));
    PacketBeforeFiller(c, locked, m.env, UNLOCK, pw, n);
  }

  lemma SendLength(kind: byte, data: seq<byte>)
    ensures |SendBytes(kind, data)| == 4 + |data|
  {
  }

  lemma LockHolds(c: Crypto, s: State, p: Packet, pw: seq<byte>, draw: Draw)
    requires HoldsKey(c, s, pw, draw) && p.kind == LOCK
    ensures var t := Dispatch(c, s, p).0;
            HoldsKey(c, t, pw, draw) && IsLocked(t) && t == s.(privateKey := Zeros(32), keyUnlocked := false)
  {
  }

  /** The message [5, 0, 0, 1, x, 255, ...] of more than 4096 bytes replaces the key by one under the password [x]. */
  lemma MessageReplacesKey(c: Crypto, pk: seq<byte>, l: Link, flags: byte, m: Moment, x: byte, n: nat)
    requires |pk| == 32 && Synced(l) && Delivers(m.env) && Generates(m.env) && 4092 <= n <= 65470
    ensures var d := [5, 0, 0, 1, x] + Filler(n);
            var (l', outcome) := Make(c, pk, l, Sign(d, flags, m));
            && outcome == Signature(None) && IsLocked(l'.device)
            && HoldsKey(c, l'.device, [x], m.env(n + 1, GENERATE_ENCRYPTED, [x]).draw)
  {
    assert SendBytes(GENERATE_ENCRYPTED, [x]) == [5, 0, 0, 1, x];
    GenerationHoldsKey(c, l.device, m.env(n + 1, GENERATE_ENCRYPTED, [x]));
    hide Make, Synced, Dispatch, IsLocked, HoldsKey;
    MessageIsExecuted(c, pk, l, flags, m, GENERATE_ENCRYPTED, [x], n);
  }

  // ---------------------------------------------------------------- unlocking

  /** The Go client's unlock with the right password brings the seed back on the device, and the line stays synced. */
  lemma UnlockThroughChain(c: Crypto, l: Link, m: Moment, password: seq<byte>, draw: Draw)
    requires Inverts(c) && WellDrawn(c, draw) && WellSized(c, l.device) && Synced(l)
    requires HoldsKey(c, l.device, password, draw) && IsLocked(l.device) && |password| <= 4096
    requires Delivers(m.env) && Generates(m.env)
    ensures var (l', ok) := GoUnlock(Ask(c, m), l, password);
            ok && Synced(l') && l'.device == l.device.(privateKey := draw.seed, keyUnlocked := true)
  {
    var p := m.env(0, UNLOCK, password);
    GoUnlockReaches(Ask(c, m), l, password);
    UnlockAnswers(c, l.device, p, draw);
    hide GoUnlock, Ask, Queued, HoldsKey, Inverts, WellDrawn, Dispatch, FramesOf;
    AskQueued(c, m, l, UNLOCK, password, []);
    assert [] + [[SUCCESS]] == [[SUCCESS]] && [[SUCCESS]][1..] == [];
  }

  lemma UnlockAnswers(c: Crypto, s: State, p: Packet, draw: Draw)
    requires Inverts(c) && WellDrawn(c, draw) && HoldsKey(c, s, p.data, draw) && IsLocked(s)
    requires p.kind == UNLOCK && p.kdfOk && p.aesOk
    ensures Next(c, s, Receive(p)) == s.(privateKey := draw.seed, keyUnlocked := true)
    ensures FramesOf(Sent(c, s, Receive(p))) == [[SUCCESS]]
  {
    UnlockRestores(c, s, p, draw);
    PadUnpad(draw.seed);
    assert |Pad(draw.seed)| == 48;
    FramesOfReply(Ascii("Agent unlocked"), [SUCCESS]);
  }
}
