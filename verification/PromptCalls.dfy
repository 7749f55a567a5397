/**
 The call after a message of 4056 to 4096 bytes, made within the five seconds in which
 the firmware still waits on the byte left over: its packet is read one byte late.
 */
module PromptCalls {
  import opened Bytes
  import opened FirmwareSpec
  import opened WireSpec
  import opened BridgeSpec
  import opened SignChain
  import opened Options
  import opened Words

  /** A long message is what brings the line out of step. */
  lemma LongLeavesOutOfStep(c: Crypto, pk: seq<byte>, l: Link, long: Call)
    requires |pk| == 32 && Synced(l) && Proper(long) && long.Sign? && 4055 < |long.d| <= 4096
    ensures Make(c, pk, l, long) == (OutOfStep(l.device), Signature(None))
  {
    LongCall(c, pk, l, long);
    hide Make, Synced;
  }

  /** The packet that a call sends. */
  function PayloadOf(pk: seq<byte>, call: Call): seq<byte> {
    if call.Sign? then SignPayload(pk, call.d, 0) else []
  }

  function KindOf(call: Call): byte {
    if call.Sign? then SIGN_REQUEST else REQUEST_IDENTITIES
  }

  /** What the firmware goes on to read: the last byte of the packet's length and its payload. */
  function LateBytes(payload: seq<byte>): seq<byte> {
    [|payload| % 256] + payload
  }

  /** The byte left over and the first three of a packet are a header that says too much. */
  lemma LateHeader(kind: byte, payload: seq<byte>)
    requires 1 <= kind
    ensures ReadPacket([0] + SendBytes(kind, payload)) == TooLong(LateBytes(payload))
  {
    var line := [0] + SendBytes(kind, payload);
    assert line[4..] == LateBytes(payload);
  }

  /** A call that is made promptly, and that the bridge passes on. */
  ghost predicate Prompt(call: Call) {
    Proper(call) && !call.moment.waited && (call.Sign? ==> |call.d| <= 65475)
  }

  lemma CallReaches(c: Crypto, pk: seq<byte>, l: Link, call: Call)
    requires |pk| == 32 && Prompt(call)
    ensures var (t, frame) := Ask(c, call.moment)(l, KindOf(call), PayloadOf(pk, call));
            Make(c, pk, l, call)
            == (t, if call.Sign? then Signature(SignatureOfFrame(frame)) else Keys(KeysOfFrame(frame)))
  {
    hide Ask, GoSign, GoList, SignPayload, SignatureOfFrame, KeysOfFrame, Blob;
    if call.Sign? {
      GoSignReaches(Ask(c, call.moment), l, pk, call.d, call.flags);
    } else {
      GoListReaches(Ask(c, call.moment), l);
    }
  }

  /**
   A prompt call fails, and the firmware reads what comes late as packets: the line is
   left with whatever it makes of them.
   */
  lemma PromptCall(c: Crypto, pk: seq<byte>, s: State, call: Call)
    requires |pk| == 32 && Prompt(call)
    ensures var served := Serve(c, s, call.moment.env, LateBytes(PayloadOf(pk, call)));
            Make(c, pk, OutOfStep(s), call) == (Link(served.device, served.left, LineBytes(served.outs)), Fails(call))
  {
    var env, payload := call.moment.env, PayloadOf(pk, call);
    CallReaches(c, pk, OutOfStep(s), call);
    LateHeader(KindOf(call), payload);
    FailureComesBack();
    hide SendBytes, LateBytes, Recv, LineBytes, ReadPacket, Make, SignatureOfFrame, KeysOfFrame, PayloadOf;
    var served := Serve(c, s, env, LateBytes(payload));
    assert Serve(c, s, env, [0] + SendBytes(KindOf(call), payload)) == served;
    hide Serve;
    StaleThen(served.outs);
  }

  lemma StaleThen(more: seq<Output>)
    ensures Recv(LineBytes(Status(FAILURE)) + LineBytes(more)) == Received(Some([FAILURE]), LineBytes(more))
  {
    hide Recv, LineBytes;
    StatusLine([]);
    assert LineBytes([]) == [] by {
      EmptyLine();
    }
    assert Status(FAILURE) + [] == Status(FAILURE) && Str([FAILURE]) + [] == Str([FAILURE]);
    RecvFrame([], [FAILURE], LineBytes(more));
    assert [] + (Str([FAILURE]) + LineBytes(more)) == Str([FAILURE]) + LineBytes(more);
  }

  lemma EmptyLine()
    ensures LineBytes([]) == []
  {
  }

  // ---------------------------------------------------------------- listing promptly

  /** The device waits on a byte, and nothing is under way to the bridge. */
  function Waiting(s: State): Link {
    Link(s, [0], [])
  }

  ghost predicate PromptList(call: Call) {
    call.List? && Prompt(call)
  }

  /** A prompt List leaves the firmware waiting on a byte 0 again. */
  lemma ListStaysOut(c: Crypto, pk: seq<byte>, s: State, call: Call)
    requires |pk| == 32 && PromptList(call)
    ensures Make(c, pk, OutOfStep(s), call) == (Waiting(s), Keys(Failed))
    ensures Make(c, pk, Waiting(s), call) == (Waiting(s), Keys(Failed))
  {
    PromptCall(c, pk, s, call);
    assert LateBytes([]) == [0];
    assert Serve(c, s, call.moment.env, [0]) == Served(s, [], [0]);
    CallReaches(c, pk, Waiting(s), call);
    LateHeader(REQUEST_IDENTITIES, []);
    hide SendBytes, LateBytes, Make, ReadPacket;
    assert Serve(c, s, call.moment.env, [0] + SendBytes(REQUEST_IDENTITIES, [])) == Served(s, [], [0]);
    assert [] + LineBytes([]) == [];
    assert Recv([]) == Received(None, []);
    assert KeysOfFrame(None) == Failed;
  }

  /** However many prompt Lists follow one another, all fail. */
  lemma {:induction false} PromptListsFail(c: Crypto, pk: seq<byte>, s: State, calls: seq<Call>)
    requires |pk| == 32 && forall i :: 0 <= i < |calls| ==> PromptList(calls[i])
    ensures var (l, outcomes) := Session(c, pk, OutOfStep(s), calls);
            && l == (if calls == [] then OutOfStep(s) else Waiting(s))
            && |outcomes| == |calls| && forall i :: 0 <= i < |calls| ==> outcomes[i] == Keys(Failed)
  {
    hide Make, PromptList, OutOfStep, Waiting;
    if calls != [] {
      var n := |calls| - 1;
      PromptListsFail(c, pk, s, calls[..n]);
      ListStaysOut(c, pk, s, calls[n]);
      SessionStep(c, pk, OutOfStep(s), calls);
    }
  }

  /** But they take the stale failure off the line: after a wait, all short calls are right again. */
  lemma {:induction false} ListsResync(c: Crypto, pk: seq<byte>, s: State, lists: seq<Call>, calls: seq<Call>)
    requires Ready(c, s, pk) && lists != [] && forall i :: 0 <= i < |lists| ==> PromptList(lists[i])
    requires forall i :: 0 <= i < |calls| ==> Proper(calls[i]) && Short(calls[i])
    requires calls != [] && calls[0].moment.waited
    ensures var (l, outcomes) := Session(c, pk, Session(c, pk, OutOfStep(s), lists).0, calls);
            && l.device == s && Synced(l)
            && |outcomes| == |calls| && forall i :: 0 <= i < |calls| ==> outcomes[i] == Right(c, s, pk, calls[i])
  {
    PromptListsFail(c, pk, s, lists);
    EmptyLine();
    LinedIsQueued([], [], [], []);
    hide Ready, Queued, Make, PromptList, OutOfStep;
    ShortSession(c, pk, Waiting(s), calls, []);
    var owed := AllOwed(c, s, pk, calls);
    assert [] + owed == owed && owed[|calls|..] == [];
    hide Session, Made, Owed, Right;
    forall i | 0 <= i < |calls| ensures Made(calls[i], owed[i]) == Right(c, s, pk, calls[i]) {
      OwnResponseIsRight(c, s, pk, calls[i]);
    }
  }

  // ---------------------------------------------------------------- signing promptly

  /** A prompt sign request begins like a packet without data, whose type is the low byte of its length. */
  lemma LateSign(pk: seq<byte>, d: seq<byte>)
    requires |pk| == 32
    ensures ReadPacket(LateBytes(SignPayload(pk, d, 0))) == Got((|d| + 41) % 256, [], [32] + pk + Str(d) + [0])
  {
    var payload := SignPayload(pk, d, 0);
    assert Str(pk) == [0, 0, 0, 32] + pk;
    assert LateBytes(payload)[4..] == [32] + pk + Str(d) + [0];
  }

  /** When the device can sign throughout, and afterwards, what a prompt call makes it execute. */
  lemma PromptSurvivesIff(c: Crypto, pk: seq<byte>, s: State, call: Call)
    requires Ready(c, s, pk) && Prompt(call) && Generates(call.moment.env)
    ensures var env, line := call.moment.env, LateBytes(PayloadOf(pk, call));
            var t := Make(c, pk, OutOfStep(s), call).0.device;
            && (StaysUsable(c, s, env, line) <==> Harmless(s.keyEncrypted, line))
            && (Harmless(s.keyEncrypted, line) ==> t == s)
            && (Usable(t) <==> Harmless(s.keyEncrypted, line) || UnlocksLast(c, s, env, line))
  {
    var env, line := call.moment.env, LateBytes(PayloadOf(pk, call));
    PromptCall(c, pk, s, call);
    hide Make, Serve, StaysUsable, Harmless, UnlocksLast, LateBytes, PayloadOf, Generates;
    UsableIffHarmless(c, s, env, line);
    UsableAfterIff(c, s, env, line);
    if Harmless(s.keyEncrypted, line) {
      HarmlessKeepsState(c, s, env, line);
    }
  }

  /** A prompt message of 219 bytes, or any multiple of 256 more, has the device execute a lock. */
  lemma PromptSignLocks(c: Crypto, pk: seq<byte>, s: State, env: Env, d: seq<byte>)
    requires Ready(c, s, pk) && s.keyEncrypted && Delivers(env) && |d| % 256 == 219
    ensures !StaysUsable(c, s, env, [0] + SendBytes(SIGN_REQUEST, SignPayload(pk, d, 0)))
    ensures !Harmless(true, LateBytes(SignPayload(pk, d, 0)))
  {
    hide SendBytes, LateBytes, SignPayload, ReadPacket, StaysUsable, Harmless, IsLocked, Serve, Delivers;
    var line := LateBytes(SignPayload(pk, d, 0));
    LateHeader(SIGN_REQUEST, SignPayload(pk, d, 0));
    LateSign(pk, d);
    assert (|d| + 41) % 256 == LOCK;
    UsableBehind(c, s, env, [0] + SendBytes(SIGN_REQUEST, SignPayload(pk, d, 0)), line);
    LockFirst(c, s, env, line, [32] + pk + Str(d) + [0]);
  }

  lemma UsableBehind(c: Crypto, s: State, env: Env, line: seq<byte>, rest: seq<byte>)
    requires ReadPacket(line) == TooLong(rest)
    ensures StaysUsable(c, s, env, line) <==> StaysUsable(c, s, env, rest)
  {
    hide ReadPacket;
  }

  lemma LockFirst(c: Crypto, s: State, env: Env, line: seq<byte>, rest: seq<byte>)
    requires s.keyLoaded && s.keyEncrypted && Delivers(env) && ReadPacket(line) == Got(LOCK, [], rest)
    ensures !StaysUsable(c, s, env, line) && !Harmless(true, line)
  {
    LockPacket(c, s, env(|rest|, LOCK, []));
    hide ReadPacket, Dispatch, IsLocked;
  }

  /** A prompt message of 216 bytes, or any multiple of 256 more, has the device sign the empty challenge. */
  lemma PromptSignsEmpty(c: Crypto, pk: seq<byte>, s: State, call: Call)
    requires Ready(c, s, pk) && Prompt(call) && call.Sign? && |call.d| % 256 == 216
    ensures Recv(Make(c, pk, OutOfStep(s), call).0.toHost).frame == Some([SIGN_RESPONSE] + c.sign([], s.privateKey, pk))
  {
    hide LateBytes, SignPayload, ReadPacket, Dispatch, Make, Recv, LineBytes, IsLocked, Serve;
    var env, d := call.moment.env, call.d;
    var line, rest := LateBytes(SignPayload(pk, d, 0)), [32] + pk + Str(d) + [0];
    var frame := [SIGN_RESPONSE] + c.sign([], s.privateKey, pk);
    PromptCall(c, pk, s, call);
    LateSign(pk, d);
    ChallengeSigned(c, s, env(|rest|, SIGN_CHALLENGE, []));
    ServedFirst(c, s, env, line, SIGN_CHALLENGE, [], rest);
    FrameOnLine(frame, Serve(c, s, env, rest).outs);
  }

  lemma ServedFirst(c: Crypto, s: State, env: Env, line: seq<byte>, kind: byte, data: seq<byte>, rest: seq<byte>)
    requires ReadPacket(line) == Got(kind, data, rest)
    ensures var (t, out) := Dispatch(c, s, env(|rest|, kind, data));
            Serve(c, s, env, line).outs == out + Serve(c, t, env, rest).outs
  {
    hide Dispatch, ReadPacket;
  }

  lemma ChallengeSigned(c: Crypto, s: State, p: Packet)
    requires s.keyLoaded && !IsLocked(s) && p.kind == SIGN_CHALLENGE
    ensures Dispatch(c, s, p) == (s, [Frame([SIGN_RESPONSE] + c.sign(p.data, s.privateKey, s.publicKey))])
  {
  }

  lemma FrameOnLine(frame: seq<byte>, more: seq<Output>)
    requires 1 <= |frame| <= 4096
    ensures Recv(LineBytes([Frame(frame)] + more)).frame == Some(frame)
  {
    assert ([Frame(frame)] + more)[1..] == more;
    assert OutputBytes(Frame(frame)) == Str(frame);
    hide Recv, Str;
    RecvFrame([], frame, LineBytes(more));
    assert [] + (Str(frame) + LineBytes(more)) == Str(frame) + LineBytes(more);
  }

  /** Taken for the response to a sign request, that signature is cut short and the manager refuses it. */
  lemma EmptySignatureIsRefused(sig: seq<byte>)
    requires |sig| == 64
    ensures var blob := SignatureOfFrame(Some([SIGN_RESPONSE] + sig)); blob.Some? && ParseSshSig(blob.value) == None
  {
    var frame := [SIGN_RESPONSE] + sig;
    var raw := Slice(frame, 5, 5 + Word(frame, 1));
    assert |raw| <= 60;
    GoReadsBlob(Blob(raw));
    ParseBlob(raw, 64);
    hide Str, Blob, Word, ParseTyped;
  }
}
