/**
 The chain with Ed25519 on the device: when the manager accepts what a session returns.
 OpenSSL's verification is section 5.1.7 of RFC 8032.
 */
module EndToEnd {
  import opened Radix
  import opened Edwards
  import opened PointSpec
  import opened Bytes
  import opened FirmwareSpec
  import opened WireSpec
  import opened BridgeSpec
  import opened BridgeAnswers
  import opened FirmwareAnswers
  import opened SignChain
  import opened Options
  import opened Words
  import Ed25519 = Sign

  /** The 64 bytes that ed25519_sign writes. */
  ghost function SignatureBytes(sha: Ed25519.Hash, seed: seq<byte>, pk: seq<byte>, msg: seq<byte>): (sig: seq<byte>)
    requires Ed25519.IsSha512(sha)
    ensures |sig| == 64
  {
    var sig := Ed25519.SignatureOf(sha, seed, pk, msg);
    AsBytes(sig.rBytes) + AsBytes(sig.sBytes)
  }

  function AsBytes(s: seq<int>): (b: seq<byte>)
    requires Within(s, 0, 255)
    ensures b == s
  {
    s
  }

  /** The device signs with ed25519_sign, and its keys are those of ed25519_create_keypair. */
  ghost predicate RunsEd25519(c: Crypto, sha: Ed25519.Hash) {
    && Ed25519.IsSha512(sha)
    && (forall m: seq<byte>, k: seq<byte>, p: seq<byte> :: c.sign(m, k, p) == SignatureBytes(sha, k, p, m))
    && forall seed: seq<byte> :: c.publicOf(seed) == Ed25519.PublicKey(sha, seed)
  }

  /** verify_ed25519 takes 64 bytes as they are and parses anything else. */
  function RawSignature(sig: seq<byte>): Option<seq<byte>> {
    if |sig| == 64 then Some(sig) else ParseSshSig(sig)
  }

  /** verify_ed25519 for a key blob. */
  ghost predicate ManagerAccepts<G(!new)>(g: Group<G>, abs: Ext -> G, sha: Ed25519.Hash,
                                          keyBlob: seq<byte>, msg: seq<byte>, sig: seq<byte>)
    requires Ed25519.IsSha512(sha)
  {
    var key, raw := ParseSshPubkey(keyBlob), RawSignature(sig);
    && key.Some? && raw.Some? && |raw.value| == 64
    && Ed25519.Accepts(g, abs, sha, key.value, msg, Ed25519.Signature(raw.value[..32], raw.value[32..]))
  }

  lemma Halves(sha: Ed25519.Hash, seed: seq<byte>, pk: seq<byte>, msg: seq<byte>)
    requires Ed25519.IsSha512(sha)
    ensures var raw := SignatureBytes(sha, seed, pk, msg);
            Ed25519.Signature(raw[..32], raw[32..]) == Ed25519.SignatureOf(sha, seed, pk, msg)
  {
    hide Ed25519.PointBytes, Ed25519.Nonce, Ed25519.ScalarLimbs;
    var sig := Ed25519.SignatureOf(sha, seed, pk, msg);
    var raw := SignatureBytes(sha, seed, pk, msg);
    assert raw[..32] == sig.rBytes && raw[32..] == sig.sBytes;
  }

  /** Wrapped in blobs and parsed again, key and signature are what was signed with and what was written. */
  lemma BlobsAreTransparent<G(!new)>(g: Group<G>, abs: Ext -> G, sha: Ed25519.Hash, seed: seq<byte>, pk: seq<byte>,
                                     msg: seq<byte>)
    requires Ed25519.IsSha512(sha) && |pk| == 32
    ensures ManagerAccepts(g, abs, sha, Blob(pk), msg, Blob(SignatureBytes(sha, seed, pk, msg)))
            <==> Ed25519.Accepts(g, abs, sha, pk, msg, Ed25519.SignatureOf(sha, seed, pk, msg))
  {
    hide Ed25519.Accepts, Blob, ParseTyped, Ed25519.PointBytes, Ed25519.Nonce, Ed25519.ScalarLimbs, Ed25519.IsSha512;
    var raw := SignatureBytes(sha, seed, pk, msg);
    Halves(sha, seed, pk, msg);
    hide SignatureBytes, Ed25519.SignatureOf;
    ParseBlob(pk, 32);
    ParseBlob(raw, 64);
  }

  /**
   What the manager makes of every signature that a session of short messages returns:
   it accepts exactly those for which S is (r + H a) mod L, and after a right reduction
   of the challenge exactly those whose S was reduced right.
   */
  lemma SessionAccepted<G(!new)>(g: Group<G>, abs: Ext -> G, sha: Ed25519.Hash, c: Crypto, pk: seq<byte>, l: Link,
                                 calls: seq<Call>, i: nat)
    requires Realises(g, abs) && Ed25519.HasOrderL(g, abs(ValPoint(BasePoint())))
    requires RunsEd25519(c, sha) && Ready(c, l.device, pk) && c.publicOf(l.device.privateKey) == pk && Synced(l)
    requires forall k :: 0 <= k < |calls| ==> Proper(calls[k]) && Short(calls[k])
    requires i < |calls| && calls[i].Sign?
    ensures var outcomes, seed, msg := Session(c, pk, l, calls).1, l.device.privateKey, calls[i].d;
            && |outcomes| == |calls| && outcomes[i].Signature? && outcomes[i].blob.Some?
            && var accepts := ManagerAccepts(g, abs, sha, Blob(pk), msg, outcomes[i].blob.value);
               && (accepts <==> Ed25519.EquationHolds(sha, seed, msg))
               && (Ed25519.ReducedRight(Ed25519.Challenge(sha, seed, msg)) ==>
                     (accepts <==> Ed25519.ReducedRight(Ed25519.OwnScalar(sha, seed, msg))))
  {
    var seed, msg := l.device.privateKey, calls[i].d;
    ShortSessionIsRight(c, pk, l, calls);
    assert c.sign(msg, seed, pk) == SignatureBytes(sha, seed, pk, msg);
    hide Realises, Ed25519.HasOrderL, BasePoint, Session, Synced, Proper, Short, Queued, Blob, SignatureBytes;
    hide Ed25519.IsSha512, Ed25519.Accepts, Ed25519.EquationHolds, Ed25519.ReducedRight, ManagerAccepts;
    hide Ed25519.Challenge, Ed25519.OwnScalar, Ed25519.PublicKey, Ed25519.SignatureOf;
    BlobsAreTransparent(g, abs, sha, seed, pk, msg);
    Ed25519.SignatureVerifiesIff(g, abs, sha, seed, msg);
  }

  /** The Go client's unlock of a locked device succeeds exactly when what the password decrypts is padded. */
  lemma GoUnlockIff(c: Crypto, l: Link, m: Moment, password: seq<byte>)
    requires WellSized(c, l.device) && Synced(l) && |password| <= 4096 && Delivers(m.env) && Generates(m.env)
    requires l.device.keyLoaded && l.device.keyEncrypted && !l.device.keyUnlocked
    ensures var (l', ok) := GoUnlock(Ask(c, m), l, password);
            var d := Decrypted(c, l.device, password);
            && Synced(l') && (ok <==> Padded(d))
            && l'.device == if Padded(d) then l.device.(privateKey := d[..32], keyUnlocked := true)
                            else l.device.(privateKey := seq(32, _ => 0))
  {
    hide GoUnlock, Ask, Queued, Dispatch, FramesOf, Padded, Decrypted, Next, Sent, Generates, WellSized;
    var p, none: seq<seq<byte>> := m.env(0, UNLOCK, password), [];
    assert p.kind == UNLOCK && p.data == password && p.kdfOk && p.aesOk by {
      EnvPacket(m.env, UNLOCK, password);
    }
    hide Delivers;
    UnlockFrames(c, l.device, p);
    GoUnlockReaches(Ask(c, m), l, password);
    AskQueued(c, m, l, UNLOCK, password, none);
    var answer := AnswerTo(c, l.device, p);
    assert none + [answer] == [answer] && [answer][1..] == none;
  }

  lemma EnvPacket(env: Env, kind: byte, data: seq<byte>)
    requires Delivers(env) && Generates(env)
    ensures var p := env(0, kind, data); p.kind == kind && p.data == data && p.kdfOk && p.aesOk
  {
    assert Completes(env(0, kind, data));
  }

  lemma UnlockFrames(c: Crypto, s: State, p: Packet)
    requires s.keyLoaded && s.keyEncrypted && !s.keyUnlocked && p.kind == UNLOCK && p.kdfOk && p.aesOk
    ensures var d := Decrypted(c, s, p.data);
            && FramesOf(Sent(c, s, Receive(p))) == [[if Padded(d) then 6 else 5]]
            && Next(c, s, Receive(p)) == if Padded(d) then s.(privateKey := d[..32], keyUnlocked := true)
                                         else s.(privateKey := seq(32, _ => 0))
  {
    hide FramesOf, Padded, Decrypted, Next, Sent, Ascii;
    UnlockAnswered(c, s, p);
    FramesOfReply(Ascii("Agent unlocked"), [6]);
    FramesOfReply(Ascii("Unlock failed: wrong password"), [5]);
  }

  /** A locked device answers a sign request that fits by saying so, and stays as it is. */
  lemma LockedSign(c: Crypto, m: Moment, l: Link, pk: seq<byte>, d: seq<byte>)
    requires WellSized(c, l.device) && Synced(l) && Delivers(m.env) && |d| <= 4055
    requires l.device.keyLoaded && l.device.keyEncrypted && !l.device.keyUnlocked && |pk| == 32
    ensures var (l', reply) := HandleClient(Ask(c, m), l, GoRequest(SIGN_REQUEST, GoSignPayload(Blob(pk), d, 0)));
            l'.device == l.device && Synced(l') && SaysLocked(reply)
  {
    hide HandleClient, Ask, GoRequest, GoSignPayload, Blob, Queued, Dispatch, Next, Sent, FramesOf;
    var none: seq<seq<byte>> := [];
    var payload := SignPayload(pk, d, 0);
    var p := m.env(0, SIGN_REQUEST, payload);
    SignReply(Ask(c, m), l, pk, d, 0);
    SignRequestAnswered(c, l.device, p, pk, d, [0]);
    FramesOfReply([], [LOCKED]);
    RefusedSign([LOCKED]);
    hide SignAnswer;
    AskQueued(c, m, l, SIGN_REQUEST, payload, none);
    assert none + [[LOCKED]] == [[LOCKED]] && [[LOCKED]][1..] == none;
  }

  /**
   SignChallenge on a locked device: with a password whose decryption is padded it returns
   the signature of the challenge under what was decrypted, and the device is unlocked.
   With any other it fails, and the device is locked as before.
   */
  lemma SignChallengeUnlocks(c: Crypto, l: Link, sign: Moment, unlock: Moment, again: Moment,
                             d: seq<byte>, password: seq<byte>)
    requires WellSized(c, l.device) && Synced(l) && |d| <= 4055 && |password| <= 4096
    requires Delivers(sign.env) && Delivers(unlock.env) && Generates(unlock.env) && Delivers(again.env)
    requires l.device.keyLoaded && l.device.keyEncrypted && !l.device.keyUnlocked
    ensures var pk, plain := l.device.publicKey, Decrypted(c, l.device, password);
            var (l', sig) := GoSignChallenge(Ask(c, sign), Ask(c, unlock), Ask(c, again), l, Blob(pk), d, password);
            && Synced(l')
            && (if Padded(plain) then
                  l'.device == l.device.(privateKey := plain[..32], keyUnlocked := true)
                  && sig == Some(Blob(c.sign(d, plain[..32], pk)))
                else l'.device == l.device.(privateKey := seq(32, _ => 0)) && sig == None)
  {
    var pk, plain := l.device.publicKey, Decrypted(c, l.device, password);
    LockedSign(c, sign, l, pk, d);
    var t := HandleClient(Ask(c, sign), l, GoRequest(SIGN_REQUEST, GoSignPayload(Blob(pk), d, 0))).0;
    hide HandleClient, GoRequest, GoSignPayload, GoUnlock, GoSign, Ask, Synced, Padded, Decrypted, SaysLocked, Generates;
    assert Decrypted(c, t.device, password) == plain;
    GoUnlockIff(c, t, unlock, password);
    var u := GoUnlock(Ask(c, unlock), t, password).0;
    if Padded(plain) {
      UnlockedSigns(c, again, u, pk, d);
    }
  }

  /** An unlocked device signs a message that fits, and the line stays in step. */
  lemma UnlockedSigns(c: Crypto, m: Moment, l: Link, pk: seq<byte>, d: seq<byte>)
    requires Ready(c, l.device, pk) && Synced(l) && Delivers(m.env) && |d| <= 4055
    ensures var (l', sig) := GoSign(Ask(c, m), l, Blob(pk), d, 0);
            l'.device == l.device && Synced(l') && sig == Some(Blob(c.sign(d, l.device.privateKey, pk)))
  {
    var call := SignChain.Sign(d, 0, m);
    var calls := [call];
    ShortSessionIsRight(c, pk, l, calls);
    hide Synced, GoSign, Ask, Blob, Ready;
    SessionStep(c, pk, l, calls);
    assert calls[..0] == [];
    assert Session(c, pk, l, calls[..0]) == (l, []);
  }

  /** The Go client's unlock leaves a device that can sign under its public key. */
  lemma UnlockedIsReady(c: Crypto, l: Link, m: Moment, password: seq<byte>, draw: Draw)
    requires Inverts(c) && WellDrawn(c, draw) && WellSized(c, l.device) && Synced(l)
    requires HoldsKey(c, l.device, password, draw) && IsLocked(l.device) && |password| <= 4096
    requires Delivers(m.env) && Generates(m.env)
    ensures var (l', ok) := GoUnlock(Ask(c, m), l, password);
            && ok && Synced(l') && Ready(c, l'.device, l.device.publicKey)
            && l'.device.privateKey == draw.seed && c.publicOf(draw.seed) == l.device.publicKey
  {
    UnlockThroughChain(c, l, m, password, draw);
    hide GoUnlock, Ask, Synced, Inverts, Generates, Delivers;
  }

  lemma KeySized(c: Crypto, sha: Ed25519.Hash, s: State, password: seq<byte>, draw: Draw)
    requires RunsEd25519(c, sha) && WellDrawn(c, draw) && HoldsKey(c, s, password, draw)
    ensures WellSized(c, s)
  {
    hide SignatureBytes;
  }

  /**
   From a locked device: the Go client unlocks with the password of the generation, and
   then every signature of the session is judged by the equation for the generated seed.
   */
  lemma UnlockedSessionAccepted<G(!new)>(g: Group<G>, abs: Ext -> G, sha: Ed25519.Hash, c: Crypto, l: Link, m: Moment,
                                         password: seq<byte>, draw: Draw, calls: seq<Call>, i: nat)
    requires Realises(g, abs) && Ed25519.HasOrderL(g, abs(ValPoint(BasePoint()))) && RunsEd25519(c, sha)
    requires Inverts(c) && WellDrawn(c, draw) && Synced(l)
    requires HoldsKey(c, l.device, password, draw) && IsLocked(l.device) && |password| <= 4096
    requires Delivers(m.env) && Generates(m.env)
    requires forall k :: 0 <= k < |calls| ==> Proper(calls[k]) && Short(calls[k])
    requires i < |calls| && calls[i].Sign?
    ensures var pk, (l', ok) := l.device.publicKey, GoUnlock(Ask(c, m), l, password);
            var outcomes := Session(c, pk, l', calls).1;
            && ok && |outcomes| == |calls| && outcomes[i].Signature? && outcomes[i].blob.Some?
            && (ManagerAccepts(g, abs, sha, Blob(pk), calls[i].d, outcomes[i].blob.value)
                <==> Ed25519.EquationHolds(sha, draw.seed, calls[i].d))
  {
    var pk := l.device.publicKey;
    hide Realises, Ed25519.HasOrderL, BasePoint, Session, Synced, Proper, Short, GoUnlock, Blob, Ask, Queued;
    hide Ready, ManagerAccepts, Ed25519.EquationHolds, Ed25519.ReducedRight, Inverts, SignatureBytes, IsLocked;
    KeySized(c, sha, l.device, password, draw);
    hide HoldsKey, WellDrawn, RunsEd25519;
    UnlockedIsReady(c, l, m, password, draw);
    var l' := GoUnlock(Ask(c, m), l, password).0;
    SessionAccepted(g, abs, sha, c, pk, l', calls, i);
  }
}
