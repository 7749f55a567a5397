/**
 The key state of the firmware as a transition system: RAM globals, the NVS image,
 packets and reboots.  The KDF, AES-CBC, the public-key map and the signer are
 arbitrary functions; whether a library call succeeds is part of each packet.
 */
module FirmwareSpec {
  import opened Bytes
  import opened Options
  import opened Words

  datatype Crypto = Crypto(
    kdf: (seq<byte>, seq<byte>) -> seq<byte>,
    encrypt: (seq<byte>, seq<byte>, seq<byte>) -> seq<byte>,
    decrypt: (seq<byte>, seq<byte>, seq<byte>) -> seq<byte>,
    publicOf: seq<byte> -> seq<byte>,
    sign: (seq<byte>, seq<byte>, seq<byte>) -> seq<byte>)

  datatype Nvs = Nvs(pubkey: Option<seq<byte>>, privkey: Option<seq<byte>>, encSeed: Option<seq<byte>>,
                     salt: Option<seq<byte>>, iv: Option<seq<byte>>, encrypted: byte)

  datatype State = State(nvs: Nvs, privateKey: seq<byte>, publicKey: seq<byte>,
                         keyLoaded: bool, keyEncrypted: bool, keyUnlocked: bool,
                         encryptedSeed: seq<byte>, salt: seq<byte>, iv: seq<byte>)

  /** What a packet handler writes to the serial line. */
  datatype Output = Text(text: seq<byte>) | Frame(bytes: seq<byte>)

  /** The random bytes that a key generation would draw. */
  datatype Draw = Draw(seed: seq<byte>, salt: seq<byte>, iv: seq<byte>)

  /**
   The received bytes, the memory behind them, the draws, whether KDF and AES succeed,
   what a failing encryption leaves in its output buffer, and which writes reach storage.
   */
  datatype Packet = Packet(kind: byte, data: seq<byte>, beyond: nat -> byte, draw: Draw,
                           kdfOk: bool, aesOk: bool, scrap: seq<byte>, stored: nat -> bool)

  datatype Step = Receive(packet: Packet) | Reboot

  const SIGN_CHALLENGE: byte := 0x01
  const GET_PUBLIC_KEY: byte := 0x02
  const UNLOCK: byte := 0x03
  const LOCK: byte := 0x04
  const GENERATE_ENCRYPTED: byte := 0x05
  const REQUEST_IDENTITIES: byte := 11
  const SIGN_REQUEST: byte := 13

  const FAILURE: byte := 5
  const SUCCESS: byte := 6
  const IDENTITIES_ANSWER: byte := 12
  const SIGN_RESPONSE: byte := 14
  const LOCKED: byte := 0x20

  function Zeros(n: nat): (z: seq<byte>)
    ensures |z| == n
  {
    seq(n, _ => 0)
  }

  function Status(code: byte): seq<Output> {
    [Frame([code])]
  }

  // ---------------------------------------------------------------- seed encryption

  /** 32 bytes of seed and 16 bytes of 16 (section 6.3 of RFC 5652). */
  function Pad(seed: seq<byte>): seq<byte> {
    seed + seq(16, _ => 16)
  }

  /** The padding test of decryptSeed, which accepts any pad value from 1 to 16. */
  predicate ValidPadding(d: seq<byte>)
    requires |d| == 48
  {
    var v := d[47];
    1 <= v <= 16 && forall k :: 48 - v <= k < 48 ==> d[k] == v
  }

  /** The decrypted seed, if the padding test passes. */
  function Unpad(d: seq<byte>): Option<seq<byte>> {
    if |d| == 48 && ValidPadding(d) then Some(d[..32]) else None
  }

  lemma PadUnpad(seed: seq<byte>)
    requires |seed| == 32
    ensures Unpad(Pad(seed)) == Some(seed)
  {
    assert Pad(seed)[..32] == seed;
  }

  /** CBC decryption with the same key and iv inverts encryption of 48-byte blocks. */
  ghost predicate Inverts(c: Crypto) {
    forall k, iv, p :: |p| == 48 ==> |c.encrypt(k, iv, p)| == 48 && c.decrypt(k, iv, c.encrypt(k, iv, p)) == p
  }

  // ---------------------------------------------------------------- handlers

  predicate IsLocked(s: State) {
    s.keyEncrypted && !s.keyUnlocked
  }

  /** What storage holds after write k: the new value, or the old one if the write failed. */
  function Kept<T>(p: Packet, k: nat, written: T, before: T): T {
    if p.stored(k) then written else before
  }

  /** The calls and all six writes of a key generation succeed. */
  predicate Completes(p: Packet) {
    p.kdfOk && p.aesOk && forall k: nat :: k < 6 ==> p.stored(k)
  }

  function Generate(c: Crypto, s: State, pw: seq<byte>, p: Packet): (State, bool) {
    var drawn := s.(publicKey := c.publicOf(p.draw.seed), privateKey := p.draw.seed,
                    salt := p.draw.salt, iv := p.draw.iv);
    if !p.kdfOk then (drawn, false)
    else if !p.aesOk then (drawn.(encryptedSeed := p.scrap), false)
    else
      var sealed := c.encrypt(c.kdf(pw, drawn.salt), drawn.iv, Pad(drawn.privateKey));
      var nvs := Nvs(Kept(p, 0, Some(drawn.publicKey), s.nvs.pubkey), Kept(p, 5, None, s.nvs.privkey),
                     Kept(p, 1, Some(sealed), s.nvs.encSeed), Kept(p, 2, Some(drawn.salt), s.nvs.salt),
                     Kept(p, 3, Some(drawn.iv), s.nvs.iv), Kept(p, 4, 1, s.nvs.encrypted));
      (drawn.(nvs := nvs, encryptedSeed := sealed, privateKey := Zeros(32),
              keyLoaded := true, keyEncrypted := true, keyUnlocked := false), true)
  }

  /** The text that generation prints before its reply. */
  function GenerateText(p: Packet): seq<byte> {
    if !p.kdfOk then Ascii("PBKDF2 key derivation failed")
    else if !p.aesOk then Ascii("Encryption failed")
    else Ascii("Ed25519 key generated and stored (encrypted)")
  }

  function HandleGenerate(c: Crypto, s: State, p: Packet): (State, seq<Output>) {
    if |p.data| < 1 then (s, Status(FAILURE)) else
      var (t, ok) := Generate(c, s, p.data, p);
      (t, [Text(GenerateText(p)), Frame([if ok then SUCCESS else FAILURE])])
  }

  function HandleUnlock(c: Crypto, s: State, p: Packet): (State, seq<Output>) {
    if !s.keyLoaded || !s.keyEncrypted then (s, Status(FAILURE))
    else if s.keyUnlocked then (s, Status(SUCCESS))
    else if !p.kdfOk then (s, Status(FAILURE))
    else
      var plain := if p.aesOk then Unpad(c.decrypt(c.kdf(p.data, s.salt), s.iv, s.encryptedSeed)) else None;
      match plain
      case None => (s.(privateKey := Zeros(32)), [Text(Ascii("Unlock failed: wrong password")), Frame([FAILURE])])
      case Some(seed) => (s.(privateKey := seed, keyUnlocked := true), [Text(Ascii("Agent unlocked")), Frame([SUCCESS])])
  }

  function HandleLock(s: State): (State, seq<Output>) {
    if !s.keyLoaded || !s.keyEncrypted then (s, Status(FAILURE))
    else (s.(privateKey := Zeros(32), keyUnlocked := false), [Text(Ascii("Agent locked")), Frame([SUCCESS])])
  }

  /** Byte k of the receive buffer: what arrived, then whatever memory holds. */
  function ByteAt(p: Packet, k: nat): byte {
    if k < |p.data| then p.data[k] else p.beyond(k)
  }

  function BytesAt(p: Packet, k: nat, n: nat): (s: seq<byte>)
    ensures |s| == n && forall i :: 0 <= i < n ==> s[i] == ByteAt(p, k + i)
  {
    seq<byte>(n, i requires 0 <= i => ByteAt(p, k + i))
  }

  function WordAt(p: Packet, k: nat): nat {
    Word(BytesAt(p, k, 4), 0)
  }

  function HandleSignChallenge(c: Crypto, s: State, p: Packet): seq<Output> {
    if !s.keyLoaded then Status(FAILURE)
    else if IsLocked(s) then Status(LOCKED)
    else [Frame([SIGN_RESPONSE] + c.sign(p.data, s.privateKey, s.publicKey))]
  }

  function HandleSignRequest(c: Crypto, s: State, p: Packet): seq<Output> {
    if !s.keyLoaded || |p.data| < 37 then Status(FAILURE)
    else if IsLocked(s) then Status(LOCKED)
    else if WordAt(p, 0) != 32 || BytesAt(p, 4, 32) != s.publicKey then Status(FAILURE)
    else
      var message := BytesAt(p, 40, WordAt(p, 36));
      [Frame([SIGN_RESPONSE, 0, 0, 0, 64] + c.sign(message, s.privateKey, s.publicKey))]
  }

  function HandleIdentities(s: State): seq<Output> {
    if !s.keyLoaded then Status(FAILURE)
    else [Frame([IDENTITIES_ANSWER, 0, 0, 0, 1, 0, 0, 0, 32] + s.publicKey + [0, 0, 0, 0])]
  }

  function HandleGetPublicKey(s: State): seq<Output> {
    if !s.keyLoaded then Status(FAILURE) else [Frame([GET_PUBLIC_KEY] + s.publicKey)]
  }

  /** The dispatch of processAgentRequest. */
  function Dispatch(c: Crypto, s: State, p: Packet): (State, seq<Output>) {
    if p.kind == SIGN_CHALLENGE then (s, HandleSignChallenge(c, s, p))
    else if p.kind == GET_PUBLIC_KEY then (s, HandleGetPublicKey(s))
    else if p.kind == UNLOCK then HandleUnlock(c, s, p)
    else if p.kind == LOCK then HandleLock(s)
    else if p.kind == GENERATE_ENCRYPTED then HandleGenerate(c, s, p)
    else if p.kind == REQUEST_IDENTITIES then (s, HandleIdentities(s))
    else if p.kind == SIGN_REQUEST then (s, HandleSignRequest(c, s, p))
    else (s, Status(FAILURE))
  }

  predicate HasLength(field: Option<seq<byte>>, n: nat) {
    field.Some? && |field.value| == n
  }

  /** RAM as it is after power-up, before storage is read. */
  function PowerUp(nvs: Nvs): State {
    State(nvs, Zeros(32), Zeros(32), false, false, false, Zeros(48), Zeros(16), Zeros(16))
  }

  function LoadKey(s: State): State {
    var nvs := s.nvs;
    if !HasLength(nvs.pubkey, 32) then s else
      var t := s.(publicKey := nvs.pubkey.value);
      if nvs.encrypted == 1 then
        if HasLength(nvs.encSeed, 48) && HasLength(nvs.salt, 16) && HasLength(nvs.iv, 16) then
          t.(encryptedSeed := nvs.encSeed.value, salt := nvs.salt.value, iv := nvs.iv.value,
             keyLoaded := true, keyEncrypted := true, keyUnlocked := false)
        else t
      else if HasLength(nvs.privkey, 32) then
        t.(privateKey := nvs.privkey.value, keyLoaded := true, keyEncrypted := false, keyUnlocked := true)
      else t
  }

  function Boot(nvs: Nvs): State {
    LoadKey(PowerUp(nvs))
  }

  function Next(c: Crypto, s: State, step: Step): State {
    match step
    case Reboot => Boot(s.nvs)
    case Receive(p) => Dispatch(c, s, p).0
  }

  /** The responses that a step sends. */
  function Sent(c: Crypto, s: State, step: Step): seq<Output> {
    match step
    case Reboot => []
    case Receive(p) => Dispatch(c, s, p).1
  }

  /** The state after powering up with some NVS image and then taking the steps. */
  function Run(c: Crypto, nvs: Nvs, steps: seq<Step>): State {
    if steps == [] then Boot(nvs) else Next(c, Run(c, nvs, steps[..|steps| - 1]), steps[|steps| - 1])
  }

  // ---------------------------------------------------------------- the locked key is gone from RAM

  /** A loaded, encrypted, locked key has no private key in RAM. */
  predicate LockedIsZero(s: State) {
    s.keyLoaded && s.keyEncrypted && !s.keyUnlocked ==> s.privateKey == Zeros(32)
  }

  /** A generation that fails in the KDF or AES after its draws replaced the RAM key. */
  predicate FailedGeneration(step: Step) {
    && step.Receive? && step.packet.kind == GENERATE_ENCRYPTED && |step.packet.data| >= 1
    && !(step.packet.kdfOk && step.packet.aesOk)
  }

  /** One step keeps a locked key out of RAM unless it is a failed generation on a locked key. */
  lemma StepLockedIsZero(c: Crypto, s: State, step: Step)
    requires LockedIsZero(s)
    ensures LockedIsZero(Next(c, s, step))
            <==> !(FailedGeneration(step) && s.keyLoaded && IsLocked(s) && step.packet.draw.seed != Zeros(32))
  {
  }

  /** Over every run in which the KDF and AES calls of generations succeed, a locked key is all zero in RAM. */
  lemma {:induction false} RunLockedIsZero(c: Crypto, nvs: Nvs, steps: seq<Step>)
    requires forall i :: 0 <= i < |steps| ==> !FailedGeneration(steps[i])
    ensures LockedIsZero(Run(c, nvs, steps))
  {
    if steps != [] {
      var n := |steps| - 1;
      RunLockedIsZero(c, nvs, steps[..n]);
      StepLockedIsZero(c, Run(c, nvs, steps[..n]), steps[n]);
    }
  }

  /** The private key of a locked key is in RAM. */
  predicate Leaks(s: State) {
    s.keyLoaded && IsLocked(s) && s.privateKey != Zeros(32)
  }

  /** A failed generation on a locked key leaves the drawn seed behind. */
  predicate Spills(s: State, step: Step) {
    FailedGeneration(step) && s.keyLoaded && IsLocked(s) && step.packet.draw.seed != Zeros(32)
  }

  /**
   A step that lets a spilled seed stay: any packet but a lock, an unlock attempt whose
   key derivation succeeds, and another generation.
   */
  predicate Retains(step: Step) {
    && step.Receive?
    && step.packet.kind != LOCK
    && !(step.packet.kind == UNLOCK && step.packet.kdfOk)
    && !(step.packet.kind == GENERATE_ENCRYPTED && |step.packet.data| >= 1)
  }

  lemma StepLeaks(c: Crypto, s: State, step: Step)
    ensures Leaks(Next(c, s, step)) <==> Spills(s, step) || (Leaks(s) && Retains(step))
  {
    hide HandleSignChallenge, HandleSignRequest, HandleIdentities, HandleGetPublicKey, GenerateText, Ascii, Pad, Unpad;
  }

  /** Step j spilled a seed, and every step since let it stay. */
  ghost predicate SpilledAt(c: Crypto, nvs: Nvs, steps: seq<Step>, j: int) {
    && 0 <= j < |steps|
    && Spills(Before(c, nvs, steps, j), steps[j])
    && forall k :: j < k < |steps| ==> Retains(steps[k])
  }

  /**
   Over every run, a locked key is in RAM exactly when a generation failed on it and
   no reboot, lock, unlock attempt or further generation came after.
   */
  lemma {:induction false} RunLeaksIff(c: Crypto, nvs: Nvs, steps: seq<Step>)
    ensures LockedIsZero(Run(c, nvs, steps)) <==> !Leaks(Run(c, nvs, steps))
    ensures Leaks(Run(c, nvs, steps)) <==> exists j :: SpilledAt(c, nvs, steps, j)
  {
    if steps != [] {
      var n := |steps| - 1;
      var t := steps[..n];
      RunLeaksIff(c, nvs, t);
      StepLeaks(c, Run(c, nvs, t), steps[n]);
      hide Run, Leaks, Spills, Retains;
      if Spills(Run(c, nvs, t), steps[n]) {
        SpilledLater(c, nvs, steps, n);
      } else if Leaks(Run(c, nvs, t)) && Retains(steps[n]) {
        var j :| SpilledAt(c, nvs, t, j);
        SpilledLater(c, nvs, steps, j);
      }
      if j :| SpilledAt(c, nvs, steps, j) {
        SpilledLater(c, nvs, steps, j);
      }
    }
  }

  lemma SpilledLater(c: Crypto, nvs: Nvs, steps: seq<Step>, j: int)
    requires steps != []
    ensures var n := |steps| - 1;
            SpilledAt(c, nvs, steps, j) <==>
              || (j == n && Spills(Run(c, nvs, steps[..n]), steps[n]))
              || (SpilledAt(c, nvs, steps[..n], j) && Retains(steps[n]))
  {
    hide Run, Spills, Retains;
    var n := |steps| - 1;
    if 0 <= j < n {
      assert steps[..n][..j] == steps[..j];
    }
  }

  /** The exception is reachable: a completed generation and then one whose key derivation fails. */
  lemma FailedGenerationSpills(c: Crypto, nvs: Nvs, g: Packet, f: Packet)
    requires g.kind == f.kind == GENERATE_ENCRYPTED && |g.data| >= 1 && |f.data| >= 1
    requires g.kdfOk && g.aesOk && !f.kdfOk && f.draw.seed != Zeros(32)
    ensures var s := Run(c, nvs, [Receive(g), Receive(f)]);
            s.keyLoaded && IsLocked(s) && s.privateKey == f.draw.seed && !LockedIsZero(s)
  {
    var one, two := [Receive(g)], [Receive(g), Receive(f)];
    RunSnoc(c, nvs, [], Receive(g));
    RunSnoc(c, nvs, one, Receive(f));
    assert [] + one == one && one + [Receive(f)] == two;
  }

  lemma RunSnoc(c: Crypto, nvs: Nvs, steps: seq<Step>, step: Step)
    ensures Run(c, nvs, steps + [step]) == Next(c, Run(c, nvs, steps), step)
  {
    hide Next;
    assert (steps + [step])[..|steps|] == steps;
  }

  // ---------------------------------------------------------------- signatures need an unlock

  /** The step was answered with a signature. */
  predicate Signs(c: Crypto, s: State, step: Step) {
    && step.Receive?
    && (step.packet.kind == SIGN_CHALLENGE || step.packet.kind == SIGN_REQUEST)
    && var out := Sent(c, s, step);
       |out| == 1 && out[0].Frame? && |out[0].bytes| > 0 && out[0].bytes[0] == SIGN_RESPONSE
  }

  predicate Succeeds(c: Crypto, s: State, step: Step, kind: byte) {
    && step.Receive? && step.packet.kind == kind
    && Frame([SUCCESS]) in Sent(c, s, step)
  }

  /** The step checked a password against a locked key: its decryption passed the padding test. */
  predicate Unlocks(c: Crypto, s: State, step: Step) {
    && step.Receive? && step.packet.kind == UNLOCK
    && s.keyLoaded && IsLocked(s)
    && step.packet.kdfOk && step.packet.aesOk
    && Unpad(c.decrypt(c.kdf(step.packet.data, s.salt), s.iv, s.encryptedSeed)).Some?
  }

  /** The step ends an unlocked period: a reboot, a lock, or a completed generation. */
  predicate EndsUnlock(c: Crypto, s: State, step: Step) {
    step.Reboot? || Succeeds(c, s, step, LOCK) || Succeeds(c, s, step, GENERATE_ENCRYPTED)
  }

  /** The state before step i. */
  function Before(c: Crypto, nvs: Nvs, steps: seq<Step>, i: nat): State
    requires i <= |steps|
  {
    Run(c, nvs, steps[..i])
  }

  /** Step j unlocked the key, and nothing from j + 1 up to n ended that. */
  ghost predicate UnlockedAt(c: Crypto, nvs: Nvs, steps: seq<Step>, j: int, n: nat) {
    && 0 <= j < n <= |steps|
    && Unlocks(c, Before(c, nvs, steps, j), steps[j])
    && forall k :: j < k < n ==> !EndsUnlock(c, Before(c, nvs, steps, k), steps[k])
  }

  /** An encrypted key is loaded and unlocked. */
  predicate IsOpen(s: State) {
    s.keyLoaded && s.keyEncrypted && s.keyUnlocked
  }

  /** One step: an encrypted key is unlocked afterwards by an unlock now, or was and stays so. */
  lemma StepUnlocked(c: Crypto, s: State, step: Step)
    requires IsOpen(Next(c, s, step))
    ensures Unlocks(c, s, step) || (IsOpen(s) && !EndsUnlock(c, s, step))
  {
    if step.Receive? && step.packet.kind == LOCK && s.keyLoaded && s.keyEncrypted {
      assert false;
    }
  }

  /** What the last unlock decrypted. */
  function Opened(c: Crypto, s: State, step: Step): seq<byte>
    requires Unlocks(c, s, step)
  {
    Unpad(c.decrypt(c.kdf(step.packet.data, s.salt), s.iv, s.encryptedSeed)).value
  }

  /** The private key before step n after the unlock j: what j decrypted, or what the last failed generation drew. */
  function KeySince(c: Crypto, nvs: Nvs, steps: seq<Step>, j: nat, n: nat): seq<byte>
    requires j < n <= |steps| && Unlocks(c, Before(c, nvs, steps, j), steps[j])
  {
    if n == j + 1 then Opened(c, Before(c, nvs, steps, j), steps[j])
    else if FailedGeneration(steps[n - 1]) then steps[n - 1].packet.draw.seed
    else KeySince(c, nvs, steps, j, n - 1)
  }

  /** A step that leaves the key unlocked leaves it in RAM, unless it is a generation that fails. */
  lemma StepKeepsKey(c: Crypto, s: State, step: Step)
    requires IsOpen(s) && IsOpen(Next(c, s, step))
    ensures Next(c, s, step).privateKey == if FailedGeneration(step) then step.packet.draw.seed else s.privateKey
  {
  }

  lemma UnlockOpens(c: Crypto, s: State, step: Step)
    requires Unlocks(c, s, step)
    ensures Next(c, s, step) == s.(privateKey := Opened(c, s, step), keyUnlocked := true)
  {
  }

  lemma BootIsLocked(nvs: Nvs)
    ensures !IsOpen(Boot(nvs))
  {
  }

  lemma BeforeStep(c: Crypto, nvs: Nvs, steps: seq<Step>, n: nat)
    requires n < |steps|
    ensures Before(c, nvs, steps, n + 1) == Next(c, Before(c, nvs, steps, n), steps[n])
  {
    assert steps[..n + 1][..n] == steps[..n];
  }

  lemma UnlockedNow(c: Crypto, nvs: Nvs, steps: seq<Step>, n: nat)
    requires n < |steps| && Unlocks(c, Before(c, nvs, steps, n), steps[n])
    ensures UnlockedAt(c, nvs, steps, n, n + 1)
  {
    hide Unlocks, Before, EndsUnlock;
  }

  lemma UnlockedStill(c: Crypto, nvs: Nvs, steps: seq<Step>, j: int, n: nat)
    requires n < |steps| && UnlockedAt(c, nvs, steps, j, n) && !EndsUnlock(c, Before(c, nvs, steps, n), steps[n])
    ensures UnlockedAt(c, nvs, steps, j, n + 1)
  {
    hide Unlocks, Before, EndsUnlock;
  }

  lemma StartsLocked(c: Crypto, nvs: Nvs, steps: seq<Step>)
    ensures !IsOpen(Before(c, nvs, steps, 0))
  {
    BootIsLocked(nvs);
    hide IsOpen, Boot;
  }

  /** Whenever an encrypted key is unlocked, some earlier step unlocked it and nothing since ended that. */
  lemma {:induction false} UnlockedHasCause(c: Crypto, nvs: Nvs, steps: seq<Step>, n: nat) returns (j: int)
    requires n <= |steps| && IsOpen(Before(c, nvs, steps, n))
    ensures UnlockedAt(c, nvs, steps, j, n)
    ensures Before(c, nvs, steps, n).privateKey == KeySince(c, nvs, steps, j, n)
  {
    hide Run, Next, Unlocks, EndsUnlock, Before, IsOpen, Opened;
    StartsLocked(c, nvs, steps);
    var s := Before(c, nvs, steps, n - 1);
    BeforeStep(c, nvs, steps, n - 1);
    StepUnlocked(c, s, steps[n - 1]);
    if Unlocks(c, s, steps[n - 1]) {
      j := n - 1;
      UnlockedNow(c, nvs, steps, j);
      UnlockOpens(c, s, steps[j]);
    } else {
      j := UnlockedHasCause(c, nvs, steps, n - 1);
      StepKeepsKey(c, s, steps[n - 1]);
      UnlockedStill(c, nvs, steps, j, n - 1);
    }
  }

  /** With no failed generation since the unlock, the key is the one that it decrypted. */
  lemma {:induction false} KeyIsOpened(c: Crypto, nvs: Nvs, steps: seq<Step>, j: nat, n: nat)
    requires j < n <= |steps| && Unlocks(c, Before(c, nvs, steps, j), steps[j])
    requires forall k :: j < k < n ==> !FailedGeneration(steps[k])
    ensures KeySince(c, nvs, steps, j, n) == Opened(c, Before(c, nvs, steps, j), steps[j])
  {
    hide Unlocks, Before, FailedGeneration, Opened;
    if n > j + 1 {
      KeyIsOpened(c, nvs, steps, j, n - 1);
    }
  }

  /**
   In every run, failures included, a signature under an encrypted key comes after
   an unlock of the locked key whose password was checked, and that unlock is later
   than the last lock, completed generation or reboot.  The signature is under the
   seed that this unlock decrypted, unless a generation has failed since: then it is
   under the seed that the last such generation drew and storage never held.
   */
  lemma SignatureNeedsUnlock(c: Crypto, nvs: Nvs, steps: seq<Step>, n: nat) returns (j: int)
    requires n < |steps|
    requires Signs(c, Before(c, nvs, steps, n), steps[n]) && Before(c, nvs, steps, n).keyEncrypted
    ensures UnlockedAt(c, nvs, steps, j, n)
    ensures Before(c, nvs, steps, n).privateKey == KeySince(c, nvs, steps, j, n)
    ensures (forall k :: j < k < n ==> !FailedGeneration(steps[k])) ==>
              Before(c, nvs, steps, n).privateKey == Opened(c, Before(c, nvs, steps, j), steps[j])
  {
    j := UnlockedHasCause(c, nvs, steps, n);
    hide Unlocks, Before, FailedGeneration, Opened, EndsUnlock;
    if forall k :: j < k < n ==> !FailedGeneration(steps[k]) {
      KeyIsOpened(c, nvs, steps, j, n);
    }
  }

  // ---------------------------------------------------------------- unlock round trip

  /** RAM and NVS both hold the key that was generated from these draws under pw. */
  predicate HoldsKey(c: Crypto, s: State, pw: seq<byte>, d: Draw) {
    var sealed := c.encrypt(c.kdf(pw, d.salt), d.iv, Pad(d.seed));
    && s.keyLoaded && s.keyEncrypted
    && s.publicKey == c.publicOf(d.seed) && s.encryptedSeed == sealed && s.salt == d.salt && s.iv == d.iv
    && s.nvs == Nvs(Some(s.publicKey), None, Some(sealed), Some(d.salt), Some(d.iv), 1)
  }

  predicate WellDrawn(c: Crypto, d: Draw) {
    |d.seed| == 32 && |d.salt| == 16 && |d.iv| == 16 && |c.publicOf(d.seed)| == 32
  }

  /** A completed generation establishes the key, locked. */
  lemma GenerationHoldsKey(c: Crypto, s: State, p: Packet)
    requires p.kind == GENERATE_ENCRYPTED && |p.data| >= 1 && Completes(p)
    ensures var t := Next(c, s, Receive(p));
            HoldsKey(c, t, p.data, p.draw) && IsLocked(t) && Succeeds(c, s, Receive(p), GENERATE_ENCRYPTED)
  {
    assert Sent(c, s, Receive(p))[1] == Frame([SUCCESS]);
  }

  /** A step that does not generate a key. */
  predicate KeepsKey(step: Step) {
    step.Receive? && step.packet.kind == GENERATE_ENCRYPTED ==> |step.packet.data| < 1
  }

  lemma StepHoldsKey(c: Crypto, s: State, step: Step, pw: seq<byte>, d: Draw)
    requires Inverts(c) && WellDrawn(c, d) && HoldsKey(c, s, pw, d) && KeepsKey(step)
    ensures HoldsKey(c, Next(c, s, step), pw, d)
  {
    assert |Pad(d.seed)| == 48;
  }

  /** From any state of the key's life in which it is locked, the password brings the seed back. */
  lemma UnlockRestores(c: Crypto, s: State, p: Packet, d: Draw)
    requires Inverts(c) && WellDrawn(c, d) && HoldsKey(c, s, p.data, d) && IsLocked(s)
    requires p.kind == UNLOCK && p.kdfOk && p.aesOk
    ensures var t := Next(c, s, Receive(p));
            && t == s.(privateKey := d.seed, keyUnlocked := true)
            && Succeeds(c, s, Receive(p), UNLOCK)
  {
    PadUnpad(d.seed);
    assert |Pad(d.seed)| == 48;
    assert Sent(c, s, Receive(p))[1] == Frame([SUCCESS]);
  }

  function RunFrom(c: Crypto, s: State, steps: seq<Step>): State {
    if steps == [] then s else Next(c, RunFrom(c, s, steps[..|steps| - 1]), steps[|steps| - 1])
  }

  lemma {:induction false} RunHoldsKey(c: Crypto, s: State, steps: seq<Step>, pw: seq<byte>, d: Draw)
    requires Inverts(c) && WellDrawn(c, d) && HoldsKey(c, s, pw, d)
    requires forall i :: 0 <= i < |steps| ==> KeepsKey(steps[i])
    ensures HoldsKey(c, RunFrom(c, s, steps), pw, d)
  {
    if steps != [] {
      var n := |steps| - 1;
      RunHoldsKey(c, s, steps[..n], pw, d);
      StepHoldsKey(c, RunFrom(c, s, steps[..n]), steps[n], pw, d);
    }
  }

  /**
   After a completed generation under pw, any run of packets and reboots without a
   new generation, wrong passwords and library failures included, leaves RAM and
   NVS agreeing; and whenever the key is then locked, unlocking with pw restores
   exactly the generated seed.
   */
  lemma UnlockRoundTrip(c: Crypto, s: State, g: Packet, steps: seq<Step>, u: Packet)
    requires Inverts(c) && WellDrawn(c, g.draw)
    requires g.kind == GENERATE_ENCRYPTED && |g.data| >= 1 && Completes(g)
    requires forall i :: 0 <= i < |steps| ==> KeepsKey(steps[i])
    requires u.kind == UNLOCK && u.data == g.data && u.kdfOk && u.aesOk
    ensures var t := RunFrom(c, Next(c, s, Receive(g)), steps);
            && HoldsKey(c, t, g.data, g.draw)
            && (IsLocked(t) ==> var v := Next(c, t, Receive(u));
                                v.privateKey == g.draw.seed && v.keyUnlocked && HoldsKey(c, v, g.data, g.draw))
  {
    var t := RunFrom(c, Next(c, s, Receive(g)), steps);
    GenerationHoldsKey(c, s, g);
    RunHoldsKey(c, Next(c, s, Receive(g)), steps, g.data, g.draw);
    if IsLocked(t) {
      UnlockRestores(c, t, u, g.draw);
    }
  }
}
