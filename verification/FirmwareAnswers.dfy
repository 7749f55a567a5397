/**
 What the firmware does with each packet and at a boot, in terms of its globals, its
 storage and the bytes it sends.
 */
module FirmwareAnswers {
  import opened Bytes
  import opened FirmwareSpec
  import opened Options
  import opened Words

  // ---------------------------------------------------------------- unlocking

  ghost predicate PaddedBy(d: seq<byte>, v: byte, rest: seq<byte>) {
    1 <= v <= 16 && d == rest + seq(v, _ => v)
  }

  /** 48 bytes that end with v bytes of value v, for some v from 1 to 16 (section 6.3 of RFC 5652). */
  ghost predicate Padded(d: seq<byte>) {
    |d| == 48 && exists v, rest :: PaddedBy(d, v, rest)
  }

  /** The padding test accepts exactly padded bytes, and the seed is the first 32 of them. */
  lemma UnpadIff(d: seq<byte>)
    ensures Unpad(d).Some? <==> Padded(d)
    ensures Unpad(d).Some? ==> Unpad(d).value == d[..32]
  {
    if |d| == 48 {
      if ValidPadding(d) {
        var v := d[47];
        assert d == d[..48 - v] + seq(v, _ => v);
        assert PaddedBy(d, v, d[..48 - v]);
      }
      if v: byte, rest: seq<byte> :| PaddedBy(d, v, rest) {
        assert |rest| == 48 - v && d[47] == v;
        assert forall k :: 48 - v <= k < 48 ==> d[k] == seq(v, _ => v)[k - |rest|];
      }
    }
  }

  /** The bytes that an unlock decrypts. */
  function Decrypted(c: Crypto, s: State, password: seq<byte>): seq<byte> {
    c.decrypt(c.kdf(password, s.salt), s.iv, s.encryptedSeed)
  }

  /**
   From locked, with both calls succeeding, a password unlocks the key exactly when what
   it decrypts is padded.  Otherwise the key stays locked, the key in RAM is cleared, and
   the answer is a failure.
   */
  lemma UnlockAnswered(c: Crypto, s: State, p: Packet)
    requires s.keyLoaded && s.keyEncrypted && !s.keyUnlocked && p.kind == 3 && p.kdfOk && p.aesOk
    ensures var d, t, out := Decrypted(c, s, p.data), Next(c, s, Receive(p)), Sent(c, s, Receive(p));
            if Padded(d) then
              t == s.(privateKey := d[..32], keyUnlocked := true)
              && out == [Text(Ascii("Agent unlocked")), Frame([6])]
            else
              t == s.(privateKey := seq(32, _ => 0))
              && out == [Text(Ascii("Unlock failed: wrong password")), Frame([5])]
  {
    UnpadIff(Decrypted(c, s, p.data));
    hide Unpad, Padded, Ascii;
    assert Zeros(32) == seq(32, _ => 0);
  }

  /** In every other case an unlock changes nothing but, after a failed decryption, the key in RAM. */
  lemma UnlockElsewhere(c: Crypto, s: State, p: Packet)
    requires p.kind == 3 && !(s.keyLoaded && s.keyEncrypted && !s.keyUnlocked && p.kdfOk && p.aesOk)
    ensures var t, out := Next(c, s, Receive(p)), Sent(c, s, Receive(p));
            if !s.keyLoaded || !s.keyEncrypted then t == s && out == [Frame([5])]
            else if s.keyUnlocked then t == s && out == [Frame([6])]
            else if !p.kdfOk then t == s && out == [Frame([5])]
            else
              t == s.(privateKey := seq(32, _ => 0))
              && out == [Text(Ascii("Unlock failed: wrong password")), Frame([5])]
  {
    hide Unpad, Ascii;
    assert Zeros(32) == seq(32, _ => 0);
  }

  /** For instance, a password that decrypts to zeros is refused. */
  lemma ZerosAreRefused(c: Crypto, s: State, p: Packet)
    requires s.keyLoaded && s.keyEncrypted && !s.keyUnlocked && p.kind == 3 && p.kdfOk && p.aesOk
    requires Decrypted(c, s, p.data) == seq(48, _ => 0)
    ensures var t := Next(c, s, Receive(p)); t.keyEncrypted && !t.keyUnlocked && t.privateKey == seq(32, _ => 0)
  {
    var d := Decrypted(c, s, p.data);
    UnlockAnswered(c, s, p);
    hide Decrypted, Next, Sent;
    if v: byte, rest: seq<byte> :| PaddedBy(d, v, rest) {
      LastIsValue(d, v, rest);
    }
  }

  lemma LastIsValue(d: seq<byte>, v: byte, rest: seq<byte>)
    requires PaddedBy(d, v, rest)
    ensures |d| > 0 && d[|d| - 1] == v
  {
    assert |d| == |rest| + v;
  }

  lemma LockAnswered(c: Crypto, s: State, p: Packet)
    requires p.kind == 4
    ensures var t, out := Next(c, s, Receive(p)), Sent(c, s, Receive(p));
            if s.keyLoaded && s.keyEncrypted then
              t == s.(privateKey := seq(32, _ => 0), keyUnlocked := false)
              && out == [Text(Ascii("Agent locked")), Frame([6])]
            else t == s && out == [Frame([5])]
  {
    hide Ascii;
    assert Zeros(32) == seq(32, _ => 0);
  }

  // ---------------------------------------------------------------- signing

  /** A challenge is signed whole, by an unlocked key. */
  lemma ChallengeAnswered(c: Crypto, s: State, p: Packet)
    requires p.kind == 1
    ensures Next(c, s, Receive(p)) == s
    ensures Sent(c, s, Receive(p))
            == if !s.keyLoaded then [Frame([5])]
               else if s.keyEncrypted && !s.keyUnlocked then [Frame([0x20])]
               else [Frame([14] + c.sign(p.data, s.privateKey, s.publicKey))]
  {
  }

  /**
   A sign request names a key and a message: an unlocked key signs exactly the message if
   the request names it, and a request for any other key is refused.
   */
  lemma SignRequestAnswered(c: Crypto, s: State, p: Packet, key: seq<byte>, d: seq<byte>, rest: seq<byte>)
    requires p.kind == 13 && p.data == Str(key) + Str(d) + rest && |key| < TWO_32 && |d| < TWO_32
    requires |s.publicKey| == 32
    ensures Next(c, s, Receive(p)) == s
    ensures Sent(c, s, Receive(p))
            == if !s.keyLoaded || |p.data| < 37 then [Frame([5])]
               else if s.keyEncrypted && !s.keyUnlocked then [Frame([0x20])]
               else if key != s.publicKey then [Frame([5])]
               else [Frame([14, 0, 0, 0, 64] + c.sign(d, s.privateKey, s.publicKey))]
  {
    if |p.data| >= 37 {
      RequestParts(p, key, d, rest);
    }
    hide Str, Word, WordAt, BytesAt, Be32;
  }

  lemma RequestParts(p: Packet, key: seq<byte>, d: seq<byte>, rest: seq<byte>)
    requires p.data == Str(key) + Str(d) + rest && |key| < TWO_32 && |d| < TWO_32 && |p.data| >= 37
    ensures WordAt(p, 0) == |key|
    ensures |key| == 32 ==> BytesAt(p, 4, 32) == key && WordAt(p, 36) == |d| && BytesAt(p, 40, |d|) == d
  {
    hide Str, Word, WordAt, BytesAt, Be32;
    assert p.data == [] + Str(key) + (Str(d) + rest);
    ReadStr([], key, Str(d) + rest);
    ReadStr(Str(key), d, rest);
    WordsOf(p, 0);
    if |key| == 32 {
      BytesOf(p, 4, 32);
      BytesOf(p, 40, |d|);
      WordsOf(p, 36);
    }
  }

  lemma BytesOf(p: Packet, k: nat, n: nat)
    requires k + n <= |p.data|
    ensures BytesAt(p, k, n) == p.data[k..k + n]
  {
    forall i | 0 <= i < n
      ensures BytesAt(p, k, n)[i] == p.data[k..k + n][i]
    {
    }
  }

  lemma WordsOf(p: Packet, k: nat)
    requires k + 4 <= |p.data|
    ensures WordAt(p, k) == Word(p.data, k)
  {
    BytesOf(p, k, 4);
  }

  /** The public key is given out by a locked key as well. */
  lemma KeyAnswered(c: Crypto, s: State, p: Packet)
    requires p.kind == 2 || p.kind == 11
    ensures Next(c, s, Receive(p)) == s
    ensures Sent(c, s, Receive(p))
            == if !s.keyLoaded then [Frame([5])]
               else if p.kind == 2 then [Frame([2] + s.publicKey)]
               else [Frame([12] + Be32(1) + Be32(32) + s.publicKey + Be32(0))]
  {
    assert [12] + Be32(1) + Be32(32) == [12, 0, 0, 0, 1, 0, 0, 0, 32] && Be32(0) == [0, 0, 0, 0];
  }

  lemma OtherKindRefused(c: Crypto, s: State, p: Packet)
    requires p.kind !in {1, 2, 3, 4, 5, 11, 13}
    ensures Next(c, s, Receive(p)) == s && Sent(c, s, Receive(p)) == [Frame([5])]
  {
  }

  // ---------------------------------------------------------------- generating

  /** What storage holds after a write that may fail. */
  predicate Written<T(==)>(now: T, value: T, before: T, stored: bool) {
    now == if stored then value else before
  }

  /**
   A generation seals the drawn seed, padded with sixteen bytes of 16, under the password,
   and leaves the new key in RAM and in storage, locked.  Each of the six writes may fail.
   */
  lemma GenerateAnswered(c: Crypto, s: State, p: Packet)
    requires p.kind == 5 && |p.data| >= 1 && p.kdfOk && p.aesOk
    ensures var t, d := Next(c, s, Receive(p)), p.draw;
            var sealed := c.encrypt(c.kdf(p.data, d.salt), d.iv, d.seed + seq(16, _ => 16));
            && t == State(t.nvs, seq(32, _ => 0), c.publicOf(d.seed), true, true, false, sealed, d.salt, d.iv)
            && Written(t.nvs.pubkey, Some(c.publicOf(d.seed)), s.nvs.pubkey, p.stored(0))
            && Written(t.nvs.encSeed, Some(sealed), s.nvs.encSeed, p.stored(1))
            && Written(t.nvs.salt, Some(d.salt), s.nvs.salt, p.stored(2))
            && Written(t.nvs.iv, Some(d.iv), s.nvs.iv, p.stored(3))
            && Written(t.nvs.encrypted, 1, s.nvs.encrypted, p.stored(4))
            && Written(t.nvs.privkey, None, s.nvs.privkey, p.stored(5))
    ensures Sent(c, s, Receive(p)) == [Text(Ascii("Ed25519 key generated and stored (encrypted)")), Frame([6])]
  {
    hide Ascii;
    assert Zeros(32) == seq(32, _ => 0);
  }

  /** A generation that fails has already drawn a new key, and has stored nothing. */
  lemma GenerateFails(c: Crypto, s: State, p: Packet)
    requires p.kind == 5 && !(|p.data| >= 1 && p.kdfOk && p.aesOk)
    ensures var t, d := Next(c, s, Receive(p)), p.draw;
            if |p.data| < 1 then t == s && Sent(c, s, Receive(p)) == [Frame([5])]
            else
              && t == s.(publicKey := c.publicOf(d.seed), privateKey := d.seed, salt := d.salt, iv := d.iv,
                         encryptedSeed := if p.kdfOk then p.scrap else s.encryptedSeed)
              && Sent(c, s, Receive(p))
                 == [Text(Ascii(if p.kdfOk then "Encryption failed" else "PBKDF2 key derivation failed")), Frame([5])]
  {
    hide Ascii;
  }

  // ---------------------------------------------------------------- booting

  predicate Held(field: Option<seq<byte>>, n: nat) {
    match field
    case None => false
    case Some(bytes) => |bytes| == n
  }

  /**
   A boot loads a key exactly when storage holds all its parts: an encrypted one locked, a
   plain one for use.  Everything else in RAM is clear, but for a public key that is found
   without the rest.
   */
  lemma BootLoads(nvs: Nvs)
    ensures var loaded := Held(nvs.pubkey, 32)
                          && if nvs.encrypted == 1
                             then Held(nvs.encSeed, 48) && Held(nvs.salt, 16) && Held(nvs.iv, 16)
                             else Held(nvs.privkey, 32);
            var zeros := (n: nat) => seq<byte>(n, _ => 0);
            var public := if Held(nvs.pubkey, 32) then nvs.pubkey.value else zeros(32);
            Boot(nvs)
            == if !loaded then State(nvs, zeros(32), public, false, false, false, zeros(48), zeros(16), zeros(16))
               else if nvs.encrypted == 1 then
                 State(nvs, zeros(32), public, true, true, false, nvs.encSeed.value, nvs.salt.value, nvs.iv.value)
               else State(nvs, nvs.privkey.value, public, true, false, true, zeros(48), zeros(16), zeros(16))
  {
    assert Zeros(32) == seq(32, _ => 0) && Zeros(48) == seq(48, _ => 0) && Zeros(16) == seq(16, _ => 0);
  }
}
