/** The firmware's globals and handlers, updating in place. */
module Firmware {
  import opened Bytes
  import opened FirmwareSpec
  import opened Options
  import opened Words

  class Device {
    const crypto: Crypto
    var nvs: Nvs
    var privateKey: seq<byte>
    var publicKey: seq<byte>
    var keyLoaded: bool
    var keyEncrypted: bool
    var keyUnlocked: bool
    var encryptedSeed: seq<byte>
    var salt: seq<byte>
    var iv: seq<byte>

    function Snapshot(): State
      reads this
    {
      State(nvs, privateKey, publicKey, keyLoaded, keyEncrypted, keyUnlocked, encryptedSeed, salt, iv)
    }

    /** Power-up: cleared RAM over the given NVS image, then setup(). */
    constructor (crypto: Crypto, nvs: Nvs)
      ensures this.crypto == crypto && Snapshot() == Boot(nvs)
    {
      this.crypto := crypto;
      this.nvs := nvs;
      privateKey, publicKey := Zeros(32), Zeros(32);
      keyLoaded, keyEncrypted, keyUnlocked := false, false, false;
      encryptedSeed, salt, iv := Zeros(48), Zeros(16), Zeros(16);
      new;
      var found := LoadKeyFromStorage();
    }

    method LoadKeyFromStorage() returns (found: bool)
      modifies this
      ensures Snapshot() == LoadKey(old(Snapshot()))
      ensures found <==> HasLength(nvs.pubkey, 32)
                         && if nvs.encrypted == 1
                            then HasLength(nvs.encSeed, 48) && HasLength(nvs.salt, 16) && HasLength(nvs.iv, 16)
                            else HasLength(nvs.privkey, 32)
    {
      if !HasLength(nvs.pubkey, 32) {
        return false;
      }
      publicKey := nvs.pubkey.value;
      if nvs.encrypted == 1 {
        if HasLength(nvs.encSeed, 48) && HasLength(nvs.salt, 16) && HasLength(nvs.iv, 16) {
          encryptedSeed, salt, iv := nvs.encSeed.value, nvs.salt.value, nvs.iv.value;
          keyLoaded, keyEncrypted, keyUnlocked := true, true, false;
          return true;
        }
        return false;
      } else {
        if HasLength(nvs.privkey, 32) {
          privateKey := nvs.privkey.value;
          keyLoaded, keyEncrypted, keyUnlocked := true, false, true;
          return true;
        }
        return false;
      }
    }

    /** The seed behind the ciphertext if the call succeeds and the padding is accepted. */
    method DecryptSeed(aesKey: seq<byte>, aesOk: bool) returns (seed: Option<seq<byte>>)
      ensures seed == if aesOk then Unpad(crypto.decrypt(aesKey, iv, encryptedSeed)) else None
    {
      if !aesOk {
        return None;
      }
      var decrypted := crypto.decrypt(aesKey, iv, encryptedSeed);
      if |decrypted| != 48 {
        return None;
      }
      var padVal := decrypted[47];
      if padVal <= 0 || padVal > 16 {
        return None;
      }
      var i := 0;
      while i < padVal
        invariant 0 <= i <= padVal
        invariant forall k :: 48 - i <= k < 48 ==> decrypted[k] == padVal
      {
        if decrypted[47 - i] != padVal {
          assert !ValidPadding(decrypted);
          return None;
        }
        i := i + 1;
      }
      seed := Some(decrypted[..32]);
    }

    method GenerateEncryptedKey(password: seq<byte>, p: Packet) returns (ok: bool)
      modifies this
      ensures (Snapshot(), ok) == Generate(crypto, old(Snapshot()), password, p)
    {
      publicKey, privateKey := crypto.publicOf(p.draw.seed), p.draw.seed;
      salt, iv := p.draw.salt, p.draw.iv;
      if !p.kdfOk {
        return false;
      }
      var aesKey := crypto.kdf(password, salt);
      if !p.aesOk {
        encryptedSeed := p.scrap;
        return false;
      }
      encryptedSeed := crypto.encrypt(aesKey, iv, Pad(privateKey));
      nvs := nvs.(pubkey := Kept(p, 0, Some(publicKey), nvs.pubkey));
      nvs := nvs.(encSeed := Kept(p, 1, Some(encryptedSeed), nvs.encSeed));
      nvs := nvs.(salt := Kept(p, 2, Some(salt), nvs.salt));
      nvs := nvs.(iv := Kept(p, 3, Some(iv), nvs.iv));
      nvs := nvs.(encrypted := Kept(p, 4, 1, nvs.encrypted));
      nvs := nvs.(privkey := Kept(p, 5, None, nvs.privkey));
      privateKey := Zeros(32);
      keyLoaded, keyEncrypted, keyUnlocked := true, true, false;
      ok := true;
    }

    method ReceiveUnlock(p: Packet) returns (out: seq<Output>)
      modifies this
      ensures (Snapshot(), out) == HandleUnlock(crypto, old(Snapshot()), p)
    {
      if !keyLoaded || !keyEncrypted {
        return Status(FAILURE);
      }
      if keyUnlocked {
        return Status(SUCCESS);
      }
      if !p.kdfOk {
        return Status(FAILURE);
      }
      var aesKey := crypto.kdf(p.data, salt);
      var seed := DecryptSeed(aesKey, p.aesOk);
      if seed.None? {
        privateKey := Zeros(32);
        return [Text(Ascii("Unlock failed: wrong password")), Frame([FAILURE])];
      }
      privateKey := seed.value;
      keyUnlocked := true;
      out := [Text(Ascii("Agent unlocked")), Frame([SUCCESS])];
    }

    method ReceiveLock() returns (out: seq<Output>)
      modifies this
      ensures (Snapshot(), out) == HandleLock(old(Snapshot()))
    {
      if !keyLoaded || !keyEncrypted {
        return Status(FAILURE);
      }
      privateKey := Zeros(32);
      keyUnlocked := false;
      out := [Text(Ascii("Agent locked")), Frame([SUCCESS])];
    }

    method ReceiveGenerate(p: Packet) returns (out: seq<Output>)
      modifies this
      ensures (Snapshot(), out) == HandleGenerate(crypto, old(Snapshot()), p)
    {
      if |p.data| < 1 {
        return Status(FAILURE);
      }
      var ok := GenerateEncryptedKey(p.data, p);
      out := [Text(GenerateText(p)), Frame([if ok then SUCCESS else FAILURE])];
    }

    /** One packet: the state and the responses are those of the transition system. */
    method ProcessAgentRequest(p: Packet) returns (out: seq<Output>)
      modifies this
      ensures Snapshot() == Next(crypto, old(Snapshot()), Receive(p))
      ensures out == Sent(crypto, old(Snapshot()), Receive(p))
      ensures !(FailedGeneration(Receive(p))) && old(LockedIsZero(Snapshot())) ==> LockedIsZero(Snapshot())
    {
      if LockedIsZero(Snapshot()) {
        StepLockedIsZero(crypto, Snapshot(), Receive(p));
      }
      if p.kind == SIGN_CHALLENGE {
        out := HandleSignChallenge(crypto, Snapshot(), p);
      } else if p.kind == GET_PUBLIC_KEY {
        out := HandleGetPublicKey(Snapshot());
      } else if p.kind == UNLOCK {
        out := ReceiveUnlock(p);
      } else if p.kind == LOCK {
        out := ReceiveLock();
      } else if p.kind == GENERATE_ENCRYPTED {
        out := ReceiveGenerate(p);
      } else if p.kind == REQUEST_IDENTITIES {
        out := HandleIdentities(Snapshot());
      } else if p.kind == SIGN_REQUEST {
        out := HandleSignRequest(crypto, Snapshot(), p);
      } else {
        out := Status(FAILURE);
      }
    }
  }
}
