/**
 The bridge between the agent socket and the serial line, the Go client's requests,
 and the manager's parser of key and signature blobs.  An exchange with the device
 passes the state of the serial line along.
 */
module BridgeSpec {
  import opened Bytes
  import opened FirmwareSpec
  import opened Options
  import opened Words

  const ADD_IDENTITY: byte := 17
  const REMOVE_IDENTITY: byte := 18
  const REMOVE_ALL_IDENTITIES: byte := 19
  const EXTENSION: byte := 27

  /** "ssh-ed25519", "ESP32-SSH-Agent", "esp32-unlock" and "esp32-lock". */
  const KEY_TYPE: seq<byte> := [115, 115, 104, 45, 101, 100, 50, 53, 53, 49, 57]
  const COMMENT: seq<byte> := [69, 83, 80, 51, 50, 45, 83, 83, 72, 45, 65, 103, 101, 110, 116]
  const UNLOCK_NAME: seq<byte> := [101, 115, 112, 51, 50, 45, 117, 110, 108, 111, 99, 107]
  const LOCK_NAME: seq<byte> := [101, 115, 112, 51, 50, 45, 108, 111, 99, 107]

  /** A key or signature blob: the type string and the raw bytes (sections 4 and 6 of RFC 8709). */
  function Blob(raw: seq<byte>): (b: seq<byte>)
    ensures |b| == 19 + |raw|
  {
    Str(KEY_TYPE) + Str(raw)
  }

  /** _extract_raw_key; struct.unpack raises on a short slice. */
  function ExtractRawKey(blob: seq<byte>): Option<seq<byte>> {
    if |blob| < 4 then None else
      var typeLen := Word(blob, 0);
      if 4 + typeLen + 4 > |blob| then None else
        var keyLen := Word(blob, 4 + typeLen);
        Some(Slice(blob, 8 + typeLen, 8 + typeLen + keyLen))
  }

  lemma ExtractBlob(raw: seq<byte>)
    requires |raw| < TWO_32
    ensures ExtractRawKey(Blob(raw)) == Some(raw)
  {
    var b := Blob(raw);
    ReadStr([], KEY_TYPE, Str(raw));
    assert [] + Str(KEY_TYPE) + Str(raw) == b;
    ReadStr(Str(KEY_TYPE), raw, []);
    assert Str(KEY_TYPE) + Str(raw) + [] == b;
  }

  // ---------------------------------------------------------------- the bridge

  /** The bridge answers, or an exception closes the connection. */
  datatype Reply = Closed | Answer(bytes: seq<byte>)

  /** A packet to the device and the response that the bridge receives for it. */
  type Exchange<!S> = (S, byte, seq<byte>) -> (S, Option<seq<byte>>)

  /** What the bridge sends on for a sign request. */
  function SignPayload(rawKey: seq<byte>, data: seq<byte>, flags: byte): seq<byte> {
    Str(rawKey) + Str(data) + [flags]
  }

  /** Turns the firmware's response to a sign request into an agent response. */
  function SignAnswer(response: Option<seq<byte>>): Reply {
    match response
    case None => Answer([FAILURE])
    case Some(frame) =>
      if frame == [] then Closed
      else if frame[0] == LOCKED then Answer([LOCKED])
      else if frame[0] != SIGN_RESPONSE || |frame| < 5 then Answer([FAILURE])
      else
        Answer([SIGN_RESPONSE] + Str(Blob(Slice(frame, 5, 5 + Word(frame, 1)))))
  }

  function SignRequest<S>(exchange: Exchange<S>, st: S, keyBlob: seq<byte>, data: seq<byte>, flags: nat): (S, Reply) {
    match ExtractRawKey(keyBlob)
    case None => (st, Closed)
    case Some(rawKey) =>
      if flags > 255 then (st, Closed) else
        var (t, frame) := exchange(st, SIGN_REQUEST, SignPayload(rawKey, data, flags));
        (t, SignAnswer(frame))
  }

  /** request_identities on the firmware's response. */
  function IdentitiesAnswer(response: Option<seq<byte>>): Reply {
    match response
    case None => Answer([FAILURE])
    case Some(frame) =>
      if frame == [] then Closed
      else if frame[0] != IDENTITIES_ANSWER || |frame| < 9 then Answer([FAILURE])
      else if Word(frame, 1) == 0 then Answer([IDENTITIES_ANSWER] + Be32(0))
      else Answer([IDENTITIES_ANSWER] + Be32(1) + Str(Blob(Slice(frame, 9, 9 + Word(frame, 5)))) + Str(COMMENT))
  }

  /** The answer of unlock and lock. */
  function StatusAnswer(response: Option<seq<byte>>): Reply {
    match response
    case None => Answer([FAILURE])
    case Some(frame) =>
      if frame == [] then Closed
      else if frame[0] == SUCCESS then Answer([SUCCESS]) else Answer([FAILURE])
  }

  /** The sign branch of handle_agent_request. */
  function HandleSign<S>(exchange: Exchange<S>, st: S, payload: seq<byte>): (S, Reply) {
    if |payload| < 8 then (st, Answer([FAILURE])) else
      var keyLen := Word(payload, 0);
      if |payload| < 4 + keyLen + 4 then (st, Answer([FAILURE])) else
        var off := 4 + keyLen;
        var dataLen := Word(payload, off);
        var flagsOff := off + 4 + dataLen;
        var flags := if flagsOff + 4 <= |payload| then Word(payload, flagsOff) else 0;
        SignRequest(exchange, st, payload[4..off], Slice(payload, off + 4, flagsOff), flags)
  }

  /** The extension branch: unlock with a password, or lock. */
  function HandleExtension<S>(exchange: Exchange<S>, st: S, payload: seq<byte>): (S, Reply) {
    if |payload| < 4 || |payload| < 4 + Word(payload, 0) then (st, Answer([FAILURE])) else
      var name, data := payload[4..4 + Word(payload, 0)], payload[4 + Word(payload, 0)..];
      if name == UNLOCK_NAME then
        if |data| < 4 then (st, Answer([FAILURE])) else
          var (t, frame) := exchange(st, UNLOCK, Slice(data, 4, 4 + Word(data, 0)));
          (t, StatusAnswer(frame))
      else if name == LOCK_NAME then
        var (t, frame) := exchange(st, LOCK, []);
        (t, StatusAnswer(frame))
      else (st, Answer([FAILURE]))
  }

  function HandleAgentRequest<S>(exchange: Exchange<S>, st: S, data: seq<byte>): (S, Reply) {
    if |data| < 1 then (st, Answer([FAILURE]))
    else if data[0] == REQUEST_IDENTITIES then
      var (t, frame) := exchange(st, REQUEST_IDENTITIES, []);
      (t, IdentitiesAnswer(frame))
    else if data[0] == SIGN_REQUEST then HandleSign(exchange, st, data[1..])
    else if data[0] == EXTENSION then HandleExtension(exchange, st, data[1..])
    else if data[0] == ADD_IDENTITY || data[0] == REMOVE_IDENTITY || data[0] == REMOVE_ALL_IDENTITIES then
      (st, Answer([SUCCESS]))
    else (st, Answer([FAILURE]))
  }

  /** handle_client on one framed request. */
  function HandleClient<S>(exchange: Exchange<S>, st: S, request: seq<byte>): (S, Reply) {
    if |request| < 4 || Word(request, 0) > 65536 || |request| < 4 + Word(request, 0) then (st, Closed)
    else HandleAgentRequest(exchange, st, request[4..4 + Word(request, 0)])
  }

  // ---------------------------------------------------------------- the Go client

  /** sendRequest's frame: the length is cut to 32 bits. */
  function GoRequest(kind: byte, payload: seq<byte>): seq<byte> {
    Be32(|payload| + 1) + [kind] + payload
  }

  /** sendRequest's checks of the response. */
  function GoReads(reply: Reply): Option<seq<byte>> {
    match reply
    case Closed => None
    case Answer(resp) => if resp == [] || resp[0] == FAILURE || resp[0] == LOCKED then None else Some(resp)
  }

  function GoSend<S>(exchange: Exchange<S>, st: S, kind: byte, payload: seq<byte>): (S, Option<seq<byte>>) {
    var (t, reply) := HandleClient(exchange, st, GoRequest(kind, payload));
    (t, GoReads(reply))
  }

  function GoSignPayload(keyBlob: seq<byte>, data: seq<byte>, flags: byte): seq<byte> {
    Str(keyBlob) + Str(data) + [flags]
  }

  /** Sign's checks of the response. */
  function SignatureIn(resp: Option<seq<byte>>): Option<seq<byte>> {
    if resp.None? || |resp.value| < 5 then None else
      var n := Word(resp.value, 1);
      if |resp.value| < 5 + n then None else Some(resp.value[5..5 + n])
  }

  function GoSign<S>(exchange: Exchange<S>, st: S, keyBlob: seq<byte>, data: seq<byte>, flags: byte)
    : (S, Option<seq<byte>>)
  {
    var (t, resp) := GoSend(exchange, st, SIGN_REQUEST, GoSignPayload(keyBlob, data, flags));
    (t, SignatureIn(resp))
  }

  function GoUnlock<S>(exchange: Exchange<S>, st: S, password: seq<byte>): (S, bool) {
    var (t, resp) := GoSend(exchange, st, EXTENSION, Str(UNLOCK_NAME) + Str(password));
    (t, resp.Some?)
  }

  /** The error by which the Go client tells a locked agent from other failures. */
  predicate SaysLocked(reply: Reply) {
    reply.Answer? && reply.bytes != [] && reply.bytes[0] == LOCKED
  }

  /** SignChallenge: if the agent is locked, unlock it with the password that is entered and sign again. */
  function GoSignChallenge<S>(sign: Exchange<S>, unlock: Exchange<S>, again: Exchange<S>, st: S,
                              keyBlob: seq<byte>, data: seq<byte>, password: seq<byte>): (S, Option<seq<byte>>)
  {
    var (t, reply) := HandleClient(sign, st, GoRequest(SIGN_REQUEST, GoSignPayload(keyBlob, data, 0)));
    if SaysLocked(reply) then
      var (u, ok) := GoUnlock(unlock, t, password);
      if ok then GoSign(again, u, keyBlob, data, 0) else (u, None)
    else (t, SignatureIn(GoReads(reply)))
  }

  // ---------------------------------------------------------------- listing

  datatype AgentKey = AgentKey(blob: seq<byte>, comment: seq<byte>)

  /** One round of the cursor loop of List: a key and the next position, unless the rest is too short. */
  function NextKey(resp: seq<byte>, pos: nat): Option<(AgentKey, nat)> {
    if pos + 4 > |resp| then None else
      var keyEnd := pos + 4 + Word(resp, pos);
      if keyEnd + 4 > |resp| then None else
        var blob := resp[pos + 4..keyEnd];
        var commentEnd := keyEnd + 4 + Word(resp, keyEnd);
        if commentEnd > keyEnd + 4 && commentEnd <= |resp| then
          Some((AgentKey(blob, resp[keyEnd + 4..commentEnd]), commentEnd))
        else Some((AgentKey(blob, []), keyEnd + 4))
  }

  /** Up to n keys from pos. */
  function ParseKeys(resp: seq<byte>, n: nat, pos: nat): seq<AgentKey>
    decreases n
  {
    if n == 0 then [] else
      match NextKey(resp, pos)
      case None => []
      case Some((key, next)) => [key] + ParseKeys(resp, n - 1, next)
  }

  /** List fails, or panics on slicing a response of 2 to 4 bytes, or returns keys. */
  datatype Listing = Failed | Panicked | Listed(keys: seq<AgentKey>)

  function ListingIn(resp: seq<byte>): Listing {
    if |resp| < 2 then Failed else if |resp| < 5 then Panicked else Listed(ParseKeys(resp, Word(resp, 1), 5))
  }

  function KeysIn(resp: Option<seq<byte>>): Listing {
    match resp
    case None => Failed
    case Some(bytes) => ListingIn(bytes)
  }

  function GoList<S>(exchange: Exchange<S>, st: S): (S, Listing) {
    var (t, resp) := GoSend(exchange, st, REQUEST_IDENTITIES, []);
    (t, KeysIn(resp))
  }

  /** The agent encoding of a list of keys. */
  function EncodeKeys(keys: seq<AgentKey>): seq<byte> {
    if keys == [] then [] else Str(keys[0].blob) + Str(keys[0].comment) + EncodeKeys(keys[1..])
  }

  // ---------------------------------------------------------------- the manager

  /** The manager's blob parser: a type string of any content, then size raw bytes; 4 + type_len wraps at 2^32. */
  function ParseTyped(blob: seq<byte>, size: nat): Option<seq<byte>> {
    if 4 > |blob| then None else
      var off := (4 + Word(blob, 0)) % TWO_32;
      if off + 4 > |blob| then None
      else if Word(blob, off) != size || off + 4 + size > |blob| then None
      else Some(blob[off + 4..off + 4 + size])
  }

  function ParseSshSig(sig: seq<byte>): Option<seq<byte>> {
    ParseTyped(sig, 64)
  }

  function ParseSshPubkey(blob: seq<byte>): Option<seq<byte>> {
    ParseTyped(blob, 32)
  }

  /** The parser reads the raw bytes of a blob exactly when they have the expected size. */
  lemma ParseBlob(raw: seq<byte>, size: nat)
    requires |raw| < TWO_32
    ensures ParseTyped(Blob(raw), size) == if |raw| == size then Some(raw) else None
  {
    var b := Blob(raw);
    ReadStr([], KEY_TYPE, Str(raw));
    assert [] + Str(KEY_TYPE) + Str(raw) == b;
    ReadStr(Str(KEY_TYPE), raw, []);
    assert Str(KEY_TYPE) + Str(raw) + [] == b;
    hide Str, Word, Be32;
    assert Word(b, 0) == 11;
    assert Word(b, 15) == |raw|;
  }

  // ---------------------------------------------------------------- requests arrive as they were made

  /** handle_client unwraps a request unless it is longer than 65536. */
  lemma ClientUnwraps<S>(exchange: Exchange<S>, st: S, kind: byte, payload: seq<byte>)
    requires |payload| + 1 < TWO_32
    ensures HandleClient(exchange, st, GoRequest(kind, payload))
            == if |payload| + 1 > 65536 then (st, Closed) else HandleAgentRequest(exchange, st, [kind] + payload)
  {
    var request := GoRequest(kind, payload);
    assert request == [] + Be32(|payload| + 1) + ([kind] + payload);
    WordOfBe32([], |payload| + 1, [kind] + payload);
    hide Word, Be32, HandleAgentRequest;
    assert request[4..4 + |payload| + 1] == [kind] + payload;
  }

  /** The bridge takes the Go client's payload apart; the one flags byte is not seen. */
  lemma BridgeParses<S>(exchange: Exchange<S>, st: S, keyBlob: seq<byte>, d: seq<byte>, flags: byte)
    requires |keyBlob| < TWO_32 && |d| < TWO_32
    ensures HandleSign(exchange, st, GoSignPayload(keyBlob, d, flags)) == SignRequest(exchange, st, keyBlob, d, 0)
  {
    hide Str, Word, SignRequest, GoSignPayload;
    PayloadParts(keyBlob, d, flags);
  }

  lemma PayloadParts(keyBlob: seq<byte>, d: seq<byte>, flags: byte)
    requires |keyBlob| < TWO_32 && |d| < TWO_32
    ensures var payload, off := GoSignPayload(keyBlob, d, flags), 4 + |keyBlob|;
            && |payload| == off + 4 + |d| + 1
            && Word(payload, 0) == |keyBlob| && payload[4..off] == keyBlob
            && Word(payload, off) == |d| && Slice(payload, off + 4, off + 4 + |d|) == d
  {
    var payload := GoSignPayload(keyBlob, d, flags);
    assert payload == [] + Str(keyBlob) + (Str(d) + [flags]);
    assert payload == Str(keyBlob) + Str(d) + [flags];
    hide Str, Word, GoSignPayload;
    ReadStr([], keyBlob, Str(d) + [flags]);
    ReadStr(Str(keyBlob), d, [flags]);
  }

  /** What the Go client makes of the device's response to a sign request, and to a listing. */
  function SignatureOfFrame(frame: Option<seq<byte>>): Option<seq<byte>> {
    SignatureIn(GoReads(SignAnswer(frame)))
  }

  function KeysOfFrame(frame: Option<seq<byte>>): Listing {
    KeysIn(GoReads(IdentitiesAnswer(frame)))
  }

  /** The bridge's reply to a sign request for a blob of the device's key. */
  lemma SignReply<S>(exchange: Exchange<S>, st: S, pk: seq<byte>, d: seq<byte>, flags: byte)
    requires |pk| == 32 && |d| + 61 < TWO_32
    ensures HandleClient(exchange, st, GoRequest(SIGN_REQUEST, GoSignPayload(Blob(pk), d, flags)))
            == if |d| > 65475 then (st, Closed)
               else var (t, frame) := exchange(st, SIGN_REQUEST, SignPayload(pk, d, 0)); (t, SignAnswer(frame))
  {
    var payload := GoSignPayload(Blob(pk), d, flags);
    assert |payload| == |d| + 60;
    ClientUnwraps(exchange, st, SIGN_REQUEST, payload);
    BridgeParses(exchange, st, Blob(pk), d, flags);
    ExtractBlob(pk);
    hide SignAnswer, Blob, HandleSign, HandleClient, GoRequest, GoSignPayload, ExtractRawKey;
    assert ([SIGN_REQUEST] + payload)[1..] == payload;
  }

  /** The way of a sign request down to the serial line and back. */
  lemma GoSignReaches<S>(exchange: Exchange<S>, st: S, pk: seq<byte>, d: seq<byte>, flags: byte)
    requires |pk| == 32 && |d| + 61 < TWO_32
    ensures GoSign(exchange, st, Blob(pk), d, flags)
            == if |d| > 65475 then (st, None)
               else var (t, frame) := exchange(st, SIGN_REQUEST, SignPayload(pk, d, 0)); (t, SignatureOfFrame(frame))
  {
    SignReply(exchange, st, pk, d, flags);
    hide SignatureIn, SignAnswer, Blob, HandleClient, GoRequest, GoSignPayload;
    assert SignatureIn(GoReads(Closed)) == None by {
      NoSignature();
    }
  }

  lemma NoSignature()
    ensures SignatureIn(None) == None
  {
  }

  lemma GoListReaches<S>(exchange: Exchange<S>, st: S)
    ensures GoList(exchange, st)
            == var (t, frame) := exchange(st, REQUEST_IDENTITIES, []); (t, KeysOfFrame(frame))
  {
    ClientUnwraps(exchange, st, REQUEST_IDENTITIES, []);
    hide HandleClient, GoRequest, IdentitiesAnswer, KeysIn;
  }

  lemma GoUnlockReaches<S>(exchange: Exchange<S>, st: S, password: seq<byte>)
    requires |password| <= 65515
    ensures GoUnlock(exchange, st, password)
            == var (t, frame) := exchange(st, UNLOCK, password); (t, GoReads(StatusAnswer(frame)).Some?)
  {
    var payload := Str(UNLOCK_NAME) + Str(password);
    ExtensionReads(exchange, st, password);
    hide HandleClient, GoRequest, StatusAnswer, Str, HandleExtension;
    ClientUnwraps(exchange, st, EXTENSION, payload);
    assert ([EXTENSION] + payload)[1..] == payload;
  }

  lemma ExtensionReads<S>(exchange: Exchange<S>, st: S, password: seq<byte>)
    requires |password| < TWO_32
    ensures HandleExtension(exchange, st, Str(UNLOCK_NAME) + Str(password))
            == var (t, frame) := exchange(st, UNLOCK, password); (t, StatusAnswer(frame))
  {
    var payload := Str(UNLOCK_NAME) + Str(password);
    assert payload == [] + Str(UNLOCK_NAME) + Str(password);
    ReadStr([], UNLOCK_NAME, Str(password));
    ReadStr([], password, []);
    assert [] + Str(password) + [] == Str(password);
    hide StatusAnswer, Str, Word;
    assert Slice(Str(password), 4, 4 + |password|) == password;
  }

  // ---------------------------------------------------------------- responses are read as they were meant

  /** The firmware's signature becomes the agent response with the signature blob, which Go reads back. */
  lemma SignatureComesBack(sig: seq<byte>)
    requires |sig| == 64
    ensures SignatureOfFrame(Some([SIGN_RESPONSE, 0, 0, 0, 64] + sig)) == Some(Blob(sig))
    ensures ParseSshSig(Blob(sig)) == Some(sig)
  {
    var frame := [SIGN_RESPONSE, 0, 0, 0, 64] + sig;
    assert Word(frame, 1) == 64;
    assert frame[5..69] == sig;
    GoReadsBlob(Blob(sig));
    ParseBlob(sig, 64);
    hide Str, Blob, Word, ParseTyped;
  }

  lemma GoReadsBlob(blob: seq<byte>)
    requires |blob| < TWO_32
    ensures SignatureIn(GoReads(Answer([SIGN_RESPONSE] + Str(blob)))) == Some(blob)
  {
    var resp := [SIGN_RESPONSE] + Str(blob);
    ReadStr([SIGN_RESPONSE], blob, []);
    assert resp == [SIGN_RESPONSE] + Str(blob) + [];
  }

  /** A failure of the device is a failure of the call. */
  lemma FailureComesBack()
    ensures SignatureOfFrame(Some([FAILURE])) == None && KeysOfFrame(Some([FAILURE])) == Failed
  {
  }

  /** Listing inverts the agent encoding for any keys. */
  lemma {:induction false} ParseEncodedKeys(prefix: seq<byte>, keys: seq<AgentKey>)
    requires forall k :: k in keys ==> |k.blob| < TWO_32 && |k.comment| < TWO_32
    ensures ParseKeys(prefix + EncodeKeys(keys), |keys|, |prefix|) == keys
    decreases |keys|
  {
    if keys != [] {
      var k, rest := keys[0], EncodeKeys(keys[1..]);
      assert k in keys && forall x :: x in keys[1..] ==> x in keys;
      var next := prefix + Str(k.blob) + Str(k.comment);
      NextKeyRead(prefix, k, rest);
      ParseEncodedKeys(next, keys[1..]);
      EncodeStep(prefix, keys);
      hide NextKey, EncodeKeys, Str;
      ParseStep(next + rest, keys, |prefix|, |next|);
    }
  }

  lemma EncodeStep(prefix: seq<byte>, keys: seq<AgentKey>)
    requires keys != []
    ensures prefix + EncodeKeys(keys) == prefix + Str(keys[0].blob) + Str(keys[0].comment) + EncodeKeys(keys[1..])
  {
    hide Str;
    Regroup(prefix, Str(keys[0].blob), Str(keys[0].comment), EncodeKeys(keys[1..]));
  }

  lemma Regroup(a: seq<byte>, b: seq<byte>, c: seq<byte>, d: seq<byte>)
    ensures a + (b + c + d) == a + b + c + d
  {
  }

  lemma Reassociate(a: seq<byte>, b: seq<byte>, c: seq<byte>)
    ensures a + b + c == a + (b + c)
  {
  }

  lemma ParseStep(resp: seq<byte>, keys: seq<AgentKey>, pos: nat, next: nat)
    requires keys != [] && NextKey(resp, pos) == Some((keys[0], next))
    requires ParseKeys(resp, |keys| - 1, next) == keys[1..]
    ensures ParseKeys(resp, |keys|, pos) == keys
  {
    hide NextKey;
  }

  lemma NextKeyRead(prefix: seq<byte>, k: AgentKey, rest: seq<byte>)
    requires |k.blob| < TWO_32 && |k.comment| < TWO_32
    ensures var next := prefix + Str(k.blob) + Str(k.comment);
            NextKey(next + rest, |prefix|) == Some((k, |next|))
  {
    hide Str, Word;
    var mid := prefix + Str(k.blob);
    Reassociate(mid, Str(k.comment), rest);
    ReadStr(prefix, k.blob, Str(k.comment) + rest);
    ReadStr(mid, k.comment, rest);
    assert k.comment == [] ==> k == AgentKey(k.blob, []);
  }

  /** The device's key comes back as the one blob that signing needs and that the manager can parse. */
  lemma KeyComesBack(pk: seq<byte>)
    requires |pk| == 32
    ensures KeysOfFrame(Some([IDENTITIES_ANSWER, 0, 0, 0, 1, 0, 0, 0, 32] + pk + [0, 0, 0, 0]))
            == Listed([AgentKey(Blob(pk), COMMENT)])
    ensures ParseSshPubkey(Blob(pk)) == Some(pk)
  {
    var frame := [IDENTITIES_ANSWER, 0, 0, 0, 1, 0, 0, 0, 32] + pk + [0, 0, 0, 0];
    assert frame[9..41] == pk;
    assert Word(frame, 1) == 1 && Word(frame, 5) == 32;
    var prefix := [IDENTITIES_ANSWER] + Be32(1);
    ListingOfOne(prefix, Blob(pk));
    ParseBlob(pk, 32);
    hide Str, Blob, Word, ParseTyped, ListingIn, Be32;
  }

  lemma ListingOfOne(prefix: seq<byte>, blob: seq<byte>)
    requires prefix == [IDENTITIES_ANSWER] + Be32(1) && |blob| < TWO_32
    ensures ListingIn(prefix + Str(blob) + Str(COMMENT)) == Listed([AgentKey(blob, COMMENT)])
  {
    var keys := [AgentKey(blob, COMMENT)];
    assert EncodeKeys(keys[1..]) == [];
    EncodeStep(prefix, keys);
    var resp := prefix + EncodeKeys(keys);
    ParseEncodedKeys(prefix, keys);
    WordOfBe32([IDENTITIES_ANSWER], 1, EncodeKeys(keys));
    assert resp == [IDENTITIES_ANSWER] + Be32(1) + EncodeKeys(keys);
    hide EncodeKeys, Str, ParseKeys, Word;
    assert prefix + Str(blob) + Str(COMMENT) + [] == prefix + Str(blob) + Str(COMMENT);
  }
}
