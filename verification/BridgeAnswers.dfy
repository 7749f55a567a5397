/**
 The bridge's answers to requests of every kind, what it makes of each response of the
 device, and what the parsers make of malformed bytes.
 */
module BridgeAnswers {
  import opened Bytes
  import opened BridgeSpec
  import opened Options
  import opened Words

  // ---------------------------------------------------------------- requests

  /**
   A sign request with a key blob, the announced length n of the message and any bytes
   after it.  The message is what there is of it, the flags are the next four bytes if
   they are there and 0 otherwise.  Without a key in the blob, or with flags that do not
   fit into a byte, an exception closes the connection; otherwise there is one exchange.
   */
  lemma SignAny<S>(exchange: Exchange<S>, st: S, blob: seq<byte>, n: nat, bytes: seq<byte>)
    requires |blob| < TWO_32 && n < TWO_32
    ensures var d := if n <= |bytes| then bytes[..n] else bytes;
            var flags := if n + 4 <= |bytes| then Word(bytes, n) else 0;
            HandleAgentRequest(exchange, st, [13] + Str(blob) + Be32(n) + bytes)
            == if ExtractRawKey(blob).None? || flags > 255 then (st, Closed) else
                 var (t, response) := exchange(st, 13, Str(ExtractRawKey(blob).value) + Str(d) + [flags]);
                 (t, SignAnswer(response))
  {
    hide Str, Word, Be32, SignAnswer, ExtractRawKey, Slice;
    var payload := Str(blob) + Be32(n) + bytes;
    SignParts(blob, n, bytes);
    assert ([13] + Str(blob) + Be32(n) + bytes)[1..] == payload;
  }

  lemma NamedPayload(name: seq<byte>, data: seq<byte>)
    requires |name| < TWO_32
    ensures var payload := Str(name) + data;
            && |payload| == 4 + |name| + |data| && Word(payload, 0) == |name|
            && payload[4..4 + |name|] == name && payload[4 + |name|..] == data
  {
    ReadStr([], name, data);
    assert [] + Str(name) + data == Str(name) + data;
  }

  lemma SignParts(blob: seq<byte>, n: nat, bytes: seq<byte>)
    requires |blob| < TWO_32 && n < TWO_32
    ensures var payload, off := Str(blob) + Be32(n) + bytes, 4 + |blob|;
            && |payload| == off + 4 + |bytes|
            && Word(payload, 0) == |blob| && payload[4..off] == blob && Word(payload, off) == n
            && Slice(payload, off + 4, off + 4 + n) == (if n <= |bytes| then bytes[..n] else bytes)
            && (n + 4 <= |bytes| ==> Word(payload, off + 4 + n) == Word(bytes, n))
  {
    hide Str, Be32, Word, Slice;
    NamedPayload(blob, Be32(n) + bytes);
    Reassociate(Str(blob), Be32(n), bytes);
    WordOfBe32(Str(blob), n, bytes);
    BehindHeader(Str(blob) + Be32(n), bytes, n);
  }

  lemma BehindHeader(header: seq<byte>, bytes: seq<byte>, n: nat)
    ensures Slice(header + bytes, |header|, |header| + n) == if n <= |bytes| then bytes[..n] else bytes
    ensures n + 4 <= |bytes| ==> Word(header + bytes, |header| + n) == Word(bytes, n)
  {
    var s := header + bytes;
    if n <= |bytes| {
      assert s[|header|..|header| + n] == bytes[..n];
    } else {
      assert s[|header|..|s|] == bytes;
    }
  }

  /** Four bytes of flags are handed on, if they fit into a byte. */
  lemma SignWithFlags<S>(exchange: Exchange<S>, st: S, key: seq<byte>, d: seq<byte>, flags: nat)
    requires |key| + 19 < TWO_32 && |d| < TWO_32 && flags < TWO_32
    ensures HandleAgentRequest(exchange, st, [13] + Str(Blob(key)) + Str(d) + Be32(flags))
            == if flags > 255 then (st, Closed) else
                 var (t, response) := exchange(st, 13, Str(key) + Str(d) + [flags]);
                 (t, SignAnswer(response))
  {
    hide HandleAgentRequest, Word, Be32, Blob, SignAnswer, ExtractRawKey;
    SignAny(exchange, st, Blob(key), |d|, d + Be32(flags));
    ExtractBlob(key);
    WordOfBe32(d, flags, []);
    assert d + Be32(flags) + [] == d + Be32(flags);
    assert (d + Be32(flags))[..|d|] == d;
    Regroup([13] + Str(Blob(key)), Be32(|d|), d, Be32(flags));
    assert [13] + Str(Blob(key)) + Be32(|d|) + (d + Be32(flags)) == [13] + Str(Blob(key)) + Str(d) + Be32(flags);
  }

  /** The unlock extension: one exchange of an unlock with what there is of the password. */
  lemma UnlockRequested<S>(exchange: Exchange<S>, st: S, n: nat, bytes: seq<byte>)
    requires n < TWO_32
    ensures HandleAgentRequest(exchange, st, [27] + Str(UNLOCK_NAME) + (Be32(n) + bytes))
            == var (t, response) := exchange(st, 3, if n <= |bytes| then bytes[..n] else bytes);
               (t, StatusAnswer(response))
  {
    hide Str, Word, StatusAnswer, Be32, Slice;
    var data := Be32(n) + bytes;
    NamedPayload(UNLOCK_NAME, data);
    WordOfBe32([], n, bytes);
    assert [] + Be32(n) + bytes == data;
    BehindHeader(Be32(n), bytes, n);
    assert ([27] + Str(UNLOCK_NAME) + data)[1..] == Str(UNLOCK_NAME) + data;
  }

  /** An extension that is cut off in its name, or an unlock without a length, is refused without the device. */
  lemma CutOffExtension<S>(exchange: Exchange<S>, st: S, payload: seq<byte>, data: seq<byte>)
    requires |payload| < 4 || |payload| < 4 + Word(payload, 0)
    requires |data| < 4
    ensures HandleAgentRequest(exchange, st, [27] + payload) == (st, Answer([5]))
    ensures HandleAgentRequest(exchange, st, [27] + Str(UNLOCK_NAME) + data) == (st, Answer([5]))
  {
    hide Str, Word;
    assert ([27] + payload)[1..] == payload;
    NamedPayload(UNLOCK_NAME, data);
    assert ([27] + Str(UNLOCK_NAME) + data)[1..] == Str(UNLOCK_NAME) + data;
  }

  /** The lock extension: one exchange of a lock without data. */
  lemma LockRequested<S>(exchange: Exchange<S>, st: S, more: seq<byte>)
    ensures HandleAgentRequest(exchange, st, [27] + Str(LOCK_NAME) + more)
            == var (t, response) := exchange(st, 4, []); (t, StatusAnswer(response))
  {
    hide Str, Word, StatusAnswer, HandleExtension;
    ExtensionNamed(exchange, st, LOCK_NAME, more);
    assert LOCK_NAME[6] != UNLOCK_NAME[6];
  }

  /** An extension request is decided by its name. */
  lemma ExtensionNamed<S>(exchange: Exchange<S>, st: S, name: seq<byte>, more: seq<byte>)
    requires |name| < TWO_32 && name != UNLOCK_NAME
    ensures HandleAgentRequest(exchange, st, [27] + Str(name) + more)
            == if name == LOCK_NAME then (var (t, response) := exchange(st, 4, []); (t, StatusAnswer(response)))
               else (st, Answer([5]))
  {
    hide Str, Word, StatusAnswer;
    NamedPayload(name, more);
    assert ([27] + Str(name) + more)[1..] == Str(name) + more;
  }

  /** The names of the two extensions. */
  lemma ExtensionNames()
    ensures UNLOCK_NAME == Ascii("esp32-unlock") && LOCK_NAME == Ascii("esp32-lock")
    ensures KEY_TYPE == Ascii("ssh-ed25519") && COMMENT == Ascii("ESP32-SSH-Agent")
  {
  }

  /** Any other extension is refused, and the device does not hear of it. */
  lemma OtherExtension<S>(exchange: Exchange<S>, st: S, name: seq<byte>, more: seq<byte>)
    requires |name| < TWO_32 && name != UNLOCK_NAME && name != LOCK_NAME
    ensures HandleAgentRequest(exchange, st, [27] + Str(name) + more) == (st, Answer([5]))
  {
    hide Str, Word, HandleAgentRequest;
    ExtensionNamed(exchange, st, name, more);
  }

  /**
   Requests that are answered without the device: adding and removing keys is
   acknowledged, anything unknown and the empty request are refused.
   */
  lemma WithoutDevice<S>(exchange: Exchange<S>, st: S, data: seq<byte>)
    requires data == [] || data[0] !in {11, 13, 27}
    ensures HandleAgentRequest(exchange, st, data)
            == (st, Answer([if data != [] && data[0] in {17, 18, 19} then 6 else 5]))
  {
  }

  /** A sign request that is cut off in its lengths or its key is refused without the device. */
  lemma CutOffSign<S>(exchange: Exchange<S>, st: S, payload: seq<byte>)
    requires |payload| < 8 || |payload| < 8 + Word(payload, 0)
    ensures HandleAgentRequest(exchange, st, [13] + payload) == (st, Answer([5]))
  {
    assert ([13] + payload)[1..] == payload;
  }

  /** A request of length 0 is refused, and the connection stays open. */
  lemma EmptyRequest<S>(exchange: Exchange<S>, st: S)
    ensures HandleClient(exchange, st, Be32(0)) == (st, Answer([5]))
  {
    assert Be32(0) == [0, 0, 0, 0];
  }

  /** A request that is cut off closes the connection. */
  lemma CutOffRequest<S>(exchange: Exchange<S>, st: S, request: seq<byte>)
    requires |request| < 4 || |request| < 4 + Word(request, 0)
    ensures HandleClient(exchange, st, request) == (st, Closed)
  {
  }

  // ---------------------------------------------------------------- responses of the device

  /** A locked device's refusal is passed on; any other response that is not a signature is a failure. */
  lemma RefusedSign(frame: seq<byte>)
    requires frame != [] && (frame[0] != 14 || |frame| < 5)
    ensures SignAnswer(Some(frame)) == Answer([if frame[0] == 0x20 then 0x20 else 5])
    ensures SignAnswer(None) == Answer([5])
  {
  }

  /** A signature of any length is wrapped into a blob. */
  lemma WrappedSign(sig: seq<byte>)
    requires |sig| + 19 < TWO_32
    ensures SignAnswer(Some([14] + Str(sig))) == Answer([14] + Str(Str(KEY_TYPE) + Str(sig)))
  {
    var frame := [14] + Str(sig);
    ReadStr([14], sig, []);
    assert frame == [14] + Str(sig) + [];
    hide Str, Word;
    assert Slice(frame, 5, 5 + |sig|) == sig;
  }

  /** No keys stay no keys; a key of any length is wrapped into a blob with the bridge's comment. */
  lemma WrappedKeys(key: seq<byte>, more: seq<byte>, n: nat)
    requires |key| + 19 < TWO_32 && n < TWO_32
    ensures IdentitiesAnswer(Some([12] + Be32(n) + Str(key) + more))
            == if n == 0 then Answer([12] + Be32(0))
               else Answer([12] + Be32(1) + Str(Str(KEY_TYPE) + Str(key)) + Str(COMMENT))
  {
    var frame := [12] + Be32(n) + Str(key) + more;
    WordOfBe32([12], n, Str(key) + more);
    assert frame == [12] + Be32(n) + (Str(key) + more);
    ReadStr([12] + Be32(n), key, more);
    hide Str, Word, Be32;
    assert Slice(frame, 9, 9 + |key|) == key;
  }

  lemma RefusedKeys(frame: seq<byte>)
    requires frame != [] && (frame[0] != 12 || |frame| < 9)
    ensures IdentitiesAnswer(Some(frame)) == Answer([5]) && IdentitiesAnswer(None) == Answer([5])
  {
  }

  /** Unlocking and locking succeed exactly when the device says so. */
  lemma StatusPassedOn(frame: seq<byte>)
    requires frame != []
    ensures StatusAnswer(Some(frame)) == Answer([if frame[0] == 6 then 6 else 5])
    ensures StatusAnswer(None) == Answer([5])
  {
  }

  /** The Go client takes a closed connection, a failure and a locked device as errors, and anything else as it is. */
  lemma GoErrors(resp: seq<byte>)
    ensures GoReads(Closed) == None
    ensures GoReads(Answer(resp)) == if resp == [] || resp[0] == 5 || resp[0] == 0x20 then None else Some(resp)
  {
  }

  /** Sign returns the bytes of the length that the response names, or fails if there are fewer. */
  lemma SignatureLength(kind: byte, n: nat, bytes: seq<byte>)
    requires n < TWO_32
    ensures SignatureIn(Some([kind] + Be32(n) + bytes)) == if n <= |bytes| then Some(bytes[..n]) else None
  {
    var resp := [kind] + Be32(n) + bytes;
    WordOfBe32([kind], n, bytes);
    hide Word, Be32;
    if n <= |bytes| {
      assert resp[5..5 + n] == bytes[..n];
    }
  }

  // ---------------------------------------------------------------- parsers

  /** _extract_raw_key skips a type of any name, and takes what there is of a key that is cut off. */
  lemma ExtractAny(name: seq<byte>, n: nat, bytes: seq<byte>)
    requires |name| < TWO_32 && n < TWO_32
    ensures ExtractRawKey(Str(name) + Be32(n) + bytes) == Some(if n <= |bytes| then bytes[..n] else bytes)
  {
    var blob := Str(name) + Be32(n) + bytes;
    assert blob == [] + Str(name) + (Be32(n) + bytes);
    ReadStr([], name, Be32(n) + bytes);
    WordOfBe32(Str(name), n, bytes);
    hide Str, Word, Be32;
    var from := 8 + |name|;
    assert |blob| == from + |bytes|;
    if n <= |bytes| {
      assert blob[from..from + n] == bytes[..n];
    } else {
      assert blob[from..|blob|] == bytes;
      assert Slice(blob, from, from + n) == bytes;
      assert Word(blob, 4 + |name|) == n;
    }
  }

  /** A blob without both lengths raises. */
  lemma ExtractShort(blob: seq<byte>)
    requires |blob| < 4 || |blob| < 8 + Word(blob, 0)
    ensures ExtractRawKey(blob) == None
  {
  }

  /** The manager's parser skips a type of any name and reads exactly size bytes of that announced length. */
  lemma ParseAny(name: seq<byte>, n: nat, bytes: seq<byte>, size: nat)
    requires |name| + 4 < TWO_32 && n < TWO_32
    ensures ParseTyped(Str(name) + Be32(n) + bytes, size)
            == if n == size && size <= |bytes| then Some(bytes[..size]) else None
  {
    var blob := Str(name) + Be32(n) + bytes;
    assert blob == [] + Str(name) + (Be32(n) + bytes);
    ReadStr([], name, Be32(n) + bytes);
    WordOfBe32(Str(name), n, bytes);
    hide Str, Word, Be32;
    var from := 8 + |name|;
    assert |blob| == from + |bytes|;
    assert (4 + |name|) % TWO_32 == 4 + |name|;
    if size <= |bytes| {
      assert blob[from..from + size] == bytes[..size];
    }
  }

  /** A type length that overflows 32 bits leads the parser back into the length itself, and it refuses. */
  lemma OverflowRefused(blob: seq<byte>, size: nat)
    requires |blob| >= 4 && Word(blob, 0) >= TWO_32 - 4 && size < 0xff00_0000
    ensures ParseTyped(blob, size) == None
  {
    var off := Word(blob, 0) + 4 - TWO_32;
    assert blob[0] == 255 && blob[1] == 255 && blob[2] == 255 && blob[3] == 252 + off;
    assert (4 + Word(blob, 0)) % TWO_32 == off;
    if off + 4 <= |blob| {
      FirstByteLarge(blob, off);
    }
  }

  lemma FirstByteLarge(blob: seq<byte>, off: nat)
    requires off + 4 <= |blob| && blob[off] == 255
    ensures Word(blob, off) >= 0xff00_0000
  {
  }

  /** List takes a key whose comment is cut off as one without a comment, and goes on behind the length. */
  lemma CutOffComment(prefix: seq<byte>, blob: seq<byte>, n: nat, rest: seq<byte>)
    requires |blob| < TWO_32 && n < TWO_32 && (n == 0 || |rest| < n)
    ensures var at := prefix + Str(blob) + Be32(n);
            NextKey(at + rest, |prefix|) == Some((AgentKey(blob, []), |at|))
  {
    var resp := prefix + Str(blob) + Be32(n) + rest;
    assert resp == prefix + Str(blob) + (Be32(n) + rest);
    ReadStr(prefix, blob, Be32(n) + rest);
    WordOfBe32(prefix + Str(blob), n, rest);
    hide Str, Word, Be32;
  }

  /** A response that ends inside a key ends the list. */
  lemma CutOffKey(resp: seq<byte>, pos: nat)
    requires pos + 4 > |resp| || pos + 8 + Word(resp, pos) > |resp|
    ensures NextKey(resp, pos) == None
  {
  }

  /** List fails on a single byte, panics on two to four, and otherwise reads the announced number of keys. */
  lemma ListLengths(resp: seq<byte>)
    ensures |resp| < 2 ==> ListingIn(resp) == Failed
    ensures 2 <= |resp| < 5 ==> ListingIn(resp) == Panicked
    ensures |resp| >= 5 ==> ListingIn(resp) == Listed(ParseKeys(resp, Word(resp, 1), 5))
  {
  }
}
