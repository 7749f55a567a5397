/** The loops that read the wire: the bridge, the firmware, the Go client and the manager. */
module Wire {
  import opened Bytes
  import opened WireSpec
  import opened BridgeSpec
  import opened Options
  import opened Words

  /** The bytes that have arrived on a serial line; a read on an empty line times out. */
  class SerialLine {
    var pending: seq<byte>

    constructor (bytes: seq<byte>)
      ensures pending == bytes
    {
      pending := bytes;
    }

    /** Up to n bytes, fewer if the line runs dry. */
    method Read(n: nat) returns (b: seq<byte>)
      modifies this
      ensures b + pending == old(pending)
      ensures |b| == if n <= old(|pending|) then n else old(|pending|)
    {
      var k := if n <= |pending| then n else |pending|;
      b := pending[..k];
      pending := pending[k..];
    }

    /** The bridge's recv_from_esp32: skip text up to a NUL, read a length, read the response. */
    method RecvFromEsp32() returns (frame: Option<seq<byte>>)
      modifies this
      ensures Received(frame, pending) == Recv(old(pending))
    {
      ghost var line := pending;
      var header: seq<byte> := [];
      while |header| < 4 && pending != []
        invariant |header| <= 4
        invariant header == [] ==> SkipText(pending) == SkipText(line)
        invariant header != [] ==> header + pending == SkipText(line)
        decreases |pending|
      {
        ghost var before := pending;
        var b := Read(1);
        assert before == b + pending && b == [before[0]] && before[1..] == pending;
        if |header| == 0 {
          if b[0] == 0 {
            header := b;
          }
        } else {
          assert header + before == (header + b) + pending;
          header := header + b;
        }
      }
      if |header| < 4 {
        return None;
      }
      var length := Word(header, 0);
      ghost var l := SkipText(line);
      assert l == header + pending && Word(l, 0) == length && l[4..] == pending;
      if length < 1 || length > 4096 {
        return None;
      }
      ghost var body := pending;
      var data := Read(length);
      if |data| < length {
        assert pending == [];
        return None;
      }
      assert l[4..4 + length] == data && l[4 + length..] == pending;
      frame := Some(data);
    }

    /** The firmware's readPacket into a fixed buffer. */
    method ReadPacketInto(data: array<byte>) returns (ok: bool, kind: byte, len: nat)
      requires data.Length == 4096 && data as object != this
      modifies this, data
      ensures match ReadPacket(old(pending))
              case Incomplete => !ok && pending == []
              case TooLong(rest) => !ok && pending == rest
              case Got(k, d, rest) => ok && kind == k && len == |d| <= 4096 && data[..len] == d && pending == rest
    {
      ghost var line := pending;
      var header := new byte[4];
      var got := FillFromLine(header, 4);
      ok, kind, len := false, 0, 0;
      if !got {
        return;
      }
      assert header[..] == header[..4] == line[..4] && pending == line[4..];
      var high: int, mid: int, low: int := header[1], header[2], header[3];
      len := (high * 256 + mid) * 256 + low;
      kind := header[0];
      if len > 4096 {
        return;
      }
      ghost var body := pending;
      ok := FillFromLine(data, len);
      assert ok ==> body[..len] == line[4..4 + len] && body[len..] == line[4 + len..];
    }

    /** Byte by byte until n bytes have arrived or the line has timed out. */
    method FillFromLine(buffer: array<byte>, n: nat) returns (ok: bool)
      requires n <= buffer.Length && buffer as object != this
      modifies this, buffer
      ensures ok <==> n <= old(|pending|)
      ensures ok ==> buffer[..n] == old(pending)[..n] && pending == old(pending)[n..]
      ensures !ok ==> pending == []
    {
      ghost var line := pending;
      var pos := 0;
      while pos < n
        invariant 0 <= pos <= n && pos <= |line|
        invariant buffer[..pos] == line[..pos] && pending == line[pos..]
      {
        var b := Read(1);
        if b == [] {
          return false;
        }
        assert b + pending == line[pos..] && b[0] == line[pos] && pending == line[pos + 1..];
        buffer[pos] := b[0];
        pos := pos + 1;
      }
      ok := true;
    }
  }

  /** One round of the Go client's cursor loop; None is its break. */
  method ReadKey(resp: seq<byte>, pos: nat) returns (key: Option<(AgentKey, nat)>)
    ensures key == NextKey(resp, pos)
  {
    if pos + 4 > |resp| {
      return None;
    }
    var keyLen := Word(resp, pos);
    var at := pos + 4;
    if at + keyLen > |resp| {
      return None;
    }
    var keyBlob := resp[at..at + keyLen];
    at := at + keyLen;
    if at + 4 > |resp| {
      return None;
    }
    var commentLen := Word(resp, at);
    at := at + 4;
    var comment: seq<byte> := [];
    if commentLen > 0 && at + commentLen <= |resp| {
      comment := resp[at..at + commentLen];
      at := at + commentLen;
    }
    key := Some((AgentKey(keyBlob, comment), at));
  }

  /** The Go client's List on a response: its check, the slice that panics, and the cursor loop. */
  method ListKeys(resp: seq<byte>) returns (listing: Listing)
    ensures listing == ListingIn(resp)
  {
    if |resp| < 2 {
      return Failed;
    }
    if |resp| < 5 {
      return Panicked;
    }
    var numKeys := Word(resp, 1);
    var keys: seq<AgentKey> := [];
    var pos: nat, i: nat := 5, 0;
    while i < numKeys && pos < |resp|
      invariant i <= numKeys
      invariant keys + ParseKeys(resp, numKeys - i, pos) == ParseKeys(resp, numKeys, 5)
    {
      var key := ReadKey(resp, pos);
      if key.None? {
        break;
      }
      ParseMore(keys, resp, numKeys - i, pos);
      keys := keys + [key.value.0];
      pos := key.value.1;
      i := i + 1;
    }
    assert ParseKeys(resp, numKeys - i, pos) == [];
    listing := Listed(keys);
  }

  lemma ParseMore(keys: seq<AgentKey>, resp: seq<byte>, n: nat, pos: nat)
    requires n > 0 && NextKey(resp, pos).Some?
    ensures var next := NextKey(resp, pos).value;
            keys + ParseKeys(resp, n, pos) == keys + [next.0] + ParseKeys(resp, n - 1, next.1)
  {
    hide NextKey;
  }

  /** The manager's parse_ssh_ed25519_sig: 0 and the raw signature, or -1. */
  method ParseSigInto(sig: array<byte>, raw: array<byte>) returns (rc: int)
    requires raw.Length == 64 && raw != sig
    modifies raw
    ensures rc == 0 <==> ParseSshSig(sig[..]).Some?
    ensures rc == 0 ==> Some(raw[..]) == ParseSshSig(sig[..])
    ensures rc != 0 ==> rc == -1 && raw[..] == old(raw[..])
  {
    var off := 0;
    if off + 4 > sig.Length {
      return -1;
    }
    var typeLen := Word(sig[..], off);
    off := off + (4 + typeLen) % TWO_32;
    if off + 4 > sig.Length {
      return -1;
    }
    var rawLen := Word(sig[..], off);
    off := off + 4;
    if rawLen != 64 || off + 64 > sig.Length {
      return -1;
    }
    var i := 0;
    while i < 64
      invariant 0 <= i <= 64
      invariant sig[..] == old(sig[..])
      invariant raw[..i] == sig[off..off + i]
    {
      raw[i] := sig[off + i];
      i := i + 1;
    }
    assert raw[..] == raw[..64] == sig[..][off..off + 64];
    rc := 0;
  }

  /** _extract_raw_key, which advances an offset over the blob. */
  method ExtractRawKeyAt(blob: seq<byte>) returns (key: Option<seq<byte>>)
    ensures key == ExtractRawKey(blob)
  {
    var offset := 0;
    if offset + 4 > |blob| {
      return None;
    }
    var typeLen := Word(blob, offset);
    offset := offset + 4 + typeLen;
    if offset + 4 > |blob| {
      return None;
    }
    var keyLen := Word(blob, offset);
    offset := offset + 4;
    key := Some(Slice(blob, offset, offset + keyLen));
  }
}
