/**
 The serial line between the bridge and the firmware: packets down, responses up,
 and the debug text that shares the line with the responses.
 */
module WireSpec {
  import opened Arith
  import opened Bytes
  import opened FirmwareSpec
  import opened Options
  import opened Words

  // ---------------------------------------------------------------- firmware to host

  /** What Serial.write and Serial.println put on the line for an output. */
  function OutputBytes(o: Output): seq<byte> {
    match o
    case Text(t) => t + [13, 10]
    case Frame(b) => Be32(|b|) + b
  }

  function LineBytes(outs: seq<Output>): seq<byte> {
    if outs == [] then [] else OutputBytes(outs[0]) + LineBytes(outs[1..])
  }

  /** Text has no NUL, frames have 1 to 4096 bytes. */
  ghost predicate Readable(o: Output) {
    match o
    case Text(t) => 0 !in t
    case Frame(b) => 1 <= |b| <= 4096
  }

  function FramesOf(outs: seq<Output>): seq<seq<byte>> {
    if outs == [] then []
    else if outs[0].Frame? then [outs[0].bytes] + FramesOf(outs[1..])
    else FramesOf(outs[1..])
  }

  /** The text before the first NUL is skipped. */
  function SkipText(line: seq<byte>): (rest: seq<byte>)
    ensures |rest| <= |line|
    ensures rest != [] ==> rest[0] == 0
  {
    if line == [] || line[0] == 0 then line else SkipText(line[1..])
  }

  /** A response as the bridge sees it, or none (timeout or a bad length), and the unread rest. */
  datatype Received = Received(frame: Option<seq<byte>>, rest: seq<byte>)

  function Recv(line: seq<byte>): Received {
    var l := SkipText(line);
    if |l| < 4 then Received(None, [])
    else if Word(l, 0) < 1 || Word(l, 0) > 4096 then Received(None, l[4..])
    else if |l| < 4 + Word(l, 0) then Received(None, [])
    else Received(Some(l[4..4 + Word(l, 0)]), l[4 + Word(l, 0)..])
  }

  lemma {:induction false} SkipNoise(noise: seq<byte>, line: seq<byte>)
    requires 0 !in noise
    ensures SkipText(noise + line) == SkipText(line)
  {
    if noise != [] {
      assert noise[0] in noise;
      assert (noise + line)[1..] == noise[1..] + line;
      assert forall b :: b in noise[1..] ==> b in noise;
      SkipNoise(noise[1..], line);
    } else {
      assert noise + line == line;
    }
  }

  lemma RecvAtFrame(b: seq<byte>, rest: seq<byte>)
    requires 1 <= |b| <= 4096
    ensures Recv(Str(b) + rest) == Received(Some(b), rest)
  {
    var l := Str(b) + rest;
    assert Be32(|b|)[0] == 0;
    assert l[0] == 0;
    ReadStr([], b, rest);
    assert [] + Str(b) + rest == l;
    hide Str, Word;
  }

  lemma RecvSkips(noise: seq<byte>, line: seq<byte>)
    requires 0 !in noise
    ensures Recv(noise + line) == Recv(line)
  {
    SkipNoise(noise, line);
    hide SkipText;
  }

  /** One frame, with any NUL-free noise before it, is received exactly. */
  lemma RecvFrame(noise: seq<byte>, b: seq<byte>, rest: seq<byte>)
    requires 0 !in noise && 1 <= |b| <= 4096
    ensures Recv(noise + (Str(b) + rest)) == Received(Some(b), rest)
  {
    hide Recv, Str;
    RecvSkips(noise, Str(b) + rest);
    RecvAtFrame(b, rest);
  }

  /** The line is NUL-free text, then a response b with its length in front, then rest. */
  ghost predicate Carries(line: seq<byte>, noise: seq<byte>, b: seq<byte>, rest: seq<byte>) {
    0 !in noise && 1 <= |b| <= 4096 && line == noise + (Be32(|b|) + b + rest)
  }

  lemma {:induction false} SkippedText(line: seq<byte>) returns (noise: seq<byte>)
    ensures 0 !in noise && line == noise + SkipText(line)
  {
    if line == [] || line[0] == 0 {
      noise := [];
    } else {
      var n := SkippedText(line[1..]);
      noise := [line[0]] + n;
    }
  }

  /** A response is received exactly when the line carries it, and what is left is what follows it. */
  lemma RecvIff(line: seq<byte>, b: seq<byte>, rest: seq<byte>)
    ensures Recv(line) == Received(Some(b), rest) <==> exists noise :: Carries(line, noise, b, rest)
  {
    hide Recv, Carries;
    if noise :| Carries(line, noise, b, rest) {
      CarriedIsReceived(line, noise, b, rest);
    }
    if Recv(line) == Received(Some(b), rest) {
      var noise := ReceivedIsCarried(line, b, rest);
    }
  }

  lemma CarriedIsReceived(line: seq<byte>, noise: seq<byte>, b: seq<byte>, rest: seq<byte>)
    requires Carries(line, noise, b, rest)
    ensures Recv(line) == Received(Some(b), rest)
  {
    assert Be32(|b|) + b + rest == Str(b) + rest;
    hide Recv, Str, Be32;
    RecvFrame(noise, b, rest);
  }

  lemma ReceivedIsCarried(line: seq<byte>, b: seq<byte>, rest: seq<byte>) returns (noise: seq<byte>)
    requires Recv(line) == Received(Some(b), rest)
    ensures Carries(line, noise, b, rest)
  {
    noise := SkippedText(line);
    hide SkipText, Be32, Word;
    var l := SkipText(line);
    LengthInFront(l);
    assert l == l[..4] + b + rest;
  }

  lemma LengthInFront(l: seq<byte>)
    requires |l| >= 4
    ensures Be32(Word(l, 0)) == l[..4]
  {
    WordBytes(l[0], l[1], l[2], l[3]);
  }

  lemma WordBytes(a: byte, b: byte, c: byte, d: byte)
    ensures var n := ((a as int * 256 + b) * 256 + c) * 256 + d; Be32(n) == [a, b, c, d]
  {
    FourParts(a, b, c, d);
  }

  lemma FourParts(a: int, b: int, c: int, d: int)
    requires 0 <= a < 256 && 0 <= b < 256 && 0 <= c < 256 && 0 <= d < 256
    ensures var n := ((a * 256 + b) * 256 + c) * 256 + d;
            n / 0x100_0000 % 256 == a && n / 0x1_0000 % 256 == b && n / 0x100 % 256 == c && n % 256 == d
  {
    var x, y := a * 256 + b, (a * 256 + b) * 256 + c;
    var n := y * 256 + d;
    DivModUnique(n, 0x100, y, d);
    DivModUnique(n, 0x1_0000, x, c * 256 + d);
    DivModUnique(n, 0x100_0000, a, (b * 256 + c) * 256 + d);
    DivModUnique(y, 256, x, c);
    DivModUnique(x, 256, a, b);
  }

  /** Without a response the line is read up to the end, or up to and with a length that is 0 or above 4096. */
  lemma RecvNothing(line: seq<byte>)
    requires Recv(line).frame == None
    ensures Recv(line).rest == []
            || exists noise, header :: 0 !in noise && |header| == 4 && header[0] == 0
                 && !(1 <= Word(header, 0) <= 4096) && line == noise + (header + Recv(line).rest)
  {
    var l := SkipText(line);
    var noise := SkippedText(line);
    if |l| >= 4 {
      assert l == l[..4] + l[4..] && Word(l[..4], 0) == Word(l, 0);
    }
  }

  /** The frames that n receptions in a row yield. */
  function RecvMany(line: seq<byte>, n: nat): seq<Option<seq<byte>>>
    decreases n
  {
    if n == 0 then [] else [Recv(line).frame] + RecvMany(Recv(line).rest, n - 1)
  }

  lemma TextIsNoise(t: seq<byte>)
    requires Readable(Text(t))
    ensures 0 !in OutputBytes(Text(t))
  {
  }

  function Somes(frames: seq<seq<byte>>): seq<Option<seq<byte>>> {
    seq(|frames|, i requires 0 <= i < |frames| => Some(frames[i]))
  }

  /** Receiving from text and frames with noise in front: exactly the frames, in order. */
  lemma {:induction false} RecvAfterNoise(noise: seq<byte>, outs: seq<Output>)
    requires 0 !in noise && forall o :: o in outs ==> Readable(o)
    ensures var frames := FramesOf(outs);
            RecvMany(noise + LineBytes(outs), |frames|) == Somes(frames)
    decreases |outs|
  {
    if outs != [] {
      var o, rest := outs[0], outs[1..];
      assert o in outs && forall x :: x in rest ==> x in outs;
      match o {
        case Text(t) =>
          TextIsNoise(t);
          RecvAfterNoise(noise + OutputBytes(o), rest);
          LineOfCons(noise, outs);
        case Frame(b) =>
          RecvAfterNoise([], rest);
          hide Recv, LineBytes, Str, RecvMany;
          FrameFirst(noise, b, outs);
      }
    }
  }

  lemma LineOfCons(noise: seq<byte>, outs: seq<Output>)
    requires outs != []
    ensures noise + LineBytes(outs) == noise + OutputBytes(outs[0]) + LineBytes(outs[1..])
    ensures [] + LineBytes(outs[1..]) == LineBytes(outs[1..])
  {
    hide OutputBytes;
  }

  lemma {:induction false} FrameFirst(noise: seq<byte>, b: seq<byte>, outs: seq<Output>)
    requires 0 !in noise && outs != [] && outs[0] == Frame(b) && 1 <= |b| <= 4096
    requires RecvMany([] + LineBytes(outs[1..]), |FramesOf(outs[1..])|) == Somes(FramesOf(outs[1..]))
    ensures RecvMany(noise + LineBytes(outs), |FramesOf(outs)|) == Somes(FramesOf(outs))
  {
    var tail := LineBytes(outs[1..]);
    assert LineBytes(outs) == Str(b) + tail;
    hide LineBytes, Recv, Str;
    RecvFrame(noise, b, tail);
    assert [] + tail == tail;
    ConsFrame(noise + LineBytes(outs), b, FramesOf(outs[1..]));
  }

  lemma ConsFrame(line: seq<byte>, b: seq<byte>, frames: seq<seq<byte>>)
    requires Recv(line).frame == Some(b)
    requires RecvMany(Recv(line).rest, |frames|) == Somes(frames)
    ensures RecvMany(line, |frames| + 1) == Somes([b] + frames)
  {
    hide Recv;
    assert Somes([b] + frames) == [Some(b)] + Somes(frames);
  }

  /** For any mix of NUL-free text and responses, the bridge receives exactly the responses in order. */
  lemma FramingRoundTrip(outs: seq<Output>)
    requires forall o :: o in outs ==> Readable(o)
    ensures var frames := FramesOf(outs);
            RecvMany(LineBytes(outs), |frames|) == Somes(frames)
  {
    RecvAfterNoise([], outs);
    assert [] + LineBytes(outs) == LineBytes(outs);
  }

  /** The lengths that the key functions of the firmware have. */
  ghost predicate WellSized(c: Crypto, s: State) {
    (forall m, k, p :: |c.sign(m, k, p)| == 64) && |s.publicKey| == 32
  }

  lemma GenerateTextReadable(p: Packet)
    ensures Readable(Text(GenerateText(p)))
  {
    NoNul("PBKDF2 key derivation failed");
    NoNul("Encryption failed");
    NoNul("Ed25519 key generated and stored (encrypted)");
  }

  lemma NoNul(t: string)
    requires forall i :: 0 <= i < |t| ==> '\0' < t[i] && t[i] as int < 128
    ensures 0 !in Ascii(t)
  {
  }

  lemma FramesOfReply(t: seq<byte>, b: seq<byte>)
    ensures FramesOf([Frame(b)]) == [b] && FramesOf([Text(t), Frame(b)]) == [b]
  {
    assert [Frame(b)][1..] == [] && [Text(t), Frame(b)][1..] == [Frame(b)];
  }

  /** One response, possibly after one line of NUL-free text. */
  ghost predicate OneResponse(out: seq<Output>) {
    || (|out| == 1 && out[0].Frame? && 1 <= |out[0].bytes| <= 69)
    || (|out| == 2 && out[0].Text? && 0 !in out[0].text && out[1].Frame? && |out[1].bytes| == 1)
  }

  lemma KeyHandlersRespond(c: Crypto, s: State, p: Packet)
    ensures OneResponse(HandleGenerate(c, s, p).1)
    ensures OneResponse(HandleUnlock(c, s, p).1)
    ensures OneResponse(HandleLock(s).1)
  {
    hide Readable, GenerateText, Ascii, Pad, Unpad, ValidPadding;
    GenerateTextReadable(p);
    NoNul("Unlock failed: wrong password");
    NoNul("Agent unlocked");
    NoNul("Agent locked");
  }

  lemma OtherHandlersRespond(c: Crypto, s: State, p: Packet)
    requires WellSized(c, s)
    ensures OneResponse(HandleSignChallenge(c, s, p)) && OneResponse(HandleSignRequest(c, s, p))
    ensures OneResponse(HandleIdentities(s)) && OneResponse(HandleGetPublicKey(s))
  {
  }

  /** Every packet is answered with exactly one response that the bridge can receive. */
  lemma SentIsReadable(c: Crypto, s: State, p: Packet)
    requires WellSized(c, s)
    ensures var out := Sent(c, s, Receive(p));
            (forall o :: o in out ==> Readable(o)) && |FramesOf(out)| == 1
  {
    KeyHandlersRespond(c, s, p);
    OtherHandlersRespond(c, s, p);
    hide HandleGenerate, HandleUnlock, HandleLock, HandleSignChallenge, HandleSignRequest;
    hide HandleIdentities, HandleGetPublicKey;
    var out := Sent(c, s, Receive(p));
    assert OneResponse(out);
    if |out| == 1 {
      assert out == [Frame(out[0].bytes)];
      FramesOfReply([], out[0].bytes);
    } else {
      assert out == [Text(out[0].text), Frame(out[1].bytes)];
      FramesOfReply(out[0].text, out[1].bytes);
    }
  }

  // ---------------------------------------------------------------- host to firmware

  /** send_to_esp32: one byte of type, three of length, the payload. */
  function SendBytes(kind: byte, data: seq<byte>): seq<byte> {
    [kind, |data| / 0x1_0000 % 256, |data| / 0x100 % 256, |data| % 256] + data
  }

  datatype PacketRead = Incomplete | TooLong(rest: seq<byte>) | Got(kind: byte, data: seq<byte>, rest: seq<byte>)

  /** readPacket on the bytes that arrive; Incomplete stands for its timeout. */
  function ReadPacket(line: seq<byte>): PacketRead {
    if |line| < 4 then Incomplete else
      var high: int, mid: int, low: int := line[1], line[2], line[3];
      var n := (high * 256 + mid) * 256 + low;
      if n > 4096 then TooLong(line[4..])
      else if |line| < 4 + n then Incomplete
      else Got(line[0], line[4..4 + n], line[4 + n..])
  }

  lemma ThreeBytes(n: int)
    ensures (n / 0x1_0000 % 256 * 256 + n / 0x100 % 256) * 256 + n % 256 == n % 0x100_0000
  {
    var a := n / 0x100;
    var b := a / 0x100;
    var c, low := b / 0x100, a % 0x100 * 0x100 + n % 0x100;
    DivModUnique(n, 0x1_0000, b, low);
    DivModUnique(n, 0x100_0000, c, b % 0x100 * 0x1_0000 + low);
  }

  /** A packet survives sending and reading exactly when its payload has at most 4096 bytes. */
  lemma PacketRoundTrip(kind: byte, data: seq<byte>, rest: seq<byte>)
    ensures ReadPacket(SendBytes(kind, data) + rest) == Got(kind, data, rest) <==> |data| <= 4096
    ensures 4096 < |data| < 0x100_0000 ==> ReadPacket(SendBytes(kind, data) + rest) == TooLong(data + rest)
  {
    var line := SendBytes(kind, data) + rest;
    ThreeBytes(|data|);
    assert line[4..] == data + rest;
    if |data| <= 4096 {
      assert line[4..4 + |data|] == data && line[4 + |data|..] == rest;
    }
  }

  /** What is read as a packet is exactly what would have been sent for it, with a payload of at most 4096 bytes. */
  lemma ReadIffSent(line: seq<byte>, kind: byte, data: seq<byte>, rest: seq<byte>)
    ensures ReadPacket(line) == Got(kind, data, rest)
            <==> |data| <= 4096 && line == [kind] + Be32(|data|)[1..] + data + rest
  {
    if ReadPacket(line) == Got(kind, data, rest) {
      ReadWasSent(line, kind, data, rest);
    }
    if |data| <= 4096 && line == [kind] + Be32(|data|)[1..] + data + rest {
      PacketRoundTrip(kind, data, rest);
      hide ReadPacket;
      assert SendBytes(kind, data) + rest == line;
    }
  }

  lemma ReadWasSent(line: seq<byte>, kind: byte, data: seq<byte>, rest: seq<byte>)
    requires ReadPacket(line) == Got(kind, data, rest)
    ensures |data| <= 4096 && line == [kind] + Be32(|data|)[1..] + data + rest
  {
    WordBytes(0, line[1], line[2], line[3]);
    hide Be32;
    assert line == line[..4] + line[4..4 + |data|] + line[4 + |data|..];
    assert line[..4] == [kind] + Be32(|data|)[1..];
  }

  /** The bytes behind a packet, its type and its data determine its surroundings. */
  type Env = (nat, byte, seq<byte>) -> Packet

  /** The packets are those that were sent. */
  ghost predicate Delivers(env: Env) {
    forall n, k, d {:trigger env(n, k, d)} :: env(n, k, d).kind == k && env(n, k, d).data == d
  }

  /** The device, what it has sent, and the incomplete packet that it has begun to read. */
  datatype Served = Served(device: State, outs: seq<Output>, left: seq<byte>)

  /** The firmware's main loop on the bytes that arrive. */
  function Serve(c: Crypto, s: State, env: Env, line: seq<byte>): Served
    decreases |line|
  {
    match ReadPacket(line)
    case Incomplete => Served(s, [], line)
    case TooLong(rest) => Serve(c, s, env, rest)
    case Got(kind, data, rest) =>
      var (t, out) := Dispatch(c, s, env(|rest|, kind, data));
      var more := Serve(c, t, env, rest);
      more.(outs := out + more.outs)
  }
}
