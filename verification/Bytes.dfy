/** Big-endian lengths and length-prefixed strings (section 5 of RFC 4251). */
module Bytes {
  import opened Words

  const TWO_32 := 0x1_0000_0000

  /** n as four bytes, high byte first; larger n loses its high part. */
  function Be32(n: int): (b: seq<byte>)
    ensures |b| == 4
  {
    [n / 0x100_0000 % 256, n / 0x1_0000 % 256, n / 0x100 % 256, n % 256]
  }

  /** The big-endian word at offset k. */
  function Word(s: seq<byte>, k: nat): (n: nat)
    requires k + 4 <= |s|
    ensures n < TWO_32
  {
    var a: int, b: int, c: int, d: int := s[k], s[k + 1], s[k + 2], s[k + 3];
    ((a * 256 + b) * 256 + c) * 256 + d
  }

  lemma WordOfBe32(a: seq<byte>, n: int, b: seq<byte>)
    requires 0 <= n < TWO_32
    ensures Word(a + Be32(n) + b, |a|) == n
  {
    var s := a + Be32(n) + b;
    var k := |a|;
    assert s[k] == Be32(n)[0] && s[k + 1] == Be32(n)[1] && s[k + 2] == Be32(n)[2] && s[k + 3] == Be32(n)[3];
    BaseBytes(n);
  }

  lemma BaseBytes(n: int)
    requires 0 <= n < TWO_32
    ensures ((n / 0x100_0000 % 256 * 256 + n / 0x1_0000 % 256) * 256 + n / 0x100 % 256) * 256 + n % 256 == n
  {
  }

  /** A length and then the bytes. */
  function Str(d: seq<byte>): (s: seq<byte>)
    ensures |s| == 4 + |d|
  {
    Be32(|d|) + d
  }

  /** Reading back a string that stands between a and b. */
  lemma ReadStr(a: seq<byte>, d: seq<byte>, b: seq<byte>)
    requires |d| < TWO_32
    ensures var s := a + Str(d) + b;
            && Word(s, |a|) == |d|
            && s[|a| + 4..|a| + 4 + |d|] == d
            && s[|a| + 4 + |d|..] == b
  {
    WordOfBe32(a, |d|, d + b);
    assert a + Str(d) + b == a + Be32(|d|) + (d + b);
  }

  /** A slice that stops at the ends, as Python's does. */
  function Slice(s: seq<byte>, from: nat, to: nat): seq<byte> {
    var lo := if from <= |s| then from else |s|;
    var hi := if to <= |s| then to else |s|;
    if lo <= hi then s[lo..hi] else []
  }

  /** The bytes of a text of 7-bit characters. */
  function Ascii(t: string): (b: seq<byte>)
    requires forall i :: 0 <= i < |t| ==> t[i] as int < 128
    ensures |b| == |t| && forall i :: 0 <= i < |t| ==> b[i] == t[i] as int
  {
    seq<byte>(|t|, i requires 0 <= i < |t| => t[i] as int)
  }
}
