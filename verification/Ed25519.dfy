/** ed25519_keypair and ed25519_sign. */
module Ed25519 {
  import opened Arith
  import opened Radix
  import opened Words
  import opened Bits
  import opened FieldSpec
  import opened Encoding
  import opened PointSpec
  import opened Points
  import opened ScalarSpec
  import opened Scalar
  import opened Sign

  /** Hashes m into d. */
  method HashInto(d: array<byte>, sha: Hash, m: seq<int>)
    requires d.Length == 64 && IsSha512(sha)
    modifies d
    ensures d[..] == HashOf(sha, m)
  {
    var h := sha(m);
    var i := 0;
    while i < 64
      invariant 0 <= i <= 64
      invariant d[..i] == h[..i]
    {
      d[i] := h[i];
      i := i + 1;
    }
    assert d[..] == d[..64] && h == h[..64];
  }

  /** The hash of the seed, clamped in place. */
  method ExpandInto(d: array<byte>, sha: Hash, seed: seq<int>)
    requires d.Length == 64 && IsSha512(sha)
    modifies d
    ensures d[..] == ExpandSeed(sha, seed)
  {
    HashInto(d, sha, seed);
    ghost var h := HashOf(sha, seed);
    ClampLow(h[0]);
    AndMask127(h[31]);
    ClampHigh(h[31]);
    hide BitAnd, BitOr, HashOf;
    d[0] := BitAnd(8, d[0], 248);
    d[31] := BitAnd(8, d[31], 127);
    d[31] := BitOr(8, d[31], 64);
  }

  /** The 32 bytes at the start of r, used as a scalar, become an encoded point. */
  method PublicPoint(s: seq<byte>) returns (r: array<byte>)
    requires |s| == 32
    ensures fresh(r) && r.Length == 32 && r[..] == PointBytes(s)
  {
    var p := new Point();
    BaseMultipleTight(s);
    hide BaseMultiple, Encode, Tight, PointBytes;
    ScalarBase(p, s);
    r := new byte[32];
    PackPoint(r, p, BaseMultiple(s));
    PackedBytes(r[..], s);
  }

  lemma PackedBytes(r: seq<int>, s: seq<int>)
    requires |r| == 32 && Within(r, 0, 255) && Eval(256, r) == Encode(SecretPoint(s))
    ensures r == PointBytes(s)
  {
    PointBytesValue(s);
    hide PointBytes, Encode, SecretPoint, Eval;
    DigitsUnique(256, r, PointBytes(s));
  }

  /** The seed from eight random words, low byte first. */
  method FillSeed(seed: array<byte>, words: seq<int>)
    requires seed.Length == 32 && |words| == 8 && Within(words, 0, 0xffff_ffff)
    modifies seed
    ensures forall i, k :: 0 <= i < 8 && 0 <= k < 4 ==> seed[4 * i + k] == DigitOf(256, words[i], k)
  {
    assert Pow(256, 0) == 1 && Pow(256, 1) == 256 && Pow(256, 2) == 65536 && Pow(256, 3) == 16777216;
    var i := 0;
    while i < 8
      invariant 0 <= i <= 8
      invariant forall j, k :: 0 <= j < i && 0 <= k < 4 ==> seed[4 * j + k] == DigitOf(256, words[j], k)
    {
      var r := words[i];
      seed[4 * i] := r % 256;
      seed[4 * i + 1] := r / 256 % 256;
      seed[4 * i + 2] := r / 65536 % 256;
      seed[4 * i + 3] := r / 16777216 % 256;
      i := i + 1;
    }
  }

  /** A fresh seed and the encoding of its public point (section 5.1.5 of RFC 8032). */
  method Keypair(pk: array<byte>, seed: array<byte>, words: seq<int>, sha: Hash)
    requires pk.Length == 32 && seed.Length == 32 && pk != seed && IsSha512(sha)
    requires |words| == 8 && Within(words, 0, 0xffff_ffff)
    modifies pk, seed
    ensures pk[..] == PublicKey(sha, seed[..])
    ensures forall i, k :: 0 <= i < 8 && 0 <= k < 4 ==> seed[4 * i + k] == DigitOf(256, words[i], k)
  {
    hide PointBytes, ExpandSeed;
    FillSeed(seed, words);
    var d := new byte[64];
    ExpandInto(d, sha, seed[..]);
    var p := PublicPoint(d[..32]);
    CopyBytes(pk, 0, p);
  }

  method CopyBytes(dst: array<byte>, off: nat, src: array<byte>)
    requires off + src.Length <= dst.Length && dst != src
    modifies dst
    ensures dst[..] == old(dst[..off]) + src[..] + old(dst[off + src.Length..])
  {
    ghost var d0 := dst[..];
    var i := 0;
    while i < src.Length
      invariant 0 <= i <= src.Length
      invariant dst[..] == d0[..off] + src[..i] + d0[off + i..]
    {
      dst[off + i] := src[i];
      i := i + 1;
    }
  }

  /** x := r + h * a as limbs; no partial sum overflows. */
  method Accumulate(x: array<i64>, r: seq<byte>, h: seq<byte>, a: seq<byte>)
    requires x.Length == 64 && |r| == |h| == |a| == 32
    modifies x
    ensures x[..] == SumLimbs(r, h, a)
  {
    var i := 0;
    while i < 64
      invariant 0 <= i <= 64
      invariant forall k :: 0 <= k < i ==> x[k] == 0
    {
      x[i] := 0;
      i := i + 1;
    }
    i := 0;
    while i < 32
      invariant 0 <= i <= 32
      invariant forall k :: 0 <= k < 64 ==> x[k] == if k < i then r[k] else 0
    {
      x[i] := r[i];
      i := i + 1;
    }
    i := 0;
    while i < 32
      invariant 0 <= i <= 32
      invariant forall k :: 0 <= k < 64 ==> x[k] == (if k < 32 then r[k] else 0) + Dot(h, a, k, i)
    {
      AccumulateRow(x, r, h, a, i);
      i := i + 1;
    }
  }

  method AccumulateRow(x: array<i64>, r: seq<byte>, h: seq<byte>, a: seq<byte>, i: nat)
    requires x.Length == 64 && |r| == |h| == |a| == 32 && i < 32
    requires forall k :: 0 <= k < 64 ==> x[k] == (if k < 32 then r[k] else 0) + Dot(h, a, k, i)
    modifies x
    ensures forall k :: 0 <= k < 64 ==> x[k] == (if k < 32 then r[k] else 0) + Dot(h, a, k, i + 1)
  {
    var j := 0;
    while j < 32
      invariant 0 <= j <= 32
      invariant forall k :: 0 <= k < 64 ==>
                  x[k] == (if k < 32 then r[k] else 0) + Dot(h, a, k, if k < i + j then i + 1 else i)
    {
      DotNonNegative(h, a, i + j, i);
      DotNonNegative(h, a, i + j, i + 1);
      var u: i64, v: i64 := h[i], a[j];
      x[i + j] := x[i + j] + u * v;
      j := j + 1;
    }
  }

  /** S = (r + h * a) mod L, written to the upper half of sig. */
  method ScalarPart(sig: array<byte>, r: seq<byte>, h: seq<byte>, a: seq<byte>)
    requires sig.Length == 64 && |r| == |h| == |a| == 32
    modifies sig
    ensures sig[..] == old(sig[..32]) + ModLBytes(SumLimbs(r, h, a))
  {
    SumReducible(r, h, a);
    var x := new i64[64];
    Accumulate(x, r, h, a);
    hide SumLimbs, ModLBytes;
    ModL(sig, 32, x);
  }

  /** The signature R || S of msg (section 5.1.6 of RFC 8032, with the code's modL). */
  method SignMessage(sig: array<byte>, msg: seq<byte>, seed: seq<byte>, pk: seq<byte>, sha: Hash)
    requires sig.Length == 64 && IsSha512(sha)
    modifies sig
    ensures var s := SignatureOf(sha, seed, pk, msg); sig[..] == s.rBytes + s.sBytes
  {
    hide ModLBytes, SumLimbs, ExpandSeed, PointBytes, HashOf, IsSha512;
    var d, h, r := new byte[64], new byte[64], new byte[64];
    ExpandInto(d, sha, seed);
    HashInto(r, sha, d[32..] + msg);
    Reduce(r);
    assert r[..32] == Nonce(sha, seed, msg);
    var p := PublicPoint(r[..32]);
    CopyBytes(sig, 0, p);
    assert sig[..32] == PointBytes(Nonce(sha, seed, msg));
    HashInto(h, sha, sig[..32] + pk + msg);
    Reduce(h);
    assert h[..32] == ModLBytes(ChallengeLimbs(sha, seed, pk, msg));
    ScalarPart(sig, r[..32], h[..32], d[..32]);
  }
}
