/**
 Keys and signatures written out by sections 5.1.5 and 5.1.6 of RFC 8032: which bytes are
 hashed, which number is multiplied with the base point, and what the bytes decode to.
 */
module Rfc8032 {
  import opened Arith
  import opened Radix
  import opened FieldSpec
  import opened Edwards
  import opened Inverse
  import opened Completeness
  import opened Encoding
  import opened PointSpec
  import opened ScalarSpec
  import opened ScalarBytes
  import opened Sign

  /** Step 2 of section 5.1.5: the first half of the seed's hash, its lowest three bits cleared, its top bits 01. */
  ghost function ScalarOf(sha: Hash, seed: seq<int>): int
    requires IsSha512(sha)
  {
    TWO_254 + Eval(256, sha(seed)[..32]) % TWO_254 / 8 * 8
  }

  /** Step 2 of section 5.1.6: the hash of the second half of the seed's hash and the message. */
  ghost function NonceHash(sha: Hash, seed: seq<int>, msg: seq<int>): (h: seq<int>)
    requires IsSha512(sha)
    ensures |h| == 64 && Within(h, 0, 255)
  {
    sha(sha(seed)[32..64] + msg)
  }

  /** Step 4: the hash of R, the public key and the message. */
  ghost function ChallengeHash(sha: Hash, r: seq<int>, pk: seq<int>, msg: seq<int>): (h: seq<int>)
    requires IsSha512(sha)
    ensures |h| == 64 && Within(h, 0, 255)
  {
    sha(r + pk + msg)
  }

  lemma SecretIs(sha: Hash, seed: seq<int>)
    requires IsSha512(sha)
    ensures Number(Secret(sha, seed)) == ScalarOf(sha, seed)
  {
    var h := sha(seed);
    assert Clamp(h)[..32] == Clamp(h[..32]);
    ClampValue(h[..32]);
    ClampBytes(h[..32]);
    NumberOfBytes(Clamp(h[..32]));
    hide Clamp, Number, Eval;
  }

  /** The public key decodes to one point, and that is the secret multiple of the base point. */
  lemma PublicKeyIs<G(!new)>(g: Group<G>, abs: Ext -> G, sha: Hash, seed: seq<int>) returns (x: int, y: int)
    requires IsSha512(sha) && Realises(g, abs)
    ensures DecodesTo(PublicKey(sha, seed), x, y)
    ensures forall u, v :: DecodesTo(PublicKey(sha, seed), u, v) ==> u == x && v == y
    ensures ScalarOf(sha, seed) >= 0
    ensures abs(Affine(x, y)) == Times(g, ScalarOf(sha, seed), abs(ValPoint(BasePoint())))
  {
    hide Realises, DecodesTo, BasePoint, Times, Secret, PointBytes, Number, Eval, Affine, ScalarOf;
    SecretIs(sha, seed);
    x, y := DecodesToMultiple(g, abs, Secret(sha, seed));
  }

  /** The prefix is the second half of the seed's hash. */
  lemma PrefixIs(sha: Hash, seed: seq<int>)
    requires IsSha512(sha)
    ensures ExpandSeed(sha, seed)[32..] == sha(seed)[32..64]
  {
    ClampEnds(sha(seed));
  }

  /**
   The first half of a signature: with H the hash of the second half of the seed's hash
   and the message, it decodes to one point, the multiple of the base point by the
   number that modL makes of H.  That number is H mod L when H mod L is at most
   L - 2^248.
   */
  lemma FirstHalfIs<G(!new)>(g: Group<G>, abs: Ext -> G, sha: Hash, seed: seq<int>, pk: seq<int>, msg: seq<int>)
    returns (x: int, y: int)
    requires IsSha512(sha) && Realises(g, abs)
    ensures DecodesTo(SignatureOf(sha, seed, pk, msg).rBytes, x, y)
    ensures forall u, v :: DecodesTo(SignatureOf(sha, seed, pk, msg).rBytes, u, v) ==> u == x && v == y
    ensures var h := NonceHash(sha, seed, msg);
            && abs(Affine(x, y)) == Times(g, Number(ModLBytes(h)), abs(ValPoint(BasePoint())))
            && (Eval(256, h) % L <= L - TWO_248 ==>
                  abs(Affine(x, y)) == Times(g, Eval(256, h) % L, abs(ValPoint(BasePoint()))))
  {
    hide Realises, DecodesTo, BasePoint, Times, PointBytes, Number, Eval, Affine, ModLBytes, ExpandSeed, ScalarLimbs;
    NonceIs(sha, seed, msg);
    hide Nonce, NonceHash;
    x, y := DecodesToMultiple(g, abs, Nonce(sha, seed, msg));
    ReducedHash(NonceHash(sha, seed, msg));
  }

  lemma NonceIs(sha: Hash, seed: seq<int>, msg: seq<int>)
    requires IsSha512(sha)
    ensures Nonce(sha, seed, msg) == ModLBytes(NonceHash(sha, seed, msg))
  {
    hide ModLBytes, ExpandSeed;
    PrefixIs(sha, seed);
  }

  /** A hash that is well below L modulo L is reduced to its residue. */
  lemma ReducedHash(h: seq<int>)
    requires |h| == 64 && Within(h, 0, 255)
    ensures Eval(256, h) % L <= L - TWO_248 ==> Number(ModLBytes(h)) == Eval(256, h) % L
  {
    assert ReducibleLimbs(h);
    hide ModLBytes, Eval, Number;
    ModLByResidue(h);
    NumberOfBytes(ModLBytes(h));
  }

  /**
   The second half: with r and k the numbers that modL makes of the two hashes and a the
   secret scalar, it is (r + k a) mod L when that is at most L - 2^248, and never when it
   is 2^252 or more.
   */
  lemma SecondHalfIs(sha: Hash, seed: seq<int>, pk: seq<int>, msg: seq<int>)
    requires IsSha512(sha)
    ensures var sig := SignatureOf(sha, seed, pk, msg);
            var r := Number(ModLBytes(NonceHash(sha, seed, msg)));
            var k := Number(ModLBytes(ChallengeHash(sha, sig.rBytes, pk, msg)));
            var s := (r + k * ScalarOf(sha, seed)) % L;
            && |sig.rBytes| == |sig.sBytes| == 32
            && (s <= L - TWO_248 ==> Number(sig.sBytes) == s)
            && (s >= TWO_252 ==> Number(sig.sBytes) != s)
  {
    hide *;
    SecondHalfFrom(sha, seed, pk, msg);
    SecretIs(sha, seed);
    SumReduced(ModLBytes(NonceHash(sha, seed, msg)),
               ModLBytes(ChallengeHash(sha, SignatureOf(sha, seed, pk, msg).rBytes, pk, msg)), Secret(sha, seed));
  }

  lemma SecondHalfFrom(sha: Hash, seed: seq<int>, pk: seq<int>, msg: seq<int>)
    requires IsSha512(sha)
    ensures var sig := SignatureOf(sha, seed, pk, msg);
            && |sig.rBytes| == |sig.sBytes| == 32
            && sig.sBytes == ModLBytes(SumLimbs(ModLBytes(NonceHash(sha, seed, msg)),
                                                ModLBytes(ChallengeHash(sha, sig.rBytes, pk, msg)), Secret(sha, seed)))
  {
    hide PointBytes, ModLBytes, ExpandSeed, SumLimbs, Nonce, NonceHash;
    NonceIs(sha, seed, msg);
  }

  lemma SumReduced(r: seq<int>, h: seq<int>, a: seq<int>)
    requires |r| == |h| == |a| == 32 && Within(r, 0, 255) && Within(h, 0, 255) && Within(a, 0, 255)
    ensures var s, v := Number(ModLBytes(SumLimbs(r, h, a))), (Number(r) + Number(h) * Number(a)) % L;
            && (v <= L - TWO_248 ==> s == v)
            && (v >= TWO_252 ==> s != v)
  {
    hide SumLimbs, ModLBytes, Eval, Number;
    SumReducible(r, h, a);
    SumNumber(r, h, a);
    ModLByResidue(SumLimbs(r, h, a));
    NumberOfBytes(ModLBytes(SumLimbs(r, h, a)));
  }

  // ---------------------------------------------------------------- the base point

  const BASE_BYTES: seq<int> := [0x58] + seq(31, _ => 0x66)

  lemma {:induction false} RepeatedDigit(d: int, n: nat)
    ensures 255 * Eval(256, seq(n, _ => d)) == d * (Pow(256, n) - 1)
  {
    if n > 0 {
      RepeatedDigit(d, n - 1);
      assert seq(n, _ => d)[..n - 1] == seq(n - 1, _ => d);
    }
  }

  lemma BaseBytesValue()
    ensures Eval(256, BASE_BYTES) == BY
  {
    RepeatedDigit(0x66, 31);
    RadixPowers();
    EvalConcat(256, [0x58], seq(31, _ => 0x66));
    assert Eval(256, [0x58]) == 0x58 by {
      assert [0x58][..0] == [];
    }
    assert Pow(256, 1) == 256 * Pow(256, 0);
  }

  /** Every representation of the base point is packed as the byte 58 and thirty-one bytes 66. */
  lemma BaseIsPacked(p: Ext)
    requires FermatAt(p.z) && Eq(BX * p.z, p.x) && Eq(BY * p.z, p.y)
    ensures Encode(p) == Eval(256, BASE_BYTES)
  {
    EncodeIsAffine(p, BX, BY);
    Reduced(BX);
    Reduced(BY);
    BaseBytesValue();
    assert BX % 2 == 0;
  }

  /** The base point of scalarbase is one of them, and BASE_BYTES decode to no other point than the base point. */
  lemma BaseIsDecoded()
    requires CurveField()
    ensures Encode(ValPoint(BasePoint())) == Eval(256, BASE_BYTES)
    ensures DecodesTo(BASE_BYTES, BX, BY) && forall x, y :: DecodesTo(BASE_BYTES, x, y) ==> x == BX && y == BY
  {
    var b := ValPoint(BasePoint());
    LimbConstants();
    assert b.x == BX && b.y == BY && b.z == 1;
    hide BasePoint;
    EqRefl(BX);
    EqRefl(BY);
    CurveFieldIsPrime();
    SmallNonZero(1);
    FermatHolds(1);
    BaseIsPacked(b);
    BaseBytesValue();
    BaseOnCurve();
    hide Encode, Eq, AffineOnCurve, CurveField;
    assert AffineOnCurve(BX, BY) by {
      BaseAffine();
    }
    Reduced(BX);
    Reduced(BY);
    assert EncodeXY(BX, BY) == BY;
    DecodesIfEncoded(BASE_BYTES, BX, BY);
    forall x, y | DecodesTo(BASE_BYTES, x, y) ensures x == BX && y == BY {
      DecodesOnce(BASE_BYTES, x, y, BX, BY);
    }
  }

  lemma BaseAffine()
    ensures AffineOnCurve(BX, BY)
  {
    BaseOnCurve();
    hide Eq;
  }

  lemma DecodesOnce(bytes: seq<int>, x: int, y: int, x': int, y': int)
    requires CurveField() && DecodesTo(bytes, x, y) && DecodesTo(bytes, x', y')
    ensures x == x' && y == y'
  {
    hide AffineOnCurve, CurveField, EncodeXY;
    DecodesIfEncoded(bytes, x, y);
    DecodesIfEncoded(bytes, x', y');
    EncodeIsInjective(x, y, x', y');
  }
}
