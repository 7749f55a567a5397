/**
 Which of the two reductions modulo L must come out right for a signature to verify,
 and a signature that does not.
 */
module Rejection {
  import opened Arith
  import opened Radix
  import opened Bits
  import opened Edwards
  import opened PointSpec
  import opened ScalarSpec
  import opened ScalarBytes
  import opened Sign

  ghost predicate NoFactors(u: int, v: int) {
    (u * v) % L == 0 ==> u % L == 0 || v % L == 0
  }

  /** L is prime, as far as the proofs need it. */
  ghost predicate PrimeOrder() {
    forall u, v :: NoFactors(u, v)
  }

  /** The clamped secret is a multiple of 8 below 8 L and so never a multiple of L. */
  lemma SecretNotMultiple(sha: Hash, seed: seq<int>)
    requires IsSha512(sha)
    ensures Number(Secret(sha, seed)) % L != 0
  {
    var h := HashOf(sha, seed);
    assert Clamp(h)[..32] == Clamp(h[..32]);
    ClampValue(h[..32]);
    ClampBytes(h[..32]);
    NumberOfBytes(Clamp(h[..32]));
    hide Clamp, Number, Eval, HashOf;
    MultiplesOf8(Number(Secret(sha, seed)));
  }

  lemma MultiplesOf8(a: int)
    requires a % 8 == 0 && 4 * TWO_252 <= a < 8 * TWO_252
    ensures a % L != 0
  {
    var q := a / L;
    assert a == q * L + a % L;
    assert 3 <= q <= 7;
    assert q == 3 || q == 4 || q == 5 || q == 6 || q == 7;
  }

  lemma MultipleDiffers(r: nat, h: nat, c: nat, a: nat)
    requires PrimeOrder() && a % L != 0
    ensures h * a >= 0 && c * a >= 0
    ensures (r + h * a) % L == (r + c * a) % L <==> h % L == c % L
  {
    MulMonotone(0, h, a);
    MulMonotone(0, c, a);
    TimesDifference(h, c, a);
    assert NoFactors(h - c, a);
    Divisible(h - c, a);
    hide PrimeOrder, NoFactors;
    var u, x, y := (h - c) * a, r + h * a, r + c * a;
    hide *;
    SameModDiffers(x, y);
    SameModDiffers(h, c);
    assert x - y == u;
  }

  lemma TimesDifference(h: int, c: int, a: int)
    ensures (h - c) * a == h * a - c * a
  {
  }

  /** A product is a multiple of L exactly when the first factor is, if the second is not. */
  lemma Divisible(u: int, a: int)
    requires NoFactors(u, a) && a % L != 0
    ensures (u * a) % L == 0 <==> u % L == 0
  {
    if u % L == 0 {
      var k := u / L;
      MulAssociative(k, a, L);
      MulAssociative(k, L, a);
      assert u == k * L;
      assert u * a == (k * a) * L by {
        assert L * a == a * L;
      }
      DivModUnique(u * a, L, k * a, 0);
    }
  }

  lemma SameModDiffers(x: int, y: int)
    ensures x % L == y % L <==> (x - y) % L == 0
  {
    CongIffMod(x, y, L);
    CongIffMod(x - y, 0, L);
    CongRefl(y, L);
    if Cong(x, y, L) {
      CongSub(x, y, y, y, L);
    }
    if Cong(x - y, 0, L) {
      CongAdd(x - y, 0, y, y, L);
    }
  }

  /** After a right reduction of S, S is (r + H a) mod L exactly when the challenge was reduced right. */
  lemma ChallengeMatters(r: seq<int>, c: seq<int>, a: seq<int>)
    requires PrimeOrder() && Number(a) % L != 0
    requires |r| == |a| == 32 && Within(r, 0, 255) && Within(a, 0, 255)
    requires ReducibleLimbs(c) && Within(c, 0, 255)
    requires ReducedRight(SumLimbs(r, ModLBytes(c), a))
    ensures Number(c) * Number(a) >= 0
    ensures Number(ModLBytes(SumLimbs(r, ModLBytes(c), a))) == (Number(r) + Number(c) * Number(a)) % L
            <==> ReducedRight(c)
  {
    hide SumLimbs, ModLBytes, Number, Eval, ReducedRight, PrimeOrder;
    var h := ModLBytes(c);
    var x := SumLimbs(r, h, a);
    SumReducible(r, h, a);
    SumNumber(r, h, a);
    ReducedNumber(x);
    ReducedNumber(c);
    WrongIsOtherResidue(c);
    NumberOfBytes(c);
    NumberOfBytes(h);
    MultipleDiffers(Number(r), Number(h), Number(c), Number(a));
  }

  /**
   The verdict on every signature of a seed under its own key.  With both reductions
   right it is accepted, with exactly one of them wrong it is rejected, and only when
   both are wrong does the equation decide.
   */
  lemma SignatureVerdict<G(!new)>(g: Group<G>, abs: Ext -> G, sha: Hash, seed: seq<int>, msg: seq<int>)
    requires IsSha512(sha) && Realises(g, abs) && HasOrderL(g, abs(ValPoint(BasePoint()))) && PrimeOrder()
    ensures var accepts := Accepts(g, abs, sha, PublicKey(sha, seed), msg, OwnSignature(sha, seed, msg));
            var challenge, scalar := ReducedRight(Challenge(sha, seed, msg)), ReducedRight(OwnScalar(sha, seed, msg));
            && (challenge && scalar ==> accepts)
            && (challenge != scalar ==> !accepts)
            && (!challenge && !scalar ==> (accepts <==> EquationHolds(sha, seed, msg)))
  {
    hide Realises, HasOrderL, BasePoint, Nonce, IsSha512, Accepts, ModLBytes, Number, ReducedRight, ReducibleLimbs;
    hide OwnSignature, OwnScalar, Challenge, PublicKey, Secret, SumLimbs, HashOf, PointBytes, PrimeOrder;
    SignatureVerifiesIff(g, abs, sha, seed, msg);
    OwnParts(sha, seed, msg);
    if ReducedRight(OwnScalar(sha, seed, msg)) {
      SecretNotMultiple(sha, seed);
      ChallengeMatters(Nonce(sha, seed, msg), Challenge(sha, seed, msg), Secret(sha, seed));
    }
  }

  // ---------------------------------------------------------------- a rejected signature

  /** 64 bytes that hold n. */
  function Wide(n: nat): (b: seq<int>)
    ensures |b| == 64 && Within(b, 0, 255)
  {
    DigitsOf(256, n, 32) + seq(32, _ => 0)
  }

  lemma WideValue(n: nat)
    requires n < TWO_256
    ensures Eval(256, Wide(n)) == n
  {
    RadixPowers();
    DigitsOfValue(256, n, 32);
    DivModUnique(n, TWO_256, 0, n);
    hide Eval, DigitsOf;
    WithZeros(DigitsOf(256, n, 32), seq(32, _ => 0));
  }

  const ONES: seq<int> := seq(32, _ => 1)
  const ZEROS: seq<int> := seq(64, _ => 0)
  const SMALL_NONCE: int := 4 * EXCESS - 1

  /** A hash that gives the seed of ones a secret of 2^254, the message the nonce 4 EXCESS - 1 and the challenge 1. */
  ghost function Unlucky(msg: seq<int>): (sha: Hash)
    ensures IsSha512(sha)
  {
    m => if m == ONES then ZEROS else if |m| == 32 + |msg| then Wide(SMALL_NONCE) else Wide(1)
  }

  lemma UnluckySeed(msg: seq<int>)
    ensures var d := ExpandSeed(Unlucky(msg), ONES); d[..32] == ZEROS[..32][31 := 64] && d[32..] == ZEROS[32..]
  {
    AndMask248(0);
    AndMask127(0);
    OrMask64(0);
    hide BitAnd, BitOr;
    assert Clamp(ZEROS) == ZEROS[31 := 64];
  }

  lemma UnluckySecret(msg: seq<int>)
    ensures Number(Secret(Unlucky(msg), ONES)) == 4 * TWO_252
  {
    UnluckySeed(msg);
    var z := ZEROS[..32];
    EvalZero(256, z);
    EvalUpdate(256, z, 31, 64);
    RadixPowers();
    hide Eval, ExpandSeed, Unlucky;
  }

  lemma UnluckyNonce(msg: seq<int>)
    ensures Number(Nonce(Unlucky(msg), ONES, msg)) == SMALL_NONCE
  {
    UnluckySeed(msg);
    var m := ExpandSeed(Unlucky(msg), ONES)[32..] + msg;
    assert m[0] == 0 && ONES[0] == 1;
    hide ExpandSeed, ModLBytes;
    SmallReduces(SMALL_NONCE);
    NumberOfBytes(ModLBytes(Wide(SMALL_NONCE)));
  }

  /** A number well below L is reduced to itself. */
  lemma SmallReduces(n: nat)
    requires n <= L - TWO_248
    ensures ReducibleLimbs(Wide(n)) && Eval(256, Wide(n)) == n && Eval(256, ModLBytes(Wide(n))) == n
  {
    hide ModLBytes, Wide, Eval;
    WideValue(n);
    ModLByResidue(Wide(n));
    DivModUnique(n, L, 0, n);
  }

  lemma UnluckyChallenge(msg: seq<int>)
    ensures Challenge(Unlucky(msg), ONES, msg) == Wide(1)
  {
    hide PointBytes, Nonce;
  }

  /** S is reduced from 4 L - 1, whose residue L - 1 modL gets wrong. */
  lemma UnluckyScalar(msg: seq<int>)
    ensures ReducedRight(Challenge(Unlucky(msg), ONES, msg)) && !ReducedRight(OwnScalar(Unlucky(msg), ONES, msg))
  {
    var sha := Unlucky(msg);
    var r, c, a, x := Nonce(sha, ONES, msg), Challenge(sha, ONES, msg), Secret(sha, ONES), OwnScalar(sha, ONES, msg);
    UnluckySecret(msg);
    UnluckyNonce(msg);
    UnluckyChallenge(msg);
    SmallReduces(1);
    OwnParts(sha, ONES, msg);
    hide Unlucky, Nonce, Challenge, Secret, OwnScalar, ModLBytes, Wide, SumLimbs, ReducedRight, Number, Eval;
    ReducedNumber(c);
    NumberOfBytes(c);
    NumberOfBytes(ModLBytes(c));
    DivModUnique(1, L, 0, 1);
    SumReducible(r, ModLBytes(c), a);
    SumNumber(r, ModLBytes(c), a);
    assert Eval(256, x) == 4 * L - 1;
    DivModUnique(4 * L - 1, L, 3, L - 1);
    TopResiduesCorrupted(x);
    ReducedNumber(x);
    NumberOfBytes(ModLBytes(x));
  }

  /** For every message there are a hash and a seed for which the signature that the code writes is rejected. */
  lemma RejectedSignature<G(!new)>(g: Group<G>, abs: Ext -> G, msg: seq<int>) returns (sha: Hash, seed: seq<int>)
    requires Realises(g, abs) && HasOrderL(g, abs(ValPoint(BasePoint())))
    ensures IsSha512(sha) && |seed| == 32 && Within(seed, 0, 255)
    ensures !Accepts(g, abs, sha, PublicKey(sha, seed), msg, OwnSignature(sha, seed, msg))
  {
    sha, seed := Unlucky(msg), ONES;
    UnluckyScalar(msg);
    hide Realises, HasOrderL, BasePoint, Unlucky, IsSha512, Accepts, ReducedRight;
    hide OwnSignature, OwnScalar, Challenge, PublicKey;
    SignatureVerifiesIff(g, abs, sha, seed, msg);
  }
}
