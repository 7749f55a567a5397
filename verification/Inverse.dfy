/** The exponent of inv25519's addition chain, and inverses modulo p under Fermat's little theorem. */
module Inverse {
  import opened Arith
  import opened FieldSpec
  import opened Edwards

  /** The exponent reached after k of the 254 iterations; iteration k handles i == 254 - k. */
  function ChainExp(k: nat): (e: nat)
    requires k <= 254
  {
    if k == 0 then 1 else 2 * ChainExp(k - 1) + (if 254 - k == 2 || 254 - k == 4 then 0 else 1)
  }

  /** While every iteration multiplies, the exponent is all ones. */
  lemma {:induction false} ChainExpOnes(k: nat)
    requires k <= 249
    ensures ChainExp(k) == Pow(2, k + 1) - 1
  {
    if k > 0 {
      ChainExpOnes(k - 1);
    }
  }

  lemma Pow2To250()
    ensures Pow(2, 250) == 0x400_0000_0000_0000_0000_0000_0000_0000_0000_0000_0000_0000_0000_0000_0000_0000
  {
    assert Pow(2, 5) == 32;
    hide Pow;
    PowAdd(2, 5, 5);
    assert Pow(2, 10) == 0x400;
    PowAdd(2, 10, 10);
    assert Pow(2, 20) == 0x10_0000;
    PowAdd(2, 20, 5);
    assert Pow(2, 25) == 0x200_0000;
    PowAdd(2, 25, 25);
    assert Pow(2, 50) == 0x4_0000_0000_0000;
    PowAdd(2, 50, 50);
    assert Pow(2, 100) == 0x10_0000_0000_0000_0000_0000_0000;
    PowAdd(2, 100, 25);
    assert Pow(2, 125) == 0x2000_0000_0000_0000_0000_0000_0000_0000;
    PowAdd(2, 125, 125);
  }

  /** Skipping exactly the multiplications at i == 4 and i == 2 gives p - 2. */
  lemma ChainExpIsPMinus2()
    ensures ChainExp(254) == P - 2
  {
    ChainExpOnes(249);
    Pow2To250();
    hide Pow;
    assert ChainExp(250) == 2 * ChainExp(249);
    assert ChainExp(251) == 2 * ChainExp(250) + 1;
    assert ChainExp(252) == 2 * ChainExp(251);
    assert ChainExp(253) == 2 * ChainExp(252) + 1;
  }

  /** One iteration squares and perhaps multiplies. */
  lemma ChainStep(c: int, s: int, m: int, a: int, e: nat)
    requires Eq(c, Pow(a, e)) && Eq(s, c * c) && Eq(m, s * a)
    ensures Eq(s, Pow(a, 2 * e)) && Eq(m, Pow(a, 2 * e + 1))
  {
    EqMul(c, Pow(a, e), c, Pow(a, e));
    PowAdd(a, e, e);
    EqTrans(s, c * c, Pow(a, 2 * e));
    EqRefl(a);
    EqMul(s, Pow(a, 2 * e), a, a);
    EqTrans(m, s * a, Pow(a, 2 * e) * a);
    assert Pow(a, 2 * e + 1) == a * Pow(a, 2 * e);
  }

  // ---------------------------------------------------------------- inverses

  /** a^(p - 2), the inverse of a when Fermat's little theorem applies to a. */
  ghost function Inv(a: int): int {
    var e: nat :| e + 2 == P;
    Pow(a, e)
  }

  /** Fermat's little theorem at a, which the primality of p provides for a not divisible by p. */
  ghost predicate FermatAt(a: int) {
    forall e: nat {:trigger Pow(a, e)} :: e + 1 == P ==> Eq(Pow(a, e), 1)
  }

  lemma InvInverts(a: int)
    requires FermatAt(a)
    ensures Eq(a * Inv(a), 1)
  {
    var e: nat :| e + 2 == P;
    PowNext(a, e);
  }

  lemma PowNext(a: int, e: nat)
    ensures Pow(a, e + 1) == a * Pow(a, e)
  {
  }

  /** p is prime, as far as the proofs need it: Fermat's little theorem holds for everything but 0. */
  ghost predicate PrimeField() {
    forall a {:trigger FermatAt(a)} :: !Eq(a, 0) ==> FermatAt(a)
  }

  lemma FermatHolds(a: int)
    requires PrimeField() && !Eq(a, 0)
    ensures FermatAt(a)
  {
  }

  /** There are no zero divisors. */
  lemma ZeroProduct(a: int, b: int)
    requires PrimeField() && Eq(a * b, 0)
    ensures Eq(a, 0) || Eq(b, 0)
  {
    if !Eq(a, 0) {
      FermatHolds(a);
      InvInverts(a);
      var i := Inv(a);
      hide PrimeField, Inv, FermatAt;
      EqScale(b, a * i, 1);
      EqScale(i, a * b, 0);
      assert b * (a * i) == i * (a * b);
      EqSym(b * (a * i), b);
      EqTrans(b, b * (a * i), 0);
    }
  }

  lemma NonZeroProduct(a: int, b: int)
    requires PrimeField() && !Eq(a, 0) && !Eq(b, 0)
    ensures !Eq(a * b, 0)
  {
    if Eq(a * b, 0) {
      ZeroProduct(a, b);
    }
  }

  /** A number between 0 and p is not 0 modulo p. */
  lemma SmallNonZero(a: int)
    requires 0 < a < P
    ensures !Eq(a, 0)
  {
    if Eq(a, 0) {
      CongUnique(a, 0, P);
    }
  }
}
