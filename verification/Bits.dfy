/**
 Two's-complement bit operations on integers.  A machine word with n value bits
 and a sign holds x with -2^n <= x < 2^n; int64_t is n == 63 and an unsigned
 byte is n == 8 with the sign bit clear.
 */
module Bits {
  import opened Arith

  ghost predicate InWord(n: nat, x: int) {
    -Pow(2, n) <= x < Pow(2, n)
  }

  function BitXor(n: nat, x: int, y: int): int {
    if n == 0 then (if x == y then 0 else -1)
    else (if x % 2 == y % 2 then 0 else 1) + 2 * BitXor(n - 1, x / 2, y / 2)
  }

  function BitAnd(n: nat, x: int, y: int): int {
    if n == 0 then (if x == -1 && y == -1 then -1 else 0)
    else (if x % 2 == 1 && y % 2 == 1 then 1 else 0) + 2 * BitAnd(n - 1, x / 2, y / 2)
  }

  function BitOr(n: nat, x: int, y: int): int {
    if n == 0 then (if x == -1 || y == -1 then -1 else 0)
    else (if x % 2 == 1 || y % 2 == 1 then 1 else 0) + 2 * BitOr(n - 1, x / 2, y / 2)
  }

  function BitNot(x: int): int {
    -x - 1
  }

  lemma {:induction false} XorInWord(n: nat, x: int, y: int)
    requires InWord(n, x) && InWord(n, y)
    ensures InWord(n, BitXor(n, x, y))
  {
    if n > 0 {
      XorInWord(n - 1, x / 2, y / 2);
    }
  }

  lemma {:induction false} XorCancels(n: nat, x: int, y: int)
    requires InWord(n, x) && InWord(n, y)
    ensures BitXor(n, x, BitXor(n, x, y)) == y
    ensures BitXor(n, y, BitXor(n, x, y)) == x
  {
    if n > 0 {
      XorCancels(n - 1, x / 2, y / 2);
      var d, w := (if x % 2 == y % 2 then 0 else 1), BitXor(n - 1, x / 2, y / 2);
      assert (d + 2 * w) / 2 == w && (d + 2 * w) % 2 == d;
    }
  }

  lemma {:induction false} XorZero(n: nat, x: int)
    requires InWord(n, x)
    ensures BitXor(n, x, 0) == x
  {
    if n > 0 {
      XorZero(n - 1, x / 2);
    }
  }

  lemma {:induction false} AndOnes(n: nat, x: int)
    requires InWord(n, x)
    ensures BitAnd(n, -1, x) == x && BitAnd(n, 0, x) == 0
  {
    if n > 0 {
      AndOnes(n - 1, x / 2);
    }
  }

  /** Masking with 2^k - 1 is the remainder modulo 2^k, for negative words too. */
  lemma {:induction false} AndLowMask(n: nat, k: nat, x: int)
    requires k <= n && InWord(n, x)
    ensures Pow(2, k) > 0
    ensures BitAnd(n, x, Pow(2, k) - 1) == x % Pow(2, k)
  {
    PowPositive(2, k);
    if k == 0 {
      AndZeroRight(n, x);
      DivModUnique(x, 1, x, 0);
    } else {
      AndLowMask(n - 1, k - 1, x / 2);
      var p := Pow(2, k - 1);
      HalfStep(x, 0, p, 0);
      assert (2 * p - 1) % 2 == 1 && (2 * p - 1) / 2 == p - 1;
    }
  }

  lemma {:induction false} AndZeroRight(n: nat, x: int)
    ensures BitAnd(n, x, 0) == 0
  {
    if n > 0 {
      AndZeroRight(n - 1, x / 2);
    }
  }

  /** How the halves of x and of y * 2^k relate to x, y and 2^(k-1). */
  lemma HalfStep(x: int, y: int, p: int, w: int)
    requires p > 0
    ensures (y * (2 * p)) / 2 == y * p && (y * (2 * p)) % 2 == 0
    ensures x / (2 * p) == (x / 2) / p && x % (2 * p) == 2 * ((x / 2) % p) + x % 2
    ensures (2 * p) * w == 2 * (p * w)
  {
    assert y * (2 * p) == 2 * (y * p);
    var q, r := (x / 2) / p, (x / 2) % p;
    assert x / 2 == q * p + r;
    assert q * (2 * p) == 2 * (q * p);
    DivModUnique(x, 2 * p, q, 2 * r + x % 2);
  }

  /** And, or, xor with a multiple of 2^k act on the bits from k upwards only. */
  lemma {:induction false} ActsAbove(k: nat, x: int, y: int, n: nat)
    ensures Pow(2, k) > 0
    ensures BitAnd(k + n, x, y * Pow(2, k)) == Pow(2, k) * BitAnd(n, x / Pow(2, k), y)
    ensures BitOr(k + n, x, y * Pow(2, k)) == x % Pow(2, k) + Pow(2, k) * BitOr(n, x / Pow(2, k), y)
    ensures BitXor(k + n, x, y * Pow(2, k)) == x % Pow(2, k) + Pow(2, k) * BitXor(n, x / Pow(2, k), y)
  {
    PowPositive(2, k);
    if k == 0 {
      DivModUnique(x, 1, x, 0);
    } else {
      var p := Pow(2, k - 1);
      var q := (x / 2) / p;
      ActsAbove(k - 1, x / 2, y, n);
      HalfStep(x, y, p, BitAnd(n, q, y));
      HalfStep(x, y, p, BitOr(n, q, y));
      HalfStep(x, y, p, BitXor(n, q, y));
    }
  }

  /** The masks of the key clamp (section 5.1.5 of RFC 8032). */
  lemma Pow2Literals()
    ensures Pow(2, 3) == 8 && Pow(2, 5) == 32 && Pow(2, 6) == 64 && Pow(2, 7) == 128 && Pow(2, 8) == 256
  {
  }

  lemma AndMask248(x: int)
    requires 0 <= x < 256
    ensures BitAnd(8, x, 248) == x - x % 8
  {
    hide BitAnd, BitOr, BitXor, Pow;
    var y := x / 8;
    Pow2Literals();
    AndLowMask(5, 5, y);
    ActsAbove(3, x, 31, 5);
    assert BitAnd(5, y, 31) == y % 32;
    assert BitAnd(8, x, 248) == 8 * (y % 32);
  }

  lemma AndMask127(x: int)
    requires 0 <= x < 256
    ensures BitAnd(8, x, 127) == x % 128
  {
    hide BitAnd, Pow;
    Pow2Literals();
    AndLowMask(8, 7, x);
  }

  lemma OrMask64(x: int)
    requires 0 <= x < 128
    ensures BitOr(8, x, 64) == if x < 64 then x + 64 else x
  {
    hide BitAnd, BitOr, BitXor, Pow;
    Pow2Literals();
    ActsAbove(6, x, 1, 2);
    OrOne(x / 64);
  }

  lemma OrOne(h: int)
    requires 0 <= h <= 1
    ensures BitOr(2, h, 1) == 1
  {
    assert h / 2 == 0 && BitOr(1, 0, 0) == 0;
  }

  /** Flipping the clear top bit of a byte (the x parity of a packed point). */
  lemma XorTopBit(x: int, bit: int)
    requires 0 <= x < 128 && 0 <= bit <= 1
    ensures BitXor(8, x, bit * 128) == x + 128 * bit
  {
    assert Pow(2, 7) == 128;
    ActsAbove(7, x, bit, 1);
    DivModUnique(x, 128, 0, x);
    assert BitXor(1, 0, bit) == bit;
  }
}
