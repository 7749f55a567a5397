/** Powers and congruences over the integers. */
module Arith {

  function Pow(b: int, e: nat): int {
    if e == 0 then 1 else b * Pow(b, e - 1)
  }

  lemma {:induction false} PowPositive(b: int, e: nat)
    requires b > 0
    ensures Pow(b, e) > 0
  {
    if e > 0 {
      PowPositive(b, e - 1);
      MulPositive(b, Pow(b, e - 1));
    }
  }

  lemma MulPositive(a: int, b: int)
    requires a > 0 && b > 0
    ensures a * b > 0
  {}

  lemma {:induction false} PowAdd(b: int, m: nat, n: nat)
    ensures Pow(b, m + n) == Pow(b, m) * Pow(b, n)
  {
    if m > 0 {
      PowAdd(b, m - 1, n);
      MulAssociative(b, Pow(b, m - 1), Pow(b, n));
    }
  }

  lemma MulAssociative(a: int, b: int, c: int)
    ensures a * b * c == a * (b * c)
  {}

  const TWO_256: int := 0x1_0000_0000_0000_0000_0000_0000_0000_0000_0000_0000_0000_0000_0000_0000_0000_0000

  /** The literal powers of the two radices that the code relies on. */
  lemma RadixPowers()
    ensures Pow(65536, 16) == TWO_256 && Pow(256, 32) == TWO_256
    ensures Pow(256, 31) == 0x1_00_0000_0000_0000_0000_0000_0000_0000_0000_0000_0000_0000_0000_0000_0000_0000
  {
    assert Pow(65536, 4) == 0x1_0000_0000_0000_0000;
    PowAdd(65536, 4, 4);
    PowAdd(65536, 8, 8);
    assert Pow(256, 4) == 0x1_0000_0000;
    PowAdd(256, 4, 4);
    PowAdd(256, 8, 8);
    PowAdd(256, 16, 16);
    assert Pow(256, 32) == 256 * Pow(256, 31);
  }

  // ---------------------------------------------------------------- congruence

  ghost predicate DiffersBy(a: int, b: int, m: int, k: int) {
    a == b + k * m
  }

  /** a and b differ by a multiple of m. */
  ghost predicate Cong(a: int, b: int, m: int) {
    exists k :: DiffersBy(a, b, m, k)
  }

  lemma CongBy(a: int, b: int, m: int, k: int)
    requires a == b + k * m
    ensures Cong(a, b, m)
  {
    assert DiffersBy(a, b, m, k);
  }

  lemma CongRefl(a: int, m: int)
    ensures Cong(a, a, m)
  {
    CongBy(a, a, m, 0);
  }

  lemma CongSym(a: int, b: int, m: int)
    requires Cong(a, b, m)
    ensures Cong(b, a, m)
  {
    var k :| DiffersBy(a, b, m, k);
    assert (-k) * m == -(k * m);
    CongBy(b, a, m, -k);
  }

  lemma CongTrans(a: int, b: int, c: int, m: int)
    requires Cong(a, b, m) && Cong(b, c, m)
    ensures Cong(a, c, m)
  {
    var k :| DiffersBy(a, b, m, k);
    var l :| DiffersBy(b, c, m, l);
    assert (k + l) * m == k * m + l * m;
    CongBy(a, c, m, k + l);
  }

  lemma CongAdd(a: int, b: int, c: int, d: int, m: int)
    requires Cong(a, b, m) && Cong(c, d, m)
    ensures Cong(a + c, b + d, m)
  {
    var k :| DiffersBy(a, b, m, k);
    var l :| DiffersBy(c, d, m, l);
    assert (k + l) * m == k * m + l * m;
    CongBy(a + c, b + d, m, k + l);
  }

  lemma CongSub(a: int, b: int, c: int, d: int, m: int)
    requires Cong(a, b, m) && Cong(c, d, m)
    ensures Cong(a - c, b - d, m)
  {
    var k :| DiffersBy(a, b, m, k);
    var l :| DiffersBy(c, d, m, l);
    assert (k - l) * m == k * m - l * m;
    CongBy(a - c, b - d, m, k - l);
  }

  lemma CongMul(a: int, b: int, c: int, d: int, m: int)
    requires Cong(a, b, m) && Cong(c, d, m)
    ensures Cong(a * c, b * d, m)
  {
    var k :| DiffersBy(a, b, m, k);
    var l :| DiffersBy(c, d, m, l);
    calc {
      a * c;
      (b + k * m) * (d + l * m);
      b * d + b * (l * m) + (k * m) * d + (k * m) * (l * m);
      { MulAssociative(b, l, m); MulAssociative(k, d, m); assert (k * m) * d == k * (d * m); MulAssociative(k * m, l, m); }
      b * d + (b * l) * m + (k * d) * m + (k * m * l) * m;
      b * d + (b * l + k * d + k * m * l) * m;
    }
    CongBy(a * c, b * d, m, b * l + k * d + k * m * l);
  }

  lemma CongMod(a: int, m: int)
    requires m > 0
    ensures Cong(a % m, a, m)
  {
    assert a == (a / m) * m + a % m;
    assert a % m == a + (-(a / m)) * m;
    CongBy(a % m, a, m, -(a / m));
  }

  /** Two residues in the same range that are congruent are equal. */
  lemma CongUnique(a: int, b: int, m: int)
    requires 0 <= a < m && 0 <= b < m
    requires Cong(a, b, m)
    ensures a == b
  {
    var k :| DiffersBy(a, b, m, k);
    if k >= 1 {
      MulMonotone(1, k, m);
    } else if k <= -1 {
      MulMonotone(k, -1, m);
    }
  }

  lemma MulMonotone(a: int, b: int, c: int)
    requires a <= b && c >= 0
    ensures a * c <= b * c
  {}

  /** Congruence is equality of residues. */
  lemma CongIffMod(a: int, b: int, m: int)
    requires m > 0
    ensures Cong(a, b, m) <==> a % m == b % m
  {
    CongMod(a, m);
    CongMod(b, m);
    if Cong(a, b, m) {
      CongTrans(a % m, a, b, m);
      CongSym(b % m, b, m);
      CongTrans(a % m, b, b % m, m);
      CongUnique(a % m, b % m, m);
    }
    if a % m == b % m {
      CongSym(a % m, a, m);
      CongTrans(a, b % m, b, m);
    }
  }

  /** The quotient and remainder are determined by their ranges. */
  lemma DivModUnique(x: int, m: int, q: int, r: int)
    requires m > 0 && 0 <= r < m && x == q * m + r
    ensures x / m == q && x % m == r
  {
    CongBy(x, r, m, q);
    CongIffMod(x, r, m);
    CongMod(x, m);
    CongTrans(x % m, x, r, m);
    CongUnique(x % m, r, m);
    assert (x / m) * m == q * m;
    MulCancel(x / m, q, m);
  }

  lemma MulCancel(a: int, b: int, c: int)
    requires c > 0 && a * c == b * c
    ensures a == b
  {
    if a < b {
      MulMonotone(a + 1, b, c);
    } else if b < a {
      MulMonotone(b + 1, a, c);
    }
  }
}
