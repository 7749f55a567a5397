/**
 What the limb code of GF(2^255 - 19) computes, as functions on sequences of 16
 limbs in radix 2^16, and what those functions mean modulo p.
 */
module FieldSpec {
  import opened Arith
  import opened Radix

  const P: int := 0x7fff_ffff_ffff_ffff_ffff_ffff_ffff_ffff_ffff_ffff_ffff_ffff_ffff_ffff_ffff_ffed

  /** Limbs up to this magnitude keep every carry pass inside int64_t. */
  const CARRY_LIMIT: int := 0x4000_0000_0000_0000

  /** Limbs up to this magnitude keep a multiplication inside int64_t. */
  const MUL_LIMIT: int := 0x400_0000

  /** The number held by field limbs. */
  function Val(s: seq<int>): int {
    Eval(65536, s)
  }

  /** Congruent modulo p.  The trigger keeps the definition folded until a proof speaks of Cong. */
  ghost predicate Eq(a: int, b: int) {
    forall m {:trigger Cong(a, b, m)} :: m == P ==> Cong(a, b, m)
  }

  /** The range of a product: limb 0 may stray by one fold of 38. */
  ghost predicate Tight(s: seq<int>) {
    |s| == 16 && -38 <= s[0] <= 65573 && Within(s[1..], 0, 65535)
  }

  ghost predicate Digits16(s: seq<int>) {
    |s| == 16 && Within(s, 0, 65535)
  }

  lemma Val16(s: seq<int>)
    requires |s| == 16
    ensures Val(s) == s[0] + s[1] * 0x1_0000 + s[2] * 0x1_0000_0000 + s[3] * 0x1_0000_0000_0000
                      + 0x1_0000_0000_0000_0000 * (s[4] + s[5] * 0x1_0000 + s[6] * 0x1_0000_0000 + s[7] * 0x1_0000_0000_0000)
                      + 0x1_0000_0000_0000_0000_0000_0000_0000_0000
                        * (s[8] + s[9] * 0x1_0000 + s[10] * 0x1_0000_0000 + s[11] * 0x1_0000_0000_0000)
                      + 0x1_0000_0000_0000_0000_0000_0000_0000_0000_0000_0000_0000_0000
                        * (s[12] + s[13] * 0x1_0000 + s[14] * 0x1_0000_0000 + s[15] * 0x1_0000_0000_0000)
  {
    assert Pow(65536, 4) == 0x1_0000_0000_0000_0000;
    assert s == s[..4] + (s[4..8] + (s[8..12] + s[12..16]));
    EvalConcat(65536, s[8..12], s[12..16]);
    EvalConcat(65536, s[4..8], s[8..12] + s[12..16]);
    EvalConcat(65536, s[..4], s[4..8] + (s[8..12] + s[12..16]));
    Eval4(65536, s[..4]);
    Eval4(65536, s[4..8]);
    Eval4(65536, s[8..12]);
    Eval4(65536, s[12..16]);
  }

  // ---------------------------------------------------------------- carrying

  /** One pass of car25519: carry through the limbs, fold the top carry back times 38. */
  function Carry(s: seq<int>): (r: seq<int>)
    requires |s| == 16
    ensures |r| == 16
  {
    var p := Ripple(65536, 0, s, 0);
    p.digits[0 := p.digits[0] + 38 * p.carry]
  }

  /** The fold on numbers: 2^256 is worth 38 modulo p. */
  function Fold(v: int): int {
    v % TWO_256 + 38 * (v / TWO_256)
  }

  lemma FoldCongruent(v: int)
    ensures Eq(Fold(v), v)
  {
    var q := v / TWO_256;
    assert v == q * TWO_256 + v % TWO_256;
    assert TWO_256 == 2 * P + 38;
    assert Fold(v) == v + (-2 * q) * P;
    CongBy(Fold(v), v, P, -2 * q);
  }

  lemma {:induction false} CarryDivMod(s: seq<int>)
    requires |s| == 16
    ensures Ripple(65536, 0, s, 0).carry == Val(s) / TWO_256
    ensures Val(Ripple(65536, 0, s, 0).digits) == Val(s) % TWO_256
  {
    RadixPowers();
    RippleIsDivMod(65536, s, 0);
  }

  /** One pass folds the number, so it keeps the residue modulo p. */
  lemma CarryValue(s: seq<int>)
    requires |s| == 16
    ensures Val(Carry(s)) == Fold(Val(s)) && Eq(Val(Carry(s)), Val(s))
  {
    var p := Ripple(65536, 0, s, 0);
    CarryDivMod(s);
    EvalUpdate(65536, p.digits, 0, p.digits[0] + 38 * p.carry);
    FoldCongruent(Val(s));
  }

  lemma CarryShape(s: seq<int>)
    requires |s| == 16
    ensures Within(Carry(s)[1..], 0, 65535)
    ensures 0 <= Carry(s)[0] - 38 * (Val(s) / TWO_256) <= 65535
  {
    RippleDigits(65536, 0, s, 0);
    CarryDivMod(s);
  }

  lemma ValueBound(s: seq<int>)
    requires |s| == 16 && Within(s, -CARRY_LIMIT, CARRY_LIMIT)
    ensures -0x8000_0000_0000 <= Val(s) / TWO_256 <= 0x8000_0000_0000
  {
    RippleCarryBound(65536, 0, s, 0, CARRY_LIMIT, 0x8000_0000_0000);
    CarryDivMod(s);
  }

  /** After one pass the number is within one fold of [0, 2^256); after two it is inside. */
  lemma FoldTwice(v: int)
    requires -0x8000_0000_0000 <= v / TWO_256 <= 0x8000_0000_0000
    ensures -1 <= Fold(v) / TWO_256 <= 1
    ensures 0 <= Fold(Fold(v)) < TWO_256
  {
    var w := Fold(v);
    assert -38 * 0x8000_0000_0000 <= w < TWO_256 + 38 * 0x8000_0000_0000;
    if w < 0 {
      DivModUnique(w, TWO_256, -1, w + TWO_256);
    } else if w < TWO_256 {
      DivModUnique(w, TWO_256, 0, w);
    } else {
      DivModUnique(w, TWO_256, 1, w - TWO_256);
    }
  }

  lemma CarryOnce(s: seq<int>)
    requires |s| == 16 && Within(s, -CARRY_LIMIT, CARRY_LIMIT)
    ensures Within(Carry(s), -CARRY_LIMIT, CARRY_LIMIT)
  {
    ValueBound(s);
    CarryShape(s);
    forall i | 0 <= i < 16
      ensures -CARRY_LIMIT <= Carry(s)[i] <= CARRY_LIMIT
    {
      if i > 0 {
        assert Carry(s)[i] == Carry(s)[1..][i - 1];
      }
    }
  }

  /** Two passes bring any limbs into the range of a product. */
  lemma CarryTwice(s: seq<int>)
    requires |s| == 16 && Within(s, -CARRY_LIMIT, CARRY_LIMIT)
    ensures Tight(Carry(Carry(s)))
    ensures Val(Carry(Carry(s))) == Fold(Fold(Val(s)))
    ensures Eq(Val(Carry(Carry(s))), Val(s))
  {
    ValueBound(s);
    FoldTwice(Val(s));
    CarryValue(s);
    CarryValue(Carry(s));
    CarryShape(Carry(s));
    CongTrans(Val(Carry(Carry(s))), Val(Carry(s)), Val(s), P);
  }

  /** Three passes leave plain digits. */
  lemma CarryThrice(s: seq<int>)
    requires |s| == 16 && Within(s, -CARRY_LIMIT, CARRY_LIMIT)
    ensures Digits16(Carry(Carry(Carry(s))))
    ensures Eq(Val(Carry(Carry(Carry(s)))), Val(s))
  {
    var t := Carry(Carry(s));
    ValueBound(s);
    FoldTwice(Val(s));
    CarryTwice(s);
    CarryValue(t);
    CarryShape(t);
    DivModUnique(Val(t), TWO_256, 0, Val(t));
    forall i | 0 <= i < 16
      ensures 0 <= Carry(t)[i] <= 65535
    {
      if i > 0 {
        assert Carry(t)[i] == Carry(t)[1..][i - 1];
      }
    }
    CongTrans(Val(Carry(t)), Val(t), Val(s), P);
  }

  // ---------------------------------------------------------------- canonical form

  const P_LIMBS: seq<int> := [0xffed, 0xffff, 0xffff, 0xffff, 0xffff, 0xffff, 0xffff, 0xffff,
                              0xffff, 0xffff, 0xffff, 0xffff, 0xffff, 0xffff, 0xffff, 0x7fff]

  function LimbwiseMinusP(t: seq<int>): (d: seq<int>)
    requires |t| == 16
    ensures |d| == 16
  {
    seq(16, i requires 0 <= i < 16 => t[i] - P_LIMBS[i])
  }

  /** The trial subtraction of p in pack25519; a borrow out shows as carry == -1. */
  function MinusP(t: seq<int>): (r: Rippled)
    requires |t| == 16
    ensures |r.digits| == 16
  {
    Ripple(65536, 0, LimbwiseMinusP(t), 0)
  }

  /** Subtracting digits from digits borrows at most one. */
  lemma {:induction false} BorrowRange(d: seq<int>)
    requires Within(d, -65535, 65535)
    ensures -1 <= Ripple(65536, 0, d, 0).carry <= 0
  {
    if |d| > 0 {
      BorrowRange(d[..|d| - 1]);
    }
  }

  /** t - p if that is not negative, otherwise t. */
  function SubtractIfAbove(t: seq<int>): (r: seq<int>)
    requires |t| == 16
    ensures |r| == 16
  {
    if MinusP(t).carry == -1 then t else MinusP(t).digits
  }

  lemma PLimbsValue()
    ensures Val(P_LIMBS) == P
  {
    Val16(P_LIMBS);
  }

  lemma SubtractIfAboveValue(t: seq<int>)
    requires Digits16(t)
    ensures Digits16(SubtractIfAbove(t))
    ensures Val(SubtractIfAbove(t)) == if Val(t) >= P then Val(t) - P else Val(t)
    ensures MinusP(t).carry == if Val(t) >= P then 0 else -1
  {
    var d := LimbwiseMinusP(t);
    EvalLinear(65536, d, t, P_LIMBS, -1);
    PLimbsValue();
    RadixPowers();
    DigitsRange(65536, t);
    RippleIsDivMod(65536, d, 0);
    RippleDigits(65536, 0, d, 0);
    var w := Val(t) - P;
    if w >= 0 {
      DivModUnique(w, TWO_256, 0, w);
    } else {
      DivModUnique(w, TWO_256, -1, w + TWO_256);
    }
  }

  /** The limbs that pack25519 writes out as bytes. */
  function Canonical(n: seq<int>): (r: seq<int>)
    requires |n| == 16
    ensures |r| == 16
  {
    SubtractIfAbove(SubtractIfAbove(Carry(Carry(Carry(n)))))
  }

  /** Two subtractions are enough, since 2^256 - 1 == 2p + 37: the canonical limbs hold n mod p. */
  lemma CanonicalValue(n: seq<int>)
    requires |n| == 16 && Within(n, -CARRY_LIMIT, CARRY_LIMIT)
    ensures Digits16(Canonical(n)) && Val(Canonical(n)) == Val(n) % P
  {
    var t := Carry(Carry(Carry(n)));
    CarryThrice(n);
    RadixPowers();
    DigitsRange(65536, t);
    var u := SubtractIfAbove(t);
    SubtractIfAboveValue(t);
    SubtractIfAboveValue(u);
    var k := if Val(t) < P then 0 else if Val(t) < 2 * P then 1 else 2;
    assert Val(Canonical(n)) == Val(t) - k * P;
    CongBy(Val(Canonical(n)), Val(t), P, -k);
    CongTrans(Val(Canonical(n)), Val(t), Val(n), P);
    CongIffMod(Val(Canonical(n)), Val(n), P);
    DivModUnique(Val(Canonical(n)), P, 0, Val(Canonical(n)));
  }

  // ---------------------------------------------------------------- multiplication

  /** The terms a[i] * b[k - i] with i < n: what limb k of the product has received after n rows. */
  function Dot(a: seq<int>, b: seq<int>, k: int, n: nat): int
    requires n <= |a|
  {
    if n == 0 then 0 else Dot(a, b, k, n - 1) + Term(a, b, k, n - 1)
  }

  function Term(a: seq<int>, b: seq<int>, k: int, i: nat): int
    requires i < |a|
  {
    if 0 <= k - i < |b| then a[i] * b[k - i] else 0
  }

  function Conv(a: seq<int>, b: seq<int>, len: nat, n: nat): (r: seq<int>)
    requires n <= |a|
    ensures |r| == len
  {
    seq(len, k requires 0 <= k => Dot(a, b, k, n))
  }

  /** Row i of the schoolbook product. */
  lemma RowValue(base: int, a: seq<int>, b: seq<int>, len: nat, i: nat)
    requires i < |a| && len >= |a| + |b|
    ensures Eval(base, seq(len, k requires 0 <= k => Term(a, b, k, i))) == a[i] * Pow(base, i) * Eval(base, b)
  {
    var row := seq(len, k requires 0 <= k => Term(a, b, k, i));
    hide Pow, Eval;
    var lo := seq(i, _ => 0);
    var mid := seq(|b|, j requires 0 <= j < |b| => a[i] * b[j]);
    var hi := seq(len - i - |b|, _ => 0);
    assert row == lo + (mid + hi);
    EvalZero(base, lo);
    EvalZero(base, hi);
    EvalZero(base, seq(|b|, _ => 0));
    EvalLinear(base, mid, seq(|b|, _ => 0), b, a[i]);
    EvalConcat(base, mid, hi);
    EvalConcat(base, lo, mid + hi);
    Commute3(Pow(base, i), a[i], Eval(base, b));
  }

  lemma Commute3(p: int, x: int, e: int)
    ensures p * (x * e) == x * p * e
  {}

  lemma AddRow(base: int, a: seq<int>, b: seq<int>, len: nat, n: nat)
    requires 0 < n <= |a| && len >= |a| + |b|
    ensures Eval(base, Conv(a, b, len, n))
            == Eval(base, Conv(a, b, len, n - 1)) + a[n - 1] * Pow(base, n - 1) * Eval(base, b)
  {
    var row := seq(len, k requires 0 <= k => Term(a, b, k, n - 1));
    RowValue(base, a, b, len, n - 1);
    EvalLinear(base, Conv(a, b, len, n), Conv(a, b, len, n - 1), row, 1);
  }

  lemma Distribute(p: int, q: int, r: int)
    ensures p * r + q * r == (p + q) * r
  {}

  /** The schoolbook product of limbs is the product of the numbers, in any radix. */
  lemma {:induction false} ConvValue(base: int, a: seq<int>, b: seq<int>, len: nat, n: nat)
    requires n <= |a| && len >= |a| + |b|
    ensures Eval(base, Conv(a, b, len, n)) == Eval(base, a[..n]) * Eval(base, b)
  {
    if n == 0 {
      EvalZero(base, Conv(a, b, len, 0));
    } else {
      ConvValue(base, a, b, len, n - 1);
      AddRow(base, a, b, len, n);
      assert a[..n][..n - 1] == a[..n - 1];
      Distribute(Eval(base, a[..n - 1]), a[n - 1] * Pow(base, n - 1), Eval(base, b));
    }
  }

  lemma {:induction false} DotBound(a: seq<int>, b: seq<int>, k: int, n: nat, x: int, y: int)
    requires n <= |a| && x >= 0 && y >= 0 && Within(a, -x, x) && Within(b, -y, y)
    ensures -(n * (x * y)) <= Dot(a, b, k, n) <= n * (x * y)
  {
    if n > 0 {
      DotBound(a, b, k, n - 1, x, y);
      assert n * (x * y) == (n - 1) * (x * y) + x * y;
      TermBound(a, b, k, n - 1, x, y);
    }
  }

  lemma TermBound(a: seq<int>, b: seq<int>, k: int, i: nat, x: int, y: int)
    requires i < |a| && x >= 0 && y >= 0 && Within(a, -x, x) && Within(b, -y, y)
    ensures -(x * y) <= Term(a, b, k, i) <= x * y
  {
    if 0 <= k - i < |b| {
      ProductBound(a[i], b[k - i], x, y);
    } else {
      assert x * y >= 0;
    }
  }

  lemma ProductBound(u: int, v: int, x: int, y: int)
    requires -x <= u <= x && -y <= v <= y
    ensures -(x * y) <= u * v <= x * y
  {
    assert (x - u) * (y + v) >= 0 && (x + u) * (y - v) >= 0;
    assert (x - u) * (y - v) >= 0 && (x + u) * (y + v) >= 0;
  }

  /** The upper half of the product folded down times 38. */
  function FoldLimbs(t: seq<int>): (r: seq<int>)
    requires |t| == 31
    ensures |r| == 16
  {
    seq(16, i requires 0 <= i < 16 => if i < 15 then t[i] + 38 * t[i + 16] else t[i])
  }

  lemma FoldLimbsValue(t: seq<int>)
    requires |t| == 31
    ensures Eq(Val(FoldLimbs(t)), Val(t))
  {
    var lo, hi := t[..16], t[16..] + [0];
    assert t == lo + t[16..];
    EvalConcat(65536, lo, t[16..]);
    assert hi[..15] == t[16..];
    assert Val(hi) == Val(t[16..]);
    EvalLinear(65536, FoldLimbs(t), lo, hi, 38);
    RadixPowers();
    assert TWO_256 == 2 * P + 38;
    assert Val(FoldLimbs(t)) == Val(t) + (-2 * Val(hi)) * P;
    CongBy(Val(FoldLimbs(t)), Val(t), P, -2 * Val(hi));
  }

  /** What M leaves in its output. */
  function MulLimbs(a: seq<int>, b: seq<int>): (r: seq<int>)
    requires |a| == |b| == 16
    ensures |r| == 16
  {
    Carry(Carry(FoldLimbs(Conv(a, b, 31, 16))))
  }

  ghost predicate Mulable(s: seq<int>) {
    |s| == 16 && Within(s, -MUL_LIMIT, MUL_LIMIT)
  }

  lemma FoldedBound(a: seq<int>, b: seq<int>)
    requires Mulable(a) && Mulable(b)
    ensures Within(Conv(a, b, 31, 16), -0x100_0000_0000_0000, 0x100_0000_0000_0000)
    ensures Within(FoldLimbs(Conv(a, b, 31, 16)), -CARRY_LIMIT, CARRY_LIMIT)
  {
    var t := Conv(a, b, 31, 16);
    forall k | 0 <= k < 31
      ensures -0x100_0000_0000_0000 <= t[k] <= 0x100_0000_0000_0000
    {
      DotBound(a, b, k, 16, MUL_LIMIT, MUL_LIMIT);
    }
  }

  /** The 31 limbs of the full product hold the product. */
  lemma FullProduct(a: seq<int>, b: seq<int>)
    requires |a| == |b| == 16
    ensures Val(Conv(a, b, 31, 16)) == Val(a) * Val(b)
  {
    var full := Conv(a, b, 32, 16);
    ConvValue(65536, a, b, 32, 16);
    assert a[..16] == a;
    assert full[..31] == Conv(a, b, 31, 16);
    TopLimbEmpty(a, b, 16);
  }

  /** M multiplies modulo p, and its result is in the range of a product. */
  lemma MulValue(a: seq<int>, b: seq<int>)
    requires Mulable(a) && Mulable(b)
    ensures Eq(Val(MulLimbs(a, b)), Val(a) * Val(b))
    ensures Tight(MulLimbs(a, b))
  {
    var t := Conv(a, b, 31, 16);
    FoldedBound(a, b);
    CarryTwice(FoldLimbs(t));
    FoldLimbsValue(t);
    FullProduct(a, b);
    CongTrans(Val(MulLimbs(a, b)), Val(FoldLimbs(t)), Val(t), P);
  }

  lemma {:induction false} TopLimbEmpty(a: seq<int>, b: seq<int>, n: nat)
    requires n <= |a|
    ensures Dot(a, b, |a| + |b| - 1, n) == 0
  {
    if n > 0 {
      TopLimbEmpty(a, b, n - 1);
    }
  }

  // ---------------------------------------------------------------- sums

  function AddLimbs(a: seq<int>, b: seq<int>): (r: seq<int>)
    requires |a| == |b| == 16
    ensures |r| == 16
  {
    seq(16, i requires 0 <= i < 16 => a[i] + b[i])
  }

  function SubLimbs(a: seq<int>, b: seq<int>): (r: seq<int>)
    requires |a| == |b| == 16
    ensures |r| == 16
  {
    seq(16, i requires 0 <= i < 16 => a[i] - b[i])
  }

  lemma SumValues(a: seq<int>, b: seq<int>)
    requires |a| == |b| == 16
    ensures Val(AddLimbs(a, b)) == Val(a) + Val(b)
    ensures Val(SubLimbs(a, b)) == Val(a) - Val(b)
  {
    EvalLinear(65536, AddLimbs(a, b), a, b, 1);
    EvalLinear(65536, SubLimbs(a, b), a, b, -1);
  }

  lemma SumBounds(a: seq<int>, b: seq<int>, x: int, y: int)
    requires |a| == |b| == 16 && Within(a, -x, x) && Within(b, -y, y)
    ensures Within(AddLimbs(a, b), -(x + y), x + y)
    ensures Within(SubLimbs(a, b), -(x + y), x + y)
  {
  }

  lemma TightWithin(s: seq<int>)
    requires Tight(s)
    ensures Within(s, -65573, 65573) && Mulable(s)
  {
    forall i | 0 <= i < 16
      ensures -65573 <= s[i] <= 65573
    {
      if i > 0 {
        assert s[i] == s[1..][i - 1];
      }
    }
  }
}
