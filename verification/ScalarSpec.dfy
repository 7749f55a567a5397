/**
 What modL computes on its 64 limbs in signed radix 256: the residue modulo the
 group order L, and exactly when the bytes it writes are that residue.
 */
module ScalarSpec {
  import opened Arith
  import opened Radix

  /** The order of the base point, 2^252 + 27742317777372353535851937790883648493. */
  const L: int := 0x1000_0000_0000_0000_0000_0000_0000_0000_14de_f9de_a2f7_9cd6_5812_631a_5cf5_d3ed
  const TWO_252: int := 0x1000_0000_0000_0000_0000_0000_0000_0000_0000_0000_0000_0000_0000_0000_0000_0000
  const TWO_248: int := 0x100_0000_0000_0000_0000_0000_0000_0000_0000_0000_0000_0000_0000_0000_0000_0000

  const L_BYTES: seq<int> := [0xed, 0xd3, 0xf5, 0x5c, 0x1a, 0x63, 0x12, 0x58,
                              0xd6, 0x9c, 0xf7, 0xa2, 0xde, 0xf9, 0xde, 0x14,
                              0, 0, 0, 0, 0, 0, 0, 0, 0, 0, 0, 0, 0, 0, 0, 0x10]

  /** The largest limb of r + h * a before reduction: 255 + 32 * 255 * 255. */
  const LIMB_MAX: int := 2081055

  /** Sixteen bytes, four at a time. */
  lemma SixteenBytes(s: seq<int>)
    requires |s| == 16
    ensures Eval(256, s) == s[0] + s[1] * 0x100 + s[2] * 0x1_0000 + s[3] * 0x100_0000
                            + 0x1_0000_0000 * (s[4] + s[5] * 0x100 + s[6] * 0x1_0000 + s[7] * 0x100_0000)
                            + 0x1_0000_0000_0000_0000 * (s[8] + s[9] * 0x100 + s[10] * 0x1_0000 + s[11] * 0x100_0000)
                            + 0x1_0000_0000_0000_0000_0000_0000
                              * (s[12] + s[13] * 0x100 + s[14] * 0x1_0000 + s[15] * 0x100_0000)
  {
    assert Pow(256, 2) == 0x1_0000 && Pow(256, 3) == 0x100_0000 && Pow(256, 4) == 0x1_0000_0000;
    assert s == s[..4] + (s[4..8] + (s[8..12] + s[12..16]));
    EvalConcat(256, s[8..12], s[12..16]);
    EvalConcat(256, s[4..8], s[8..12] + s[12..16]);
    EvalConcat(256, s[..4], s[4..8] + (s[8..12] + s[12..16]));
    Eval4(256, s[..4]);
    Eval4(256, s[4..8]);
    Eval4(256, s[8..12]);
    Eval4(256, s[12..16]);
  }

  lemma LBytesLength()
    ensures |L_BYTES| == 32
  {
  }

  lemma LBytesValue()
    ensures Eval(256, L_BYTES) == L
    ensures Eval(256, L_BYTES[..20]) == L - TWO_252
  {
    var low := L_BYTES[..16];
    SixteenBytes(low);
    WithZeros(low, L_BYTES[16..20]);
    assert low + L_BYTES[16..20] == L_BYTES[..20];
    WithZeros(low, L_BYTES[16..31]);
    assert low + L_BYTES[16..31] == L_BYTES[..31];
    RadixPowers();
    assert L_BYTES[..|L_BYTES| - 1] == L_BYTES[..31];
  }

  lemma WithZeros(s: seq<int>, z: seq<int>)
    requires Within(z, 0, 0)
    ensures Eval(256, s + z) == Eval(256, s)
  {
    EvalConcat(256, s, z);
    EvalZero(256, z);
  }

  // ---------------------------------------------------------------- one row

  /** The twenty limbs that row i subtracts from, before the carries. */
  function RowInput(x: seq<int>, i: nat): (w: seq<int>)
    requires |x| == 64 && 32 <= i < 64
    ensures |w| == 20
  {
    seq(20, k requires 0 <= k < 20 => x[i - 32 + k] - 16 * x[i] * L_BYTES[k])
  }

  function RowRipple(x: seq<int>, i: nat): (r: Rippled)
    requires |x| == 64 && 32 <= i < 64
    ensures |r.digits| == 20
  {
    Ripple(256, 128, RowInput(x, i), 0)
  }

  /** The limbs after row i: twenty balanced digits, the carry on limb i - 12, limb i gone. */
  function Row(x: seq<int>, i: nat): (y: seq<int>)
    requires |x| == 64 && 32 <= i < 64
    ensures |y| == 64
  {
    var r := RowRipple(x, i);
    x[..i - 32] + r.digits + [x[i - 12] + r.carry] + x[i - 11..i] + [0] + x[i + 1..]
  }

  lemma RowSplit(x: seq<int>, i: nat)
    requires |x| == 64 && 32 <= i < 64
    ensures x == x[..i - 32] + (x[i - 32..i - 12] + ([x[i - 12]] + x[i - 11..]))
    ensures var r := RowRipple(x, i);
            Row(x, i) == x[..i - 32] + (r.digits + ([x[i - 12] + r.carry] + x[i - 11..][11 := 0]))
  {
    hide RowRipple;
    var r := RowRipple(x, i);
    assert x[i - 11..][11 := 0] == x[i - 11..i] + [0] + x[i + 1..];
  }

  lemma RowInputValue(x: seq<int>, i: nat)
    requires |x| == 64 && 32 <= i < 64
    ensures var r := RowRipple(x, i);
            Eval(256, r.digits) + r.carry * Pow(256, 20)
            == Eval(256, x[i - 32..i - 12]) + (-16 * x[i]) * (L - TWO_252)
  {
    EvalLinear(256, RowInput(x, i), x[i - 32..i - 12], L_BYTES[..20], -16 * x[i]);
    RippleValue(256, 128, RowInput(x, i), 0);
    LBytesValue();
  }

  /** Row i subtracts exactly 16 x[i] L 256^(i - 32). */
  lemma RowValue(x: seq<int>, i: nat)
    requires |x| == 64 && 32 <= i < 64
    ensures Eval(256, Row(x, i)) == Eval(256, x) - 16 * x[i] * L * Pow(256, i - 32)
  {
    hide *;
    var a, m, c := x[..i - 32], x[i - 32..i - 12], x[i - 11..];
    var r := RowRipple(x, i);
    RowSplit(x, i);
    RowInputValue(x, i);
    EvalUpdate(256, c, 11, 0);
    Pow32();
    Layers(a, m, x[i - 12], c);
    Layers(a, r.digits, x[i - 12] + r.carry, c[11 := 0]);
    RowArith(Eval(256, a), Pow(256, i - 32), Eval(256, m), Eval(256, r.digits), x[i - 12], r.carry,
             Eval(256, c), Eval(256, c[11 := 0]), x[i], Pow(256, 20), Pow(256, 11));
  }

  lemma Pow32()
    ensures Pow(256, 20) * 256 * Pow(256, 11) == TWO_256
  {
    PowAdd(256, 20, 1);
    PowAdd(256, 21, 11);
    RadixPowers();
  }

  /** A number cut in two at weight p. */
  function Cat(lo: int, p: int, hi: int): int {
    lo + p * hi
  }

  lemma EvalCat(s: seq<int>, t: seq<int>)
    ensures Eval(256, s + t) == Cat(Eval(256, s), Pow(256, |s|), Eval(256, t))
  {
    EvalConcat(256, s, t);
  }

  lemma {:induction false} Layers(a: seq<int>, m: seq<int>, t: int, c: seq<int>)
    requires |m| == 20
    ensures Eval(256, a + (m + ([t] + c)))
            == Cat(Eval(256, a), Pow(256, |a|), Cat(Eval(256, m), Pow(256, 20), Cat(t, 256, Eval(256, c))))
  {
    assert Eval(256, [t]) == t;
    assert Pow(256, 1) == 256 * Pow(256, 0) == 256;
    hide Eval, Pow, Cat;
    EvalCat(a, m + ([t] + c));
    EvalCat(m, [t] + c);
    EvalCat([t], c);
  }

  lemma RowArith(a: int, pa: int, m: int, d: int, t: int, carry: int, c: int, c': int, xi: int, p20: int, p11: int)
    requires d + carry * p20 == m + (-16 * xi) * (L - TWO_252)
    requires c' == c + (0 - xi) * p11
    requires p20 * 256 * p11 == TWO_256
    ensures Cat(a, pa, Cat(d, p20, Cat(t + carry, 256, c')))
            == Cat(a, pa, Cat(m, p20, Cat(t, 256, c))) - 16 * xi * L * pa
  {
    var before, after := Cat(m, p20, Cat(t, 256, c)), Cat(d, p20, Cat(t + carry, 256, c'));
    var tail := t + 256 * c;
    MoveTail(p20, tail, carry, xi, p11);
    assert (-16 * xi) * (L - TWO_252) == -16 * xi * L + xi * TWO_256;
    assert after == before - 16 * xi * L;
    assert pa * (before - 16 * xi * L) == pa * before - 16 * xi * L * pa;
  }

  lemma MoveTail(p: int, tail: int, carry: int, x: int, q: int)
    requires p * 256 * q == TWO_256
    ensures p * (tail + carry + 256 * ((0 - x) * q)) == p * tail + carry * p - x * TWO_256
  {
    assert p * (256 * (x * q)) == x * (p * 256 * q);
    assert p * (tail + carry - 256 * (x * q)) == p * tail + p * carry - p * (256 * (x * q));
  }

  // ---------------------------------------------------------------- ranges

  /** Where the limbs may lie once the rows from 63 down to n are done. */
  ghost predicate InRange(x: seq<int>, n: nat) {
    && |x| == 64 && 32 <= n <= 64
    && (forall j :: n <= j < 64 ==> x[j] == 0)
    && (forall j :: 0 <= j < n && (n == 64 || j < n - 32 || j >= 52) ==> 0 <= x[j] <= LIMB_MAX)
    && (n < 64 ==> Within(x[n - 32..n - 12], -128, 127))
    && (51 < n < 64 ==> -8300 <= x[51] <= LIMB_MAX + 8300)
    && (forall j :: n - 12 <= j < n && j <= 50 ==> -129 <= x[j] <= 128)
  }

  lemma RangeAt(x: seq<int>, n: nat, j: nat)
    requires InRange(x, n) && n - 32 <= j < n - 12 && n < 64
    ensures -128 <= x[j] <= 127
  {
    assert x[j] == x[n - 32..n - 12][j - (n - 32)];
  }

  /** Every limb stays small enough to be multiplied by 16 L. */
  lemma LimbBound(x: seq<int>, n: nat)
    requires InRange(x, n)
    ensures Within(x, -0x20_0000, 0x20_0000)
  {
    forall j | 0 <= j < 64
      ensures -0x20_0000 <= x[j] <= 0x20_0000
    {
      if n < 64 && n - 32 <= j < n - 12 {
        RangeAt(x, n, j);
      }
    }
  }

  /** The running carry of a row is bounded at every limb. */
  lemma RowCarryBound(x: seq<int>, i: nat, k: nat)
    requires |x| == 64 && 32 <= i < 64 && k <= 20 && Within(x, -0x20_0000, 0x20_0000)
    ensures -0x400_0000 <= Ripple(256, 128, RowInput(x, i)[..k], 0).carry <= 0x400_0000
  {
    var w := RowInput(x, i);
    forall j | 0 <= j < 20
      ensures -0x1_FE20_0000 <= w[j] <= 0x1_FE20_0000
    {
      ScaledByte(x[i], L_BYTES[j]);
    }
    RippleCarryBound(256, 128, w[..k], 0, 0x1_FE20_0000, 0x400_0000);
  }

  lemma ScaledByte(x: int, l: int)
    requires -0x20_0000 <= x <= 0x20_0000 && 0 <= l <= 255
    ensures -0x1_FE00_0000 <= 16 * x * l <= 0x1_FE00_0000
  {
    MulMonotone(x, 0x20_0000, l);
    MulMonotone(-0x20_0000, x, l);
    assert 16 * x * l == 16 * (x * l);
  }

  /** A limb of magnitude at most d passes on at most (c + d + 128) / 256 of a carry c. */
  lemma TailStep(w: seq<int>, k: nat, lo: int, hi: int, c: int)
    requires k < |w| && c >= 0 && lo <= w[k] <= hi
    requires -c <= Ripple(256, 128, w[..k], 0).carry <= c
    ensures (lo - c + 128) / 256 <= Ripple(256, 128, w[..k + 1], 0).carry <= (hi + c + 128) / 256
  {
    assert w[..k + 1][..k] == w[..k];
  }

  /** Four limbs without a part of L let the carry die down. */
  lemma RowCarryOut(x: seq<int>, i: nat, lo: int, hi: int)
    requires |x| == 64 && 32 <= i < 64 && Within(x, -0x20_0000, 0x20_0000)
    requires (lo == -0x20_0000 && hi == 0x20_0000) || (lo == -128 && hi == 127)
    requires forall j :: i - 16 <= j < i - 12 ==> lo <= x[j] <= hi
    ensures -8300 <= RowRipple(x, i).carry <= 8300
    ensures hi == 127 ==> -1 <= RowRipple(x, i).carry <= 1
  {
    var w := RowInput(x, i);
    RowCarryBound(x, i, 16);
    hide Ripple, Within;
    assert w[16] == x[i - 16] && w[17] == x[i - 15] && w[18] == x[i - 14] && w[19] == x[i - 13];
    hide RowInput, L_BYTES;
    TailStep(w, 16, lo, hi, 0x400_0000);
    if hi == 127 {
      TailStep(w, 17, lo, hi, 0x4_0001);
      TailStep(w, 18, lo, hi, 1026);
      TailStep(w, 19, lo, hi, 5);
    } else {
      TailStep(w, 17, lo, hi, 270337);
      TailStep(w, 18, lo, hi, 9250);
      TailStep(w, 19, lo, hi, 8230);
    }
    assert w[..20] == w;
  }

  /** Each row keeps the ranges. */
  lemma RowInRange(x: seq<int>, i: nat)
    requires 32 <= i < 64 && InRange(x, i + 1)
    ensures InRange(Row(x, i), i)
  {
    LimbBound(x, i + 1);
    if i < 63 {
      forall j | i - 16 <= j < i - 12
        ensures -128 <= x[j] <= 127
      {
        RangeAt(x, i + 1, j);
      }
      RangeAt(x, i + 1, i - 12);
      RowCarryOut(x, i, -128, 127);
    } else {
      RowCarryOut(x, i, -0x20_0000, 0x20_0000);
    }
    RippleDigits(256, 128, RowInput(x, i), 0);
    RowShape(x, i);
  }

  lemma RowShape(x: seq<int>, i: nat)
    requires |x| == 64 && 32 <= i < 64
    ensures Row(x, i)[i - 32..i - 12] == RowRipple(x, i).digits
    ensures Row(x, i)[i - 12] == x[i - 12] + RowRipple(x, i).carry && Row(x, i)[i] == 0
    ensures forall j :: 0 <= j < 64 && (j < i - 32 || j > i - 12) && j != i ==> Row(x, i)[j] == x[j]
  {
  }

  /** The limbs after the rows 63 down to n. */
  function Rows(x: seq<int>, n: nat): (y: seq<int>)
    requires |x| == 64 && 32 <= n <= 64
    ensures |y| == 64
    decreases 64 - n
  {
    if n == 64 then x else Row(Rows(x, n + 1), n)
  }

  ghost predicate ReducibleLimbs(x: seq<int>) {
    |x| == 64 && Within(x, 0, LIMB_MAX)
  }

  lemma {:induction false} RowsInRange(x: seq<int>, n: nat)
    requires ReducibleLimbs(x) && 32 <= n <= 64
    ensures InRange(Rows(x, n), n)
    decreases 64 - n
  {
    if n < 64 {
      RowsInRange(x, n + 1);
      RowInRange(Rows(x, n + 1), n);
    }
  }

  lemma {:induction false} RowsCongruent(x: seq<int>, n: nat)
    requires |x| == 64 && 32 <= n <= 64
    ensures Cong(Eval(256, Rows(x, n)), Eval(256, x), L)
    decreases 64 - n
  {
    if n == 64 {
      CongRefl(Eval(256, x), L);
    } else {
      var y := Rows(x, n + 1);
      RowsCongruent(x, n + 1);
      RowValue(y, n);
      hide Row, Eval, Pow;
      TakenOff(Eval(256, Rows(x, n)), Eval(256, y), y[n], Pow(256, n - 32));
      CongTrans(Eval(256, Rows(x, n)), Eval(256, y), Eval(256, x), L);
    }
  }

  lemma TakenOff(after: int, before: int, xi: int, p: int)
    requires after == before - 16 * xi * L * p
    ensures Cong(after, before, L)
  {
    assert 16 * xi * L * p == 16 * xi * p * L;
    CongBy(after, before, L, -16 * xi * p);
  }

  // ---------------------------------------------------------------- the last pass

  /** y - (y[31] >> 4) L, limb by limb. */
  function LastInput(y: seq<int>): (u: seq<int>)
    requires |y| == 64
    ensures |u| == 32
  {
    seq(32, j requires 0 <= j < 32 => y[j] - y[31] / 16 * L_BYTES[j])
  }

  function LastRipple(x: seq<int>): (r: Rippled)
    requires |x| == 64
    ensures |r.digits| == 32
  {
    Ripple(256, 0, LastInput(Rows(x, 32)), 0)
  }

  /** The carry that the last pass ends with. */
  function FinalCarry(x: seq<int>): int
    requires |x| == 64
  {
    LastRipple(x).carry
  }

  /** The 32 limbs that modL finally holds. */
  function FinalLimbs(x: seq<int>): (z: seq<int>)
    requires |x| == 64
    ensures |z| == 32
  {
    seq(32, j requires 0 <= j < 32 => LastRipple(x).digits[j] - FinalCarry(x) * L_BYTES[j])
  }

  /** The 32 bytes that modL writes. */
  function ModLBytes(x: seq<int>): (r: seq<int>)
    requires |x| == 64
    ensures |r| == 32 && Within(r, 0, 255)
  {
    seq(32, j requires 0 <= j < 32 => FinalLimbs(x)[j] % 256)
  }

  /** After the rows, the low 32 limbs hold a number close to y[31] 2^248. */
  lemma RowsTail(y: seq<int>)
    requires InRange(y, 32)
    ensures Eval(256, y) == Eval(256, y[..31]) + y[31] * TWO_248
    ensures -129 * TWO_248 < 255 * Eval(256, y[..31]) < 129 * TWO_248
    ensures -129 <= y[31] <= 128
  {
    assert y == y[..32] + y[32..];
    WithZeros(y[..32], y[32..]);
    assert y[..32][..31] == y[..31];
    RadixPowers();
    forall j | 0 <= j < 31
      ensures -129 <= y[j] <= 129
    {
      if j < 20 {
        assert y[j] == y[0..20][j];
      }
    }
    EvalBound(256, y[..31], 129);
  }

  /** What L exceeds 2^252 by. */
  const EXCESS: int := L - TWO_252

  /** The multiple of L taken off leaves a number in (-2^248, 2^252), with these margins in 255ths. */
  lemma LastRange(y: seq<int>)
    requires InRange(y, 32)
    ensures var w := Eval(256, y) - y[31] / 16 * L;
            && -TWO_248 < w < TWO_252
            && -129 * TWO_248 - 2040 * EXCESS <= 255 * w <= 255 * TWO_252 - 126 * TWO_248 + 2295 * EXCESS
  {
    RowsTail(y);
    hide InRange, Eval;
    QuotientRange(Eval(256, y[..31]), y[31]);
  }

  lemma QuotientRange(e: int, top: int)
    requires -129 * TWO_248 < 255 * e < 129 * TWO_248 && -129 <= top <= 128
    ensures var w := e + top * TWO_248 - top / 16 * L;
            && -TWO_248 < w < TWO_252
            && -129 * TWO_248 - 2040 * EXCESS <= 255 * w <= 255 * TWO_252 - 126 * TWO_248 + 2295 * EXCESS
  {
    var q, m := top / 16, top % 16;
    assert top == 16 * q + m;
    assert -9 <= q <= 8;
    assert e + top * TWO_248 - q * L == m * TWO_248 + e - q * EXCESS;
  }

  lemma LastInputLimbs(y: seq<int>)
    requires InRange(y, 32)
    ensures Within(y[32..], 0, 0)
    ensures forall j :: 0 <= j < 32 ==> LastInput(y)[j] == y[..32][j] + -(y[31] / 16) * L_BYTES[j]
  {
    var q := y[31] / 16;
    forall j | 0 <= j < 32 ensures LastInput(y)[j] == y[..32][j] + -q * L_BYTES[j] {
      assert LastInput(y)[j] == y[j] - q * L_BYTES[j];
    }
  }

  lemma LastInputValue(y: seq<int>)
    requires InRange(y, 32)
    ensures Eval(256, LastInput(y)) == Eval(256, y) - y[31] / 16 * L
  {
    var u, q := LastInput(y), y[31] / 16;
    LastInputLimbs(y);
    LBytesLength();
    hide InRange, Eval, LastInput, L_BYTES, Within;
    assert y == y[..32] + y[32..];
    WithZeros(y[..32], y[32..]);
    EvalLinear(256, u, y[..32], L_BYTES, -q);
    LBytesValue();
    assert (-q) * L == -(q * L);
  }

  /** The last pass divides by 2^256: the carry is 0, or -1 when too much of L was taken off. */
  lemma LastPass(x: seq<int>)
    requires ReducibleLimbs(x)
    ensures var y := Rows(x, 32); var v := Eval(256, y) - y[31] / 16 * L;
            && FinalCarry(x) == (if v < 0 then -1 else 0)
            && Eval(256, LastRipple(x).digits) == (if v < 0 then v + TWO_256 else v)
            && Within(LastRipple(x).digits, 0, 255)
  {
    var y := Rows(x, 32);
    RowsInRange(x, 32);
    hide Eval, Pow, InRange, Rows, LastInput, Ripple, ReducibleLimbs, L_BYTES;
    LastRange(y);
    LastInputValue(y);
    RippleWraps(LastInput(y), Eval(256, y) - y[31] / 16 * L);
  }

  lemma RippleWraps(u: seq<int>, v: int)
    requires |u| == 32 && Eval(256, u) == v && -TWO_256 <= v < TWO_256
    ensures var r := Ripple(256, 0, u, 0);
            && r.carry == (if v < 0 then -1 else 0)
            && Eval(256, r.digits) == (if v < 0 then v + TWO_256 else v)
            && Within(r.digits, 0, 255)
  {
    RadixPowers();
    hide Eval, Pow, Ripple;
    RippleIsDivMod(256, u, 0);
    RippleDigits(256, 0, u, 0);
    WrapDivMod(v);
  }

  lemma WrapDivMod(v: int)
    requires -TWO_256 <= v < TWO_256
    ensures v / TWO_256 == if v < 0 then -1 else 0
    ensures v % TWO_256 == if v < 0 then v + TWO_256 else v
  {
    if v < 0 {
      DivModUnique(v, TWO_256, -1, v + TWO_256);
    } else {
      DivModUnique(v, TWO_256, 0, v);
    }
  }

  /** The final limbs, with the carry counted at 2^256, are the residue modulo L. */
  lemma FinalValue(x: seq<int>)
    requires ReducibleLimbs(x)
    ensures -1 <= FinalCarry(x) <= 0
    ensures Eval(256, FinalLimbs(x)) + FinalCarry(x) * TWO_256 == Eval(256, x) % L
  {
    var y := Rows(x, 32);
    RowsInRange(x, 32);
    hide Rows, InRange, Ripple, Eval, LastRipple, FinalCarry, ReducibleLimbs, L_BYTES;
    LBytesLength();
    LastRange(y);
    LastPass(x);
    EvalLinear(256, FinalLimbs(x), LastRipple(x).digits, L_BYTES, -FinalCarry(x));
    LBytesValue();
    RowsCongruent(x, 32);
    hide *;
    Brought(Eval(256, y), Eval(256, x), y[31] / 16);
  }

  /** One L back where too much was taken off gives the residue. */
  lemma Brought(e: int, x: int, q: int)
    requires Cong(e, x, L) && -TWO_248 < e - q * L < L
    ensures x % L == if e - q * L < 0 then e - q * L + L else e - q * L
  {
    var k := if e - q * L < 0 then 1 - q else -q;
    var w := e + k * L;
    CongBy(w, e, L, k);
    CongTrans(w, e, x, L);
    CongIffMod(w, x, L);
    DivModUnique(w, L, 0, w);
  }
}
