/**
 The addition formulas are complete: on the curve their denominators never vanish,
 because -1 is a square modulo p and d is not.
 */
module Completeness {
  import opened Arith
  import opened FieldSpec
  import opened Edwards
  import opened Inverse

  /** A square root of -1, 2^((p - 1) / 4). */
  const I: int := 0x2b83_2480_4fc1_df0b_2b4d_0099_3dfb_d7a7_2f43_1806_ad2f_e478_c4ee_1b27_4a0e_a0b0

  lemma MinusOneIsSquare()
    ensures Eq(I * I, -1) && Eq((-I) * (-I), -1)
  {
    CongBy(I * I, -1, P, (I * I + 1) / P);
    assert (-I) * (-I) == I * I;
  }

  ghost predicate RootOfD(a: int) {
    Eq(a * a, D)
  }

  /** What section 5.1 of RFC 8032 says of the parameters: p is prime and d is not a square. */
  ghost predicate CurveField() {
    PrimeField() && forall a :: !RootOfD(a)
  }

  lemma CurveFieldIsPrime()
    requires CurveField()
    ensures PrimeField()
  {
  }

  lemma NoRootOfD(a: int)
    requires CurveField()
    ensures !Eq(a * a, D)
  {
    assert !RootOfD(a);
  }

  /** Only 0 squared times d is a square. */
  lemma SquareRatio(u: int, w: int)
    requires CurveField() && Eq(u * u, D * (w * w))
    ensures Eq(w, 0)
  {
    if !Eq(w, 0) {
      CurveFieldIsPrime();
      FermatHolds(w);
      InvInverts(w);
      var i := Inv(w);
      NoRootOfD(u * i);
      hide CurveField, PrimeField, FermatAt, Inv;
      RootOfRatio(u, w, i);
    }
  }

  lemma RootOfRatio(u: int, w: int, i: int)
    requires Eq(u * u, D * (w * w)) && Eq(w * i, 1)
    ensures Eq((u * i) * (u * i), D)
  {
    EqScale(i * i, u * u, D * (w * w));
    EqMul(w * i, 1, w * i, 1);
    EqScale(D, (w * i) * (w * i), 1);
    SquareOfProduct(u, i);
    SquareOfProduct(w, i);
    Rearrange(i * i, u * u, D, w * w);
    EqTrans((u * i) * (u * i), D * ((w * i) * (w * i)), D);
  }

  lemma Rearrange(ii: int, uu: int, d: int, ww: int)
    ensures ii * uu == uu * ii && ii * (d * ww) == d * (ww * ii)
  {
  }

  /** (i x + e y)^2 for a curve point, where i^2 = -1 and e = 1 or -1. */
  lemma MixedSquare(p: Ext, i: int, e: int)
    requires OnCurve(p) && Eq(i * i, -1) && (e == 1 || e == -1)
    ensures Eq((i * p.x + e * p.y) * (i * p.x + e * p.y),
               p.z * p.z + D * (p.t * p.t) + 2 * (i * e) * (p.t * p.z))
  {
    var xx, yy, xy, tz, k := p.x * p.x, p.y * p.y, p.x * p.y, p.t * p.z, 2 * (i * e);
    ExpandMixed(i, e, p.x, p.y);
    EqRefl(xx);
    EqMul(i * i, -1, xx, xx);
    EqSym(tz, xy);
    EqScale(k, xy, tz);
    EqRefl(yy);
    EqAdd((i * i) * xx, -xx, yy, yy);
    EqTrans((i * i) * xx + yy, yy - xx, p.z * p.z + D * (p.t * p.t));
    EqAdd((i * i) * xx + yy, p.z * p.z + D * (p.t * p.t), k * xy, k * tz);
  }

  lemma ExpandMixed(i: int, e: int, x: int, y: int)
    requires e == 1 || e == -1
    ensures (i * x + e * y) * (i * x + e * y) == (i * i) * (x * x) + y * y + 2 * (i * e) * (x * y)
  {
    SquareSum(i * x, e * y);
    SquareOfProduct(i, x);
    SquareOfProduct(e, y);
    assert (i * x) * (e * y) == (i * e) * (x * y);
    assert e * e == 1;
  }

  /** The key identity: a vanishing denominator would make d a ratio of squares. */
  lemma VanishingGivesRatio(p: Ext, q: Ext, i: int, e: int)
    requires OnCurve(p) && OnCurve(q) && Eq(i * i, -1) && (e == 1 || e == -1)
    requires Eq(p.z * q.z, e * (D * (p.t * q.t)))
    ensures var u, w := q.z * (i * p.x + e * p.y), p.t * (i * q.x + q.y);
            Eq(u * u, D * (w * w))
  {
    var u, w := q.z * (i * p.x + e * p.y), p.t * (i * q.x + q.y);
    var m, n := p.z * q.z, D * (p.t * q.t);
    MixedSquare(p, i, e);
    MixedSquare(q, i, 1);
    hide OnCurve;
    var sp, sq := (i * p.x + e * p.y), (i * q.x + q.y);
    var vp := p.z * p.z + D * (p.t * p.t) + 2 * (i * e) * (p.t * p.z);
    var vq := q.z * q.z + D * (q.t * q.t) + 2 * i * (q.t * q.z);
    assert i * q.x + 1 * q.y == sq;
    assert 2 * (i * 1) * (q.t * q.z) == 2 * i * (q.t * q.z);
    SquareOfProduct(q.z, sp);
    SquareOfProduct(p.t, sq);
    EqScale(q.z * q.z, sp * sp, vp);
    EqScale(D * (p.t * p.t), sq * sq, vq);
    assert D * (w * w) == (D * (p.t * p.t)) * (sq * sq);
    LeftSide(D, p.z, p.t, q.z, i, e);
    RightSide(D, p.t, q.z, q.t, i);
    SidesAgree(m, n, (D * (p.t * p.t)) * (q.z * q.z), 2 * (i * (p.t * q.z)), e);
    EqSym(D * (w * w), (D * (p.t * p.t)) * vq);
    EqTrans(u * u, (q.z * q.z) * vp, (D * (p.t * p.t)) * vq);
    EqTrans(u * u, (D * (p.t * p.t)) * vq, D * (w * w));
  }

  lemma SidesAgree(m: int, n: int, k: int, h: int, e: int)
    requires Eq(m, e * n) && (e == 1 || e == -1)
    ensures Eq(m * m + k + (h * e) * m, n * n + k + h * n)
  {
    EqMul(m, e * n, m, e * n);
    assert (e * n) * (e * n) == n * n;
    EqScale(h * e, m, e * n);
    assert (h * e) * (e * n) == h * n;
    EqRefl(k);
    EqAdd(m * m, n * n, k, k);
    EqAdd(m * m + k, n * n + k, (h * e) * m, h * n);
  }

  lemma LeftSide(d: int, z1: int, t1: int, z2: int, i: int, e: int)
    ensures (z2 * z2) * (z1 * z1 + d * (t1 * t1) + 2 * (i * e) * (t1 * z1))
            == (z1 * z2) * (z1 * z2) + (d * (t1 * t1)) * (z2 * z2) + (2 * (i * (t1 * z2)) * e) * (z1 * z2)
  {
    var s, r := z2 * z2, d * (t1 * t1);
    assert s * (z1 * z1 + r + 2 * (i * e) * (t1 * z1)) == s * (z1 * z1) + s * r + s * (2 * (i * e) * (t1 * z1));
    SquareOfProduct(z1, z2);
    assert s * (2 * (i * e) * (t1 * z1)) == (2 * (i * (t1 * z2)) * e) * (z1 * z2);
  }

  lemma RightSide(d: int, t1: int, z2: int, t2: int, i: int)
    ensures (d * (t1 * t1)) * (z2 * z2 + d * (t2 * t2) + 2 * i * (t2 * z2))
            == (d * (t1 * t2)) * (d * (t1 * t2)) + (d * (t1 * t1)) * (z2 * z2) + (2 * (i * (t1 * z2))) * (d * (t1 * t2))
  {
    var s, r := d * (t1 * t1), d * (t2 * t2);
    assert s * (z2 * z2 + r + 2 * i * (t2 * z2)) == s * (z2 * z2) + s * r + s * (2 * i * (t2 * z2));
    SquareOfTwist(d, t1, t2);
    CrossTwist(d, t1, z2, t2, i);
  }

  lemma CrossTwist(d: int, t1: int, z2: int, t2: int, i: int)
    ensures (d * (t1 * t1)) * (2 * i * (t2 * z2)) == (2 * (i * (t1 * z2))) * (d * (t1 * t2))
  {
    var a := d * t1;
    assert d * (t1 * t1) == a * t1 && d * (t1 * t2) == a * t2;
    Swap4(a, t1, t2, 2 * i * z2);
    assert 2 * i * (t2 * z2) == t2 * (2 * i * z2);
    assert t1 * (2 * i * z2) == 2 * (i * (t1 * z2));
  }

  /** z1 z2 differs from d t1 t2 and from -d t1 t2: with x = X/Z and y = Y/Z, d x1 x2 y1 y2 is neither 1 nor -1. */
  lemma NeverVanishes(p: Ext, q: Ext, e: int)
    requires CurveField() && IsPoint(p) && IsPoint(q) && (e == 1 || e == -1)
    ensures !Eq(p.z * q.z, e * (D * (p.t * q.t)))
  {
    if Eq(p.z * q.z, e * (D * (p.t * q.t))) {
      CurveFieldIsPrime();
      TermsNonZero(p, q, e);
      MinusOneIsSquare();
      VanishingGivesRatio(p, q, I, e);
      VanishingGivesRatio(p, q, -I, e);
      SquareRatio(q.z * (I * p.x + e * p.y), p.t * (I * q.x + q.y));
      SquareRatio(q.z * ((-I) * p.x + e * p.y), p.t * ((-I) * q.x + q.y));
      hide CurveField, PrimeField;
      ZeroProduct(p.t, I * q.x + q.y);
      ZeroProduct(p.t, (-I) * q.x + q.y);
      BothZero(q);
      ZeroProduct(q.t, q.z);
    }
  }

  lemma TermsNonZero(p: Ext, q: Ext, e: int)
    requires PrimeField() && IsPoint(p) && IsPoint(q) && Eq(p.z * q.z, e * (D * (p.t * q.t)))
    ensures !Eq(p.t, 0) && !Eq(q.t, 0)
  {
    NonZeroProduct(p.z, q.z);
    hide PrimeField, OnCurve;
    var m := p.z * q.z;
    assert e * (D * (p.t * q.t)) == ((e * D) * q.t) * p.t == ((e * D) * p.t) * q.t;
    hide Eq;
    NonZeroFactor(m, (e * D) * q.t, p.t);
    NonZeroFactor(m, (e * D) * p.t, q.t);
  }

  lemma NonZeroFactor(m: int, k: int, t: int)
    requires Eq(m, k * t) && !Eq(m, 0)
    ensures !Eq(t, 0)
  {
    if Eq(t, 0) {
      EqScale(k, t, 0);
      EqTrans(m, k * t, 0);
    }
  }

  /** i x + y and -i x + y vanish together only when T Z does. */
  lemma BothZero(q: Ext)
    requires PrimeField() && OnCurve(q) && Eq(I * q.x + q.y, 0) && Eq((-I) * q.x + q.y, 0)
    ensures Eq(q.t * q.z, 0)
  {
    EqAdd(I * q.x + q.y, 0, (-I) * q.x + q.y, 0);
    assert I * q.x + q.y + ((-I) * q.x + q.y) == 2 * q.y;
    SmallNonZero(2);
    ZeroProduct(2, q.y);
    EqScale(q.x, q.y, 0);
    EqTrans(q.t * q.z, q.x * q.y, 0);
  }

  /** The sum of two curve points has a denominator. */
  lemma AddHasDenominator(p: Ext, q: Ext)
    requires CurveField() && IsPoint(p) && IsPoint(q)
    ensures !Eq(RfcAdd(p, q).z, 0)
  {
    var z, u := p.z * q.z, D * (p.t * q.t);
    NeverVanishes(p, q, 1);
    NeverVanishes(p, q, -1);
    CurveFieldIsPrime();
    Halves(p, q);
    hide CurveField, PrimeField, IsPoint;
    DifferenceNonZero(z, u);
    DifferenceNonZero(z, -u);
    SmallNonZero(2);
    NonZeroProduct(2, z - u);
    NonZeroProduct(2, z + u);
    NonZeroProduct(2 * (z - u), 2 * (z + u));
  }

  lemma DifferenceNonZero(a: int, b: int)
    requires !Eq(a, b)
    ensures !Eq(a - b, 0)
  {
    if Eq(a - b, 0) {
      EqRefl(b);
      EqAdd(a - b, 0, b, b);
    }
  }

  /** 1 + d y^2 does not vanish either, so x is determined by y up to its sign. */
  lemma DecodingDenominator(y: int)
    requires CurveField()
    ensures !Eq(1 + D * (y * y), 0)
  {
    if Eq(1 + D * (y * y), 0) {
      MinusOneIsSquare();
      var k := D * (y * y);
      EqRefl(1);
      EqAdd(1 + k, 0, 1, 1);
      EqSym(k, -1);
      EqTrans(I * I, -1, k);
      SquareRatio(I, y);
      EqScale(D * y, y, 0);
      assert (D * y) * y == k;
      EqTrans(-1, k, 0);
      EqScale(-1, -1, 0);
      SmallNonZero(1);
    }
  }
}
