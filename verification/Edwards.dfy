/**
 Point addition on edwards25519 in extended coordinates (section 5.1.4 of
 RFC 8032), over integers read modulo p.
 */
module Edwards {
  import opened Arith
  import opened FieldSpec

  /** The curve constant, -121665/121666 modulo p (see CurveConstant). */
  const D: int := 0x5203_6cee_2b6f_fe73_8cc7_4079_7779_e898_0070_0a4d_4141_d8ab_75eb_4dca_1359_78a3

  datatype Ext = Ext(x: int, y: int, z: int, t: int)

  ghost predicate EqExt(p: Ext, q: Ext) {
    Eq(p.x, q.x) && Eq(p.y, q.y) && Eq(p.z, q.z) && Eq(p.t, q.t)
  }

  /** T Z = X Y and Y^2 - X^2 = Z^2 + d T^2: the point lies on the curve. */
  ghost predicate OnCurve(p: Ext) {
    && Eq(p.t * p.z, p.x * p.y)
    && Eq(p.y * p.y - p.x * p.x, p.z * p.z + D * (p.t * p.t))
  }

  /** A representative of a point: on the curve, with a denominator. */
  ghost predicate IsPoint(p: Ext) {
    OnCurve(p) && !Eq(p.z, 0)
  }

  /** The same affine point: X/Z and Y/Z agree. */
  ghost predicate SameClass(p: Ext, q: Ext) {
    Eq(p.x * q.z, q.x * p.z) && Eq(p.y * q.z, q.y * p.z)
  }

  /** The addition formulas of section 5.1.4 of RFC 8032. */
  function RfcAdd(p: Ext, q: Ext): Ext {
    var a := (p.y - p.x) * (q.y - q.x);
    var b := (p.y + p.x) * (q.y + q.x);
    var c := p.t * 2 * D * q.t;
    var d := p.z * 2 * q.z;
    Complete(b - a, d - c, d + c, b + a)
  }

  function Complete(e: int, f: int, g: int, h: int): Ext {
    Ext(e * f, g * h, f * g, e * h)
  }

  lemma EqAdd(a: int, b: int, c: int, d: int)
    requires Eq(a, b) && Eq(c, d)
    ensures Eq(a + c, b + d) && Eq(a - c, b - d)
  {
    CongAdd(a, b, c, d, P);
    CongSub(a, b, c, d, P);
  }

  lemma EqMul(a: int, b: int, c: int, d: int)
    requires Eq(a, b) && Eq(c, d)
    ensures Eq(a * c, b * d)
  {
    CongMul(a, b, c, d, P);
  }

  lemma EqRefl(a: int)
    ensures Eq(a, a)
  {
    CongRefl(a, P);
  }

  lemma EqTrans(a: int, b: int, c: int)
    requires Eq(a, b) && Eq(b, c)
    ensures Eq(a, c)
  {
    CongTrans(a, b, c, P);
  }

  lemma EqSym(a: int, b: int)
    requires Eq(a, b)
    ensures Eq(b, a)
  {
    CongSym(a, b, P);
  }

  lemma EqScale(k: int, a: int, b: int)
    requires Eq(a, b)
    ensures Eq(k * a, k * b)
  {
    EqRefl(k);
    EqMul(k, k, a, b);
  }

  /** d is -121665/121666, as section 5.1 of RFC 8032 defines it. */
  lemma CurveConstant()
    ensures Eq(121666 * D, -121665) && 0 <= D < P
  {
    CongBy(121666 * D, -121665, P, (121666 * D + 121665) / P);
  }

  lemma CompleteCongruent(e: int, e': int, f: int, f': int, g: int, g': int, h: int, h': int)
    requires Eq(e, e') && Eq(f, f') && Eq(g, g') && Eq(h, h')
    ensures EqExt(Complete(e, f, g, h), Complete(e', f', g', h'))
  {
    EqMul(e, e', f, f');
    EqMul(g, g', h, h');
    EqMul(f, f', g, g');
    EqMul(e, e', h, h');
  }

  // ---------------------------------------------------------------- closure

  lemma Halves(p: Ext, q: Ext)
    ensures var e, h := p.x * q.y + p.y * q.x, p.y * q.y + p.x * q.x;
            var z, u := p.z * q.z, D * (p.t * q.t);
            RfcAdd(p, q) == Complete(2 * e, 2 * (z - u), 2 * (z + u), 2 * h)
  {
    assert (p.y + p.x) * (q.y + q.x) - (p.y - p.x) * (q.y - q.x) == 2 * (p.x * q.y + p.y * q.x);
    assert (p.y + p.x) * (q.y + q.x) + (p.y - p.x) * (q.y - q.x) == 2 * (p.y * q.y + p.x * q.x);
    assert p.t * 2 * D * q.t == 2 * (D * (p.t * q.t));
  }

  lemma SumOfSquares(x1: int, y1: int, x2: int, y2: int)
    ensures var e, h := x1 * y2 + y1 * x2, y1 * y2 + x1 * x2;
            var n1, n2, s1, s2 := y1 * y1 - x1 * x1, y2 * y2 - x2 * x2, y1 * y1 + x1 * x1, y2 * y2 + x2 * x2;
            var w1, w2 := x1 * y1, x2 * y2;
            && h * h - e * e == n1 * n2
            && h * h + e * e == s1 * s2 + 4 * (w1 * w2)
            && e * h == w1 * s2 + w2 * s1
  {
    var a, b, c, d := x1 * x2, y1 * y2, x1 * y2, y1 * x2;
    Swap4(x1, x2, y1, y2);
    Swap4(x1, y2, x2, y1);
    Swap4(x1, y2, y1, x2);
    SquareOfProduct(x1, x2);
    SquareOfProduct(y1, y2);
    SquareOfProduct(x1, y2);
    SquareOfProduct(y1, x2);
    FourTerms(x1 * x1, y1 * y1, x2 * x2, y2 * y2);
    SquareSum(b, a);
    SquareSum(c, d);
    FourTerms(d, c, a, b);
    Swap4(y1, y2, x1, y2);
    Swap4(x1, x2, y1, x2);
    Swap4(y1, y2, y1, x2);
    Swap4(x1, x2, x1, y2);
    CrossTerms(x1, y1, x2, y2);
  }

  /** e * h, term by term. */
  lemma CrossTerms(x1: int, y1: int, x2: int, y2: int)
    ensures (x1 * y2 + y1 * x2) * (y1 * y2 + x1 * x2)
            == (x1 * y1) * (y2 * y2 + x2 * x2) + (x2 * y2) * (y1 * y1 + x1 * x1)
  {
    FourTerms(y1 * x2, x1 * y2, x1 * x2, y1 * y2);
    Swap4(x1, y2, y1, y2);
    Swap4(y1, x2, x1, x2);
    Swap4(y1, x2, y1, y2);
    Swap4(x1, y2, x1, x2);
    Distribute2(x1 * y1, y2 * y2, x2 * x2);
    Distribute2(x2 * y2, y1 * y1, x1 * x1);
  }

  lemma Distribute2(k: int, a: int, b: int)
    ensures k * (a + b) == k * a + k * b
  {
  }

  lemma Swap4(a: int, b: int, c: int, d: int)
    ensures (a * b) * (c * d) == (a * c) * (b * d)
    ensures (a * b) * (c * d) == (c * d) * (a * b) == (c * a) * (b * d) == (a * c) * (d * b)
  {
  }

  lemma FourTerms(x1: int, y1: int, x2: int, y2: int)
    ensures (y1 - x1) * (y2 - x2) == y1 * y2 + x1 * x2 - x1 * y2 - y1 * x2
    ensures (y1 + x1) * (y2 + x2) == y1 * y2 + x1 * x2 + x1 * y2 + y1 * x2
  {
  }

  lemma SquareSum(a: int, b: int)
    ensures (a + b) * (a + b) == a * a + b * b + 2 * (a * b)
    ensures (a - b) * (a - b) == a * a + b * b - 2 * (a * b)
  {
  }

  lemma SquareSplit(x: int, y: int)
    ensures var n, s, w := y * y - x * x, y * y + x * x, x * y; s * s == n * n + 4 * (w * w)
  {
    var a, b := y * y, x * x;
    assert (a + b) * (a + b) == (a - b) * (a - b) + 4 * (a * b);
    assert a * b == (x * y) * (x * y);
  }

  /** The defect of the curve equation for a sum, before the curve equations are used. */
  function Defect(zz: int, uu: int, zu: int, n1: int, n2: int, s: int, w: int, dw: int, dw1: int, dw2: int): int {
    (zz + uu) * (n1 * n2) + 2 * (zu * s) + 8 * (zu * w) - (zz - uu) * (zz - uu)
    - dw1 * (n2 * n2) - dw2 * (n1 * n1) - 8 * (dw * w) - 2 * (dw * s)
  }

  lemma DefectExpands(d: int, z: int, u: int, e: int, h: int, n1: int, n2: int, s1: int, s2: int, w1: int, w2: int)
    requires h * h - e * e == n1 * n2
    requires h * h + e * e == s1 * s2 + 4 * (w1 * w2)
    requires e * h == w1 * s2 + w2 * s1
    requires s1 * s1 == n1 * n1 + 4 * (w1 * w1) && s2 * s2 == n2 * n2 + 4 * (w2 * w2)
    ensures ((z + u) * h) * ((z + u) * h) - (e * (z - u)) * (e * (z - u))
            - (((z - u) * (z + u)) * ((z - u) * (z + u)) + d * ((e * h) * (e * h)))
            == Defect(z * z, u * u, z * u, n1, n2, s1 * s2, w1 * w2, d * (w1 * w2), d * (w1 * w1), d * (w2 * w2))
  {
    var hh, ee := h * h, e * e;
    calc {
      ((z + u) * h) * ((z + u) * h) - (e * (z - u)) * (e * (z - u));
      { SquareOfProduct(z + u, h); SquareOfProduct(e, z - u); }
      ((z + u) * (z + u)) * hh - ee * ((z - u) * (z - u));
      { assert (z + u) * (z + u) == z * z + u * u + 2 * (z * u);
        assert (z - u) * (z - u) == z * z + u * u - 2 * (z * u);
        RegroupSquares(z * z + u * u, z * u, hh, ee); }
      (z * z + u * u) * (hh - ee) + 2 * (z * u) * (hh + ee);
      (z * z + u * u) * (n1 * n2) + 2 * (z * u) * (s1 * s2 + 4 * (w1 * w2));
    }
    var s, w, zu := s1 * s2, w1 * w2, z * u;
    assert 2 * zu * (s + 4 * w) == 2 * (zu * s) + 8 * (zu * w);
    assert (z - u) * (z + u) == z * z - u * u;
    CrossSquare(w1, w2, s1, s2);
    ProductSquare(d, w1, w2, n1, n2, s, s1, s2);
  }

  lemma SquareOfProduct(a: int, b: int)
    ensures (a * b) * (a * b) == (a * a) * (b * b)
  {
  }

  lemma RegroupSquares(a: int, b: int, hh: int, ee: int)
    ensures (a + 2 * b) * hh - ee * (a - 2 * b) == a * (hh - ee) + 2 * b * (hh + ee)
  {
  }

  lemma CrossSquare(w1: int, w2: int, s1: int, s2: int)
    ensures (w1 * s2 + w2 * s1) * (w1 * s2 + w2 * s1)
            == (w1 * w1) * (s2 * s2) + (w2 * w2) * (s1 * s1) + 2 * ((w1 * w2) * (s1 * s2))
  {
    var a, b := w1 * s2, w2 * s1;
    assert (a + b) * (a + b) == a * a + b * b + 2 * (a * b);
    SquareOfProduct(w1, s2);
    SquareOfProduct(w2, s1);
    assert a * b == (w1 * w2) * (s1 * s2);
  }

  lemma ProductSquare(d: int, w1: int, w2: int, n1: int, n2: int, s: int, s1: int, s2: int)
    requires s == s1 * s2
    requires s1 * s1 == n1 * n1 + 4 * (w1 * w1) && s2 * s2 == n2 * n2 + 4 * (w2 * w2)
    ensures d * ((w1 * w1) * (s2 * s2) + (w2 * w2) * (s1 * s1) + 2 * ((w1 * w2) * s))
            == (d * (w1 * w1)) * (n2 * n2) + (d * (w2 * w2)) * (n1 * n1) + 8 * ((d * (w1 * w2)) * (w1 * w2))
               + 2 * ((d * (w1 * w2)) * s)
  {
    var a, b, w, m1, m2 := w1 * w1, w2 * w2, w1 * w2, n1 * n1, n2 * n2;
    SquareOfProduct(w1, w2);
    SplitSquares(d, a, b, w, m1, m2, s, s1 * s1, s2 * s2);
  }

  lemma SplitSquares(d: int, a: int, b: int, w: int, m1: int, m2: int, s: int, ss1: int, ss2: int)
    requires a * b == w * w && ss1 == m1 + 4 * a && ss2 == m2 + 4 * b
    ensures d * (a * ss2 + b * ss1 + 2 * (w * s)) == (d * a) * m2 + (d * b) * m1 + 8 * ((d * w) * w) + 2 * ((d * w) * s)
  {
    AddFourfold(a, m2, b);
    AddFourfold(b, m1, a);
    SpreadFactor(d, a * m2, b * m1, w * w, w * s);
    MulAssociative(d, a, m2);
    MulAssociative(d, b, m1);
    MulAssociative(d, w, w);
    MulAssociative(d, w, s);
    assert a * ss2 + b * ss1 + 2 * (w * s) == a * m2 + b * m1 + 8 * (w * w) + 2 * (w * s);
  }

  lemma AddFourfold(a: int, m: int, b: int)
    ensures a * (m + 4 * b) == a * m + 4 * (a * b) && a * b == b * a
  {
  }

  lemma SpreadFactor(d: int, a: int, b: int, c: int, e: int)
    ensures d * (a + b + 8 * c + 2 * e) == d * a + d * b + 8 * (d * c) + 2 * (d * e)
  {
  }

  /** On the curve the defect vanishes: the polynomial identity behind closure. */
  lemma DefectVanishes(z1: int, z2: int, t1: int, t2: int, s: int, w: int, zu: int)
    ensures Defect(z1 * z2, t1 * t2, zu, z1 + t1, z2 + t2, s, w, zu, t1 * z1, t2 * z2) == 0
  {
    var a, b, c, d := z1 * z2, t1 * t2, z1 * t2, t1 * z2;
    FourTerms(t1, z1, t2, z2);
    Swap4(z1, z2, t1, t2);
    Swap4(z1, t2, t1, z2);
    assert a * b == c * d;
    PointTerm(z1, t1, z2, t2);
    PointTerm(z2, t2, z1, t1);
    ProductOfSums(a, b, c, d);
    SquareSum(a, b);
  }

  lemma PointTerm(z1: int, t1: int, z2: int, t2: int)
    ensures (t1 * z1) * ((z2 + t2) * (z2 + t2))
            == (z1 * z2) * (t1 * z2) + 2 * ((z1 * z2) * (t1 * t2)) + (t1 * t2) * (z1 * t2)
  {
    TimesSquareSum(t1 * z1, z2, t2);
    Swap4(t1, z1, z2, z2);
    Swap4(t1, z1, z2, t2);
    Swap4(t1, z1, t2, t2);
    Swap4(z1, z2, t1, z2);
    Swap4(z1, z2, t1, t2);
    Swap4(t1, t2, z1, t2);
  }

  lemma TimesSquareSum(m: int, x: int, y: int)
    ensures m * ((x + y) * (x + y)) == m * (x * x) + 2 * (m * (x * y)) + m * (y * y)
  {
    SquareSum(x, y);
  }

  lemma ProductOfSums(a: int, b: int, c: int, d: int)
    ensures (a + b) * (a + b + c + d) == a * a + b * b + 2 * (a * b) + a * c + a * d + b * c + b * d
  {
  }

  lemma DefectCongruent(zz: int, uu: int, zu: int, n1: int, n2: int, s: int, w: int, dw: int, dw1: int, dw2: int,
                        n1': int, n2': int, dw': int, dw1': int, dw2': int)
    requires Eq(n1, n1') && Eq(n2, n2') && Eq(dw, dw') && Eq(dw1, dw1') && Eq(dw2, dw2')
    ensures Eq(Defect(zz, uu, zu, n1, n2, s, w, dw, dw1, dw2), Defect(zz, uu, zu, n1', n2', s, w, dw', dw1', dw2'))
  {
    EqMul(n1, n1', n2, n2');
    EqScale(zz + uu, n1 * n2, n1' * n2');
    var k := 2 * (zu * s) + 8 * (zu * w) - (zz - uu) * (zz - uu);
    EqRefl(k);
    EqAdd((zz + uu) * (n1 * n2), (zz + uu) * (n1' * n2'), k, k);
    EqMul(n2, n2', n2, n2');
    EqMul(dw1, dw1', n2 * n2, n2' * n2');
    EqMul(n1, n1', n1, n1');
    EqMul(dw2, dw2', n1 * n1, n1' * n1');
    EqRefl(w);
    EqRefl(s);
    EqMul(dw, dw', w, w);
    EqScale(8, dw * w, dw' * w);
    EqMul(dw, dw', s, s);
    EqScale(2, dw * s, dw' * s);
    var l0, l0' := (zz + uu) * (n1 * n2) + k, (zz + uu) * (n1' * n2') + k;
    var l1, l1' := l0 - dw1 * (n2 * n2), l0' - dw1' * (n2' * n2');
    EqAdd(l0, l0', dw1 * (n2 * n2), dw1' * (n2' * n2'));
    var l2, l2' := l1 - dw2 * (n1 * n1), l1' - dw2' * (n1' * n1');
    EqAdd(l1, l1', dw2 * (n1 * n1), dw2' * (n1' * n1'));
    var l3, l3' := l2 - 8 * (dw * w), l2' - 8 * (dw' * w);
    EqAdd(l2, l2', 8 * (dw * w), 8 * (dw' * w));
    EqAdd(l3, l3', 2 * (dw * s), 2 * (dw' * s));
  }

  /** d w^2 for a curve point, where w = X Y = T Z. */
  lemma SquareOnCurve(p: Ext)
    requires OnCurve(p)
    ensures Eq(D * ((p.x * p.y) * (p.x * p.y)), (D * (p.t * p.t)) * (p.z * p.z))
  {
    EqSym(p.t * p.z, p.x * p.y);
    EqMul(p.x * p.y, p.t * p.z, p.x * p.y, p.t * p.z);
    EqScale(D, (p.x * p.y) * (p.x * p.y), (p.t * p.z) * (p.t * p.z));
    SquareOfProduct(p.t, p.z);
    assert D * ((p.t * p.t) * (p.z * p.z)) == (D * (p.t * p.t)) * (p.z * p.z);
  }

  /** d w1 w2 for two curve points. */
  lemma CrossOnCurve(p: Ext, q: Ext)
    requires OnCurve(p) && OnCurve(q)
    ensures Eq(D * ((p.x * p.y) * (q.x * q.y)), (p.z * q.z) * (D * (p.t * q.t)))
  {
    EqSym(p.t * p.z, p.x * p.y);
    EqSym(q.t * q.z, q.x * q.y);
    EqMul(p.x * p.y, p.t * p.z, q.x * q.y, q.t * q.z);
    EqScale(D, (p.x * p.y) * (q.x * q.y), (p.t * p.z) * (q.t * q.z));
    assert (p.t * p.z) * (q.t * q.z) == (p.z * q.z) * (p.t * q.t);
    assert D * ((p.z * q.z) * (p.t * q.t)) == (p.z * q.z) * (D * (p.t * q.t));
  }

  lemma HalfDefectZero(p: Ext, q: Ext)
    requires OnCurve(p) && OnCurve(q)
    ensures var e, h := p.x * q.y + p.y * q.x, p.y * q.y + p.x * q.x;
            var z, u := p.z * q.z, D * (p.t * q.t);
            Eq(((z + u) * h) * ((z + u) * h) - (e * (z - u)) * (e * (z - u))
               - (((z - u) * (z + u)) * ((z - u) * (z + u)) + D * ((e * h) * (e * h))), 0)
  {
    var e, h := p.x * q.y + p.y * q.x, p.y * q.y + p.x * q.x;
    var z, u := p.z * q.z, D * (p.t * q.t);
    var n1, n2 := p.y * p.y - p.x * p.x, q.y * q.y - q.x * q.x;
    var s1, s2 := p.y * p.y + p.x * p.x, q.y * q.y + q.x * q.x;
    var w1, w2 := p.x * p.y, q.x * q.y;
    var z1, z2, t1, t2 := p.z * p.z, q.z * q.z, D * (p.t * p.t), D * (q.t * q.t);
    SumOfSquares(p.x, p.y, q.x, q.y);
    SquareSplit(p.x, p.y);
    SquareSplit(q.x, q.y);
    DefectExpands(D, z, u, e, h, n1, n2, s1, s2, w1, w2);
    SquareOnCurve(p);
    SquareOnCurve(q);
    CrossOnCurve(p, q);
    DefectCongruent(z * z, u * u, z * u, n1, n2, s1 * s2, w1 * w2, D * (w1 * w2), D * (w1 * w1), D * (w2 * w2),
                    z1 + t1, z2 + t2, z * u, t1 * z1, t2 * z2);
    hide Eq, OnCurve, Defect;
    SquareOfProduct(p.z, q.z);
    SquareOfTwist(D, p.t, q.t);
    DefectVanishes(z1, z2, t1, t2, s1 * s2, w1 * w2, z * u);
  }

  lemma SquareOfTwist(d: int, a: int, b: int)
    ensures (d * (a * b)) * (d * (a * b)) == (d * (a * a)) * (d * (b * b))
  {
    SquareOfProduct(a, b);
    Swap4(d, a * b, d, a * b);
    Swap4(d, a * a, d, b * b);
  }

  /** The sum of two curve points satisfies T Z = X Y and the curve equation. */
  lemma AddClosed(p: Ext, q: Ext)
    requires OnCurve(p) && OnCurve(q)
    ensures OnCurve(RfcAdd(p, q))
  {
    var e, h := p.x * q.y + p.y * q.x, p.y * q.y + p.x * q.x;
    var z, u := p.z * q.z, D * (p.t * q.t);
    var f, g := z - u, z + u;
    Halves(p, q);
    HalfDefectZero(p, q);
    var r := RfcAdd(p, q);
    var defect := (g * h) * (g * h) - (e * f) * (e * f) - ((f * g) * (f * g) + D * ((e * h) * (e * h)));
    Doubled(e, f);
    Doubled(g, h);
    Doubled(f, g);
    Doubled(e, h);
    assert r.y * r.y - r.x * r.x - (r.z * r.z + D * (r.t * r.t)) == 16 * defect;
    EqScale(16, defect, 0);
    EqRefl(r.z * r.z + D * (r.t * r.t));
    EqAdd(16 * defect, 0, r.z * r.z + D * (r.t * r.t), r.z * r.z + D * (r.t * r.t));
    FourProduct(2 * e, 2 * f, 2 * g, 2 * h);
    EqRefl(r.x * r.y);
  }

  lemma Doubled(a: int, b: int)
    ensures (2 * a) * (2 * b) == 4 * (a * b)
    ensures ((2 * a) * (2 * b)) * ((2 * a) * (2 * b)) == 16 * ((a * b) * (a * b))
  {
    var c := a * b;
    assert (2 * a) * (2 * b) == 4 * c;
    assert (4 * c) * (4 * c) == 16 * (c * c);
  }

  lemma FourProduct(e: int, f: int, g: int, h: int)
    ensures (e * h) * (f * g) == (e * f) * (g * h)
  {
  }

  /**
   The sum is the affine sum x3 = (x1 y2 + x2 y1) / (1 + d x1 x2 y1 y2),
   y3 = (y1 y2 + x1 x2) / (1 - d x1 x2 y1 y2), with the denominators multiplied out.
   */
  lemma AddIsAffineSum(p: Ext, q: Ext)
    requires OnCurve(p) && OnCurve(q)
    ensures var r := RfcAdd(p, q);
            var zz, dxy := (p.z * q.z) * (p.z * q.z), D * ((p.x * p.y) * (q.x * q.y));
            && Eq(r.x * (zz + dxy), r.z * ((p.x * q.y + p.y * q.x) * (p.z * q.z)))
            && Eq(r.y * (zz - dxy), r.z * ((p.y * q.y + p.x * q.x) * (p.z * q.z)))
  {
    hide Eq, OnCurve, RfcAdd;
    var e, h := p.x * q.y + p.y * q.x, p.y * q.y + p.x * q.x;
    var z, u := p.z * q.z, D * (p.t * q.t);
    var r := RfcAdd(p, q);
    var dxy := D * ((p.x * p.y) * (q.x * q.y));
    Halves(p, q);
    CrossOnCurve(p, q);
    EqRefl(z * z);
    EqAdd(z * z, z * z, dxy, z * u);
    EqScale(r.x, z * z + dxy, z * z + z * u);
    EqScale(r.y, z * z - dxy, z * z - z * u);
    assert z * z + z * u == z * (z + u) && z * z - z * u == z * (z - u);
    CancelCommon(e, z - u, z + u, h, z);
  }

  lemma CancelCommon(e: int, f: int, g: int, h: int, z: int)
    ensures ((2 * e) * (2 * f)) * (z * g) == ((2 * f) * (2 * g)) * (e * z)
    ensures ((2 * g) * (2 * h)) * (z * f) == ((2 * f) * (2 * g)) * (h * z)
  {
    assert (2 * e) * (2 * f) == 4 * (e * f) && (2 * f) * (2 * g) == 4 * (f * g) && (2 * g) * (2 * h) == 4 * (g * h);
    assert (e * f) * (z * g) == (f * g) * (e * z);
    assert (g * h) * (z * f) == (f * g) * (h * z);
  }
}
