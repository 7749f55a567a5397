/**
 What the point code computes on limb coordinates, and why the scalar ladder
 multiplies: the limb formulas refine section 5.1.4 of RFC 8032, and the ladder
 keeps p = [k]Q and q = [k + 1]Q in any group that those formulas realise.
 */
module PointSpec {
  import opened Arith
  import opened Radix
  import opened FieldSpec
  import opened Edwards
  import opened Inverse
  import opened Completeness

  const D2_LIMBS: seq<int> := [0xf159, 0x26b2, 0x9b94, 0xebd6, 0xb156, 0x8283, 0x149a, 0x00e0,
                               0xd130, 0xeef3, 0x80f2, 0x198e, 0xfce7, 0x56df, 0xd9dc, 0x2406]
  const BX_LIMBS: seq<int> := [0xd51a, 0x8f25, 0x2d60, 0xc956, 0xa7b2, 0x9525, 0xc760, 0x692c,
                               0xdc5c, 0xfdd6, 0xe231, 0xc0a4, 0x53fe, 0xcd6e, 0x36d3, 0x2169]
  const BY_LIMBS: seq<int> := [0x6658, 0x6666, 0x6666, 0x6666, 0x6666, 0x6666, 0x6666, 0x6666,
                               0x6666, 0x6666, 0x6666, 0x6666, 0x6666, 0x6666, 0x6666, 0x6666]
  const ZERO_LIMBS: seq<int> := [0, 0, 0, 0, 0, 0, 0, 0, 0, 0, 0, 0, 0, 0, 0, 0]
  const ONE_LIMBS: seq<int> := [1, 0, 0, 0, 0, 0, 0, 0, 0, 0, 0, 0, 0, 0, 0, 0]

  const BX: int := 0x2169_36d3_cd6e_53fe_c0a4_e231_fdd6_dc5c_692c_c760_9525_a7b2_c956_2d60_8f25_d51a
  const BY: int := 0x6666_6666_6666_6666_6666_6666_6666_6666_6666_6666_6666_6666_6666_6666_6666_6658

  /** The limb constants hold 0, 1, 2d - p and the base point. */
  lemma LimbConstants()
    ensures Val(ZERO_LIMBS) == 0 && Val(ONE_LIMBS) == 1
    ensures Val(D2_LIMBS) == 2 * D - P
    ensures Val(BX_LIMBS) == BX && Val(BY_LIMBS) == BY
  {
    Val16(ZERO_LIMBS);
    Val16(ONE_LIMBS);
    Val16(D2_LIMBS);
    Val16(BX_LIMBS);
    Val16(BY_LIMBS);
  }

  /** A point as four limb sequences. */
  datatype LimbPoint = LimbPoint(x: seq<int>, y: seq<int>, z: seq<int>, t: seq<int>)

  ghost predicate Shaped(p: LimbPoint) {
    |p.x| == |p.y| == |p.z| == |p.t| == 16
  }

  ghost predicate TightPoint(p: LimbPoint) {
    Tight(p.x) && Tight(p.y) && Tight(p.z) && Tight(p.t)
  }

  function ValPoint(p: LimbPoint): Ext {
    Ext(Val(p.x), Val(p.y), Val(p.z), Val(p.t))
  }

  datatype Sums = Sums(e: seq<int>, f: seq<int>, g: seq<int>, h: seq<int>)

  /** The four sums e, f, g, h of add_pts. */
  function AddSums(p: LimbPoint, q: LimbPoint): (s: Sums)
    requires Shaped(p) && Shaped(q)
    ensures |s.e| == |s.f| == |s.g| == |s.h| == 16
  {
    var a := MulLimbs(SubLimbs(p.y, p.x), SubLimbs(q.y, q.x));
    var b := MulLimbs(AddLimbs(p.x, p.y), AddLimbs(q.x, q.y));
    var c := MulLimbs(MulLimbs(p.t, q.t), D2_LIMBS);
    var d := AddLimbs(MulLimbs(p.z, q.z), MulLimbs(p.z, q.z));
    Sums(SubLimbs(b, a), SubLimbs(d, c), AddLimbs(d, c), AddLimbs(b, a))
  }

  function AddPoints(p: LimbPoint, q: LimbPoint): (r: LimbPoint)
    requires Shaped(p) && Shaped(q)
    ensures Shaped(r)
  {
    var s := AddSums(p, q);
    LimbPoint(MulLimbs(s.e, s.f), MulLimbs(s.h, s.g), MulLimbs(s.g, s.f), MulLimbs(s.e, s.h))
  }

  /** The product of a sum or difference of two tight operands each. */
  lemma MulOfSums(a: seq<int>, b: seq<int>, c: seq<int>, d: seq<int>)
    requires Tight(a) && Tight(b) && Tight(c) && Tight(d)
    ensures Mulable(AddLimbs(a, b)) && Mulable(AddLimbs(c, d))
    ensures Mulable(SubLimbs(a, b)) && Mulable(SubLimbs(c, d))
    ensures Tight(MulLimbs(AddLimbs(a, b), AddLimbs(c, d)))
    ensures Eq(Val(MulLimbs(AddLimbs(a, b), AddLimbs(c, d))), (Val(a) + Val(b)) * (Val(c) + Val(d)))
    ensures Tight(MulLimbs(SubLimbs(a, b), SubLimbs(c, d)))
    ensures Eq(Val(MulLimbs(SubLimbs(a, b), SubLimbs(c, d))), (Val(a) - Val(b)) * (Val(c) - Val(d)))
  {
    TightWithin(a);
    TightWithin(b);
    TightWithin(c);
    TightWithin(d);
    SumBounds(a, b, 65573, 65573);
    SumBounds(c, d, 65573, 65573);
    SumValues(a, b);
    SumValues(c, d);
    MulValue(AddLimbs(a, b), AddLimbs(c, d));
    MulValue(SubLimbs(a, b), SubLimbs(c, d));
  }

  lemma TermC(p: LimbPoint, q: LimbPoint)
    requires TightPoint(p) && TightPoint(q)
    ensures Mulable(D2_LIMBS) && Mulable(MulLimbs(p.t, q.t))
    ensures Tight(MulLimbs(MulLimbs(p.t, q.t), D2_LIMBS))
    ensures Eq(Val(MulLimbs(MulLimbs(p.t, q.t), D2_LIMBS)), Val(p.t) * 2 * D * Val(q.t))
  {
    var m, t1, t2 := MulLimbs(p.t, q.t), Val(p.t), Val(q.t);
    TightWithin(p.t);
    TightWithin(q.t);
    MulValue(p.t, q.t);
    TightWithin(m);
    MulValue(m, D2_LIMBS);
    LimbConstants();
    CongBy(2 * D - P, 2 * D, P, -1);
    EqMul(Val(m), t1 * t2, 2 * D - P, 2 * D);
    EqTrans(Val(MulLimbs(m, D2_LIMBS)), Val(m) * (2 * D - P), (t1 * t2) * (2 * D));
    assert (t1 * t2) * (2 * D) == t1 * 2 * D * t2;
  }

  lemma TermD(p: LimbPoint, q: LimbPoint)
    requires TightPoint(p) && TightPoint(q)
    ensures var d := MulLimbs(p.z, q.z);
            && Tight(d)
            && Within(AddLimbs(d, d), -131146, 131146)
            && Eq(Val(AddLimbs(d, d)), Val(p.z) * 2 * Val(q.z))
  {
    var d := MulLimbs(p.z, q.z);
    TightWithin(p.z);
    TightWithin(q.z);
    MulValue(p.z, q.z);
    TightWithin(d);
    SumBounds(d, d, 65573, 65573);
    SumValues(d, d);
    EqScale(2, Val(d), Val(p.z) * Val(q.z));
    assert 2 * (Val(p.z) * Val(q.z)) == Val(p.z) * 2 * Val(q.z);
  }

  /** The sums of add_pts stay multipliable and mean what RFC 8032 says. */
  lemma AddSumsValue(p: LimbPoint, q: LimbPoint)
    requires TightPoint(p) && TightPoint(q)
    ensures var s := AddSums(p, q);
            && Mulable(s.e) && Mulable(s.f) && Mulable(s.g) && Mulable(s.h)
            && EqExt(Complete(Val(s.e), Val(s.f), Val(s.g), Val(s.h)), RfcAdd(ValPoint(p), ValPoint(q)))
  {
    var a := MulLimbs(SubLimbs(p.y, p.x), SubLimbs(q.y, q.x));
    var b := MulLimbs(AddLimbs(p.x, p.y), AddLimbs(q.x, q.y));
    var c := MulLimbs(MulLimbs(p.t, q.t), D2_LIMBS);
    var d := AddLimbs(MulLimbs(p.z, q.z), MulLimbs(p.z, q.z));
    MulOfSums(p.y, p.x, q.y, q.x);
    MulOfSums(p.x, p.y, q.x, q.y);
    TermC(p, q);
    TermD(p, q);
    TightWithin(a);
    TightWithin(b);
    TightWithin(c);
    SumBounds(b, a, 65573, 65573);
    SumBounds(d, c, 131146, 65573);
    SumValues(b, a);
    SumValues(d, c);
    var u, v := ValPoint(p), ValPoint(q);
    var ra, rb := (u.y - u.x) * (v.y - v.x), (u.y + u.x) * (v.y + v.x);
    var rc, rd := u.t * 2 * D * v.t, u.z * 2 * v.z;
    assert Eq(Val(b), rb);
    EqAdd(Val(b), rb, Val(a), ra);
    EqAdd(Val(d), rd, Val(c), rc);
    CompleteCongruent(Val(b) - Val(a), rb - ra, Val(d) - Val(c), rd - rc,
                      Val(d) + Val(c), rd + rc, Val(b) + Val(a), rb + ra);
  }

  lemma MulCongruent(a: seq<int>, b: seq<int>, c: int)
    requires Mulable(a) && Mulable(b) && Eq(Val(a) * Val(b), c)
    ensures Eq(Val(MulLimbs(a, b)), c) && Tight(MulLimbs(a, b))
  {
    MulValue(a, b);
    EqTrans(Val(MulLimbs(a, b)), Val(a) * Val(b), c);
  }

  /** The limb addition refines the addition of RFC 8032 modulo p. */
  lemma AddPointsRefines(p: LimbPoint, q: LimbPoint)
    requires TightPoint(p) && TightPoint(q)
    ensures TightPoint(AddPoints(p, q))
    ensures EqExt(ValPoint(AddPoints(p, q)), RfcAdd(ValPoint(p), ValPoint(q)))
  {
    var s := AddSums(p, q);
    var r := RfcAdd(ValPoint(p), ValPoint(q));
    AddSumsValue(p, q);
    MulCongruent(s.e, s.f, r.x);
    MulCongruent(s.h, s.g, r.y);
    MulCongruent(s.g, s.f, r.z);
    MulCongruent(s.e, s.h, r.t);
  }

  // ---------------------------------------------------------------- groups

  /** An operation with a unit; the curve group is one instance. */
  datatype Group<!G> = Group(op: (G, G) -> G, unit: G)

  ghost predicate Associative<G(!new)>(g: Group<G>) {
    && (forall a, b, c {:trigger g.op(g.op(a, b), c)} :: g.op(g.op(a, b), c) == g.op(a, g.op(b, c)))
    && (forall a {:trigger g.op(g.unit, a)} :: g.op(g.unit, a) == a)
    && (forall a {:trigger g.op(a, g.unit)} :: g.op(a, g.unit) == a)
  }

  /** [n]x. */
  function Times<G>(g: Group<G>, n: nat, x: G): G {
    if n == 0 then g.unit else g.op(Times(g, n - 1, x), x)
  }

  lemma {:induction false} TimesAdd<G(!new)>(g: Group<G>, m: nat, n: nat, x: G)
    requires Associative(g)
    ensures Times(g, m + n, x) == g.op(Times(g, m, x), Times(g, n, x))
  {
    if n > 0 {
      TimesAdd(g, m, n - 1, x);
    }
  }

  lemma {:induction false} TimesTimes<G(!new)>(g: Group<G>, m: nat, n: nat, x: G)
    requires Associative(g)
    ensures m * n >= 0
    ensures Times(g, m * n, x) == Times(g, m, Times(g, n, x))
  {
    hide Associative;
    NatProduct(m, n);
    if m > 0 {
      TimesTimes(g, m - 1, n, x);
      NatProduct(m - 1, n);
      hide Times;
      TimesAdd(g, (m - 1) * n, n, x);
      TimesNext(g, m - 1, Times(g, n, x));
    }
  }

  lemma NatProduct(m: nat, n: nat)
    ensures m * n >= 0
    ensures m > 0 ==> m * n == (m - 1) * n + n
  {
  }

  lemma TimesNext<G>(g: Group<G>, n: nat, x: G)
    ensures Times(g, n + 1, x) == g.op(Times(g, n, x), x)
  {
  }

  const NEUTRAL: Ext := Ext(0, 1, 1, 0)

  /**
   The points of the curve represent elements of g, and the addition formulas are
   the operation of g.  Over a prime field in which d is not a square this assumes
   associativity on the curve; that sums are points again is proved.
   */
  ghost predicate Realises<G(!new)>(g: Group<G>, abs: Ext -> G) {
    && CurveField()
    && Associative(g)
    && (forall p, q {:trigger SameClass(p, q)} :: IsPoint(p) && IsPoint(q) && SameClass(p, q) ==> abs(p) == abs(q))
    && abs(NEUTRAL) == g.unit
    && (forall p, q {:trigger RfcAdd(p, q)} :: IsPoint(p) && IsPoint(q) ==> abs(RfcAdd(p, q)) == g.op(abs(p), abs(q)))
  }

  lemma SameElement<G(!new)>(g: Group<G>, abs: Ext -> G, p: Ext, q: Ext)
    requires Realises(g, abs) && IsPoint(p) && IsPoint(q) && SameClass(p, q)
    ensures abs(p) == abs(q)
  {
  }

  lemma SumElement<G(!new)>(g: Group<G>, abs: Ext -> G, p: Ext, q: Ext)
    requires Realises(g, abs) && IsPoint(p) && IsPoint(q)
    ensures abs(RfcAdd(p, q)) == g.op(abs(p), abs(q))
  {
    hide IsPoint, CurveField;
    var r := RfcAdd(p, q);
  }

  lemma RealisesField<G(!new)>(g: Group<G>, abs: Ext -> G)
    requires Realises(g, abs)
    ensures CurveField() && Associative(g)
  {
  }

  /** Congruent coordinates represent the same affine point. */
  lemma CongruentClass(p: Ext, q: Ext)
    requires EqExt(p, q)
    ensures SameClass(p, q)
  {
    EqSym(p.z, q.z);
    EqMul(p.x, q.x, q.z, p.z);
    EqMul(p.y, q.y, q.z, p.z);
  }

  /** The sum of two points is a point. */
  lemma SumIsPoint(p: Ext, q: Ext)
    requires CurveField() && IsPoint(p) && IsPoint(q)
    ensures IsPoint(RfcAdd(p, q))
  {
    AddClosed(p, q);
    AddHasDenominator(p, q);
  }

  /** Being a point does not depend on the representatives. */
  lemma PointCongruent(p: Ext, q: Ext)
    requires IsPoint(p) && EqExt(p, q)
    ensures IsPoint(q)
  {
    EqMul(p.t, q.t, p.z, q.z);
    EqMul(p.x, q.x, p.y, q.y);
    EqSym(p.t * p.z, q.t * q.z);
    EqTrans(q.t * q.z, p.t * p.z, p.x * p.y);
    EqTrans(q.t * q.z, p.x * p.y, q.x * q.y);
    EqMul(p.y, q.y, p.y, q.y);
    EqMul(p.x, q.x, p.x, q.x);
    EqMul(p.z, q.z, p.z, q.z);
    EqMul(p.t, q.t, p.t, q.t);
    EqScale(D, p.t * p.t, q.t * q.t);
    EqAdd(p.y * p.y, q.y * q.y, p.x * p.x, q.x * q.x);
    EqAdd(p.z * p.z, q.z * q.z, D * (p.t * p.t), D * (q.t * q.t));
    var l, r := p.y * p.y - p.x * p.x, p.z * p.z + D * (p.t * p.t);
    var l', r' := q.y * q.y - q.x * q.x, q.z * q.z + D * (q.t * q.t);
    EqSym(l, l');
    EqTrans(l', l, r);
    EqTrans(l', r, r');
    if Eq(q.z, 0) {
      EqTrans(p.z, q.z, 0);
    }
  }

  /** On limb points, add_pts is the group operation and yields a point again. */
  lemma AddPointsInGroup<G(!new)>(g: Group<G>, abs: Ext -> G, p: LimbPoint, q: LimbPoint)
    requires Realises(g, abs)
    requires TightPoint(p) && TightPoint(q) && IsPoint(ValPoint(p)) && IsPoint(ValPoint(q))
    ensures TightPoint(AddPoints(p, q)) && IsPoint(ValPoint(AddPoints(p, q)))
    ensures abs(ValPoint(AddPoints(p, q))) == g.op(abs(ValPoint(p)), abs(ValPoint(q)))
  {
    var u, v := ValPoint(p), ValPoint(q);
    var r, w := RfcAdd(u, v), ValPoint(AddPoints(p, q));
    RealisesField(g, abs);
    SumIsPoint(u, v);
    SumElement(g, abs, u, v);
    AddPointsRefines(p, q);
    SymExt(w, r);
    hide Realises, CurveField, Associative, IsPoint, TightPoint, RfcAdd, AddPoints;
    PointCongruent(r, w);
    CongruentClass(w, r);
    SameElement(g, abs, w, r);
  }

  lemma SymExt(p: Ext, q: Ext)
    requires EqExt(p, q)
    ensures EqExt(q, p)
  {
    EqSym(p.x, q.x);
    EqSym(p.y, q.y);
    EqSym(p.z, q.z);
    EqSym(p.t, q.t);
  }

  // ---------------------------------------------------------------- the ladder

  /** Bit i of a little-endian byte string. */
  function BitAt(s: seq<int>, i: nat): (b: int)
    requires i < 8 * |s|
    ensures 0 <= b <= 1
  {
    PowPositive(2, i % 8);
    s[i / 8] / Pow(2, i % 8) % 2
  }

  /** The number that the bits i and above spell. */
  function HighBits(s: seq<int>, i: nat): (n: int)
    requires i <= 8 * |s|
    ensures n >= 0
    decreases 8 * |s| - i
  {
    if i == 8 * |s| then 0 else 2 * HighBits(s, i + 1) + BitAt(s, i)
  }

  lemma {:induction false} BitOfByte(s: seq<int>, k: nat, j: nat)
    requires k < |s| && j < 8
    ensures Pow(2, j) > 0 && BitAt(s, 8 * k + j) == s[k] / Pow(2, j) % 2
  {
    PowPositive(2, j);
    assert (8 * k + j) / 8 == k && (8 * k + j) % 8 == j;
  }

  lemma TwoHighBits(s: seq<int>, i: nat, y: int)
    requires i + 2 <= 8 * |s| && BitAt(s, i) == y % 2 && BitAt(s, i + 1) == y / 2 % 2
    ensures HighBits(s, i) == 4 * HighBits(s, i + 2) + y % 4
  {
    hide BitAt;
    assert HighBits(s, i) == 2 * HighBits(s, i + 1) + BitAt(s, i);
    assert HighBits(s, i + 1) == 2 * HighBits(s, i + 2) + BitAt(s, i + 1);
  }

  lemma BitPair(s: seq<int>, k: nat, j: nat, p: int)
    requires k < |s| && j < 7 && p > 0 && Pow(2, j) == p && Pow(2, j + 1) == 2 * p
    ensures HighBits(s, 8 * k + j) == 4 * HighBits(s, 8 * k + j + 2) + s[k] / p % 4
  {
    BitOfByte(s, k, j);
    BitOfByte(s, k, j + 1);
    hide BitAt, HighBits;
    var x := s[k];
    assert x / (2 * p) == x / p / 2 by {
      NestedDiv(x, p);
    }
    TwoHighBits(s, 8 * k + j, x / p);
  }

  lemma NestedDiv(x: int, p: int)
    requires p > 0
    ensures x / (2 * p) == x / p / 2
  {
    var q, r := x / p, x % p;
    assert x == (q / 2 * 2 + q % 2) * p + r;
    assert (q / 2 * 2 + q % 2) * p == q / 2 * (2 * p) + q % 2 * p;
    DivModUnique(x, 2 * p, q / 2, q % 2 * p + r);
  }

  lemma BytePowers()
    ensures Pow(2, 0) == 1 && Pow(2, 1) == 2 && Pow(2, 2) == 4 && Pow(2, 3) == 8
    ensures Pow(2, 4) == 16 && Pow(2, 5) == 32 && Pow(2, 6) == 64 && Pow(2, 7) == 128
  {
  }

  lemma ByteBits(s: seq<int>, k: nat)
    requires k < |s| && 0 <= s[k] < 256
    ensures HighBits(s, 8 * k) == 256 * HighBits(s, 8 * (k + 1)) + s[k]
  {
    BytePowers();
    hide HighBits, Pow;
    BitPair(s, k, 0, 1);
    BitPair(s, k, 2, 4);
    BitPair(s, k, 4, 16);
    BitPair(s, k, 6, 64);
    FourPairs(s[k]);
  }

  lemma FourPairs(x: int)
    requires 0 <= x < 256
    ensures x == x / 1 % 4 + 4 * (x / 4 % 4) + 16 * (x / 16 % 4) + 64 * (x / 64 % 4)
  {
    var a := x / 4;
    var b := a / 4;
    assert x / 16 == b && x / 64 == b / 4 && b / 4 < 4;
    assert x == 4 * a + x % 4 && a == 4 * b + a % 4 && b == 4 * (b / 4) + b % 4;
  }

  /** All bits together are the little-endian value. */
  lemma {:induction false} HighBitsValue(s: seq<int>, k: nat)
    requires k <= |s| && Within(s, 0, 255)
    ensures HighBits(s, 8 * k) == Eval(256, s[k..])
    decreases |s| - k
  {
    if k < |s| {
      HighBitsValue(s, k + 1);
      ByteBits(s, k);
      assert s[k..] == [s[k]] + s[k + 1..];
      EvalConcat(256, [s[k]], s[k + 1..]);
      assert Eval(256, [s[k]]) == s[k];
    }
  }

  datatype Pair = Pair(p: LimbPoint, q: LimbPoint)

  ghost predicate ShapedPair(w: Pair) {
    Shaped(w.p) && Shaped(w.q)
  }

  function Swap(w: Pair, b: int): Pair {
    if b == 1 then Pair(w.q, w.p) else w
  }

  /** One iteration: swap, q := q + p, p := p + p, swap back. */
  function LadderStep(w: Pair, b: int): (r: Pair)
    requires ShapedPair(w)
    ensures ShapedPair(r)
  {
    var v := Swap(w, b);
    Swap(Pair(AddPoints(v.p, v.p), AddPoints(v.q, v.p)), b)
  }

  /** The neutral element and the point itself. */
  function Start(q: LimbPoint): Pair {
    Pair(LimbPoint(ZERO_LIMBS, ONE_LIMBS, ONE_LIMBS, ZERO_LIMBS), q)
  }

  /** The pair after the bits from the top down to i have been used. */
  function Ladder(q: LimbPoint, s: seq<int>, i: nat): (w: Pair)
    requires Shaped(q) && i <= 8 * |s|
    ensures ShapedPair(w)
    decreases 8 * |s| - i
  {
    if i == 8 * |s| then Start(q)
    else LadderStep(Ladder(q, s, i + 1), BitAt(s, i))
  }

  /** Both points of a pair can be added: no operation of the ladder overflows. */
  ghost predicate TightPair(w: Pair) {
    TightPoint(w.p) && TightPoint(w.q)
  }

  lemma StepTight(w: Pair, b: int)
    requires TightPair(w)
    ensures TightPair(LadderStep(w, b))
  {
    var v := Swap(w, b);
    AddPointsRefines(v.p, v.p);
    AddPointsRefines(v.q, v.p);
  }

  lemma InitialTight(q: LimbPoint)
    requires TightPoint(q)
    ensures Shaped(q) && TightPair(Start(q))
  {
    assert Tight(ZERO_LIMBS) && Tight(ONE_LIMBS);
    TightWithin(q.x);
    hide Tight, Within;
  }

  /** Every pair of the ladder is tight, so no operation of the ladder overflows. */
  lemma {:induction false} LadderTight(q: LimbPoint, s: seq<int>, i: nat)
    requires TightPoint(q) && i <= 8 * |s|
    ensures TightPair(Ladder(q, s, i))
    decreases 8 * |s| - i
  {
    InitialTight(q);
    hide AddPoints, BitAt, TightPoint, LadderStep;
    if i < 8 * |s| {
      LadderTight(q, s, i + 1);
      StepTight(Ladder(q, s, i + 1), BitAt(s, i));
    }
  }

  /** The limb point p is a point and represents [n]x. */
  ghost predicate Holds<G(!new)>(g: Group<G>, abs: Ext -> G, p: LimbPoint, n: nat, x: G) {
    TightPoint(p) && IsPoint(ValPoint(p)) && abs(ValPoint(p)) == Times(g, n, x)
  }

  lemma AddHolds<G(!new)>(g: Group<G>, abs: Ext -> G, p: LimbPoint, m: nat, q: LimbPoint, n: nat, x: G)
    requires Realises(g, abs) && Holds(g, abs, p, m, x) && Holds(g, abs, q, n, x)
    ensures Shaped(p) && Shaped(q) && Holds(g, abs, AddPoints(p, q), m + n, x)
  {
    TimesAdd(g, m, n, x);
    hide AddPoints;
    AddPointsInGroup(g, abs, p, q);
  }

  /** p = [k]Q and q = [k + 1]Q. */
  ghost predicate LadderInvariant<G(!new)>(g: Group<G>, abs: Ext -> G, w: Pair, k: nat, x: G) {
    Holds(g, abs, w.p, k, x) && Holds(g, abs, w.q, k + 1, x)
  }

  lemma LadderStepInvariant<G(!new)>(g: Group<G>, abs: Ext -> G, w: Pair, k: nat, x: G, b: int)
    requires Realises(g, abs) && 0 <= b <= 1
    requires LadderInvariant(g, abs, w, k, x)
    ensures ShapedPair(w) && LadderInvariant(g, abs, LadderStep(w, b), 2 * k + b, x)
  {
    hide AddPoints, Realises, Holds;
    if b == 1 {
      AddHolds(g, abs, w.q, k + 1, w.q, k + 1, x);
      AddHolds(g, abs, w.p, k, w.q, k + 1, x);
    } else {
      AddHolds(g, abs, w.p, k, w.p, k, x);
      AddHolds(g, abs, w.q, k + 1, w.p, k, x);
    }
  }

  lemma NeutralIsPoint()
    ensures IsPoint(NEUTRAL)
  {
    EqRefl(0);
    EqRefl(1);
    assert D * 0 == 0;
    SmallNonZero(1);
  }

  lemma LadderStart<G(!new)>(g: Group<G>, abs: Ext -> G, q: LimbPoint, x: G)
    requires Realises(g, abs) && Holds(g, abs, q, 1, x)
    ensures Shaped(q) && LadderInvariant(g, abs, Start(q), 0, x)
  {
    InitialTight(q);
    LimbConstants();
    NeutralIsPoint();
  }

  /** Before bit i - 1 the ladder holds [s >> i]Q and [(s >> i) + 1]Q. */
  lemma {:induction false} LadderComputes<G(!new)>(g: Group<G>, abs: Ext -> G, q: LimbPoint, s: seq<int>, i: nat, x: G)
    requires Realises(g, abs) && Shaped(q) && Holds(g, abs, q, 1, x) && i <= 8 * |s|
    ensures LadderInvariant(g, abs, Ladder(q, s, i), HighBits(s, i), x)
    decreases 8 * |s| - i
  {
    hide AddPoints, BitAt, LadderStep, LadderInvariant, Holds, Realises, Start;
    if i < 8 * |s| {
      LadderComputes(g, abs, q, s, i + 1, x);
      LadderStepInvariant(g, abs, Ladder(q, s, i + 1), HighBits(s, i + 1), x, BitAt(s, i));
    } else {
      LadderStart(g, abs, q, x);
    }
  }

  /** The ladder computes [s]Q for every scalar s. */
  lemma LadderIsScalarMultiple<G(!new)>(g: Group<G>, abs: Ext -> G, q: LimbPoint, s: seq<int>)
    requires Realises(g, abs)
    requires TightPoint(q) && IsPoint(ValPoint(q)) && Within(s, 0, 255)
    ensures Eval(256, s) >= 0
    ensures abs(ValPoint(Ladder(q, s, 0).p)) == Times(g, Eval(256, s), abs(ValPoint(q)))
    ensures IsPoint(ValPoint(Ladder(q, s, 0).p))
  {
    var x := abs(ValPoint(q));
    assert Times(g, 1, x) == g.op(Times(g, 0, x), x);
    LadderComputes(g, abs, q, s, 0, x);
    HighBitsValue(s, 0);
    assert s[0..] == s;
  }

  // ---------------------------------------------------------------- base point

  /** The base point of scalarbase; its t coordinate is computed. */
  function BasePoint(): (b: LimbPoint)
    ensures Shaped(b)
  {
    LimbPoint(BX_LIMBS, BY_LIMBS, ONE_LIMBS, MulLimbs(BX_LIMBS, BY_LIMBS))
  }

  /** The base point constants satisfy y = 4/5 and the curve equation. */
  lemma BaseOnCurve()
    ensures Eq(5 * BY, 4)
    ensures Eq(BY * BY - BX * BX, 1 + D * ((BX * BY) * (BX * BY)))
    ensures OnCurve(Ext(BX, BY, 1, BX * BY))
  {
    CongBy(5 * BY, 4, P, (5 * BY - 4) / P);
    var l, r := BY * BY - BX * BX, 1 + D * ((BX * BY) * (BX * BY));
    CongBy(l, r, P, (l - r) / P);
    EqRefl(BX * BY);
  }

  lemma BaseIsPoint()
    ensures TightPoint(BasePoint()) && IsPoint(ValPoint(BasePoint()))
  {
    assert Tight(BX_LIMBS) && Tight(BY_LIMBS) && Tight(ONE_LIMBS);
    assert Mulable(BX_LIMBS) && Mulable(BY_LIMBS);
    hide Tight, Mulable, Within, MulLimbs, Val, OnCurve;
    LimbConstants();
    MulValue(BX_LIMBS, BY_LIMBS);
    BaseOnCurve();
    EqRefl(BX);
    EqRefl(BY);
    EqRefl(1);
    EqSym(Val(MulLimbs(BX_LIMBS, BY_LIMBS)), BX * BY);
    SmallNonZero(1);
    hide Eq;
    PointCongruent(Ext(BX, BY, 1, BX * BY), ValPoint(BasePoint()));
  }

  /** [s]B as the ladder leaves it. */
  function BaseMultiple(s: seq<int>): (p: LimbPoint)
    ensures Shaped(p)
  {
    Ladder(BasePoint(), s, 0).p
  }

  lemma BaseMultipleTight(s: seq<int>)
    ensures TightPoint(BaseMultiple(s))
  {
    BaseIsPoint();
    hide BasePoint, Ladder;
    LadderTight(BasePoint(), s, 0);
  }

  /** scalarbase computes [s]B. */
  lemma BaseMultipleIsMultiple<G(!new)>(g: Group<G>, abs: Ext -> G, s: seq<int>)
    requires Realises(g, abs) && Within(s, 0, 255)
    ensures Eval(256, s) >= 0 && IsPoint(ValPoint(BaseMultiple(s)))
    ensures abs(ValPoint(BaseMultiple(s))) == Times(g, Eval(256, s), abs(ValPoint(BasePoint())))
  {
    BaseIsPoint();
    hide BasePoint, Realises, IsPoint;
    LadderIsScalarMultiple(g, abs, BasePoint(), s);
  }
}
