/**
 Inversion, point addition, the scalar ladder and point packing, updating limb
 arrays in place.
 */
module Points {
  import opened Arith
  import opened Radix
  import opened Words
  import opened Bits
  import opened FieldSpec
  import opened Field
  import opened Edwards
  import opened Inverse
  import opened Encoding
  import opened PointSpec

  /** a^(p - 2) by squaring and multiplying, skipping the multiplications at 2 and 4. */
  method Inv25519(o: array<i64>, a: array<i64>)
    requires o.Length == a.Length == 16 && Mulable(a[..])
    modifies o
    ensures Mulable(o[..]) && Eq(Val(o[..]), Inv(Val(old(a[..]))))
    ensures Tight(o[..])
  {
    ghost var x := Val(a[..]);
    var c := new i64[16];
    Set25519(c, a[..]);
    assert Pow(x, 1) == x * Pow(x, 0);
    EqRefl(x);
    hide Pow, Eq, Val, MulLimbs, Tight, ChainExp;
    var i := 253;
    while i >= 0
      invariant -1 <= i <= 253
      invariant a[..] == old(a[..]) && Mulable(c[..])
      invariant i < 253 ==> Tight(c[..])
      invariant Eq(Val(c[..]), Pow(x, ChainExp(253 - i)))
    {
      ghost var v := Val(c[..]);
      S(c, c);
      TightWithin(c[..]);
      ghost var s := Val(c[..]);
      if i != 2 && i != 4 {
        M(c, c, a);
        TightWithin(c[..]);
      }
      ChainInvariant(v, s, Val(c[..]), x, i);
      i := i - 1;
    }
    ChainExpIsPMinus2();
    Set25519(o, c[..]);
  }

  lemma ChainInvariant(v: int, s: int, c: int, x: int, i: nat)
    requires i <= 253 && Eq(v, Pow(x, ChainExp(253 - i))) && Eq(s, v * v)
    requires if i != 2 && i != 4 then Eq(c, s * x) else c == s
    ensures Eq(c, Pow(x, ChainExp(254 - i)))
  {
    EqRefl(s * x);
    ChainStep(v, s, if i != 2 && i != 4 then c else s * x, x, ChainExp(253 - i));
    hide Pow, Eq;
    assert ChainExp(254 - i) == 2 * ChainExp(253 - i) + (if i == 2 || i == 4 then 0 else 1);
  }

  /** The four coordinate arrays of a point. */
  class Point {
    const x: array<i64>
    const y: array<i64>
    const z: array<i64>
    const t: array<i64>

    ghost predicate Valid() {
      && x.Length == y.Length == z.Length == t.Length == 16
      && x != y && x != z && x != t && y != z && y != t && z != t
    }

    ghost function Arrays(): set<object> {
      {x, y, z, t}
    }

    function Limbs(): LimbPoint
      reads x, y, z, t
    {
      LimbPoint(x[..], y[..], z[..], t[..])
    }

    constructor ()
      ensures Valid() && fresh(Arrays())
    {
      x, y, z, t := new i64[16], new i64[16], new i64[16], new i64[16];
    }
  }

  ghost predicate SameOrApart(p: Point, q: Point) {
    p == q || p.Arrays() !! q.Arrays()
  }

  method CswapPts(p: Point, q: Point, b: int)
    requires p.Valid() && q.Valid() && p.Arrays() !! q.Arrays() && 0 <= b <= 1
    modifies p.Arrays(), q.Arrays()
    ensures Pair(p.Limbs(), q.Limbs()) == Swap(old(Pair(p.Limbs(), q.Limbs())), b)
  {
    Sel25519(p.x, q.x, b);
    Sel25519(p.y, q.y, b);
    Sel25519(p.z, q.z, b);
    Sel25519(p.t, q.t, b);
  }

  /** p holds the tight limbs u and does not overlap the array o. */
  ghost predicate Operand(o: array<i64>, p: Point, u: LimbPoint)
    reads p.Arrays()
  {
    p.Valid() && o.Length == 16 && o !in p.Arrays() && p.Limbs() == u
  }

  /** a := (y1 - x1) * (y2 - x2), through a scratch array as in the code. */
  method DifferenceProduct(a: array<i64>, p: Point, q: Point, ghost u: LimbPoint, ghost v: LimbPoint)
    requires Operand(a, p, u) && Operand(a, q, v) && TightPoint(u) && TightPoint(v)
    modifies a
    ensures a[..] == MulLimbs(SubLimbs(u.y, u.x), SubLimbs(v.y, v.x)) && Tight(a[..])
  {
    MulOfSums(u.y, u.x, v.y, v.x);
    TightWithin(u.x);
    TightWithin(u.y);
    TightWithin(v.x);
    TightWithin(v.y);
    hide MulLimbs, SubLimbs, Mulable, Tight;
    var t := new i64[16];
    SubGf(a, p.y, p.x);
    SubGf(t, q.y, q.x);
    M(a, a, t);
  }

  /** b := (x1 + y1) * (x2 + y2). */
  method SumProduct(b: array<i64>, p: Point, q: Point, ghost u: LimbPoint, ghost v: LimbPoint)
    requires Operand(b, p, u) && Operand(b, q, v) && TightPoint(u) && TightPoint(v)
    modifies b
    ensures b[..] == MulLimbs(AddLimbs(u.x, u.y), AddLimbs(v.x, v.y)) && Tight(b[..])
  {
    MulOfSums(u.x, u.y, v.x, v.y);
    TightWithin(u.x);
    TightWithin(u.y);
    TightWithin(v.x);
    TightWithin(v.y);
    hide MulLimbs, AddLimbs, Mulable, Tight;
    var t := new i64[16];
    AddGf(b, p.x, p.y);
    AddGf(t, q.x, q.y);
    M(b, b, t);
  }

  /** c := t1 * t2 * 2d. */
  method TwistProduct(c: array<i64>, p: Point, q: Point, ghost u: LimbPoint, ghost v: LimbPoint)
    requires Operand(c, p, u) && Operand(c, q, v) && TightPoint(u) && TightPoint(v)
    modifies c
    ensures c[..] == MulLimbs(MulLimbs(u.t, v.t), D2_LIMBS) && Tight(c[..])
  {
    TightWithin(u.t);
    TightWithin(v.t);
    var d2 := new i64[16];
    Set25519(d2, D2_LIMBS);
    M(c, p.t, q.t);
    TightWithin(c[..]);
    M(c, c, d2);
  }

  /** d := 2 * z1 * z2. */
  method DoubledProduct(d: array<i64>, p: Point, q: Point, ghost u: LimbPoint, ghost v: LimbPoint)
    requires Operand(d, p, u) && Operand(d, q, v) && TightPoint(u) && TightPoint(v)
    modifies d
    ensures d[..] == AddLimbs(MulLimbs(u.z, v.z), MulLimbs(u.z, v.z)) && Within(d[..], -131146, 131146)
  {
    TightWithin(u.z);
    TightWithin(v.z);
    M(d, p.z, q.z);
    TightWithin(d[..]);
    AddGf(d, d, d);
  }

  /** The four products of the addition formulas. */
  method PointTerms(p: Point, q: Point, ghost u: LimbPoint, ghost v: LimbPoint)
    returns (a: array<i64>, b: array<i64>, c: array<i64>, d: array<i64>)
    requires p.Valid() && q.Valid() && p.Limbs() == u && q.Limbs() == v && TightPoint(u) && TightPoint(v)
    ensures fresh({a, b, c, d}) && a.Length == b.Length == c.Length == d.Length == 16
    ensures a[..] == MulLimbs(SubLimbs(u.y, u.x), SubLimbs(v.y, v.x)) && Tight(a[..])
    ensures b[..] == MulLimbs(AddLimbs(u.x, u.y), AddLimbs(v.x, v.y)) && Tight(b[..])
    ensures c[..] == MulLimbs(MulLimbs(u.t, v.t), D2_LIMBS) && Tight(c[..])
    ensures d[..] == AddLimbs(MulLimbs(u.z, v.z), MulLimbs(u.z, v.z)) && Within(d[..], -131146, 131146)
  {
    hide Tight, MulLimbs, AddLimbs, SubLimbs, TightPoint;
    a := new i64[16];
    DifferenceProduct(a, p, q, u, v);
    b := new i64[16];
    SumProduct(b, p, q, u, v);
    c := new i64[16];
    TwistProduct(c, p, q, u, v);
    d := new i64[16];
    DoubledProduct(d, p, q, u, v);
  }

  /** The sums e, f, g, h of the addition formulas, from two points that may be the same. */
  method PointSums(p: Point, q: Point, ghost u: LimbPoint, ghost v: LimbPoint)
    returns (e: array<i64>, f: array<i64>, g: array<i64>, h: array<i64>)
    requires p.Valid() && q.Valid() && p.Limbs() == u && q.Limbs() == v && TightPoint(u) && TightPoint(v)
    ensures fresh({e, f, g, h}) && e.Length == f.Length == g.Length == h.Length == 16
    ensures Sums(e[..], f[..], g[..], h[..]) == AddSums(u, v)
  {
    hide Tight, MulLimbs, AddLimbs, SubLimbs, TightPoint;
    var a, b, c, d := PointTerms(p, q, u, v);
    e, f, g, h := new i64[16], new i64[16], new i64[16], new i64[16];
    CombineTerms(a, b, c, d, e, f, g, h);
  }

  method CombineTerms(a: array<i64>, b: array<i64>, c: array<i64>, d: array<i64>,
                      e: array<i64>, f: array<i64>, g: array<i64>, h: array<i64>)
    requires a.Length == b.Length == c.Length == d.Length == 16
    requires e.Length == f.Length == g.Length == h.Length == 16
    requires e != f && e != g && e != h && f != g && f != h && g != h
    requires {e, f, g, h} !! {a, b, c, d}
    requires Tight(a[..]) && Tight(b[..]) && Tight(c[..]) && Within(d[..], -131146, 131146)
    modifies e, f, g, h
    ensures e[..] == SubLimbs(b[..], a[..]) && f[..] == SubLimbs(d[..], c[..])
    ensures g[..] == AddLimbs(d[..], c[..]) && h[..] == AddLimbs(b[..], a[..])
  {
    TightWithin(a[..]);
    TightWithin(b[..]);
    TightWithin(c[..]);
    hide Tight, AddLimbs, SubLimbs;
    SubGf(e, b, a);
    SubGf(f, d, c);
    AddGf(g, d, c);
    AddGf(h, b, a);
  }

  /** p := p + q in place; p and q may be the same point. */
  method AddPts(p: Point, q: Point)
    requires p.Valid() && q.Valid() && SameOrApart(p, q)
    requires TightPoint(p.Limbs()) && TightPoint(q.Limbs())
    modifies p.Arrays()
    ensures p.Limbs() == AddPoints(old(p.Limbs()), old(q.Limbs()))
    ensures TightPoint(p.Limbs())
    ensures EqExt(ValPoint(p.Limbs()), RfcAdd(ValPoint(old(p.Limbs())), ValPoint(old(q.Limbs()))))
  {
    ghost var u, v := p.Limbs(), q.Limbs();
    AddPointsRefines(u, v);
    AddSumsValue(u, v);
    hide AddSums, MulLimbs, Tight, RfcAdd, EqExt, TightPoint;
    var e, f, g, h := PointSums(p, q, u, v);
    M(p.x, e, f);
    M(p.y, h, g);
    M(p.z, g, f);
    M(p.t, e, h);
  }

  /** One iteration of the ladder on the two points in place. */
  method LadderRound(p: Point, q: Point, b: int, ghost w: Pair)
    requires p.Valid() && q.Valid() && p.Arrays() !! q.Arrays() && 0 <= b <= 1
    requires Pair(p.Limbs(), q.Limbs()) == w && TightPair(w)
    modifies p.Arrays(), q.Arrays()
    ensures Pair(p.Limbs(), q.Limbs()) == LadderStep(w, b)
  {
    ghost var v := Swap(w, b);
    AddPointsRefines(v.q, v.p);
    hide AddPoints, Tight, EqExt;
    CswapPts(p, q, b);
    AddPts(q, p);
    AddPts(p, p);
    CswapPts(p, q, b);
  }

  method SetNeutral(p: Point)
    requires p.Valid()
    modifies p.Arrays()
    ensures p.Limbs() == LimbPoint(ZERO_LIMBS, ONE_LIMBS, ONE_LIMBS, ZERO_LIMBS)
  {
    Set25519(p.x, GF0);
    Set25519(p.y, GF1);
    Set25519(p.z, GF1);
    Set25519(p.t, GF0);
  }

  /** p := [s]q by the swap ladder over the 256 bits of s; q is used up. */
  method ScalarMult(p: Point, q: Point, s: seq<byte>, ghost base: LimbPoint)
    requires p.Valid() && q.Valid() && p.Arrays() !! q.Arrays() && |s| == 32
    requires q.Limbs() == base && TightPoint(base)
    modifies p.Arrays(), q.Arrays()
    ensures Shaped(base) && p.Limbs() == Ladder(base, s, 0).p
  {
    SetNeutral(p);
    InitialTight(base);
    hide TightPair, TightPoint, LadderStep, BitAt;
    var i := 256;
    while i > 0
      invariant 0 <= i <= 256
      invariant Pair(p.Limbs(), q.Limbs()) == Ladder(base, s, i)
    {
      i := i - 1;
      LadderTight(base, s, i + 1);
      var b := BitAt(s, i);
      LadderRound(p, q, b, Ladder(base, s, i + 1));
    }
  }

  method SetBase(q: Point)
    requires q.Valid()
    modifies q.Arrays()
    ensures q.Limbs() == BasePoint()
  {
    Set25519(q.x, BX_LIMBS);
    Set25519(q.y, BY_LIMBS);
    Set25519(q.z, GF1);
    hide MulLimbs, Tight, Eq;
    M(q.t, q.x, q.y);
  }

  /** p := [s]B for the base point. */
  method ScalarBase(p: Point, s: seq<byte>)
    requires p.Valid() && |s| == 32
    modifies p.Arrays()
    ensures p.Limbs() == BaseMultiple(s)
  {
    BaseIsPoint();
    hide BasePoint, Ladder, IsPoint;
    var q := new Point();
    SetBase(q);
    ScalarMult(p, q, s, BasePoint());
  }

  /** The 32-byte encoding of section 5.1.2 of RFC 8032. */
  method PackPoint(r: array<byte>, p: Point, ghost limbs: LimbPoint)
    requires r.Length == 32 && p.Valid() && p.Limbs() == limbs && TightPoint(limbs)
    modifies r
    ensures Eval(256, r[..]) == Encode(ValPoint(limbs))
    ensures Eval(256, r[..]) % TWO_255 == AffineY(ValPoint(limbs))
    ensures Eval(256, r[..]) / TWO_255 == AffineX(ValPoint(limbs)) % 2
  {
    ghost var u := ValPoint(limbs);
    var tx, ty, zi := new i64[16], new i64[16], new i64[16];
    TightWithin(p.x[..]);
    TightWithin(p.y[..]);
    TightWithin(p.z[..]);
    Inv25519(zi, p.z);
    M(tx, p.x, zi);
    M(ty, p.y, zi);
    Quotient(Val(tx[..]), u.x, Val(zi[..]), u.z);
    Quotient(Val(ty[..]), u.y, Val(zi[..]), u.z);
    TightWithin(tx[..]);
    TightWithin(ty[..]);
    hide Inv, Tight;
    Pack25519(r, ty);
    var parity := Par25519(tx);
    ghost var bytes := r[..];
    TopByte(bytes);
    XorTopBit(r[31], parity);
    r[31] := BitXor(8, r[31], parity * 128);
    SetTopBit(bytes, r[..], parity);
    EncodedPoint(u);
  }

  lemma Quotient(q: int, x: int, zi: int, z: int)
    requires Eq(q, x * zi) && Eq(zi, Inv(z))
    ensures q % P == (x * Inv(z)) % P
  {
    EqRefl(x);
    EqMul(x, x, zi, Inv(z));
    EqTrans(q, x * zi, x * Inv(z));
    CongIffMod(q, x * Inv(z), P);
  }

  /** A value below 2^255 leaves bit 255 free for the parity. */
  lemma TopByte(d: seq<int>)
    requires |d| == 32 && Within(d, 0, 255) && Eval(256, d) < P
    ensures d[31] < 128
  {
    RadixPowers();
    TopDigit(256, d);
  }

  lemma SetTopBit(d: seq<int>, e: seq<int>, bit: int)
    requires |d| == |e| == 32 && e == d[31 := d[31] + 128 * bit]
    ensures Eval(256, e) == Eval(256, d) + TWO_255 * bit
  {
    RadixPowers();
    EvalUpdate(256, d, 31, d[31] + 128 * bit);
  }
}
