/** The point encoding of section 5.1.2 of RFC 8032, and which points its bytes decode to. */
module Encoding {
  import opened Arith
  import opened Radix
  import opened FieldSpec
  import opened Edwards
  import opened Inverse
  import opened Completeness

  const TWO_255: int := 0x8000_0000_0000_0000_0000_0000_0000_0000_0000_0000_0000_0000_0000_0000_0000_0000

  /** The encoding of section 5.1.2 of RFC 8032: y, with the parity of x in bit 255. */
  function EncodeXY(x: int, y: int): int {
    y % P + TWO_255 * (x % P % 2)
  }

  /** The low 255 bits are y, and bit 255 is the lowest bit of x. */
  lemma EncodedParts(x: int, y: int)
    ensures EncodeXY(x, y) % TWO_255 == y % P && EncodeXY(x, y) / TWO_255 == x % P % 2
  {
    DivModUnique(EncodeXY(x, y), TWO_255, x % P % 2, y % P);
  }

  /** What pack_point writes for the projective point (x : y : z). */
  ghost function Encode(p: Ext): int {
    EncodeXY(p.x * Inv(p.z), p.y * Inv(p.z))
  }

  /** Division is unique: an affine coordinate is the projective one times the inverse. */
  lemma Divides(a: int, x: int, z: int)
    requires FermatAt(z) && Eq(a * z, x)
    ensures Eq(x * Inv(z), a) && (x * Inv(z)) % P == a % P
  {
    var i := Inv(z);
    InvInverts(z);
    hide Inv;
    EqRefl(i);
    EqMul(a * z, x, i, i);
    EqSym((a * z) * i, x * i);
    EqScale(a, z * i, 1);
    assert (a * z) * i == a * (z * i);
    EqTrans(x * i, (a * z) * i, a);
    CongIffMod(x * i, a, P);
  }

  /** pack_point equals the standard's encoding of the affine point that its argument represents. */
  lemma EncodeIsAffine(p: Ext, x: int, y: int)
    requires FermatAt(p.z) && Eq(x * p.z, p.x) && Eq(y * p.z, p.y)
    ensures Encode(p) == EncodeXY(x, y)
  {
    Divides(x, p.x, p.z);
    Divides(y, p.y, p.z);
  }

  /** The encoding depends only on the projective class of the point. */
  lemma EncodeOfClass(p: Ext, q: Ext)
    requires FermatAt(p.z) && FermatAt(q.z)
    requires SameClass(p, q)
    ensures Encode(p) == Encode(q)
  {
    CrossDivide(p.x, p.z, q.x, q.z);
    CrossDivide(p.y, p.z, q.y, q.z);
    EncodeIsAffine(q, p.x * Inv(p.z), p.y * Inv(p.z));
  }

  /** If x/z and x'/z' agree crosswise, then (x/z) z' is x'. */
  lemma CrossDivide(x: int, z: int, x': int, z': int)
    requires FermatAt(z) && Eq(x * z', x' * z)
    ensures Eq((x * Inv(z)) * z', x')
  {
    var i := Inv(z);
    InvInverts(z);
    hide Inv;
    EqRefl(i);
    EqMul(x * z', x' * z, i, i);
    EqScale(x', z * i, 1);
    assert (x' * z) * i == x' * (z * i) && (x * z') * i == (x * i) * z';
    EqTrans((x * i) * z', (x' * z) * i, x');
  }

  /** The affine curve equation -x^2 + y^2 = 1 + d x^2 y^2. */
  ghost predicate AffineOnCurve(x: int, y: int) {
    Eq(y * y - x * x, 1 + D * ((x * y) * (x * y)))
  }

  lemma SameSquare(x: int, x': int, y: int)
    requires AffineOnCurve(x, y) && AffineOnCurve(x', y)
    ensures Eq((1 + D * (y * y)) * (x * x - x' * x'), 0)
  {
    var k := y * y;
    var l, r := k - x * x, 1 + D * ((x * y) * (x * y));
    var l', r' := k - x' * x', 1 + D * ((x' * y) * (x' * y));
    EqAdd(l', r', l, r);
    SquareOfProduct(x, y);
    SquareOfProduct(x', y);
    var u, u' := x * x, x' * x';
    assert D * (u' * k) - D * (u * k) == (D * k) * (u' - u);
    assert l' - l == u - u' && r' - r == (D * k) * (u' - u);
    EqRefl((D * k) * (u' - u));
    EqAdd(u - u', (D * k) * (u' - u), (D * k) * (u' - u), (D * k) * (u' - u));
    assert (u - u') - (D * k) * (u' - u) == (1 + D * k) * (u - u');
  }

  /** The encoding of reduced coordinates gives back y and the parity of x. */
  lemma EncodeFields(x: int, y: int, x': int, y': int)
    requires 0 <= x < P && 0 <= y < P && 0 <= x' < P && 0 <= y' < P
    requires EncodeXY(x, y) == EncodeXY(x', y')
    ensures y == y' && x % 2 == x' % 2
  {
    Reduced(x);
    Reduced(y);
    Reduced(x');
    Reduced(y');
  }

  lemma Reduced(x: int)
    requires 0 <= x < P
    ensures x % P == x
  {
    DivModUnique(x, P, 0, x);
  }

  /** Two reduced residues with the same square are equal or opposite. */
  lemma EqualOrOpposite(x: int, x': int)
    requires PrimeField() && 0 <= x < P && 0 <= x' < P
    requires Eq((x - x') * (x + x'), 0)
    ensures x == x' || x + x' == P || x + x' == 0
  {
    ZeroProduct(x - x', x + x');
    if Eq(x - x', 0) {
      EqRefl(x');
      EqAdd(x - x', 0, x', x');
      CongUnique(x, x', P);
    } else {
      SmallMultiple(x + x');
    }
  }

  lemma SmallMultiple(s: int)
    requires 0 <= s < 2 * P && Eq(s, 0)
    ensures s == 0 || s == P
  {
    if s < P {
      CongUnique(s, 0, P);
    } else {
      CongBy(s - P, s, P, -1);
      EqTrans(s - P, s, 0);
      CongUnique(s - P, 0, P);
    }
  }

  lemma DifferenceOfSquares(x: int, x': int, m: int)
    requires PrimeField() && !Eq(m, 0) && Eq(m * (x * x - x' * x'), 0)
    ensures Eq((x - x') * (x + x'), 0)
  {
    ZeroProduct(m, x * x - x' * x');
    hide Eq, PrimeField;
    assert x * x - x' * x' == (x - x') * (x + x');
  }

  /** The parity bit is enough: two affine curve points with the same encoding have the same coordinates. */
  lemma EncodeIsInjective(x: int, y: int, x': int, y': int)
    requires CurveField()
    requires 0 <= x < P && 0 <= y < P && 0 <= x' < P && 0 <= y' < P
    requires AffineOnCurve(x, y) && AffineOnCurve(x', y')
    requires EncodeXY(x, y) == EncodeXY(x', y')
    ensures x == x' && y == y'
  {
    EncodeFields(x, y, x', y');
    hide EncodeXY;
    SameSquare(x, x', y);
    hide AffineOnCurve;
    DecodingDenominator(y);
    CurveFieldIsPrime();
    hide CurveField;
    DifferenceOfSquares(x, x', 1 + D * (y * y));
    EqualOrOpposite(x, x');
    hide PrimeField, Eq;
    // opposite residues add up to p, which is odd
    assert P % 2 == 1;
  }

  // ---------------------------------------------------------------- decoding

  /**
   Decoding by section 5.1.3 of RFC 8032: the low 255 bits are y, x is a solution of the
   curve equation, and bit 255 is the lowest bit of x.
   */
  ghost predicate DecodesTo(bytes: seq<int>, x: int, y: int) {
    && 0 <= x < P && 0 <= y < P && AffineOnCurve(x, y)
    && Eval(256, bytes) % TWO_255 == y && Eval(256, bytes) / TWO_255 == x % 2
  }

  /** Bytes decode to the points that encode to them. */
  lemma DecodesIfEncoded(bytes: seq<int>, x: int, y: int)
    requires 0 <= x < P && 0 <= y < P && AffineOnCurve(x, y)
    ensures DecodesTo(bytes, x, y) <==> Eval(256, bytes) == EncodeXY(x, y)
  {
    EncodedParts(x, y);
    Reduced(x);
    Reduced(y);
    hide AffineOnCurve, EncodeXY;
  }

  function Affine(x: int, y: int): Ext {
    Ext(x, y, 1, x * y)
  }

  /** The coordinates of the affine point that p represents. */
  ghost function AffineX(p: Ext): int {
    p.x * Inv(p.z) % P
  }

  ghost function AffineY(p: Ext): int {
    p.y * Inv(p.z) % P
  }

  /** What is packed for a point: its affine y, and the parity of its affine x in bit 255. */
  lemma EncodedPoint(p: Ext)
    ensures Encode(p) % TWO_255 == AffineY(p) && Encode(p) / TWO_255 == AffineX(p) % 2
  {
    EncodedParts(p.x * Inv(p.z), p.y * Inv(p.z));
    hide EncodeXY, Inv;
  }

  /** Multiplying an affine coordinate by the denominator gives the projective one back. */
  lemma Multiplied(x: int, z: int)
    requires FermatAt(z)
    ensures Eq((x * Inv(z) % P) * z, x)
  {
    var i := Inv(z);
    InvInverts(z);
    hide Inv, FermatAt;
    CongMod(x * i, P);
    EqRefl(z);
    EqMul(x * i % P, x * i, z, z);
    EqScale(x, z * i, 1);
    assert (x * i) * z == x * (z * i);
    EqTrans((x * i % P) * z, (x * i) * z, x);
  }

  /** The affine point that a point represents is on the curve. */
  lemma AffineIsOnCurve(p: Ext, x: int, y: int)
    requires PrimeField() && IsPoint(p) && Eq(x * p.z, p.x) && Eq(y * p.z, p.y)
    ensures AffineOnCurve(x, y)
  {
    var z, zz := p.z, p.z * p.z;
    var l, r := y * y - x * x, 1 + D * ((x * y) * (x * y));
    NonZeroProduct(z, z);
    NonZeroProduct(zz, zz);
    hide PrimeField;
    ScaledCurve(p, x, y);
    hide IsPoint;
    EqRefl((zz * zz) * r);
    EqAdd((zz * zz) * l, (zz * zz) * r, (zz * zz) * r, (zz * zz) * r);
    assert (zz * zz) * l - (zz * zz) * r == (zz * zz) * (l - r);
    ZeroProduct(zz * zz, l - r);
    EqRefl(r);
    EqAdd(l - r, 0, r, r);
  }

  /** Z^4 times the affine curve equation. */
  lemma ScaledCurve(p: Ext, x: int, y: int)
    requires OnCurve(p) && Eq(x * p.z, p.x) && Eq(y * p.z, p.y)
    ensures var zz := p.z * p.z;
            Eq((zz * zz) * (y * y - x * x), (zz * zz) * (1 + D * ((x * y) * (x * y))))
  {
    var z, zz := p.z, p.z * p.z;
    var n, tt, w := p.y * p.y - p.x * p.x, p.t * p.t, (x * z) * (y * z);
    EqMul(x * z, p.x, x * z, p.x);
    EqMul(y * z, p.y, y * z, p.y);
    EqAdd((y * z) * (y * z), p.y * p.y, (x * z) * (x * z), p.x * p.x);
    EqTrans((y * z) * (y * z) - (x * z) * (x * z), n, zz + D * tt);
    EqScale(zz, (y * z) * (y * z) - (x * z) * (x * z), zz + D * tt);
    EqMul(x * z, p.x, y * z, p.y);
    EqSym(p.t * z, p.x * p.y);
    EqTrans(w, p.x * p.y, p.t * z);
    EqSym(w, p.t * z);
    EqMul(p.t * z, w, p.t * z, w);
    EqScale(D, (p.t * z) * (p.t * z), w * w);
    EqRefl(zz * zz);
    EqAdd(zz * zz, zz * zz, D * ((p.t * z) * (p.t * z)), D * (w * w));
    hide OnCurve, Eq;
    LeftScaled(x, y, z);
    RightScaled(x, y, z, p.t);
    EqTrans((zz * zz) * (y * y - x * x), zz * (zz + D * tt), (zz * zz) * (1 + D * ((x * y) * (x * y))));
  }

  lemma LeftScaled(x: int, y: int, z: int)
    ensures (z * z) * ((y * z) * (y * z) - (x * z) * (x * z)) == ((z * z) * (z * z)) * (y * y - x * x)
  {
    var zz := z * z;
    SquareOfProduct(y, z);
    SquareOfProduct(x, z);
    assert (y * y) * zz - (x * x) * zz == (y * y - x * x) * zz;
    assert zz * ((y * y - x * x) * zz) == (zz * zz) * (y * y - x * x);
  }

  lemma RightScaled(x: int, y: int, z: int, t: int)
    ensures (z * z) * (z * z + D * (t * t)) == (z * z) * (z * z) + D * ((t * z) * (t * z))
    ensures var w := (x * z) * (y * z);
            (z * z) * (z * z) + D * (w * w) == ((z * z) * (z * z)) * (1 + D * ((x * y) * (x * y)))
  {
    var zz, q := z * z, (x * y) * (x * y);
    SquareOfProduct(t, z);
    assert zz * (D * (t * t)) == D * ((t * t) * zz);
    Swap4(x, z, y, z);
    SquareOfProduct(x * y, zz);
    var k := zz * zz;
    assert D * (q * k) == k * (D * q);
  }

  /** The coordinates of an encoded point are what its bytes decode to, and nothing else is. */
  lemma DecodesUniquely(bytes: seq<int>, p: Ext)
    requires CurveField() && IsPoint(p) && Eval(256, bytes) == Encode(p)
    ensures DecodesTo(bytes, AffineX(p), AffineY(p))
    ensures forall x, y :: DecodesTo(bytes, x, y) ==> x == AffineX(p) && y == AffineY(p)
    ensures SameClass(Affine(AffineX(p), AffineY(p)), p) && IsPoint(Affine(AffineX(p), AffineY(p)))
  {
    var x0, y0 := AffineX(p), AffineY(p);
    CurveFieldIsPrime();
    FermatHolds(p.z);
    Multiplied(p.x, p.z);
    Multiplied(p.y, p.z);
    EncodeIsAffine(p, x0, y0);
    AffineIsOnCurve(p, x0, y0);
    AffinePoint(x0, y0);
    hide Encode, EncodeXY, Inv, PrimeField, IsPoint, AffineOnCurve;
    DecodesIfEncoded(bytes, x0, y0);
    forall x, y | DecodesTo(bytes, x, y) ensures x == x0 && y == y0 {
      DecodesIfEncoded(bytes, x, y);
      EncodeIsInjective(x, y, x0, y0);
    }
    hide CurveField;
    assert x0 * p.z == Affine(x0, y0).x * p.z && p.x * 1 == p.x && p.y * 1 == p.y;
  }

  lemma AffinePoint(x: int, y: int)
    requires AffineOnCurve(x, y)
    ensures IsPoint(Affine(x, y))
  {
    EqRefl(x * y);
    SmallNonZero(1);
    hide Eq;
    assert (x * y) * 1 == x * y && 1 * 1 == 1;
  }
}
