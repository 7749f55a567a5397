/**
 Key generation and signing (sections 5.1.5 and 5.1.6 of RFC 8032), with SHA-512
 as an arbitrary function, and the verification equation of section 5.1.7 that a
 signature meets.
 */
module Sign {
  import opened Arith
  import opened Radix
  import opened Bits
  import opened FieldSpec
  import opened Edwards
  import opened Inverse
  import opened Completeness
  import opened Encoding
  import opened PointSpec
  import opened ScalarSpec
  import opened ScalarBytes

  type Hash = seq<int> -> seq<int>

  ghost predicate IsSha512(sha: Hash) {
    forall m :: |sha(m)| == 64 && Within(sha(m), 0, 255)
  }

  /** The clamp of the secret scalar. */
  function Clamp(d: seq<int>): (c: seq<int>)
    requires |d| >= 32
    ensures |c| == |d|
  {
    d[0 := BitAnd(8, d[0], 248)][31 := BitOr(8, BitAnd(8, d[31], 127), 64)]
  }

  lemma ClampLow(x: int)
    requires 0 <= x < 256
    ensures 0 <= BitAnd(8, x, 248) <= 255 && BitAnd(8, x, 248) % 8 == 0
  {
    hide BitAnd;
    AndMask248(x);
  }

  lemma ClampHigh(x: int)
    requires 0 <= x < 256
    ensures 64 <= BitOr(8, BitAnd(8, x, 127), 64) < 128
  {
    AndMask127(x);
    OrMask64(x % 128);
    hide BitAnd, BitOr;
  }

  lemma ClampBytes(d: seq<int>)
    requires |d| >= 32 && Within(d, 0, 255)
    ensures Within(Clamp(d), 0, 255)
    ensures Clamp(d)[0] % 8 == 0 && 64 <= Clamp(d)[31] < 128
  {
    ClampLow(d[0]);
    ClampHigh(d[31]);
    hide BitAnd, BitOr;
  }

  const TWO_254: int := 4 * TWO_252

  lemma ClampEnds(d: seq<int>)
    requires |d| >= 32 && Within(d, 0, 255)
    ensures Clamp(d) == d[0 := d[0] - d[0] % 8][31 := 64 + d[31] % 64]
  {
    hide BitAnd, BitOr;
    AndMask248(d[0]);
    TopClamped(d[31]);
  }

  lemma TopClamped(x: int)
    requires 0 <= x < 256
    ensures BitOr(8, BitAnd(8, x, 127), 64) == 64 + x % 64
  {
    hide BitAnd, BitOr;
    AndMask127(x);
    OrMask64(x % 128);
  }

  /**
   The clamped scalar: the lowest three bits cleared, bit 254 set, bit 255 cleared, and
   every other bit that of the hash.
   */
  lemma ClampValue(d: seq<int>)
    requires |d| == 32 && Within(d, 0, 255)
    ensures Eval(256, Clamp(d)) == TWO_254 + Eval(256, d) % TWO_254 / 8 * 8
    ensures Eval(256, Clamp(d)) % 8 == 0 && TWO_254 <= Eval(256, Clamp(d)) < 2 * TWO_254
  {
    hide Clamp, Eval, Pow;
    ClampEnds(d);
    DigitsRange(256, d[..31]);
    LowByte(d);
    TwoLimbs(d, d[0] - d[0] % 8, 64 + d[31] % 64);
    LastLimb(d);
    BytePowers();
    hide *;
    ClampArith(Eval(256, d[..31]), d[31], d[0] % 8);
    ClampRange(Eval(256, d));
  }

  lemma TwoLimbs(d: seq<int>, first: int, last: int)
    requires |d| == 32
    ensures Eval(256, d[0 := first][31 := last])
            == Eval(256, d) + (first - d[0]) * Pow(256, 0) + (last - d[31]) * Pow(256, 31)
  {
    hide Eval, Pow;
    EvalUpdate(256, d, 0, first);
    EvalUpdate(256, d[0 := first], 31, last);
  }

  lemma ClampRange(v: int)
    ensures var c := TWO_254 + v % TWO_254 / 8 * 8; c % 8 == 0 && TWO_254 <= c < 2 * TWO_254
  {
  }

  lemma BytePowers()
    ensures Pow(256, 0) == 1 && Pow(256, 31) == TWO_248
  {
    RadixPowers();
  }

  lemma LastLimb(d: seq<int>)
    requires |d| == 32
    ensures Eval(256, d) == Eval(256, d[..31]) + d[31] * Pow(256, 31)
  {
  }

  lemma ClampArith(low: int, top: int, m: int)
    requires 0 <= low < TWO_248 && 0 <= top <= 255 && m == (low + top * TWO_248) % 8
    ensures var v := low + top * TWO_248;
            v - m + (64 + top % 64 - top) * TWO_248 == TWO_254 + v % TWO_254 / 8 * 8
  {
    var v, w := low + top * TWO_248, low + top % 64 * TWO_248;
    DivModUnique(v, TWO_254, top / 64, w);
    assert v == w + 8 * (top / 64 * (8 * TWO_248));
    assert w % 8 == m;
  }

  lemma {:induction false} LowByte(s: seq<int>)
    requires |s| > 0
    ensures Eval(256, s) % 8 == s[0] % 8
  {
    if |s| == 1 {
      assert Eval(256, s[..0]) == 0;
    } else {
      LowByte(s[..|s| - 1]);
      LowStep(Eval(256, s[..|s| - 1]), s[|s| - 1], Pow(256, |s| - 2));
    }
  }

  lemma LowStep(e: int, x: int, p: int)
    ensures (e + x * (256 * p)) % 8 == e % 8
  {
    var y := x * (32 * p);
    assert x * (256 * p) == 8 * y;
  }

  /** The 64 bytes of a hash. */
  ghost function HashOf(sha: Hash, m: seq<int>): (h: seq<int>)
    requires IsSha512(sha)
    ensures |h| == 64 && Within(h, 0, 255) && ReducibleLimbs(h)
  {
    sha(m)
  }

  /** The clamped hash of a seed: 32 bytes of scalar, 32 bytes of prefix. */
  ghost function ExpandSeed(sha: Hash, seed: seq<int>): (d: seq<int>)
    requires IsSha512(sha)
    ensures |d| == 64 && Within(d, 0, 255)
  {
    ClampBytes(HashOf(sha, seed));
    Clamp(HashOf(sha, seed))
  }

  /** The limbs r + h * a. */
  function SumLimbs(r: seq<int>, h: seq<int>, a: seq<int>): (x: seq<int>)
    requires |r| == |h| == |a| == 32
    ensures |x| == 64
  {
    seq(64, k requires 0 <= k < 64 => (if k < 32 then r[k] else 0) + Dot(h, a, k, 32))
  }

  lemma {:induction false} DotNonNegative(h: seq<int>, a: seq<int>, k: int, n: nat)
    requires n <= |h| && Within(h, 0, 255) && Within(a, 0, 255)
    ensures 0 <= Dot(h, a, k, n) <= n * 65025
  {
    if n > 0 {
      DotNonNegative(h, a, k, n - 1);
      if 0 <= k - (n - 1) < |a| {
        ProductBound(h[n - 1], a[k - (n - 1)], 255, 255);
        MulMonotone(0, h[n - 1], a[k - (n - 1)]);
      }
    }
  }

  /** The limbs of r + h * a are what modL accepts. */
  lemma SumReducible(r: seq<int>, h: seq<int>, a: seq<int>)
    requires |r| == |h| == |a| == 32 && Within(r, 0, 255) && Within(h, 0, 255) && Within(a, 0, 255)
    ensures ReducibleLimbs(SumLimbs(r, h, a))
  {
    forall k | 0 <= k < 64
      ensures 0 <= SumLimbs(r, h, a)[k] <= LIMB_MAX
    {
      DotNonNegative(h, a, k, 32);
    }
  }

  lemma {:induction false} SumValue(r: seq<int>, h: seq<int>, a: seq<int>)
    requires |r| == |h| == |a| == 32
    ensures Eval(256, SumLimbs(r, h, a)) == Eval(256, r) + Eval(256, h) * Eval(256, a)
  {
    var z := seq(32, _ => 0);
    WithZeros(r, z);
    ConvValue(256, h, a, 64, 32);
    assert h[..32] == h;
    hide Eval, Dot;
    EvalLinear(256, SumLimbs(r, h, a), r + z, Conv(h, a, 64, 32), 1);
  }

  // ---------------------------------------------------------------- what a signature is

  /** The encoding of [s]B. */
  ghost function PointBytes(s: seq<int>): (r: seq<int>)
    ensures |r| == 32 && Within(r, 0, 255)
  {
    DigitsOf(256, Encode(ValPoint(BaseMultiple(s))), 32)
  }

  /** The bytes r that the code uses as the nonce scalar. */
  ghost function Nonce(sha: Hash, seed: seq<int>, msg: seq<int>): (r: seq<int>)
    requires IsSha512(sha)
    ensures |r| == 32 && Within(r, 0, 255)
  {
    ModLBytes(HashOf(sha, ExpandSeed(sha, seed)[32..] + msg))
  }

  datatype Signature = Signature(rBytes: seq<int>, sBytes: seq<int>)

  /** The hash that the challenge scalar is reduced from. */
  ghost function ChallengeLimbs(sha: Hash, seed: seq<int>, pk: seq<int>, msg: seq<int>): (x: seq<int>)
    requires IsSha512(sha)
    ensures ReducibleLimbs(x) && Within(x, 0, 255)
  {
    HashOf(sha, PointBytes(Nonce(sha, seed, msg)) + pk + msg)
  }

  /** The limbs that S is reduced from. */
  ghost function ScalarLimbs(sha: Hash, seed: seq<int>, pk: seq<int>, msg: seq<int>): (x: seq<int>)
    requires IsSha512(sha)
    ensures |x| == 64
  {
    SumLimbs(Nonce(sha, seed, msg), ModLBytes(ChallengeLimbs(sha, seed, pk, msg)), ExpandSeed(sha, seed)[..32])
  }

  /** The signature that ed25519_sign writes. */
  ghost function SignatureOf(sha: Hash, seed: seq<int>, pk: seq<int>, msg: seq<int>): Signature
    requires IsSha512(sha)
  {
    Signature(PointBytes(Nonce(sha, seed, msg)), ModLBytes(ScalarLimbs(sha, seed, pk, msg)))
  }

  // ---------------------------------------------------------------- verification

  /** The number that a byte string stands for. */
  function Number(s: seq<int>): nat {
    if Eval(256, s) < 0 then 0 else Eval(256, s)
  }

  lemma NumberOfBytes(s: seq<int>)
    requires Within(s, 0, 255)
    ensures Number(s) == Eval(256, s)
  {
    DigitsRange(256, s);
  }

  lemma {:induction false} TimesUnit<G(!new)>(g: Group<G>, n: nat)
    requires Associative(g)
    ensures Times(g, n, g.unit) == g.unit
  {
    if n > 0 {
      TimesUnit(g, n - 1);
    }
  }

  lemma OrderMultiple<G(!new)>(g: Group<G>, b: G, m: nat, q: nat)
    requires Associative(g) && Times(g, m, b) == g.unit
    ensures q * m >= 0 && Times(g, q * m, b) == g.unit
  {
    TimesTimes(g, q, m, b);
    TimesUnit(g, q);
  }

  /** Whole multiples of the order contribute nothing. */
  lemma TimesOfOrder<G(!new)>(g: Group<G>, b: G, m: nat, q: nat, r: nat)
    requires Associative(g) && Times(g, m, b) == g.unit
    ensures q * m >= 0 && Times(g, q * m + r, b) == Times(g, r, b)
  {
    hide Times, Associative;
    OrderMultiple(g, b, m, q);
    TimesAdd(g, q * m, r, b);
    UnitLeft(g, Times(g, r, b));
  }

  lemma UnitLeft<G(!new)>(g: Group<G>, x: G)
    requires Associative(g)
    ensures g.op(g.unit, x) == x
  {
  }

  /** Multiples of an element of order L depend only on the scalar modulo L. */
  lemma TimesModL<G(!new)>(g: Group<G>, b: G, n: nat)
    requires Associative(g) && Times(g, L, b) == g.unit
    ensures Times(g, n % L, b) == Times(g, n, b)
  {
    hide Times, Associative;
    TimesOfOrder(g, b, L, n / L, n % L);
    assert n == n / L * L + n % L;
  }

  /** [r + h a]B = [r]B + [h]([a]B). */
  lemma Combine<G(!new)>(g: Group<G>, b: G, r: nat, h: nat, a: nat)
    requires Associative(g)
    ensures h * a >= 0
    ensures Times(g, r + h * a, b) == g.op(Times(g, r, b), Times(g, h, Times(g, a, b)))
  {
    TimesTimes(g, h, a, b);
    TimesAdd(g, r, h * a, b);
  }

  /** The reduction of x produced the residue (see ModLCorrectIff). */
  ghost predicate ReducedRight(x: seq<int>) {
    |x| == 64 && (FinalCarry(x) == 0 || LowBytesCover(Eval(256, x) % L))
  }

  /** The bytes are the residue of the limbs exactly when they were reduced right. */
  lemma ReducedNumber(x: seq<int>)
    requires ReducibleLimbs(x)
    ensures Eval(256, x) >= 0
    ensures ReducedRight(x) <==> Number(ModLBytes(x)) == Eval(256, x) % L
  {
    hide FinalCarry, LowBytesCover, ModLBytes;
    ModLCorrectIff(x);
    LimbsNonNegative(x);
    NumberOfBytes(ModLBytes(x));
  }

  lemma {:induction false} LimbsNonNegative(x: seq<int>)
    requires Within(x, 0, LIMB_MAX)
    ensures Eval(256, x) >= 0
  {
    if |x| > 0 {
      LimbsNonNegative(x[..|x| - 1]);
      PowPositive(256, |x| - 1);
      MulMonotone(0, x[|x| - 1], Pow(256, |x| - 1));
    }
  }

  /**
   S fits the bytes r and h that were used: S = r + h a (mod L), so [S]B = R + [h]A.
   The nonce bytes r need not be a correct residue.
   */
  lemma ScalarEquation<G(!new)>(g: Group<G>, b: G, r: seq<int>, h: seq<int>, a: seq<int>)
    requires Associative(g) && Times(g, L, b) == g.unit
    requires |r| == |h| == |a| == 32 && Within(r, 0, 255) && Within(h, 0, 255) && Within(a, 0, 255)
    requires ReducedRight(SumLimbs(r, h, a))
    ensures var s := Number(ModLBytes(SumLimbs(r, h, a)));
            && s == (Number(r) + Number(h) * Number(a)) % L
            && Times(g, s, b) == g.op(Times(g, Number(r), b), Times(g, Number(h), Times(g, Number(a), b)))
  {
    hide SumLimbs, ModLBytes, Number, ReducedRight, Times, Associative, Eval, ReducibleLimbs;
    SumReducible(r, h, a);
    SumNumber(r, h, a);
    ReducedNumber(SumLimbs(r, h, a));
    Combine(g, b, Number(r), Number(h), Number(a));
    TimesModL(g, b, Number(r) + Number(h) * Number(a));
  }

  lemma SumNumber(r: seq<int>, h: seq<int>, a: seq<int>)
    requires |r| == |h| == |a| == 32 && Within(r, 0, 255) && Within(h, 0, 255) && Within(a, 0, 255)
    ensures Number(h) * Number(a) >= 0
    ensures Eval(256, SumLimbs(r, h, a)) == Number(r) + Number(h) * Number(a)
  {
    SumValue(r, h, a);
    NumberOfBytes(r);
    NumberOfBytes(h);
    NumberOfBytes(a);
    hide SumLimbs, Number, Eval;
  }

  /** b has order L: its multiples are equal exactly when the scalars agree modulo L. */
  ghost predicate HasOrderL<G(!new)>(g: Group<G>, b: G) {
    && Times(g, L, b) == g.unit
    && forall m: nat, n: nat {:trigger Times(g, m, b), Times(g, n, b)} ::
         Times(g, m, b) == Times(g, n, b) ==> m % L == n % L
  }

  /** The equation [S]B = R + [H]A of section 5.1.7 of RFC 8032. */
  ghost predicate Verifies<G(!new)>(g: Group<G>, b: G, s: nat, r: G, h: nat, a: G) {
    s < L && Times(g, s, b) == g.op(r, Times(g, h, a))
  }

  /** For R = [r]B and A = [a]B only one S verifies: (r + h a) mod L. */
  lemma OnlyResidueVerifies<G(!new)>(g: Group<G>, b: G, s: nat, r: nat, h: nat, a: nat)
    requires Associative(g) && HasOrderL(g, b)
    ensures h * a >= 0
    ensures Verifies(g, b, s, Times(g, r, b), h, Times(g, a, b)) <==> s == (r + h * a) % L
  {
    hide Times, Associative, HasOrderL;
    Combine(g, b, r, h, a);
    OrderGivesUnit(g, b);
    TimesModL(g, b, r + h * a);
    if s < L {
      DivModUnique(s, L, 0, s);
      if Times(g, s, b) == Times(g, r + h * a, b) {
        SameMultiple(g, b, s, r + h * a);
      }
    }
  }

  lemma OrderGivesUnit<G(!new)>(g: Group<G>, b: G)
    requires HasOrderL(g, b)
    ensures Times(g, L, b) == g.unit
  {
  }

  lemma SameMultiple<G(!new)>(g: Group<G>, b: G, m: nat, n: nat)
    requires HasOrderL(g, b) && Times(g, m, b) == Times(g, n, b)
    ensures m % L == n % L
  {
    hide Times;
  }

  /** The public key that Keypair writes for a seed. */
  ghost function PublicKey(sha: Hash, seed: seq<int>): (pk: seq<int>)
    requires IsSha512(sha)
    ensures |pk| == 32 && Within(pk, 0, 255)
  {
    PointBytes(Secret(sha, seed))
  }

  /**
   Verification by section 5.1.7 of RFC 8032: the key and the first half of the
   signature decode to points, and the second half satisfies the equation for the
   full challenge hash.
   */
  ghost predicate Accepts<G(!new)>(g: Group<G>, abs: Ext -> G, sha: Hash, pk: seq<int>, msg: seq<int>, sig: Signature)
    requires IsSha512(sha)
  {
    exists xr, yr, xa, ya ::
      && DecodesTo(sig.rBytes, xr, yr) && DecodesTo(pk, xa, ya)
      && Verifies(g, abs(ValPoint(BasePoint())), Number(sig.sBytes), abs(Affine(xr, yr)),
                  Number(HashOf(sha, sig.rBytes + pk + msg)), abs(Affine(xa, ya)))
  }

  /** What [s]B encodes to decodes to a point that represents [s]B. */
  lemma DecodesToMultiple<G(!new)>(g: Group<G>, abs: Ext -> G, s: seq<int>) returns (x: int, y: int)
    requires Realises(g, abs) && Within(s, 0, 255)
    ensures DecodesTo(PointBytes(s), x, y)
    ensures forall u, v :: DecodesTo(PointBytes(s), u, v) ==> u == x && v == y
    ensures abs(Affine(x, y)) == Times(g, Number(s), abs(ValPoint(BasePoint())))
  {
    var p := SecretPoint(s);
    RealisesField(g, abs);
    SecretMultiple(g, abs, s);
    PointBytesValue(s);
    x, y := AffineX(p), AffineY(p);
    hide Realises, CurveField, IsPoint, DecodesTo, Affine, Times, BasePoint, PointBytes, Encode;
    hide SecretPoint, AffineX, AffineY;
    DecodesUniquely(PointBytes(s), p);
    SameElement(g, abs, Affine(x, y), p);
  }

  /** The secret scalar of a seed. */
  ghost function Secret(sha: Hash, seed: seq<int>): (a: seq<int>)
    requires IsSha512(sha)
    ensures |a| == 32 && Within(a, 0, 255)
  {
    ExpandSeed(sha, seed)[..32]
  }

  /** The challenge hash and the signature of a message under the seed's own key. */
  ghost function Challenge(sha: Hash, seed: seq<int>, msg: seq<int>): (c: seq<int>)
    requires IsSha512(sha)
    ensures ReducibleLimbs(c) && Within(c, 0, 255)
  {
    ChallengeLimbs(sha, seed, PublicKey(sha, seed), msg)
  }

  ghost function OwnSignature(sha: Hash, seed: seq<int>, msg: seq<int>): Signature
    requires IsSha512(sha)
  {
    SignatureOf(sha, seed, PublicKey(sha, seed), msg)
  }

  /** The limbs that S is reduced from. */
  ghost function OwnScalar(sha: Hash, seed: seq<int>, msg: seq<int>): (x: seq<int>)
    requires IsSha512(sha)
    ensures |x| == 64
  {
    ScalarLimbs(sha, seed, PublicKey(sha, seed), msg)
  }

  lemma OwnParts(sha: Hash, seed: seq<int>, msg: seq<int>)
    requires IsSha512(sha)
    ensures var sig, r, c, a := OwnSignature(sha, seed, msg), Nonce(sha, seed, msg), Challenge(sha, seed,
      msg), Secret(sha, seed);
            && sig.rBytes == PointBytes(r) && PublicKey(sha, seed) == PointBytes(a)
            && sig.sBytes == ModLBytes(OwnScalar(sha, seed, msg))
            && OwnScalar(sha, seed, msg) == SumLimbs(r, ModLBytes(c), a)
            && c == HashOf(sha, sig.rBytes + PublicKey(sha, seed) + msg)
  {
    hide Nonce, ExpandSeed, HashOf, PointBytes, ModLBytes, SumLimbs, ReducibleLimbs;
  }

  /** S is (r + H a) mod L for the full challenge hash H. */
  ghost predicate EquationHolds(sha: Hash, seed: seq<int>, msg: seq<int>)
    requires IsSha512(sha)
  {
    Number(OwnSignature(sha, seed, msg).sBytes)
    == (Number(Nonce(sha, seed, msg)) + Number(Challenge(sha, seed, msg)) * Number(Secret(sha, seed))) % L
  }

  /** Accepting the signature of a seed under its own key is the equation on its scalars. */
  lemma AcceptsIsEquation<G(!new)>(g: Group<G>, abs: Ext -> G, sha: Hash, seed: seq<int>, msg: seq<int>)
    requires IsSha512(sha) && Realises(g, abs) && HasOrderL(g, abs(ValPoint(BasePoint())))
    ensures Accepts(g, abs, sha, PublicKey(sha, seed), msg, OwnSignature(sha, seed, msg))
            <==> EquationHolds(sha, seed, msg)
  {
    hide Realises, CurveField, Associative, HasOrderL, Times, BasePoint, Nonce, HashOf, IsSha512, PointBytes;
    hide Verifies, ModLBytes, Number, DecodesTo, Accepts, OwnSignature, OwnScalar, Challenge;
    hide PublicKey, Secret, ReducibleLimbs;
    var sig, r, a := OwnSignature(sha, seed, msg), Nonce(sha, seed, msg), Secret(sha, seed);
    OwnParts(sha, seed, msg);
    RealisesField(g, abs);
    var xr, yr := DecodesToMultiple(g, abs, r);
    var xa, ya := DecodesToMultiple(g, abs, a);
    AcceptsAt(g, abs, sha, PublicKey(sha, seed), msg, sig, xr, yr, xa, ya);
    OnlyResidueVerifies(g, abs(ValPoint(BasePoint())), Number(sig.sBytes), Number(r), Number(Challenge(sha,
      seed, msg)), Number(a));
  }

  /** Acceptance when the two encodings decode to one point each. */
  lemma AcceptsAt<G(!new)>(g: Group<G>, abs: Ext -> G, sha: Hash, pk: seq<int>, msg: seq<int>, sig: Signature,
                           xr: int, yr: int, xa: int, ya: int)
    requires IsSha512(sha) && DecodesTo(sig.rBytes, xr, yr) && DecodesTo(pk, xa, ya)
    requires forall u, v :: DecodesTo(sig.rBytes, u, v) ==> u == xr && v == yr
    requires forall u, v :: DecodesTo(pk, u, v) ==> u == xa && v == ya
    ensures Accepts(g, abs, sha, pk, msg, sig) <==>
              Verifies(g, abs(ValPoint(BasePoint())), Number(sig.sBytes), abs(Affine(xr, yr)),
                       Number(HashOf(sha, sig.rBytes + pk + msg)), abs(Affine(xa, ya)))
  {
    hide DecodesTo, Verifies, BasePoint, HashOf, IsSha512, Number, Affine, ReducibleLimbs;
  }

  /**
   Which signatures verify, for every seed and message: exactly those whose S is
   (r + H a) mod L for the full challenge hash H; and when the reduction of the
   challenge came out right, exactly those whose S was reduced right as well.  The
   reduction of the nonce does not matter.
   */
  lemma SignatureVerifiesIff<G(!new)>(g: Group<G>, abs: Ext -> G, sha: Hash, seed: seq<int>, msg: seq<int>)
    requires IsSha512(sha) && Realises(g, abs) && HasOrderL(g, abs(ValPoint(BasePoint())))
    ensures Accepts(g, abs, sha, PublicKey(sha, seed), msg, OwnSignature(sha, seed, msg))
            <==> EquationHolds(sha, seed, msg)
    ensures ReducedRight(Challenge(sha, seed, msg)) ==>
              (Accepts(g, abs, sha, PublicKey(sha, seed), msg, OwnSignature(sha, seed, msg))
               <==> ReducedRight(OwnScalar(sha, seed, msg)))
  {
    hide Realises, HasOrderL, BasePoint, Nonce, IsSha512, Accepts, ModLBytes, Number, ReducedRight, ReducibleLimbs;
    hide OwnSignature, OwnScalar, Challenge, PublicKey, Secret, SumLimbs, HashOf, PointBytes;
    AcceptsIsEquation(g, abs, sha, seed, msg);
    OwnParts(sha, seed, msg);
    if ReducedRight(Challenge(sha, seed, msg)) {
      ScalarIsResidueIff(Nonce(sha, seed, msg), Challenge(sha, seed, msg), Secret(sha, seed));
    }
  }

  /** After a right reduction of the challenge, S is (r + H a) mod L exactly when S was reduced right. */
  lemma ScalarIsResidueIff(r: seq<int>, c: seq<int>, a: seq<int>)
    requires |r| == |a| == 32 && Within(r, 0, 255) && Within(a, 0, 255)
    requires ReducibleLimbs(c) && Within(c, 0, 255) && ReducedRight(c)
    ensures Number(c) * Number(a) >= 0
    ensures var x := SumLimbs(r, ModLBytes(c), a);
            Number(ModLBytes(x)) == (Number(r) + Number(c) * Number(a)) % L <==> ReducedRight(x)
  {
    hide SumLimbs, ModLBytes, Number, Eval, ReducedRight;
    var h := ModLBytes(c);
    var x := SumLimbs(r, h, a);
    ReducedNumber(c);
    NumberOfBytes(c);
    SumReducible(r, h, a);
    SumNumber(r, h, a);
    ReducedNumber(x);
    SameResidue(Number(r), Number(h), Number(c), Number(a));
  }

  lemma SameResidue(r: nat, h: nat, c: nat, a: nat)
    requires h == c % L
    ensures h * a >= 0 && c * a >= 0 && (r + h * a) % L == (r + c * a) % L
  {
    CongMod(c, L);
    CongRefl(a, L);
    CongMul(h, c, a, a, L);
    CongRefl(r, L);
    CongAdd(r, r, h * a, c * a, L);
    CongIffMod(r + h * a, r + c * a, L);
    MulMonotone(0, h, a);
    MulMonotone(0, c, a);
  }

  lemma PointBytesValue(s: seq<int>)
    ensures Eval(256, PointBytes(s)) == Encode(SecretPoint(s))
  {
    hide Encode, BaseMultiple;
    EncodeFits(SecretPoint(s));
  }

  /** [s]B in coordinates. */
  ghost function SecretPoint(s: seq<int>): Ext {
    ValPoint(BaseMultiple(s))
  }

  lemma SecretMultiple<G(!new)>(g: Group<G>, abs: Ext -> G, s: seq<int>)
    requires Realises(g, abs) && Within(s, 0, 255)
    ensures abs(SecretPoint(s)) == Times(g, Number(s), abs(ValPoint(BasePoint()))) && IsPoint(SecretPoint(s))
  {
    hide BasePoint, Realises, IsPoint, BaseMultiple;
    BaseMultipleIsMultiple(g, abs, s);
    NumberOfBytes(s);
  }

  /** An encoding is below 2^256, so its 32 bytes hold it. */
  lemma EncodeFits(p: Ext)
    ensures Eval(256, DigitsOf(256, Encode(p), 32)) == Encode(p)
  {
    RadixPowers();
    DigitsOfValue(256, Encode(p), 32);
    hide Inv;
    DivModUnique(Encode(p), TWO_256, 0, Encode(p));
  }
}
