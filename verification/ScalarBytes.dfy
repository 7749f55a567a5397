/**
 When the bytes that modL writes are the residue modulo L.  The code ends with a
 subtraction of carry * L that is not followed by another carry pass, so a last
 carry of -1 can leave limbs above 255 whose high parts are dropped.
 */
module ScalarBytes {
  import opened Arith
  import opened Radix
  import opened ScalarSpec

  // ---------------------------------------------------------------- addition without carries

  function Plus(d: seq<int>, l: seq<int>): (z: seq<int>)
    requires |d| == |l|
    ensures |z| == |d|
  {
    seq(|d|, j requires 0 <= j < |d| => d[j] + l[j])
  }

  /** The low byte of each limb; what is above is dropped. */
  function LowBytes(z: seq<int>): (r: seq<int>)
    ensures |r| == |z| && Within(r, 0, 255)
  {
    seq(|z|, j requires 0 <= j < |z| => z[j] % 256)
  }

  function Overflow(z: seq<int>): (o: seq<int>)
    ensures |o| == |z|
  {
    seq(|z|, j requires 0 <= j < |z| => z[j] / 256)
  }

  lemma OverflowValue(z: seq<int>)
    ensures Eval(256, LowBytes(z)) == Eval(256, z) - 256 * Eval(256, Overflow(z))
  {
    EvalLinear(256, LowBytes(z), z, Overflow(z), -256);
  }

  lemma {:induction false} PlusValue(d: seq<int>, l: seq<int>)
    requires |d| == |l|
    ensures Eval(256, Plus(d, l)) == Eval(256, d) + Eval(256, l)
  {
    EvalLinear(256, Plus(d, l), d, l, 1);
  }

  /** The unit at the top position. */
  function TopUnit(n: nat): (o: seq<int>)
    requires n > 0
    ensures |o| == n && Within(o, 0, 255)
  {
    seq(n, j => if j == n - 1 then 1 else 0)
  }

  lemma TopUnitValue(n: nat)
    requires n > 0
    ensures Eval(256, TopUnit(n)) == Pow(256, n - 1)
  {
    EvalZero(256, TopUnit(n)[..n - 1]);
  }

  lemma PlusOverflow(d: seq<int>, l: seq<int>)
    requires |d| == |l| && Within(d, 0, 255) && Within(l, 0, 255)
    ensures Within(Overflow(Plus(d, l)), 0, 1)
  {
  }

  /** Digits that agree in value with limbs whose top alone is unchecked are those limbs. */
  lemma TopFollows(d: seq<int>, e: seq<int>, n: nat)
    requires n > 0 && |d| == |e| == n && Within(d, 0, 255) && Within(e[..n - 1], 0, 255)
    requires Eval(256, d) == Eval(256, e)
    ensures d == e
  {
    var p := Pow(256, n - 1);
    PowPositive(256, n - 1);
    DigitsRange(256, d[..n - 1]);
    DigitsRange(256, e[..n - 1]);
    DivModUnique(Eval(256, d), p, d[n - 1], Eval(256, d[..n - 1]));
    DivModUnique(Eval(256, e), p, e[n - 1], Eval(256, e[..n - 1]));
    DigitsUnique(256, d[..n - 1], e[..n - 1]);
    assert d == d[..n - 1] + [d[n - 1]] && e == e[..n - 1] + [e[n - 1]];
  }

  /** b - l limb by limb, with 256^n put on the top limb. */
  function Minus(b: seq<int>, l: seq<int>): (e: seq<int>)
    requires |b| == |l|
    ensures |e| == |b|
  {
    seq(|b|, j requires 0 <= j < |b| => b[j] - l[j] + (if j == |b| - 1 then 256 else 0))
  }

  function Difference(b: seq<int>, l: seq<int>): (e: seq<int>)
    requires |b| == |l|
    ensures |e| == |b|
  {
    seq(|b|, j requires 0 <= j < |b| => b[j] - l[j])
  }

  lemma MinusRaises(b: seq<int>, l: seq<int>)
    requires |b| == |l| > 0
    ensures var e := Difference(b, l); Minus(b, l) == e[|b| - 1 := e[|b| - 1] + 256]
  {
  }

  lemma {:induction false} DifferenceValue(b: seq<int>, l: seq<int>)
    requires |b| == |l|
    ensures Eval(256, Difference(b, l)) == Eval(256, b) - Eval(256, l)
  {
    hide Eval;
    EvalLinear(256, Difference(b, l), b, l, -1);
  }

  lemma {:induction false} MinusValue(b: seq<int>, l: seq<int>)
    requires |b| == |l| > 0
    ensures Eval(256, Minus(b, l)) == Eval(256, b) - Eval(256, l) + Pow(256, |b|)
  {
    hide Eval, Minus, Difference;
    assert Pow(256, |b|) == 256 * Pow(256, |b| - 1);
    hide Pow;
    MinusRaises(b, l);
    DifferenceValue(b, l);
    RaiseTop(Difference(b, l), |b| - 1, 256);
  }

  lemma RaiseTop(s: seq<int>, k: nat, more: int)
    requires k < |s|
    ensures Eval(256, s[k := s[k] + more]) == Eval(256, s) + more * Pow(256, k)
  {
    EvalUpdate(256, s, k, s[k] + more);
    hide *;
    assert s[k] + more - s[k] == more;
  }

  /** Covered: the sum of d and l, taken bytewise without carries, gives back the bytes b. */
  lemma {:induction false} CoveredSum(d: seq<int>, l: seq<int>, b: seq<int>)
    requires |d| == |l| == |b| > 0 && Within(d, 0, 255) && Within(l, 0, 255) && Within(b, 0, 255)
    requires Eval(256, d) + Eval(256, l) == Eval(256, b) + Pow(256, |b|)
    requires forall j :: 0 <= j < |b| - 1 ==> b[j] >= l[j]
    ensures LowBytes(Plus(d, l)) == b
  {
    MinusValue(b, l);
    hide Eval, Pow;
    assert Within(Minus(b, l)[..|b| - 1], 0, 255);
    TopFollows(d, Minus(b, l), |b|);
    MinusPlus(d, l, b);
  }

  lemma MinusPlus(d: seq<int>, l: seq<int>, b: seq<int>)
    requires |d| == |l| == |b| && Within(b, 0, 255) && d == Minus(b, l)
    ensures LowBytes(Plus(d, l)) == b
  {
    forall j | 0 <= j < |b|
      ensures LowBytes(Plus(d, l))[j] == b[j]
    {
      assert Plus(d, l)[j] == b[j] + (if j == |b| - 1 then 256 else 0);
    }
  }

  /** Not covered: some limb below the top overflows and its high part is lost. */
  lemma {:induction false} CorrectSum(d: seq<int>, l: seq<int>, b: seq<int>)
    requires |d| == |l| == |b| > 0 && Within(d, 0, 255) && Within(l, 0, 255) && Within(b, 0, 255)
    requires Eval(256, d) + Eval(256, l) == Eval(256, b) + Pow(256, |b|)
    requires LowBytes(Plus(d, l)) == b
    ensures forall j :: 0 <= j < |b| - 1 ==> b[j] >= l[j]
  {
    var n, z := |b|, Plus(d, l);
    var o := Overflow(z);
    PlusValue(d, l);
    OverflowValue(z);
    PlusOverflow(d, l);
    TopUnitValue(n);
    assert Pow(256, n) == 256 * Pow(256, n - 1);
    assert o == TopUnit(n) by {
      DigitsUnique(256, o, TopUnit(n));
    }
    forall j | 0 <= j < n - 1
      ensures b[j] >= l[j]
    {
      assert o[j] == 0;
    }
  }

  // ---------------------------------------------------------------- modL

  /** Every low byte of v is at least the byte of L in its place. */
  ghost predicate LowBytesCover(v: int) {
    forall j :: 0 <= j < 16 ==> DigitOf(256, v, j) >= L_BYTES[j]
  }

  /** The residue as bytes. */
  lemma ResidueBytes(x: seq<int>)
    ensures 0 <= Eval(256, x) % L < L
    ensures Eval(256, DigitsOf(256, Eval(256, x) % L, 32)) == Eval(256, x) % L
  {
    var v := Eval(256, x) % L;
    RadixPowers();
    DigitsOfValue(256, v, 32);
    DivModUnique(v, TWO_256, 0, v);
  }

  /** The bytes of L from 16 to 30 are 0, so they are covered by anything. */
  lemma CoverIsLow(v: int)
    ensures LowBytesCover(v)
            <==> forall j :: 0 <= j < 31 ==> DigitsOf(256, v, 32)[j] >= L_BYTES[j]
  {
    var b := DigitsOf(256, v, 32);
    hide DigitOf;
    forall j | 16 <= j < 31
      ensures L_BYTES[j] == 0 <= b[j]
    {
    }
    assert forall j :: 0 <= j < 32 ==> b[j] == DigitOf(256, v, j);
  }

  lemma ModLBytesForm(x: seq<int>)
    requires |x| == 64
    ensures ModLBytes(x) == LowBytes(FinalLimbs(x))
    ensures FinalCarry(x) == -1 ==> FinalLimbs(x) == Plus(LastRipple(x).digits, L_BYTES)
    ensures FinalCarry(x) == 0 ==> FinalLimbs(x) == LastRipple(x).digits
  {
    hide LastRipple, FinalCarry;
  }

  /** Without a borrow the limbs are bytes already. */
  lemma NoBorrow(x: seq<int>)
    requires ReducibleLimbs(x) && FinalCarry(x) == 0
    ensures Eval(256, ModLBytes(x)) == Eval(256, x) % L
  {
    LastPass(x);
    FinalValue(x);
    ModLBytesForm(x);
    hide *;
    BytesStay(FinalLimbs(x));
  }

  lemma BytesStay(z: seq<int>)
    requires Within(z, 0, 255)
    ensures LowBytes(z) == z
  {
  }

  /** After a borrow, the digits of the last pass and L add up to v + 2^256. */
  lemma BorrowDigits(x: seq<int>)
    requires ReducibleLimbs(x) && FinalCarry(x) == -1
    ensures Within(LastRipple(x).digits, 0, 255)
    ensures Eval(256, LastRipple(x).digits) + Eval(256, L_BYTES) == Eval(256, x) % L + Pow(256, 32)
  {
    LastPass(x);
    FinalValue(x);
    ModLBytesForm(x);
    RadixPowers();
    hide FinalLimbs, LastRipple, FinalCarry, Eval;
    PlusValue(LastRipple(x).digits, L_BYTES);
  }

  lemma LBytesAreBytes()
    ensures Within(L_BYTES, 0, 255)
  {
  }

  /**
   The bytes that modL writes are the residue modulo L exactly when its last carry
   is 0 or every low byte of the residue is at least the byte of L in its place.
   */
  lemma ModLCorrectIff(x: seq<int>)
    requires ReducibleLimbs(x)
    ensures Eval(256, ModLBytes(x)) == Eval(256, x) % L
            <==> FinalCarry(x) == 0 || LowBytesCover(Eval(256, x) % L)
  {
    hide Ripple, Eval, Pow, DigitsOf, LastRipple, FinalCarry, FinalLimbs, ModLBytes, LowBytesCover;
    FinalValue(x);
    if FinalCarry(x) == 0 {
      NoBorrow(x);
    } else {
      var v, d, r := Eval(256, x) % L, LastRipple(x).digits, ModLBytes(x);
      var b := DigitsOf(256, v, 32);
      ResidueBytes(x);
      BorrowDigits(x);
      ModLBytesForm(x);
      CoverIsLow(v);
      LBytesAreBytes();
      hide *;
      if forall j :: 0 <= j < 31 ==> b[j] >= L_BYTES[j] {
        CoveredSum(d, L_BYTES, b);
      } else if Eval(256, r) == v {
        DigitsUnique(256, r, b);
        CorrectSum(d, L_BYTES, b);
      }
    }
  }

  // ---------------------------------------------------------------- decided by the value

  /** The last carry, decided by the residue outside a window of 3/255 of 2^248 below 2^252. */
  lemma CarryByResidue(x: seq<int>)
    requires ReducibleLimbs(x)
    ensures var v := Eval(256, x) % L;
            && (255 * (L - v) > 129 * TWO_248 + 2040 * EXCESS ==> FinalCarry(x) == 0)
            && (255 * (TWO_252 - v) < 126 * TWO_248 - 2295 * EXCESS ==> FinalCarry(x) == -1)
  {
    var y := Rows(x, 32);
    RowsInRange(x, 32);
    LastRange(y);
    LastPass(x);
    RowsCongruent(x, 32);
    hide Eval, FinalCarry, Rows, InRange, LastRipple, ReducibleLimbs;
    Brought(Eval(256, y), Eval(256, x), y[31] / 16);
  }

  /**
   The outcome of modL from the value alone: below the window the bytes are the
   residue, above it they are exactly when its low bytes cover those of L, and from
   2^252 on they never are.
   */
  lemma ModLByResidue(x: seq<int>)
    requires ReducibleLimbs(x)
    ensures var v := Eval(256, x) % L;
            && (255 * (L - v) > 129 * TWO_248 + 2040 * EXCESS ==> Eval(256, ModLBytes(x)) == v)
            && (255 * (TWO_252 - v) < 126 * TWO_248 - 2295 * EXCESS ==>
                  (Eval(256, ModLBytes(x)) == v <==> LowBytesCover(v)))
            && (v <= L - TWO_248 ==> Eval(256, ModLBytes(x)) == v)
            && (v >= TWO_252 ==> Eval(256, ModLBytes(x)) != v)
  {
    CarryByResidue(x);
    ModLCorrectIff(x);
    hide Eval, ModLBytes, FinalCarry, LowBytesCover, ReducibleLimbs;
    var v := Eval(256, x) % L;
    assert 0 <= v < L;
    if v >= TWO_252 {
      TopNotCovered(v);
    }
  }

  /** A value from 2^252 up to L has a low byte below the byte of L in its place. */
  lemma TopNotCovered(v: int)
    requires TWO_252 <= v < L
    ensures !LowBytesCover(v)
  {
    var b := DigitsOf(256, v, 32);
    RadixPowers();
    DigitsOfValue(256, v, 32);
    DivModUnique(v, TWO_256, 0, v);
    if LowBytesCover(v) {
      CoverIsLow(v);
      LBytesAreBytes();
      LBytesValue();
      TopDigit(256, b);
      TopDigit(256, L_BYTES);
      assert b[..|b| - 1] == b[..31] && L_BYTES[..|L_BYTES| - 1] == L_BYTES[..31];
      EvalMonotone(L_BYTES[..31], b[..31]);
      assert false;
    }
  }

  lemma {:induction false} EvalMonotone(s: seq<int>, t: seq<int>)
    requires |s| == |t| && forall j :: 0 <= j < |s| ==> s[j] <= t[j]
    ensures Eval(256, s) <= Eval(256, t)
  {
    if |s| > 0 {
      EvalMonotone(s[..|s| - 1], t[..|t| - 1]);
      PowPositive(256, |s| - 1);
      MulMonotone(s[|s| - 1], t[|t| - 1], Pow(256, |s| - 1));
    }
  }

  /** modL corrupts every input whose residue is 2^252 or more. */
  lemma TopResiduesCorrupted(x: seq<int>)
    requires ReducibleLimbs(x) && Eval(256, x) % L >= TWO_252
    ensures FinalCarry(x) == -1 && Eval(256, ModLBytes(x)) != Eval(256, x) % L
  {
    CarryByResidue(x);
    ModLByResidue(x);
  }

  // ---------------------------------------------------------------- wrong bytes are no other representative

  /** Only the low 16 limbs and the top one of a sum with L can overflow. */
  lemma OverflowParts(d: seq<int>)
    requires |d| == 32 && Within(d, 0, 255)
    ensures var o := Overflow(Plus(d, L_BYTES));
            && 0 <= o[31] <= 1 && 0 <= Eval(256, o[..16]) < Pow(256, 16)
            && Eval(256, o) == Eval(256, o[..16]) + o[31] * Pow(256, 31)
  {
    var o := Overflow(Plus(d, L_BYTES));
    LBytesAreBytes();
    PlusOverflow(d, L_BYTES);
    DigitsRange(256, o[..16]);
    forall j | 16 <= j < 31
      ensures o[j] == 0
    {
      assert L_BYTES[j] == 0;
    }
    WithZeros(o[..16], o[16..31]);
    assert o[..|o| - 1] == o[..16] + o[16..31];
  }

  lemma NotShifted(v: int, k: int, q: int)
    requires 0 <= v < L && 0 < k < L
    ensures (v - k + q * L) % L != v
  {
    if v >= k {
      DivModUnique(v - k + q * L, L, q, v - k);
    } else {
      assert (q - 1) * L == q * L - L;
      DivModUnique(v - k + q * L, L, q - 1, v - k + L);
    }
  }

  /** What the lost high parts leave of v + 2^256 is v or another residue. */
  lemma LostParts(v: int, top: int, low: int)
    requires 0 <= v < L && 0 <= top <= 1 && 0 <= low < 0x1_0000_0000_0000_0000_0000_0000_0000_0000
    ensures var r := v + TWO_256 - 256 * (low + top * TWO_248); r == v || r % L != v
  {
    if top == 0 {
      NotShifted(v, 16 * EXCESS + 256 * low, 16);
      assert v + TWO_256 - 256 * low == v - (16 * EXCESS + 256 * low) + 16 * L;
    } else if low > 0 {
      NotShifted(v, 256 * low, 0);
    }
  }

  lemma Pow16()
    ensures Pow(256, 16) == 0x1_0000_0000_0000_0000_0000_0000_0000_0000 && Pow(256, 31) == TWO_248
  {
    assert Pow(256, 4) == 0x1_0000_0000;
    PowAdd(256, 4, 4);
    PowAdd(256, 8, 8);
    RadixPowers();
  }

  /** Bytes that are not the residue are not even congruent to the input modulo L. */
  lemma WrongIsOtherResidue(x: seq<int>)
    requires ReducibleLimbs(x)
    ensures Eval(256, ModLBytes(x)) % L == Eval(256, x) % L <==> Eval(256, ModLBytes(x)) == Eval(256, x) % L
  {
    hide Ripple, Eval, Pow, LastRipple, FinalCarry, FinalLimbs, ModLBytes, L_BYTES, Overflow, Plus;
    var v, r, z := Eval(256, x) % L, Eval(256, ModLBytes(x)), FinalLimbs(x);
    FinalValue(x);
    ModLBytesForm(x);
    if FinalCarry(x) == 0 {
      NoBorrow(x);
    } else {
      BorrowDigits(x);
      OverflowValue(z);
      OverflowParts(LastRipple(x).digits);
      Pow16();
      LostParts(v, Overflow(z)[31], Eval(256, Overflow(z)[..16]));
    }
    if r == v {
      DivModUnique(r, L, 0, r);
    }
  }

  /** The bytes of L - 1, as reduce would receive them. */
  function LMinusOne(): (x: seq<int>)
    ensures |x| == 64
  {
    L_BYTES[0 := 0xec] + seq(32, _ => 0)
  }

  lemma LMinusOneReducible()
    ensures ReducibleLimbs(LMinusOne())
  {
    LBytesAreBytes();
    var low := L_BYTES[0 := 0xec];
    assert Within(low, 0, 255);
  }

  lemma LMinusOneValue()
    ensures Eval(256, LMinusOne()) == L - 1
  {
    LBytesValue();
    EvalUpdate(256, L_BYTES, 0, 0xec);
    assert Pow(256, 0) == 1;
    hide Eval;
    WithZeros(L_BYTES[0 := 0xec], seq(32, _ => 0));
  }

  /** A concrete input on which modL fails. */
  lemma LMinusOneCorrupted()
    ensures ReducibleLimbs(LMinusOne()) && Eval(256, LMinusOne()) == L - 1
    ensures Eval(256, ModLBytes(LMinusOne())) != (L - 1) % L
  {
    LMinusOneReducible();
    LMinusOneValue();
    DivModUnique(L - 1, L, 0, L - 1);
    hide LMinusOne, Eval, ModLBytes, ReducibleLimbs;
    TopResiduesCorrupted(LMinusOne());
  }
}
