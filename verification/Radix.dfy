/**
 Little-endian numbers held as sequences of limbs, and the carry pass that every
 reduction of the Ed25519 code is built from.  Limbs may be negative or larger
 than the radix; a sequence of limbs still has one value.
 */
module Radix {
  import opened Arith

  /** The number that the limbs s stand for in radix b. */
  function Eval(b: int, s: seq<int>): int {
    if |s| == 0 then 0 else Eval(b, s[..|s| - 1]) + s[|s| - 1] * Pow(b, |s| - 1)
  }

  ghost predicate Within(s: seq<int>, lo: int, hi: int) {
    forall i :: 0 <= i < |s| ==> lo <= s[i] <= hi
  }

  lemma {:induction false} EvalConcat(b: int, s: seq<int>, t: seq<int>)
    ensures Eval(b, s + t) == Eval(b, s) + Pow(b, |s|) * Eval(b, t)
  {
    if |t| == 0 {
      assert s + t == s;
    } else {
      var t' := t[..|t| - 1];
      var d := t[|t| - 1];
      assert (s + t)[..|s + t| - 1] == s + t';
      EvalConcat(b, s, t');
      PowAdd(b, |s|, |t'|);
      ConcatStep(d, Pow(b, |s|), Pow(b, |t'|), Eval(b, t'));
    }
  }

  lemma ConcatStep(d: int, p: int, q: int, e: int)
    ensures p * e + d * (p * q) == p * (e + d * q)
  {
    assert d * (p * q) == p * (d * q);
  }

  lemma {:induction false} EvalUpdate(b: int, s: seq<int>, k: nat, v: int)
    requires k < |s|
    ensures Eval(b, s[k := v]) == Eval(b, s) + (v - s[k]) * Pow(b, k)
  {
    var n := |s| - 1;
    if k == n {
      assert s[k := v][..n] == s[..n];
    } else {
      assert s[k := v][..n] == s[..n][k := v];
      EvalUpdate(b, s[..n], k, v);
    }
  }

  /** Eval is linear. */
  lemma {:induction false} EvalLinear(b: int, u: seq<int>, s: seq<int>, t: seq<int>, k: int)
    requires |u| == |s| == |t|
    requires forall i :: 0 <= i < |u| ==> u[i] == s[i] + k * t[i]
    ensures Eval(b, u) == Eval(b, s) + k * Eval(b, t)
  {
    if |u| > 0 {
      var n := |u| - 1;
      EvalLinear(b, u[..n], s[..n], t[..n], k);
      LinearStep(s[n], t[n], k, Pow(b, n), Eval(b, t[..n]));
    }
  }

  lemma LinearStep(x: int, y: int, k: int, p: int, e: int)
    ensures (x + k * y) * p + k * e == x * p + k * (e + y * p)
  {
    assert k * y * p == k * (y * p);
  }

  lemma {:induction false} EvalZero(b: int, s: seq<int>)
    requires Within(s, 0, 0)
    ensures Eval(b, s) == 0
  {
    if |s| > 0 {
      EvalZero(b, s[..|s| - 1]);
    }
  }

  /** Limbs of magnitude at most d give a value of magnitude at most d * (b^n - 1) / (b - 1). */
  lemma {:induction false} EvalBound(b: int, s: seq<int>, d: int)
    requires b > 0 && Within(s, -d, d)
    ensures -d * (Pow(b, |s|) - 1) <= (b - 1) * Eval(b, s) <= d * (Pow(b, |s|) - 1)
  {
    if |s| > 0 {
      var n := |s| - 1;
      var p := Pow(b, n);
      EvalBound(b, s[..n], d);
      PowPositive(b, n);
      BoundStep(b, p, s[n], d, Eval(b, s[..n]));
    }
  }

  lemma BoundStep(b: int, p: int, x: int, d: int, e: int)
    requires b > 0 && p > 0 && -d <= x <= d
    requires -d * (p - 1) <= (b - 1) * e <= d * (p - 1)
    ensures -d * (b * p - 1) <= (b - 1) * (e + x * p) <= d * (b * p - 1)
  {
    var w := (b - 1) * p;
    assert w >= 0;
    MulMonotone(-d, x, w);
    MulMonotone(x, d, w);
    assert (b - 1) * (e + x * p) == (b - 1) * e + x * w;
    assert d * (b * p - 1) == d * (p - 1) + d * w;
    assert -d * (b * p - 1) == -d * (p - 1) + (-d) * w;
  }

  lemma {:induction false} DigitsRange(b: int, s: seq<int>)
    requires b > 0 && Within(s, 0, b - 1)
    ensures 0 <= Eval(b, s) < Pow(b, |s|)
  {
    if |s| > 0 {
      var n := |s| - 1;
      DigitsRange(b, s[..n]);
      PowPositive(b, n);
      MulMonotone(0, s[n], Pow(b, n));
      MulMonotone(s[n], b - 1, Pow(b, n));
    }
  }

  /** The top digit and the rest are the quotient and remainder of the value. */
  lemma TopDigit(b: int, s: seq<int>)
    requires b > 0 && |s| > 0 && Within(s, 0, b - 1)
    ensures Pow(b, |s| - 1) > 0
    ensures Eval(b, s) / Pow(b, |s| - 1) == s[|s| - 1]
    ensures Eval(b, s) % Pow(b, |s| - 1) == Eval(b, s[..|s| - 1])
  {
    var n := |s| - 1;
    PowPositive(b, n);
    DigitsRange(b, s[..n]);
    DivModUnique(Eval(b, s), Pow(b, n), s[n], Eval(b, s[..n]));
  }

  /** A number has at most one sequence of n digits. */
  lemma {:induction false} DigitsUnique(b: int, s: seq<int>, t: seq<int>)
    requires b > 0 && Within(s, 0, b - 1) && Within(t, 0, b - 1)
    requires |s| == |t| && Eval(b, s) == Eval(b, t)
    ensures s == t
  {
    if |s| > 0 {
      TopDigit(b, s);
      TopDigit(b, t);
      DigitsUnique(b, s[..|s| - 1], t[..|s| - 1]);
      assert s == s[..|s| - 1] + [s[|s| - 1]];
      assert t == t[..|s| - 1] + [t[|s| - 1]];
    }
  }

  lemma Eval4(b: int, s: seq<int>)
    requires |s| == 4
    ensures Eval(b, s) == s[0] + s[1] * b + s[2] * Pow(b, 2) + s[3] * Pow(b, 3)
  {
    assert s[..3][..2] == s[..2] && s[..2][..1] == s[..1] && s[..1][..0] == [];
    assert Eval(b, s[..1]) == s[0];
    assert Eval(b, s[..2]) == s[0] + s[1] * b;
  }

  /** Digit j of v in radix b. */
  function DigitOf(b: int, v: int, j: nat): int
    requires b > 0
  {
    PowPositive(b, j);
    v / Pow(b, j) % b
  }

  function DigitsOf(b: int, v: int, n: nat): (s: seq<int>)
    requires b > 0
    ensures |s| == n && Within(s, 0, b - 1)
  {
    seq(n, j requires 0 <= j => DigitOf(b, v, j))
  }

  /** The n lowest digits of v hold v modulo b^n. */
  lemma {:induction false} DigitsOfValue(b: int, v: int, n: nat)
    requires b > 0
    ensures Pow(b, n) > 0 && Eval(b, DigitsOf(b, v, n)) == v % Pow(b, n)
  {
    PowPositive(b, n);
    if n == 0 {
      DivModUnique(v, 1, v, 0);
    } else {
      DigitsOfValue(b, v, n - 1);
      assert DigitsOf(b, v, n)[..n - 1] == DigitsOf(b, v, n - 1);
      ModStep(v, Pow(b, n - 1), b);
    }
  }

  lemma ModStep(v: int, p: int, b: int)
    requires p > 0 && b > 0
    ensures b * p > 0 && v % (b * p) == v % p + (v / p % b) * p
  {
    MulPositive(b, p);
    var q, r := v / p, v % p;
    var top, d := q / b, q % b;
    assert v == q * p + r && q == top * b + d;
    ModExpand(top, d, p, b);
    DigitFits(d, r, p, b);
    DivModUnique(v, b * p, top, d * p + r);
  }

  lemma ModExpand(top: int, d: int, p: int, b: int)
    ensures (top * b + d) * p == top * (b * p) + d * p
  {
    MulAssociative(top, b, p);
  }

  lemma DigitFits(d: int, r: int, p: int, b: int)
    requires 0 <= d < b && 0 <= r < p
    ensures 0 <= d * p + r < b * p
  {
    MulMonotone(0, d, p);
    MulMonotone(d, b - 1, p);
    assert (b - 1) * p == b * p - p;
  }

  // ---------------------------------------------------------------- carry pass

  datatype Rippled = Rippled(digits: seq<int>, carry: int)

  /**
   One carry pass over s, starting with the carry c: every limb is brought into
   [-off, b - off) and what is taken from it moves on to the next limb.
   */
  function Ripple(b: int, off: int, s: seq<int>, c: int): (r: Rippled)
    requires b > 0
    ensures |r.digits| == |s|
  {
    if |s| == 0 then Rippled([], c) else
      var r := Ripple(b, off, s[..|s| - 1], c);
      var v := s[|s| - 1] + r.carry + off;
      Rippled(r.digits + [v % b - off], v / b)
  }

  /** A carry pass changes the limbs, not the number. */
  lemma {:induction false} RippleValue(b: int, off: int, s: seq<int>, c: int)
    requires b > 0
    ensures var r := Ripple(b, off, s, c); Eval(b, r.digits) + r.carry * Pow(b, |s|) == Eval(b, s) + c
  {
    if |s| > 0 {
      var n := |s| - 1;
      RippleValue(b, off, s[..n], c);
      var r, r' := Ripple(b, off, s, c), Ripple(b, off, s[..n], c);
      assert r.digits[..n] == r'.digits;
      var v := s[n] + r'.carry + off;
      RippleStep(b, v, off, s[n], r'.carry, Pow(b, n));
    }
  }

  lemma RippleStep(b: int, v: int, off: int, x: int, c: int, p: int)
    requires b > 0 && v == x + c + off
    ensures (v % b - off) * p + (v / b) * (b * p) == x * p + c * p
  {
    assert v % b + (v / b) * b == x + c + off;
    assert (v / b) * (b * p) == ((v / b) * b) * p;
    assert (v % b - off) * p + ((v / b) * b) * p == (v % b - off + (v / b) * b) * p;
    assert x * p + c * p == (x + c) * p;
  }

  lemma {:induction false} RippleDigits(b: int, off: int, s: seq<int>, c: int)
    requires b > 0
    ensures Within(Ripple(b, off, s, c).digits, -off, b - 1 - off)
  {
    if |s| > 0 {
      RippleDigits(b, off, s[..|s| - 1], c);
    }
  }

  /** With limbs of magnitude at most d, the running carry never exceeds m. */
  lemma {:induction false} RippleCarryBound(b: int, off: int, s: seq<int>, c: int, d: int, m: int)
    requires b > 1 && 0 <= off < b && Within(s, -d, d) && -m <= c <= m
    requires d + m + b <= b * m
    ensures -m <= Ripple(b, off, s, c).carry <= m
  {
    if |s| > 0 {
      RippleCarryBound(b, off, s[..|s| - 1], c, d, m);
      var r := Ripple(b, off, s[..|s| - 1], c);
      var v := s[|s| - 1] + r.carry + off;
      DivBound(v, b, m);
    }
  }

  lemma DivBound(v: int, b: int, m: int)
    requires b > 0 && -(b * m) <= v <= b * m
    ensures -m <= v / b <= m
  {
    var q := v / b;
    assert v == q * b + v % b;
    if q > m {
      MulMonotone(m + 1, q, b);
    } else if q < -m {
      MulMonotone(q, -m - 1, b);
    }
  }

  /** With no offset the pass is division with remainder by b^n. */
  lemma RippleIsDivMod(b: int, s: seq<int>, c: int)
    requires b > 0
    ensures Pow(b, |s|) > 0
    ensures Ripple(b, 0, s, c).carry == (Eval(b, s) + c) / Pow(b, |s|)
    ensures Eval(b, Ripple(b, 0, s, c).digits) == (Eval(b, s) + c) % Pow(b, |s|)
  {
    var r := Ripple(b, 0, s, c);
    PowPositive(b, |s|);
    RippleValue(b, 0, s, c);
    RippleDigits(b, 0, s, c);
    DigitsRange(b, r.digits);
    DivModUnique(Eval(b, s) + c, Pow(b, |s|), r.carry, Eval(b, r.digits));
  }
}
