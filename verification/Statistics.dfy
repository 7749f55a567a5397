/**
 Mean and sample variance over exact reals, and how far a member can lie above
 the mean.  Comparisons of z-scores are made on squares.
 */
module Statistics {

  function Sum(s: seq<real>): real {
    if s == [] then 0.0 else Sum(s[..|s| - 1]) + s[|s| - 1]
  }

  function Square(x: real): real {
    x * x
  }

  function Squares(s: seq<real>): real {
    if s == [] then 0.0 else Squares(s[..|s| - 1]) + Square(s[|s| - 1])
  }

  function Deviations(s: seq<real>, m: real): (e: seq<real>)
    ensures |e| == |s|
  {
    seq(|s|, i requires 0 <= i < |s| => s[i] - m)
  }

  /** The squared distances from m, added up. */
  function SquaresFrom(s: seq<real>, m: real): real {
    Squares(Deviations(s, m))
  }

  function Mean(s: seq<real>): real {
    if s == [] then 0.0 else Sum(s) / (|s| as real)
  }

  /** The sample variance, 0 for fewer than two values. */
  function Variance(s: seq<real>): real {
    if |s| < 2 then 0.0 else SquaresFrom(s, Mean(s)) / ((|s| - 1) as real)
  }

  /** The square of x with the sign of x, so that comparing it compares x. */
  function Signed(x: real): real {
    if x >= 0.0 then Square(x) else 0.0 - Square(x)
  }

  /** (x - mean) / stddev > t; never when the deviation is 0. */
  predicate ZAbove(s: seq<real>, x: real, t: real) {
    Variance(s) > 0.0 && Signed(x - Mean(s)) > Signed(t) * Variance(s)
  }

  lemma SquareSign(x: real)
    ensures Square(x) >= 0.0 && (x != 0.0 ==> Square(x) > 0.0) && Square(-x) == Square(x)
  {
    NegatedSquare(x, -x);
    if x > 0.0 {
      PositiveSquare(x);
    } else if x < 0.0 {
      PositiveSquare(-x);
    } else {
      assert Square(0.0) == 0.0;
    }
    hide Square;
  }

  lemma NegatedSquare(x: real, y: real)
    requires y == -x
    ensures Square(y) == Square(x)
  {
  }

  lemma PositiveSquare(x: real)
    requires x > 0.0
    ensures Square(x) > 0.0
  {
    calc {
      Square(x);
      x * x;
      > { ProductPositive(x, x); }
      0.0;
    }
  }

  lemma SignedOrder(x: real, y: real)
    ensures x > y <==> Signed(x) > Signed(y)
  {
    SquareSign(x);
    SquareSign(y);
    if x >= 0.0 && y >= 0.0 {
      SameSignOrder(x, y);
    } else if x < 0.0 && y < 0.0 {
      SameSignOrder(-y, -x);
    }
    hide Square;
  }

  /** For the standard deviation itself, ZAbove is the comparison that the detector makes. */
  lemma ZAboveIsQuotient(s: seq<real>, x: real, t: real, stddev: real)
    requires stddev > 0.0 && Square(stddev) == Variance(s)
    ensures ZAbove(s, x, t) <==> (x - Mean(s)) / stddev > t
    ensures Variance(s) > 0.0 && Signed((x - Mean(s)) / stddev) == Signed(x - Mean(s)) / Variance(s)
  {
    hide Mean, Variance;
    SquareSign(stddev);
    QuotientOrder(x - Mean(s), t, stddev, Variance(s));
  }

  lemma QuotientOrder(d: real, t: real, sd: real, v: real)
    requires sd > 0.0 && v > 0.0 && v == Square(sd)
    ensures d / sd > t <==> Signed(d) > Signed(t) * v
    ensures Signed(d / sd) == Signed(d) / v
  {
    var z := d / sd;
    SignedScales(z, sd, d, v);
    SignedOrder(z, t);
    hide Signed, Square;
    OrderScales(Signed(z), Signed(t), v);
    assert Signed(z) == Signed(d) / v;
  }

  lemma SignedScales(z: real, sd: real, d: real, v: real)
    requires sd > 0.0 && d == z * sd && v == Square(sd)
    ensures Signed(d) == Signed(z) * v
  {
    SquareScales(z, sd);
    if z > 0.0 {
      ProductPositive(z, sd);
    } else if z < 0.0 {
      ProductPositive(-z, sd);
      assert d == -((-z) * sd);
    }
    hide Square;
    assert d >= 0.0 <==> z >= 0.0;
  }

  lemma SquareScales(z: real, sd: real)
    ensures Square(z * sd) == Square(z) * Square(sd)
  {
  }

  lemma OrderScales(a: real, b: real, v: real)
    requires v > 0.0
    ensures a > b <==> a * v > b * v
  {
    assert a * v - b * v == (a - b) * v;
    SignOfProduct(a - b, v);
  }

  lemma SameSignOrder(x: real, y: real)
    requires x >= 0.0 && y >= 0.0
    ensures x > y <==> Square(x) > Square(y)
  {
    SquareDifference(x, y);
    SquareDifference(y, x);
    hide Square;
    if x > y {
      ProductPositive(x - y, x + y);
    } else {
      NonNegativeProduct(y - x, y + x);
    }
  }

  lemma SquareDifference(x: real, y: real)
    ensures Square(x) - Square(y) == (x - y) * (x + y)
  {
  }

  lemma NonNegativeProduct(a: real, b: real)
    requires a >= 0.0 && b >= 0.0
    ensures a * b >= 0.0
  {
  }

  // ---------------------------------------------------------------- sums

  /** The deviations from m add up to the sum less n m. */
  lemma {:induction false} SumOfDeviations(s: seq<real>, m: real)
    ensures Sum(Deviations(s, m)) == Sum(s) - (|s| as real) * m
  {
    if s != [] {
      var n := |s| - 1;
      SumOfDeviations(s[..n], m);
      assert Deviations(s, m)[..n] == Deviations(s[..n], m);
    }
  }

  /** The square of a sum is at most the count times the sum of squares. */
  lemma {:induction false} CauchySchwarz(s: seq<real>)
    ensures Square(Sum(s)) <= (|s| as real) * Squares(s)
    ensures Squares(s) >= 0.0
  {
    if s != [] {
      var t, x := s[..|s| - 1], s[|s| - 1];
      CauchySchwarz(t);
      if t != [] {
        CauchyStep(Sum(t), x, |t| as real, Squares(t));
      }
    }
  }

  lemma CauchyStep(a: real, x: real, n: real, q: real)
    requires n > 0.0 && q >= 0.0 && a * a <= n * q
    ensures (a + x) * (a + x) <= (n + 1.0) * (q + x * x) && q + x * x >= 0.0
  {
    assert x * x >= 0.0;
    assert (a + x) * (a + x) == a * a + 2.0 * (a * x) + x * x;
    assert (n + 1.0) * (q + x * x) == n * q + q + n * (x * x) + x * x;
    TwiceProduct(a, x, n, q);
  }

  lemma TwiceProduct(a: real, x: real, n: real, q: real)
    requires n > 0.0 && q >= 0.0 && a * a <= n * q
    ensures 2.0 * (a * x) <= q + n * (x * x)
  {
    var r := a - n * x;
    assert r * r >= 0.0;
    assert r * r == a * a - n * (2.0 * (a * x)) + n * (n * (x * x));
    assert n * (q + n * (x * x) - 2.0 * (a * x)) >= 0.0;
    PositiveFactor(n, q + n * (x * x) - 2.0 * (a * x));
  }

  lemma ProductPositive(a: real, b: real)
    requires a > 0.0 && b > 0.0
    ensures a * b > 0.0
  {
  }

  lemma PositiveFactor(n: real, y: real)
    requires n > 0.0 && n * y >= 0.0
    ensures y >= 0.0
  {
    if y < 0.0 {
      ProductPositive(n, -y);
    }
  }

  // ---------------------------------------------------------------- the bound on a member

  /** e without its value at k. */
  function Without(e: seq<real>, k: nat): (rest: seq<real>)
    requires k < |e|
    ensures |rest| == |e| - 1
  {
    e[..k] + e[k + 1..]
  }

  /** Taking one value out of a sum and out of a sum of squares. */
  lemma {:induction false} WithoutOne(e: seq<real>, k: nat)
    requires k < |e|
    ensures Sum(e) == e[k] + Sum(Without(e, k))
    ensures Squares(e) == Square(e[k]) + Squares(Without(e, k))
  {
    var n := |e| - 1;
    hide Square;
    if k == n {
      assert Without(e, k) == e[..n];
    } else {
      WithoutOne(e[..n], k);
      assert Without(e, k)[..n - 1] == Without(e[..n], k);
      assert Without(e, k)[n - 1] == e[n];
    }
  }

  lemma MeanTimesCount(s: seq<real>)
    requires s != []
    ensures (|s| as real) * Mean(s) == Sum(s)
  {
  }

  /** n (x - mean)^2 <= (n - 1) times the squared deviations, for every member x. */
  lemma MemberDeviation(s: seq<real>, k: nat)
    requires k < |s|
    ensures (|s| as real) * Square(s[k] - Mean(s)) <= ((|s| - 1) as real) * SquaresFrom(s, Mean(s))
  {
    var m := Mean(s);
    SumOfDeviations(s, m);
    MeanTimesCount(s);
    hide Sum, Squares, Mean, Square;
    CenteredMember(Deviations(s, m), k);
  }

  /** Among numbers that add up to 0, one is balanced by the others. */
  lemma CenteredMember(e: seq<real>, k: nat)
    requires k < |e| && Sum(e) == 0.0
    ensures (|e| as real) * Square(e[k]) <= ((|e| - 1) as real) * Squares(e)
  {
    hide *;
    var rest := Without(e, k);
    WithoutOne(e, k);
    Balanced(e[k], Sum(rest));
    RestCovers(rest, Square(e[k]), |e| as real, |rest| as real, Squares(e));
  }

  lemma RestCovers(rest: seq<real>, dd: real, m: real, n: real, total: real)
    requires Square(Sum(rest)) == dd && total == dd + Squares(rest) && n == |rest| as real && m == n + 1.0
    ensures m * dd <= n * total
  {
    CauchySchwarz(rest);
    hide *;
    MemberArith(dd, n, m, Squares(rest), total);
  }

  lemma Balanced(d: real, sum: real)
    requires d + sum == 0.0
    ensures Square(sum) == Square(d)
  {
    assert sum == -d;
  }

  lemma MemberArith(dd: real, n: real, m: real, q: real, total: real)
    requires total == dd + q && dd <= n * q && m == n + 1.0
    ensures m * dd <= n * total
  {
    assert n * total == n * dd + n * q;
    assert m * dd == n * dd + dd;
  }

  /** Samuelson's inequality for the sample deviation: z^2 <= (n - 1)^2 / n for every member. */
  lemma Samuelson(s: seq<real>, k: nat)
    requires k < |s| && |s| >= 2
    ensures var d := s[k] - Mean(s);
            (|s| as real) * (d * d) <= ((|s| - 1) as real) * ((|s| - 1) as real) * Variance(s)
  {
    MemberDeviation(s, k);
    var n := (|s| - 1) as real;
    var q := SquaresFrom(s, Mean(s));
    assert n * Variance(s) == q;
    assert n * n * Variance(s) == n * (n * Variance(s));
  }

  /** So few values that no member can have a z-score above t. */
  predicate TooFewFor(n: nat, t: real) {
    n == 0 || (t >= 0.0 && ((n - 1) as real) * ((n - 1) as real) <= t * t * (n as real))
  }

  /** A value that some member reaches has no z-score above t when there are too few for t. */
  lemma NotAbove(s: seq<real>, k: nat, x: real, t: real)
    requires k < |s| && x <= s[k] && TooFewFor(|s|, t)
    ensures !ZAbove(s, x, t)
  {
    var d, e := x - Mean(s), s[k] - Mean(s);
    if d > 0.0 && Variance(s) > 0.0 {
      var w := ((|s| - 1) as real) * ((|s| - 1) as real);
      Samuelson(s, k);
      SquareMonotone(d, e);
      hide Mean, Variance;
      SquareAtMost(|s| as real, Variance(s), d, e, w, t * t);
    }
  }

  lemma SquareMonotone(d: real, e: real)
    requires 0.0 <= d <= e
    ensures d * d <= e * e
  {
    assert (e - d) * (e + d) >= 0.0;
  }

  lemma SquareAtMost(n: real, v: real, d: real, e: real, w: real, tt: real)
    requires n > 0.0 && v > 0.0 && d * d <= e * e
    requires w <= tt * n && n * (e * e) <= w * v
    ensures d * d <= tt * v
  {
    assert n * (d * d) <= n * (e * e);
    assert w * v <= tt * n * v;
    assert n * (tt * v - d * d) == tt * n * v - n * (d * d);
    PositiveFactor(n, tt * v - d * d);
  }

  /** Eight values are the most that are too few for 2.5, and 22 for 4.5. */
  lemma DefaultLimits(n: nat)
    ensures TooFewFor(n, 2.5) <==> n <= 8
    ensures TooFewFor(n, 4.5) <==> n <= 22
  {
    if n > 0 {
      QuadraticLimit(n, 25, 8);
      QuadraticLimit(n, 81, 22);
      InIntegers(n, 25, 2.5);
      InIntegers(n, 81, 4.5);
    }
  }

  lemma QuadraticLimit(n: nat, a: nat, limit: nat)
    requires n > 0 && ((a == 25 && limit == 8) || (a == 81 && limit == 22))
    ensures (n - 1) * (n - 1) * 4 <= a * n <==> n <= limit
  {
    assert a * n - (n - 1) * (n - 1) * 4 == n * (a + 8 - 4 * n) - 4;
    if n <= limit {
      assert n * (a + 8 - 4 * n) >= a + 8 - 4 * n;
    } else {
      assert n * (4 * n - a - 8) >= 0;
    }
  }

  lemma InIntegers(n: nat, a: int, t: real)
    requires n > 0 && t > 0.0 && t * t * 4.0 == a as real
    ensures TooFewFor(n, t) <==> (n - 1) * (n - 1) * 4 <= a * n
  {
    var x := (n - 1) as real;
    assert x * x == ((n - 1) * (n - 1)) as real;
    assert (a * n) as real == (a as real) * (n as real);
    assert t * t * (n as real) * 4.0 == (a as real) * (n as real);
  }

  // ---------------------------------------------------------------- shifting all values

  function Shifted(s: seq<real>, c: real): (r: seq<real>)
    ensures |r| == |s|
  {
    seq(|s|, i requires 0 <= i < |s| => s[i] + c)
  }

  lemma {:induction false} ShiftedSum(s: seq<real>, c: real)
    ensures Sum(Shifted(s, c)) == Sum(s) + (|s| as real) * c
  {
    if s != [] {
      var n := |s| - 1;
      ShiftedSum(s[..n], c);
      assert Shifted(s, c)[..n] == Shifted(s[..n], c);
    }
  }

  /** Adding the same to all values and to the reading changes no z-score. */
  lemma ShiftedScore(s: seq<real>, c: real)
    requires s != []
    ensures Mean(Shifted(s, c)) == Mean(s) + c && Variance(Shifted(s, c)) == Variance(s)
  {
    ShiftedSum(s, c);
    MeanTimesCount(s);
    MeanTimesCount(Shifted(s, c));
    var n := |s| as real;
    assert n * Mean(Shifted(s, c)) == n * (Mean(s) + c);
    CancelFactor(n, Mean(Shifted(s, c)), Mean(s) + c);
    hide Mean;
    assert Deviations(Shifted(s, c), Mean(s) + c) == Deviations(s, Mean(s));
  }

  lemma CancelFactor(n: real, a: real, b: real)
    requires n > 0.0 && n * a == n * b
    ensures a == b
  {
    assert n * (a - b) == 0.0;
  }

  // ---------------------------------------------------------------- the bound is sharp

  /** n - 1 zeros and a one. */
  function Spike(n: nat): (s: seq<real>)
    requires n > 0
    ensures |s| == n
  {
    seq(n, i => if i == n - 1 then 1.0 else 0.0)
  }

  lemma {:induction false} Constant(s: seq<real>, c: real)
    requires forall i :: 0 <= i < |s| ==> s[i] == c
    ensures Sum(s) == (|s| as real) * c && Squares(s) == (|s| as real) * Square(c)
  {
    if s != [] {
      Constant(s[..|s| - 1], c);
    }
  }

  /** The mean of a spike is 1 / n, and its variance is 1 / n as well. */
  lemma SpikeMoments(n: nat, m: real)
    requires n >= 2 && m * (n as real) == 1.0
    ensures Mean(Spike(n)) == m
    ensures SquaresFrom(Spike(n), m) == ((n - 1) as real) * Square(0.0 - m) + Square(1.0 - m)
  {
    var s := Spike(n);
    var e := Deviations(s, m);
    Constant(s[..n - 1], 0.0);
    Constant(e[..n - 1], 0.0 - m);
    assert Sum(s) == 1.0;
    hide Square, Sum, Squares;
    MeanTimesCount(s);
    OnlyQuotient(Mean(s), m, n as real);
  }

  lemma OnlyQuotient(a: real, b: real, n: real)
    requires n > 0.0 && n * a == 1.0 && b * n == 1.0
    ensures a == b
  {
    assert n * (a - b) == 0.0;
  }

  /** The bound is attained: the one among n - 1 zeros is above t exactly when n is enough for t. */
  lemma LimitIsSharp(n: nat, t: real)
    requires n >= 2
    ensures ZAbove(Spike(n), 1.0, t) <==> !TooFewFor(n, t)
  {
    var s, m := Spike(n), 1.0 / n as real;
    SpikeMoments(n, m);
    SpikeArith(n as real, m, SquaresFrom(s, m), t);
    assert Variance(s) == m;
  }

  lemma SpikeArith(n: real, m: real, q: real, t: real)
    requires n >= 2.0 && m * n == 1.0
    requires q == (n - 1.0) * Square(0.0 - m) + Square(1.0 - m)
    ensures q / (n - 1.0) == m && 0.0 < m < 1.0
    ensures (1.0 - m) * (1.0 - m) > t * t * m <==> (n - 1.0) * (n - 1.0) > t * t * n
  {
    assert q == n * (m * m) + 1.0 - 2.0 * m;
    assert n * (m * m) == m;
    assert q == (n - 1.0) * m;
    assert 1.0 - m == (n - 1.0) * m;
    var w, mm := (n - 1.0) * (n - 1.0) - t * t * n, m * m;
    assert mm > 0.0;
    assert (1.0 - m) * (1.0 - m) == (n - 1.0) * (n - 1.0) * mm;
    assert t * t * m == t * t * n * mm;
    assert (1.0 - m) * (1.0 - m) - t * t * m == w * mm;
    SignOfProduct(w, mm);
  }

  lemma SignOfProduct(w: real, mm: real)
    requires mm > 0.0
    ensures w * mm > 0.0 <==> w > 0.0
  {
  }
}
