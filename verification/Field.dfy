/**
 The limb code of GF(2^255 - 19), updating arrays in place.  Every store into an
 i64 variable or array element carries the obligation that it does not overflow.
 */
module Field {
  import opened Arith
  import opened Radix
  import opened Words
  import opened Bits
  import opened FieldSpec

  const GF0: seq<i64> := [0, 0, 0, 0, 0, 0, 0, 0, 0, 0, 0, 0, 0, 0, 0, 0]
  const GF1: seq<i64> := [1, 0, 0, 0, 0, 0, 0, 0, 0, 0, 0, 0, 0, 0, 0, 0]

  method Set25519(r: array<i64>, a: seq<i64>)
    requires r.Length == 16 && |a| == 16
    modifies r
    ensures r[..] == a
  {
    var i := 0;
    while i < 16
      invariant 0 <= i <= 16
      invariant r[..i] == a[..i]
    {
      r[i] := a[i];
      i := i + 1;
    }
    assert r[..] == r[..16] && a == a[..16];
  }

  /** One carry pass, computed with the code's biased quotient c, is one Carry. */
  method Car25519(o: array<i64>)
    requires o.Length == 16 && Within(o[..], -CARRY_LIMIT, CARRY_LIMIT)
    modifies o
    ensures o[..] == Carry(old(o[..]))
    ensures Within(o[..], -CARRY_LIMIT, CARRY_LIMIT)
  {
    ghost var s := o[..];
    CarryOnce(s);
    hide Val;
    var i := 0;
    while i < 15
      invariant 0 <= i <= 15
      invariant o[..i] == Ripple(65536, 0, s[..i], 0).digits
      invariant o[i] == s[i] + Ripple(65536, 0, s[..i], 0).carry
      invariant forall k :: i < k < 16 ==> o[k] == s[k]
    {
      RippleCarryBound(65536, 0, s[..i], 0, CARRY_LIMIT, 0x8000_0000_0000);
      assert s[..i + 1][..i] == s[..i];
      CarryStep(o, i, i + 1);
      i := i + 1;
    }
    RippleCarryBound(65536, 0, s[..15], 0, CARRY_LIMIT, 0x8000_0000_0000);
    RippleCarryBound(65536, 0, s, 0, CARRY_LIMIT, 0x8000_0000_0000);
    assert s[..15] == s[..|s| - 1];
    assert o[0] == Ripple(65536, 0, s[..15], 0).digits[0];
    RippleDigits(65536, 0, s[..15], 0);
    CarryStep(o, 15, 0);
    assert o[..] == Carry(s);
  }

  /** The body of the carry loop for limb i, whose carry goes to limb `next`. */
  method CarryStep(o: array<i64>, i: nat, next: nat)
    requires o.Length == 16 && i < 16 && next == (i + 1) * (if i < 15 then 1 else 0)
    requires -CARRY_LIMIT - 0x8000_0000_0000 <= o[i] <= CARRY_LIMIT + 0x8000_0000_0000
    requires -CARRY_LIMIT <= o[next] <= CARRY_LIMIT
    modifies o
    ensures o[..] == old(o[..])[next := old(o[next]) + old(o[i]) / 65536 * (if i == 15 then 38 else 1)]
                               [i := old(o[i]) % 65536]
  {
    o[i] := o[i] + 65536;
    var c: i64 := o[i] / 65536;
    var wrap: i64 := 37 * (c - 1) * (if i == 15 then 1 else 0);
    o[next] := o[next] + (c - 1 + wrap);
    var shifted: i64 := c * 65536;
    o[i] := o[i] - shifted;
  }

  /** Swaps two limb arrays when b is 1 and leaves them when b is 0, by masked xor. */
  method Sel25519(p: array<i64>, q: array<i64>, b: int)
    requires p.Length == 16 && q.Length == 16 && p != q && 0 <= b <= 1
    modifies p, q
    ensures p[..] == if b == 1 then old(q[..]) else old(p[..])
    ensures q[..] == if b == 1 then old(p[..]) else old(q[..])
  {
    WordIs64();
    ghost var p0, q0 := p[..], q[..];
    var c: i64 := BitNot(b - 1);
    var i := 0;
    while i < 16
      invariant 0 <= i <= 16
      invariant forall k :: 0 <= k < 16 ==> p[k] == if k < i && b == 1 then q0[k] else p0[k]
      invariant forall k :: 0 <= k < 16 ==> q[k] == if k < i && b == 1 then p0[k] else q0[k]
    {
      MaskedSwap(p[i], q[i], b);
      var t: i64 := BitAnd(63, c, BitXor(63, p[i], q[i]));
      p[i] := BitXor(63, p[i], t);
      q[i] := BitXor(63, q[i], t);
      i := i + 1;
    }
  }

  lemma WordIs64()
    ensures forall x: i64 :: InWord(63, x)
    ensures forall x :: InWord(63, x) ==> -0x8000_0000_0000_0000 <= x <= 0x7fff_ffff_ffff_ffff
  {
    assert Pow(2, 3) == 8;
    hide Pow;
    PowAdd(2, 3, 3);
    assert Pow(2, 6) == 0x40;
    PowAdd(2, 6, 6);
    assert Pow(2, 12) == 0x1000;
    PowAdd(2, 12, 12);
    assert Pow(2, 24) == 0x100_0000;
    PowAdd(2, 24, 24);
    assert Pow(2, 48) == 0x1_0000_0000_0000;
    PowAdd(2, 48, 12);
    assert Pow(2, 60) == 0x1000_0000_0000_0000;
    PowAdd(2, 60, 3);
  }

  lemma MaskedSwap(x: i64, y: i64, b: int)
    requires 0 <= b <= 1
    ensures var t := BitAnd(63, BitNot(b - 1), BitXor(63, x, y));
            && InWord(63, t)
            && BitXor(63, x, t) == (if b == 1 then y else x)
            && BitXor(63, y, t) == (if b == 1 then x else y)
  {
    WordIs64();
    XorInWord(63, x, y);
    AndOnes(63, BitXor(63, x, y));
    XorCancels(63, x, y);
    XorZero(63, x);
    XorZero(63, y);
  }

  method AddGf(o: array<i64>, a: array<i64>, b: array<i64>)
    requires o.Length == a.Length == b.Length == 16
    requires Mulable(a[..]) && Mulable(b[..])
    modifies o
    ensures o[..] == AddLimbs(old(a[..]), old(b[..]))
  {
    ghost var a0, b0 := a[..], b[..];
    var i := 0;
    while i < 16
      invariant 0 <= i <= 16
      invariant forall k :: 0 <= k < i ==> o[k] == a0[k] + b0[k]
      invariant forall k :: i <= k < 16 ==> a[k] == a0[k] && b[k] == b0[k]
    {
      o[i] := a[i] + b[i];
      i := i + 1;
    }
  }

  method SubGf(o: array<i64>, a: array<i64>, b: array<i64>)
    requires o.Length == a.Length == b.Length == 16
    requires Mulable(a[..]) && Mulable(b[..])
    modifies o
    ensures o[..] == SubLimbs(old(a[..]), old(b[..]))
  {
    ghost var a0, b0 := a[..], b[..];
    var i := 0;
    while i < 16
      invariant 0 <= i <= 16
      invariant forall k :: 0 <= k < i ==> o[k] == a0[k] - b0[k]
      invariant forall k :: i <= k < 16 ==> a[k] == a0[k] && b[k] == b0[k]
    {
      o[i] := a[i] - b[i];
      i := i + 1;
    }
  }

  /** The schoolbook product; no partial sum leaves int64_t. */
  method Product(t: array<i64>, a: array<i64>, b: array<i64>)
    requires t.Length == 31 && a.Length == b.Length == 16 && t != a && t != b
    requires Mulable(a[..]) && Mulable(b[..])
    modifies t
    ensures t[..] == Conv(a[..], b[..], 31, 16)
  {
    ghost var x, y := a[..], b[..];
    var i := 0;
    while i < 31
      invariant 0 <= i <= 31
      invariant forall k :: 0 <= k < i ==> t[k] == 0
    {
      t[i] := 0;
      i := i + 1;
    }
    i := 0;
    while i < 16
      invariant 0 <= i <= 16
      invariant a[..] == x && b[..] == y
      invariant forall k :: 0 <= k < 31 ==> t[k] == Dot(x, y, k, i)
    {
      ProductRow(t, a, b, i);
      i := i + 1;
    }
  }

  method ProductRow(t: array<i64>, a: array<i64>, b: array<i64>, i: nat)
    requires t.Length == 31 && a.Length == b.Length == 16 && t != a && t != b && i < 16
    requires Mulable(a[..]) && Mulable(b[..])
    requires forall k :: 0 <= k < 31 ==> t[k] == Dot(a[..], b[..], k, i)
    modifies t
    ensures forall k :: 0 <= k < 31 ==> t[k] == Dot(a[..], b[..], k, i + 1)
  {
    ghost var x, y := a[..], b[..];
    var j := 0;
    while j < 16
      invariant 0 <= j <= 16
      invariant a[..] == x && b[..] == y
      invariant forall k :: 0 <= k < 31 ==> t[k] == Dot(x, y, k, if k < i + j then i + 1 else i)
    {
      DotBound(x, y, i + j, i, MUL_LIMIT, MUL_LIMIT);
      DotBound(x, y, i + j, i + 1, MUL_LIMIT, MUL_LIMIT);
      t[i + j] := t[i + j] + a[i] * b[j];
      j := j + 1;
    }
  }

  /** Multiplication modulo p.  The output may be one of the operands. */
  method M(o: array<i64>, a: array<i64>, b: array<i64>)
    requires o.Length == a.Length == b.Length == 16
    requires Mulable(a[..]) && Mulable(b[..])
    modifies o
    ensures o[..] == MulLimbs(old(a[..]), old(b[..]))
    ensures Tight(o[..])
    ensures Eq(Val(o[..]), Val(old(a[..])) * Val(old(b[..])))
  {
    ghost var x, y := a[..], b[..];
    var t := new i64[31];
    Product(t, a, b);
    FoldedBound(x, y);
    MulValue(x, y);
    hide Mulable, Conv, Tight, Eq, Carry;
    FoldUpper(t);
    Set25519(o, t[..16]);
    Car25519(o);
    Car25519(o);
  }

  /** The upper limbs of the product are added to the lower ones, times 38. */
  method FoldUpper(t: array<i64>)
    requires t.Length == 31 && Within(t[..], -0x100_0000_0000_0000, 0x100_0000_0000_0000)
    modifies t
    ensures t[..16] == FoldLimbs(old(t[..]))
  {
    ghost var full := t[..];
    var i := 0;
    while i < 15
      invariant 0 <= i <= 15
      invariant forall k :: 0 <= k < i ==> t[k] == full[k] + 38 * full[k + 16]
      invariant forall k :: i <= k < 31 ==> t[k] == full[k]
    {
      assert -0x100_0000_0000_0000 <= full[i] <= 0x100_0000_0000_0000;
      assert -0x100_0000_0000_0000 <= full[i + 16] <= 0x100_0000_0000_0000;
      t[i] := t[i] + 38 * t[i + 16];
      i := i + 1;
    }
  }

  method S(o: array<i64>, a: array<i64>)
    requires o.Length == a.Length == 16 && Mulable(a[..])
    modifies o
    ensures o[..] == MulLimbs(old(a[..]), old(a[..]))
    ensures Tight(o[..])
    ensures Eq(Val(o[..]), Val(old(a[..])) * Val(old(a[..])))
  {
    M(o, a, a);
  }

  // ---------------------------------------------------------------- canonical bytes

  /** The trial subtraction: m receives t - p, and b is its borrow. */
  method TrialSubtract(m: array<i64>, t: array<i64>) returns (b: int)
    requires m.Length == 16 && t.Length == 16 && m != t && Digits16(t[..])
    modifies m
    ensures b == -MinusP(t[..]).carry
    ensures b == 0 ==> m[..] == MinusP(t[..]).digits
    ensures 0 <= b <= 1
  {
    ghost var s := t[..];
    ghost var d := LimbwiseMinusP(s);
    assert Within(d, -65535, 65535);
    assert d[0] == s[0] - 0xffed && d[15] == s[15] - 0x7fff;
    assert forall k :: 1 <= k < 15 ==> d[k] == s[k] - 0xffff;
    m[0] := t[0] - 0xffed;
    assert Borrowed(d, m[..], 0);
    assert MinusP(s).carry == Ripple(65536, 0, d, 0).carry && MinusP(s).digits == Ripple(65536, 0, d, 0).digits;
    hide Borrowed, Ripple, LimbwiseMinusP, Within, MinusP, P_LIMBS;
    var i := 1;
    while i < 15
      invariant 1 <= i <= 15
      invariant t[..] == s
      invariant Borrowed(d, m[..], i - 1)
    {
      BorrowStep(d, m[..], i - 1);
      m[i] := t[i] - 0xffff - m[i - 1] / 65536 % 2;
      m[i - 1] := m[i - 1] % 65536;
      i := i + 1;
    }
    BorrowStep(d, m[..], 14);
    m[15] := t[15] - 0x7fff - m[14] / 65536 % 2;
    b := m[15] / 65536 % 2;
    m[14] := m[14] % 65536;
    LastBorrow(d, m[..], b);
  }

  /** Limbs below i are finished digits and limb i has received its borrow. */
  ghost predicate Borrowed(d: seq<int>, m: seq<int>, i: nat) {
    && i < |d| == |m|
    && m[..i] == Ripple(65536, 0, d[..i], 0).digits
    && m[i] == d[i] + Ripple(65536, 0, d[..i], 0).carry
  }

  lemma BorrowStep(d: seq<int>, m: seq<int>, i: nat)
    requires i + 1 < |d| && Within(d, -65535, 65535) && Borrowed(d, m, i)
    ensures -65536 <= m[i] <= 65535
    ensures Borrowed(d, m[i + 1 := d[i + 1] - m[i] / 65536 % 2][i := m[i] % 65536], i + 1)
  {
    BorrowRange(d[..i]);
    assert d[..i + 1][..i] == d[..i];
    var m' := m[i + 1 := d[i + 1] - m[i] / 65536 % 2][i := m[i] % 65536];
    assert m'[..i + 1] == m[..i] + [m[i] % 65536];
  }

  lemma {:induction false} LastBorrow(d: seq<int>, m: seq<int>, b: int)
    requires |d| == |m| == 16 && Within(d, -65535, 65535)
    requires Borrowed(d, m, 15) && b == m[15] / 65536 % 2
    ensures b == -Ripple(65536, 0, d, 0).carry && 0 <= b <= 1
    ensures b == 0 ==> m == Ripple(65536, 0, d, 0).digits
  {
    BorrowRange(d[..15]);
    assert d[..|d| - 1] == d[..15];
    assert m == m[..15] + [m[15]];
  }

  /** The canonical little-endian bytes of n modulo p. */
  method Pack25519(o: array<byte>, n: array<i64>)
    requires o.Length == 32 && n.Length == 16
    requires Within(n[..], -CARRY_LIMIT, CARRY_LIMIT)
    modifies o
    ensures Eval(256, o[..]) == Val(old(n[..])) % P
  {
    ghost var s := n[..];
    var m, t := new i64[16], new i64[16];
    Set25519(t, n[..]);
    Car25519(t);
    Car25519(t);
    Car25519(t);
    CarryThrice(s);
    CanonicalValue(s);
    ghost var u := t[..];
    SubtractIfAboveValue(u);
    var b := TrialSubtract(m, t);
    Sel25519(t, m, 1 - b);
    assert t[..] == SubtractIfAbove(u);
    b := TrialSubtract(m, t);
    Sel25519(t, m, 1 - b);
    assert t[..] == Canonical(s);
    WriteBytes(o, t);
  }

  /** Each 16-bit limb is written as its low byte and its high byte. */
  method WriteBytes(o: array<byte>, t: array<i64>)
    requires o.Length == 32 && Digits16(t[..])
    modifies o
    ensures Eval(256, o[..]) == Val(old(t[..]))
  {
    ghost var u := t[..];
    var i := 0;
    while i < 16
      invariant 0 <= i <= 16
      invariant t[..] == u
      invariant forall k :: 0 <= k < i ==> o[2 * k] == u[k] % 256 && o[2 * k + 1] == u[k] / 256
    {
      o[2 * i] := t[i] % 256;
      o[2 * i + 1] := t[i] / 256;
      i := i + 1;
    }
    SplitLimbs(o[..], u, 16);
    assert o[..][..32] == o[..] && u[..16] == u;
  }

  /** Writing each 16-bit limb as two bytes keeps the number. */
  lemma {:induction false} SplitLimbs(o: seq<int>, t: seq<int>, n: nat)
    requires |o| == 2 * |t| && n <= |t|
    requires forall k :: 0 <= k < |t| ==> o[2 * k] == t[k] % 256 && o[2 * k + 1] == t[k] / 256
    ensures Eval(256, o[..2 * n]) == Eval(65536, t[..n])
    ensures Pow(256, 2 * n) == Pow(65536, n)
  {
    if n > 0 {
      SplitLimbs(o, t, n - 1);
      assert o[..2 * n][..2 * n - 1] == o[..2 * n - 1];
      assert o[..2 * n - 1][..2 * n - 2] == o[..2 * n - 2];
      assert t[..n][..n - 1] == t[..n - 1];
      var p := Pow(65536, n - 1);
      assert Pow(256, 2 * n - 1) == 256 * p;
      assert Pow(256, 2 * n) == 256 * Pow(256, 2 * n - 1);
      var x := t[n - 1];
      assert x == x / 256 * 256 + x % 256;
      assert x * p == (x / 256) * (256 * p) + (x % 256) * p;
    } else {
      assert o[..0] == [] && t[..0] == [];
    }
  }

  /** The low bit of the canonical representative. */
  method Par25519(a: array<i64>) returns (bit: int)
    requires a.Length == 16 && Within(a[..], -CARRY_LIMIT, CARRY_LIMIT)
    ensures bit == Val(a[..]) % P % 2
  {
    var d := new byte[32];
    Pack25519(d, a);
    bit := d[0] % 2;
    LowBit(d[..]);
  }

  lemma {:induction false} LowBit(d: seq<int>)
    requires |d| > 0
    ensures Eval(256, d) % 2 == d[0] % 2
  {
    if |d| == 1 {
      assert Eval(256, d[..0]) == 0;
    } else {
      LowBit(d[..|d| - 1]);
      EvenTop(Eval(256, d[..|d| - 1]), d[|d| - 1], Pow(256, |d| - 2));
    }
  }

  lemma EvenTop(e: int, x: int, p: int)
    ensures (e + x * (256 * p)) % 2 == e % 2
  {
    var y := x * (128 * p);
    assert x * (256 * p) == 2 * y;
  }
}
