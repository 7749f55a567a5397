/** Reduction modulo the group order on arrays of limbs, in place. */
module Scalar {
  import opened Arith
  import opened Radix
  import opened Words
  import opened ScalarSpec

  /** The array s after the carry pass w has been run over its limbs from a on, up to limb a + k. */
  function Passed(s: seq<int>, a: nat, off: int, w: seq<int>, k: nat): (t: seq<int>)
    requires a + |w| <= |s| && k <= |w|
    ensures |t| == |s|
  {
    s[..a] + Ripple(256, off, w[..k], 0).digits + s[a + k..]
  }

  lemma PassStart(s: seq<int>, a: nat, off: int, w: seq<int>)
    requires a + |w| <= |s|
    ensures Passed(s, a, off, w, 0) == s && Ripple(256, off, w[..0], 0).carry == 0
  {
  }

  lemma PassEnd(s: seq<int>, off: int, w: seq<int>)
    requires |w| <= |s|
    ensures Passed(s, 0, off, w, |w|)[..|w|] == Ripple(256, off, w, 0).digits
  {
    assert w[..|w|] == w;
  }

  /** One limb further: the limb becomes its digit, and the carry moves on. */
  lemma PassStep(s: seq<int>, a: nat, off: int, w: seq<int>, k: nat)
    requires a + |w| <= |s| && k < |w|
    ensures var v := w[k] + Ripple(256, off, w[..k], 0).carry + off;
            && Ripple(256, off, w[..k + 1], 0).carry == v / 256
            && Passed(s, a, off, w, k + 1) == Passed(s, a, off, w, k)[a + k := v % 256 - off]
    ensures forall j :: a + k <= j < |s| ==> Passed(s, a, off, w, k)[j] == s[j]
  {
    assert w[..k + 1][..k] == w[..k];
  }

  /** One limb of a row: x[j] becomes a balanced digit. */
  method RowLimb(x: array<i64>, i: nat, j: nat, c: i64, ghost s: seq<int>) returns (carry: i64)
    requires x.Length == 64 && 32 <= i < 64 && i - 32 <= j < i - 12
    requires -0x20_0000 <= x[i] <= 0x20_0000 && -0x20_0000 <= x[j] <= 0x20_0000
    requires -0x400_0000 <= c <= 0x400_0000
    requires |s| == 64 && x[i] == s[i] && x[j] == s[j]
    modifies x
    ensures var v := RowInput(s, i)[j - (i - 32)] + c + 128;
            carry == v / 256 && x[..] == old(x[..])[j := v % 256 - 128]
  {
    ScaledByte(x[i], L_BYTES[j - (i - 32)]);
    x[j] := x[j] + (c - 16 * x[i] * L_BYTES[j - (i - 32)]);
    carry := (x[j] + 128) / 256;
    x[j] := x[j] - carry * 256;
  }

  /** One limb of a row, as a step of the carry pass. */
  method RowStep(x: array<i64>, i: nat, j: nat, c: i64, ghost s: seq<int>, ghost k: nat) returns (carry: i64)
    requires x.Length == |s| == 64 && 32 <= i < 64 && k < 20 && j == i - 32 + k
    requires Within(s, -0x20_0000, 0x20_0000)
    requires c == Ripple(256, 128, RowInput(s, i)[..k], 0).carry
    requires x[..] == Passed(s, i - 32, 128, RowInput(s, i), k)
    modifies x
    ensures carry == Ripple(256, 128, RowInput(s, i)[..k + 1], 0).carry
    ensures x[..] == Passed(s, i - 32, 128, RowInput(s, i), k + 1)
  {
    hide Passed, Ripple, RowInput;
    RowCarryBound(s, i, k);
    PassStep(s, i - 32, 128, RowInput(s, i), k);
    assert x[i] == x[..][i] == s[i] && x[j] == x[..][j] == s[j];
    carry := RowLimb(x, i, j, c, s);
  }

  /** Takes 16 x[i] L off the limbs below and carries as it goes. */
  method RowPass(x: array<i64>, i: nat) returns (carry: i64)
    requires x.Length == 64 && 32 <= i < 64 && Within(x[..], -0x20_0000, 0x20_0000)
    modifies x
    ensures x[..] == Passed(old(x[..]), i - 32, 128, RowInput(old(x[..]), i), 20)
    ensures carry == RowRipple(old(x[..]), i).carry && -0x400_0000 <= carry <= 0x400_0000
  {
    ghost var s, a, k := x[..], i - 32, 0;
    ghost var w := RowInput(s, i);
    PassStart(s, a, 128, w);
    hide Passed, Ripple, RowInput;
    carry := 0;
    var j := i - 32;
    while j < i - 12
      invariant k <= 20 && j == a + k
      invariant carry == Ripple(256, 128, w[..k], 0).carry
      invariant x[..] == Passed(s, a, 128, w, k)
    {
      carry := RowStep(x, i, j, carry, s, k);
      j, k := j + 1, k + 1;
    }
    RowCarryBound(s, i, 20);
    assert w[..20] == w;
  }

  /** The body of the outer loop: take 16 x[i] L off and clear limb i. */
  method ReduceRow(x: array<i64>, i: nat)
    requires x.Length == 64 && 32 <= i < 64 && InRange(x[..], i + 1)
    modifies x
    ensures x[..] == Row(old(x[..]), i)
  {
    ghost var s := x[..];
    LimbBound(s, i + 1);
    RowAssembled(s, i);
    hide *;
    var carry := RowPass(x, i);
    x[i - 12] := x[i - 12] + carry;
    x[i] := 0;
  }

  /** The pass over the twenty limbs, the carry and the cleared limb make up a row. */
  lemma RowAssembled(s: seq<int>, i: nat)
    requires |s| == 64 && 32 <= i < 64
    ensures var t := Passed(s, i - 32, 128, RowInput(s, i), 20);
            && t[i - 12] == s[i - 12]
            && Row(s, i) == t[i - 12 := t[i - 12] + RowRipple(s, i).carry][i := 0]
  {
    hide Ripple;
    assert RowInput(s, i)[..20] == RowInput(s, i);
  }

  /** The last pass, its correction by carry * L, and the 32 output bytes. */
  method FinishModL(r: array<byte>, off: nat, x: array<i64>, ghost x0: seq<int>)
    requires x.Length == 64 && off + 32 <= r.Length && ReducibleLimbs(x0) && x[..] == Rows(x0, 32)
    requires r as object != x
    modifies r, x
    ensures x[..32] == FinalLimbs(x0)
    ensures r[..] == old(r[..off]) + ModLBytes(x0) + old(r[off + 32..])
  {
    LastCarry(x, x0);
    WriteLowBytes(r, off, x, x0);
  }

  /** One limb of the last pass; x[31] is read before it changes. */
  method LastLimb(x: array<i64>, j: nat, c: i64, ghost y: seq<int>) returns (carry: i64)
    requires x.Length == 64 && j < 32
    requires -9 <= x[31] / 16 <= 8 && -129 <= x[j] <= 129 && -20 <= c <= 20
    requires |y| == 64 && x[31] == y[31] && x[j] == y[j]
    modifies x
    ensures var v := LastInput(y)[j] + c;
            carry == v / 256 && x[..] == old(x[..])[j := v % 256]
  {
    QuotientTimesByte(x[31] / 16, L_BYTES[j]);
    x[j] := x[j] + (c - x[31] / 16 * L_BYTES[j]);
    carry := x[j] / 256;
    x[j] := x[j] % 256;
  }

  method LastStep(x: array<i64>, j: nat, c: i64, ghost y: seq<int>) returns (carry: i64)
    requires x.Length == 64 && j < 32 && InRange(y, 32)
    requires c == Ripple(256, 0, LastInput(y)[..j], 0).carry
    requires x[..] == Passed(y, 0, 0, LastInput(y), j)
    modifies x
    ensures carry == Ripple(256, 0, LastInput(y)[..j + 1], 0).carry
    ensures x[..] == Passed(y, 0, 0, LastInput(y), j + 1)
  {
    hide Passed, Ripple, LastInput, InRange;
    LastInputBound(y);
    RippleCarryBound(256, 0, LastInput(y)[..j], 0, 4096, 20);
    PassStep(y, 0, 0, LastInput(y), j);
    InPlace(x[..], y, j);
    carry := LastLimb(x, j, c, y);
  }

  lemma InPlace(x: seq<int>, y: seq<int>, j: nat)
    requires |x| == |y| == 64 && j < 32 && Within(y[..32], -129, 129)
    requires forall k :: j <= k < 64 ==> x[k] == y[k]
    ensures x[31] == y[31] && x[j] == y[j] && -129 <= x[j] <= 129
  {
    assert y[j] == y[..32][j];
  }

  lemma LastRippleIs(x0: seq<int>)
    requires |x0| == 64
    ensures var u := LastInput(Rows(x0, 32));
            LastRipple(x0) == Ripple(256, 0, u, 0) && FinalCarry(x0) == Ripple(256, 0, u, 0).carry
  {
    hide LastInput, Rows, Ripple;
  }

  /** How the last pass starts and ends. */
  lemma PassReady(x0: seq<int>, y: seq<int>)
    requires |x0| == 64 && y == Rows(x0, 32) && InRange(y, 32)
    ensures var u := LastInput(y);
            && Passed(y, 0, 0, u, 0) == y && Ripple(256, 0, u[..0], 0).carry == 0
            && Passed(y, 0, 0, u, 32)[..32] == LastRipple(x0).digits
            && Ripple(256, 0, u[..32], 0).carry == FinalCarry(x0) && -20 <= FinalCarry(x0) <= 20
  {
    hide *;
    var u := LastInput(y);
    LastRippleIs(x0);
    LastInputBound(y);
    PassStart(y, 0, 0, u);
    PassEnd(y, 0, u);
    RippleCarryBound(256, 0, u, 0, 4096, 20);
    assert u[..32] == u;
  }

  /** Takes (x[31] >> 4) L off and carries. */
  method LastPassInPlace(x: array<i64>, ghost x0: seq<int>) returns (carry: i64)
    requires x.Length == 64 && ReducibleLimbs(x0) && x[..] == Rows(x0, 32)
    modifies x
    ensures carry == FinalCarry(x0) && -20 <= carry <= 20
    ensures x[..32] == LastRipple(x0).digits
  {
    ghost var y, u := x[..], LastInput(Rows(x0, 32));
    RowsInRange(x0, 32);
    hide *;
    PassReady(x0, y);
    carry := 0;
    var j := 0;
    while j < 32
      invariant 0 <= j <= 32
      invariant carry == Ripple(256, 0, u[..j], 0).carry
      invariant x[..] == Passed(y, 0, 0, u, j)
    {
      carry := LastStep(x, j, carry, y);
      j := j + 1;
    }
  }

  method LastCarry(x: array<i64>, ghost x0: seq<int>)
    requires x.Length == 64 && ReducibleLimbs(x0) && x[..] == Rows(x0, 32)
    modifies x
    ensures x[..32] == FinalLimbs(x0)
  {
    var carry := LastPassInPlace(x, x0);
    RippleDigits(256, 0, LastInput(Rows(x0, 32)), 0);
    hide LastRipple, Rows;
    SubtractCarry(x, carry, LastRipple(x0).digits);
  }

  /** x[j] -= carry * L[j]; no carry pass follows. */
  method SubtractCarry(x: array<i64>, carry: i64, ghost digits: seq<int>)
    requires x.Length == 64 && -20 <= carry <= 20
    requires x[..32] == digits && Within(digits, 0, 255)
    modifies x
    ensures x[..32] == seq(32, j requires 0 <= j < 32 => digits[j] - carry * L_BYTES[j])
  {
    var j := 0;
    while j < 32
      invariant 0 <= j <= 32
      invariant forall k :: 0 <= k < j ==> x[k] == digits[k] - carry * L_BYTES[k]
      invariant forall k :: j <= k < 32 ==> x[k] == digits[k]
    {
      CarryTimesByte(carry, L_BYTES[j]);
      x[j] := x[j] - carry * L_BYTES[j];
      j := j + 1;
    }
  }

  lemma CarryTimesByte(c: int, l: int)
    requires -20 <= c <= 20 && 0 <= l <= 255
    ensures -5100 <= c * l <= 5100
  {
    MulMonotone(c, 20, l);
    MulMonotone(-20, c, l);
  }

  lemma LastInputBound(y: seq<int>)
    requires InRange(y, 32)
    ensures Within(LastInput(y), -4096, 4096) && Within(y[..32], -129, 129) && -9 <= y[31] / 16 <= 8
  {
    RowsTail(y);
    forall j | 0 <= j < 32
      ensures -129 <= y[j] <= 129
    {
      if j < 20 {
        assert y[j] == y[0..20][j];
      }
    }
    forall j | 0 <= j < 32
      ensures -4096 <= LastInput(y)[j] <= 4096
    {
      QuotientTimesByte(y[31] / 16, L_BYTES[j]);
    }
  }

  lemma QuotientTimesByte(q: int, l: int)
    requires -9 <= q <= 8 && 0 <= l <= 255
    ensures -2295 <= q * l <= 2040
  {
    MulMonotone(q, 8, l);
    MulMonotone(-9, q, l);
  }

  lemma LowBytesOf(x0: seq<int>)
    requires |x0| == 64
    ensures forall j :: 0 <= j < 32 ==> ModLBytes(x0)[j] == FinalLimbs(x0)[j] % 256
  {
    hide FinalLimbs;
  }

  /** r with the first i bytes of m written from off on. */
  ghost function Overwritten(r: seq<int>, m: seq<int>, off: nat, i: nat): seq<int>
    requires off + |m| <= |r| && i <= |m|
  {
    r[..off] + m[..i] + r[off + i..]
  }

  lemma ByteWritten(r: seq<int>, m: seq<int>, off: nat, i: nat)
    requires i < |m| && off + |m| <= |r|
    ensures |Overwritten(r, m, off, i)| == |r|
    ensures Overwritten(r, m, off, i)[off + i := m[i]] == Overwritten(r, m, off, i + 1)
  {
  }

  lemma WrittenEnds(r: seq<int>, m: seq<int>, off: nat)
    requires off + |m| <= |r|
    ensures Overwritten(r, m, off, 0) == r
    ensures Overwritten(r, m, off, |m|) == r[..off] + m + r[off + |m|..]
  {
  }

  /** The low byte of each of the 32 limbs. */
  method WriteLowBytes(r: array<byte>, off: nat, x: array<i64>, ghost x0: seq<int>)
    requires x.Length == 64 && off + 32 <= r.Length && |x0| == 64 && x[..32] == FinalLimbs(x0)
    requires r as object != x
    modifies r
    ensures r[..] == old(r[..off]) + ModLBytes(x0) + old(r[off + 32..])
    ensures x[..] == old(x[..])
  {
    ghost var r0, z, m := r[..], x[..32], ModLBytes(x0);
    LowBytesOf(x0);
    hide FinalLimbs, ModLBytes, Overwritten;
    WrittenEnds(r0, m, off);
    var i := 0;
    while i < 32
      invariant 0 <= i <= 32
      invariant r[..] == Overwritten(r0, m, off, i)
    {
      assert x[i] == z[i];
      ByteWritten(r0, m, off, i);
      r[off + i] := x[i] % 256;
      i := i + 1;
    }
  }

  /** Reduces 64 limbs modulo L and writes 32 bytes at offset off of r. */
  method ModL(r: array<byte>, off: nat, x: array<i64>)
    requires x.Length == 64 && off + 32 <= r.Length && ReducibleLimbs(x[..])
    requires r as object != x
    modifies r, x
    ensures x[..32] == FinalLimbs(old(x[..]))
    ensures r[..] == old(r[..off]) + ModLBytes(old(x[..])) + old(r[off + 32..])
  {
    ghost var x0 := x[..];
    var i := 63;
    while i >= 32
      invariant 31 <= i <= 63
      invariant x[..] == Rows(x0, i + 1)
      invariant r[..] == old(r[..])
    {
      RowsInRange(x0, i + 1);
      ReduceRow(x, i);
      i := i - 1;
    }
    FinishModL(r, off, x, x0);
  }

  /** Reduces a 64-byte string in place; the upper half is cleared. */
  method Reduce(r: array<byte>)
    requires r.Length == 64
    modifies r
    ensures r[..] == ModLBytes(old(r[..])) + seq(32, _ => 0)
  {
    var x := new i64[64];
    var i := 0;
    while i < 64
      invariant 0 <= i <= 64
      invariant r[..] == old(r[..])
      invariant forall k :: 0 <= k < i ==> x[k] == r[k]
    {
      x[i] := r[i];
      i := i + 1;
    }
    i := 0;
    while i < 64
      invariant 0 <= i <= 64
      invariant x[..] == old(r[..])
      invariant forall k :: 0 <= k < i ==> r[k] == 0
    {
      r[i] := 0;
      i := i + 1;
    }
    ghost var z := r[..];
    ModL(r, 0, x);
    assert z[32..] == seq(32, _ => 0);
  }
}
