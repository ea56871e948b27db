/** Left and right shifts of bignum.c. */
module BignumShift {
  import opened Arith
  import opened Digits
  import opened Bignums

  /** C's `|` on non-negative integers. */
  function Or(a: nat, b: nat): nat
    decreases a + b
  {
    if a == 0 && b == 0 then 0
    else (if a % 2 == 1 || b % 2 == 1 then 1 else 0) + 2 * Or(a / 2, b / 2)
  }

  /** Bits that do not overlap are added by `|`. */
  lemma {:induction false} OrIsSum(a: nat, b: nat, k: nat)
    requires a < Pow(2, k) && b % Pow(2, k) == 0
    ensures Or(a, b) == a + b
    decreases k
  {
    if k == 0 {
      OrZero(b);
    } else {
      var p := Pow(2, k - 1);
      var q := b / (2 * p);
      assert b == 2 * (p * q) by {
        assert b == (2 * p) * q;
        MulAssoc(2, p, q);
      }
      assert b / 2 == p * q;
      ModOfMultiple(p, q);
      if a != 0 || b != 0 {
        OrIsSum(a / 2, b / 2, k - 1);
      }
    }
  }

  lemma {:induction false} OrZero(b: nat)
    ensures Or(0, b) == b
  {
    if b > 0 { OrZero(b / 2); }
  }

  /** Dividing twice is dividing by the product. */
  lemma DivDiv(n: nat, a: nat, b: nat)
    requires a > 0 && b > 0
    ensures a * b > 0 && n / a / b == n / (a * b)
  {
    MulPositive(a, b);
    var q, r := n / a, n % a;
    var s, t := q / b, q % b;
    assert n == (s * b + t) * a + r;
    assert (s * b + t) * a == s * (a * b) + t * a;
    MulMono(t + 1, b, a);
    assert (t + 1) * a == t * a + a;
    MulMono(0, t, a);
    DivUnique(n, a * b, s, t * a + r);
  }

  lemma {:induction false} ValCons(d: Digit, ds: seq<Digit>)
    ensures Val([d] + ds) == d + RADIX * Val(ds)
  {
    var all := [d] + ds;
    ValSplit(all, 1);
    assert all[..1] == [d] && all[1..] == ds;
    ValOne(d);
    WStep(0);
  }

  lemma ValHighPart(ds: seq<Digit>, k: nat)
    requires k <= |ds|
    ensures Val(ds) / W(k) == Val(ds[k..])
  {
    ValSplit(ds, k);
    ValBound(ds[..k]);
    assert W(k) * Val(ds[k..]) == Val(ds[k..]) * W(k);
    DivUnique(Val(ds), W(k), Val(ds[k..]), Val(ds[..k]));
  }

  lemma PowTwoW(s1: nat, s2: nat)
    ensures Pow(2, 16 * s1 + s2) == W(s1) * Pow(2, s2)
  {
    PowAdd(2, 16 * s1, s2);
    PowMul(2, 16, s1);
    PowTwo16();
  }

  lemma PowTwo16()
    ensures Pow(2, 16) == RADIX
  {
    assert Pow(2, 4) == 16;
    PowAdd(2, 4, 4);
    PowAdd(2, 8, 8);
  }

  lemma PowTwoSplit(s2: nat)
    requires s2 < 16
    ensures RADIX == Pow(2, s2) * Pow(2, 16 - s2)
    ensures Pow(2, s2) <= 0x8000
  {
    PowTwo16();
    PowAdd(2, s2, 16 - s2);
    PowMono(2, 1, 16 - s2);
    MulMono(2, Pow(2, 16 - s2), Pow(2, s2));
  }

  /** The digits written by a left shift, with the bits waiting for the next digit. */
  ghost predicate Shifted(z: seq<Digit>, num: int, a: seq<Digit>, p: nat) {
    Val(z) + num * W(|z|) == Below(a, |z|) * p
  }

  lemma ShiftStep(z: seq<Digit>, num: int, a: seq<Digit>, p: nat, t: int, z': seq<Digit>)
    requires Shifted(z, num, a, p) && t == num + DigitAt(a, |z|) * p && z' == z + [Lo(t)]
    ensures Shifted(z', Dn(t), a, p)
  {
    hide Val, W, Below, DigitAt, Lo, Dn;
    var i := |z|;
    var w := W(i);
    BelowStep(a, i);
    ValSnoc(z, Lo(t));
    WStep(i);
    Column(t, w);
    ShiftArith(num, DigitAt(a, i), p, w, Below(a, i));
  }

  lemma ShiftArith(num: int, d: int, p: int, w: int, below: int)
    ensures (num + d * p) * w + below * p == num * w + (below + d * w) * p
  {
    assert (num + d * p) * w == num * w + d * p * w;
    assert (below + d * w) * p == below * p + d * w * p;
  }

  lemma CarryFits(num: int, d: Digit, p: nat)
    requires 0 <= num < p <= 0x8000
    ensures 0 <= d * p <= 0x7fff_8000 && (d * p) % p == 0
    ensures 0 <= num + d * p < 0x8000_0000 && 0 <= Dn(num + d * p) < p
  {
    MulMono(0, d, p);
    MulMono(d, 0xffff, p);
    ModOfMultiple(p, d);
  }

  /** The shifting loop of `big_lshift`; returns the bits left over for the top digit. */
  method ShiftDigits(x: Bignum, zds: array<Digit>, s1: nat, s2: nat) returns (num: ULong)
    requires x.Valid() && zds != x.digits && s1 + x.len < zds.Length && s2 < 16
    modifies zds
    ensures 0 <= num <= 0xffff
    ensures zds[..s1] == old(zds[..s1])
    ensures Shifted(zds[s1..s1 + x.len], num, x.Digits(), Pow(2, s2))
  {
    hide Val, W, Below, DigitAt, Shifted, Pow, Or, Lo, Dn;
    ghost var p := Pow(2, s2);
    PowTwoSplit(s2);
    num := 0;
    ghost var a := x.Digits();
    var i := 0;
    ShiftedNone(zds[s1..s1], a, p);
    while i < x.len
      invariant 0 <= i <= x.len && 0 <= num < p
      invariant zds[..s1] == old(zds[..s1])
      invariant Shifted(zds[s1..s1 + i], num, a, p)
    {
      ghost var written, waiting := zds[s1..s1 + i], num;
      CarryFits(num, a[i], p);
      OrIsSum(num, a[i] * p, s2);
      num := Or(num, x.digits[i] * Pow(2, s2));
      zds[s1 + i] := Lo(num);
      ShiftStepAt(written, waiting, a, p, num, zds[s1..s1 + i + 1]);
      num := Dn(num);
      i := i + 1;
    }
  }

  /** `big_lshift` for a shift that is not negative. */
  method LeftShift(x: Bignum, shift: nat) returns (v: Value)
    requires x.Valid()
    ensures Represents(v, x.Int() * Pow(2, shift))
  {
    hide Val, W, Pow, Represents;
    var s1 := shift / 16;
    var s2 := shift % 16;
    var z := new Bignum(x.len + s1 + 1, x.sign);
    FillShifted(x, z.digits, s1, s2);
    assert z.Digits() == z.digits[..];
    MulSign(x.sign, Val(x.Digits()), Pow(2, shift));
    v := BigNorm(z);
  }

  /** Fills the digits of the shifted number: zeros, then the shifted digits, then what is left over. */
  method FillShifted(x: Bignum, zds: array<Digit>, s1: nat, s2: nat)
    requires x.Valid() && zds.Length == x.len + s1 + 1 && zds != x.digits && s2 < 16
    modifies zds
    ensures Val(zds[..]) == Val(x.Digits()) * Pow(2, 16 * s1 + s2)
  {
    hide Val, W, Shifted, Pow, Lo;
    ghost var a := x.Digits();
    ClearLow(zds, s1);
    var num := ShiftDigits(x, zds, s1, s2);
    ghost var written, waiting: Digit := zds[s1..s1 + x.len], num;
    ghost var z0 := zds[..];
    zds[s1 + x.len] := LoIdentity(num);
    assert zds[..] == z0[s1 + x.len := waiting];
    PutLast(z0, s1, written, waiting, |a|);
    ShiftedAll(zds[..], s1, s2, written, waiting, a, Pow(2, s2));
  }

  /** The digits after the last one, which waited, is put in its place. */
  lemma PutLast(z0: seq<Digit>, s1: nat, written: seq<Digit>, waiting: Digit, n: nat)
    requires |z0| == s1 + n + 1 && written == z0[s1..s1 + n]
    requires forall k :: 0 <= k < s1 ==> z0[k] == 0
    ensures var z := z0[s1 + n := waiting]; z[s1..] == written + [waiting] && forall k :: 0 <= k < s1 ==> z[k] == 0
  {
  }

  method ClearLow(zds: array<Digit>, s1: nat)
    requires s1 <= zds.Length
    modifies zds
    ensures forall k :: 0 <= k < s1 ==> zds[k] == 0
  {
    var i := 0;
    while i < s1
      invariant 0 <= i <= s1 && forall k :: 0 <= k < i ==> zds[k] == 0
    {
      zds[i] := 0;
      i := i + 1;
    }
  }

  function LoIdentity(num: int): (d: Digit)
    ensures 0 <= num <= 0xffff ==> d == num
  {
    Lo(num)
  }

  lemma MulSign(s: bool, a: int, b: int)
    ensures (if s then a else -a) * b == if s then a * b else -(a * b)
  {
  }

  lemma ShiftedNone(z: seq<Digit>, a: seq<Digit>, p: nat)
    requires z == []
    ensures Shifted(z, 0, a, p)
  {
    assert a[..0] == [];
  }

  lemma ShiftStepAt(z: seq<Digit>, num: int, a: seq<Digit>, p: nat, t: int, z': seq<Digit>)
    requires Shifted(z, num, a, p) && |z| < |a| && t == num + a[|z|] * p && z' == z + [Lo(t)]
    ensures Shifted(z', Dn(t), a, p)
  {
    ShiftStep(z, num, a, p, t, z');
  }

  lemma ShiftedAll(z: seq<Digit>, s1: nat, s2: nat, mid: seq<Digit>, num: Digit, a: seq<Digit>, p: nat)
    requires p == Pow(2, s2) && |mid| == |a| && |z| == s1 + |a| + 1 && Shifted(mid, num, a, p)
    requires forall k :: 0 <= k < s1 ==> z[k] == 0
    requires z[s1..] == mid + [num]
    ensures Val(z) == Val(a) * Pow(2, 16 * s1 + s2)
  {
    hide Val, W, Pow, Below;
    ValSplit(z, s1);
    LeadingZeroPart(z[..s1]);
    ValSnoc(mid, num);
    BelowAll(a);
    PowTwoW(s1, s2);
    MulAssoc(W(s1), Val(a), p);
    MulAssoc(Val(a), W(s1), p);
  }

  lemma BelowAll(a: seq<Digit>)
    ensures Below(a, |a|) == Val(a)
  {
  }

  lemma LeadingZeroPart(z: seq<Digit>)
    requires forall k :: 0 <= k < |z| ==> z[k] == 0
    ensures Val(z) == 0
  {
    ValZeros(z, 0);
    assert z[..0] == [];
  }

  lemma QuotientDigit(r: nat, d: nat, p: nat)
    requires r < p && d < RADIX
    ensures 0 <= (r * RADIX + d) / p < RADIX
  {
    var f, g := (r * RADIX + d) / p, (r * RADIX + d) % p;
    assert r * RADIX + d == f * p + g;
    assert r * RADIX + d < p * RADIX;
    MulCancelLt(f, RADIX, p);
  }

  lemma QuotientOfRow(top: nat, d: nat, p: nat)
    requires p > 0
    ensures (top * RADIX + d) / p == top / p * RADIX + (top % p * RADIX + d) / p
  {
    var q, r := top / p, top % p;
    var f, g := (r * RADIX + d) / p, (r * RADIX + d) % p;
    RegroupTop(top, q, r, p, d, f, g);
    DivUnique(top * RADIX + d, p, q * RADIX + f, g);
  }

  lemma RemainderOfRow(top: nat, d: nat, p: nat, m: nat)
    requires p > 0 && p * m == RADIX
    ensures (top * RADIX + d) % p == d % p
  {
    var u, v := d / p, d % p;
    assert top * RADIX == top * m * p by { MulAssoc(top, m, p); }
    DistributeRight(top * m, u, p);
    DivUnique(top * RADIX + d, p, top * m + u, v);
  }

  lemma LoOfSum(e: int, f: int)
    requires 0 <= f < RADIX
    ensures Lo(e * RADIX + f) == f
  {
  }

  /** Quotient of a number extended by one more low digit; hidden by name so that proofs can pass it around. */
  function RowQuotient(top: nat, d: nat, p: nat): int
    requires p > 0
  {
    (top * RADIX + d) / p
  }

  lemma RowQuotientSplit(top: nat, d: nat, p: nat)
    requires p > 0 && d < RADIX
    ensures RowQuotient(top, d, p) == top / p * RADIX + RowQuotient(top % p, d, p)
    ensures 0 <= RowQuotient(top % p, d, p) < RADIX
  {
    QuotientOfRow(top, d, p);
    QuotientDigit(top % p, d, p);
  }

  /** One digit of a right shift: quotient of the part of the number from this digit up. */
  lemma RightStep(top: nat, above: Digit, d: Digit, p: nat)
    requires p > 0 && top % p == above % p
    ensures RowQuotient(top, d, p) == top / p * RADIX + Lo(RowQuotient(above, d, p))
  {
    hide Lo, RowQuotient;
    RowQuotientSplit(top, d, p);
    RowQuotientSplit(above, d, p);
    LoOfSum(above / p, RowQuotient(top % p, d, p));
  }

  lemma RegroupTop(top: int, q: int, r: int, p: int, d: int, f: int, g: int)
    requires top == q * p + r && r * RADIX + d == f * p + g
    ensures top * RADIX + d == (q * RADIX + f) * p + g
  {
    assert top * RADIX == q * p * RADIX + r * RADIX;
    assert (q * RADIX + f) * p == q * RADIX * p + f * p;
  }

  /** What `big_rshift` computes for a shift of `shift` bits. */
  function RightShifted(x: int, len: nat, shift: nat): int {
    if shift / 16 > len then (if x >= 0 then 0 else -1)
    else if x >= 0 then x / Pow(2, shift)
    else -(-x / Pow(2, shift))
  }

  /** The state of the loop of `big_rshift`: the written digits are the quotient of the consumed ones. */
  ghost predicate Quotient(z: seq<Digit>, hi: seq<Digit>, above: Digit, p: nat)
    requires p > 0
  {
    Val(z) == Val(hi) / p && Val(hi) % p == above % p
  }

  lemma QuotientStep(z: seq<Digit>, hi: seq<Digit>, above: Digit, p: nat, m: nat, d: Digit, z': seq<Digit>)
    requires p > 0 && p * m == RADIX && Quotient(z, hi, above, p)
    requires z' == [Lo(RowQuotient(above, d, p))] + z
    ensures Quotient(z', [d] + hi, d, p)
  {
    hide Val, Lo;
    ValCons(d, hi);
    ValCons(Lo(RowQuotient(above, d, p)), z);
    RightStep(Val(hi), above, d, p);
    RemainderOfRow(Val(hi), d, p, m);
  }

  /** The loop of `big_rshift`, from the top digit down. */
  method ShiftDown(x: Bignum, zds: array<Digit>, s1: nat, s2: nat)
    requires x.Valid() && zds != x.digits && s1 <= x.len && zds.Length == x.len - s1 && s2 < 16
    modifies zds
    ensures Val(zds[..]) == Val(x.Digits()[s1..]) / Pow(2, s2)
  {
    hide Val, W, Pow, Or, Lo, Up, Quotient;
    ghost var hi := x.Digits()[s1..];
    ghost var p := Pow(2, s2);
    PowTwoSplit(s2);
    var i := x.len;
    var j := i - s1;
    var num: ULong := 0;
    ghost var above: Digit := 0;
    NothingAbove(hi[j..], zds[j..], p);
    while j > 0
      invariant 0 <= j <= |hi| == zds.Length && i == j + s1
      invariant num == above * RADIX
      invariant Quotient(zds[j..], hi[j..], above, p)
    {
      ghost var z, h := zds[j..], hi[j..];
      i := i - 1;
      j := j - 1;
      var d := x.digits[i];
      OrUp(d, above);
      num := Or(num, d) / Pow(2, s2);
      zds[j] := Lo(num);
      assert hi[j..] == [d] + h;
      QuotientStep(z, h, above, p, Pow(2, 16 - s2), d, zds[j..]);
      num := UpDigit(d);
      above := d;
    }
    QuotientDone(zds[..], hi, zds[0..], hi[0..], above, p);
  }

  lemma QuotientDone(z: seq<Digit>, hi: seq<Digit>, z0: seq<Digit>, hi0: seq<Digit>, above: Digit, p: nat)
    requires z == z0 && hi == hi0 && p > 0 && Quotient(z0, hi0, above, p)
    ensures Val(z) == Val(hi) / p
  {
  }

  /** `big_rshift` for a shift that is not negative. */
  method RightShift(x: Bignum, shift: nat) returns (v: Value)
    requires x.Normal()
    ensures Represents(v, RightShifted(x.Int(), x.len, shift))
  {
    hide Val, W, Pow;
    var s1 := shift / 16;
    var s2 := shift % 16;
    ghost var a := x.Digits();
    NegativeMagnitude(x);
    if s1 > x.len {
      if x.sign { return Fix(0); } else { return Fix(-1); }
    }
    var z := new Bignum(x.len - s1, x.sign);
    ShiftDown(x, z.digits, s1, s2);
    assert z.Digits() == z.digits[..];
    RightDone(a, s1, s2);
    v := BigNorm(z);
  }

  function UpDigit(d: Digit): (u: ULong)
    ensures u == d * RADIX
  {
    Up(d)
  }

  lemma NegativeMagnitude(x: Bignum)
    requires x.Normal()
    ensures x.sign <==> x.Int() >= 0
  {
    if !x.sign {
      ValTop(x.Digits());
    }
  }

  lemma NothingAbove(none: seq<Digit>, z: seq<Digit>, p: nat)
    requires none == z == [] && p > 0
    ensures Quotient(z, none, 0, p)
  {
    DivUnique(0, p, 0, 0);
  }

  lemma OrUp(d: Digit, above: Digit)
    ensures Or(above * RADIX, d) == above * RADIX + d && above * RADIX + d < 0x1_0000_0000
  {
    PowTwo16();
    ModOfMultiple(RADIX, above);
    OrIsSum(d, above * RADIX, 16);
    OrCommutes(d, above * RADIX);
  }

  lemma {:induction false} OrCommutes(a: nat, b: nat)
    ensures Or(a, b) == Or(b, a)
    decreases a + b
  {
    if a != 0 || b != 0 {
      OrCommutes(a / 2, b / 2);
    }
  }

  lemma RightDone(a: seq<Digit>, s1: nat, s2: nat)
    requires s1 <= |a|
    ensures Val(a[s1..]) / Pow(2, s2) == Val(a) / Pow(2, 16 * s1 + s2)
  {
    ValHighPart(a, s1);
    PowTwoW(s1, s2);
    DivDiv(Val(a), W(s1), Pow(2, s2));
  }

  /** `big_lshift`: a negative count shifts right. */
  method BigLShift(x: Bignum, shift: Long) returns (v: Value)
    requires x.Normal() && shift > -0x8000_0000
    ensures Represents(v, if shift >= 0 then x.Int() * Pow(2, shift) else RightShifted(x.Int(), x.len, -shift as int))
  {
    if shift < 0 {
      v := RightShift(x, -shift as int);
    } else {
      v := LeftShift(x, shift);
    }
  }

  /** `big_rshift`: a negative count shifts left. */
  method BigRShift(x: Bignum, shift: Long) returns (v: Value)
    requires x.Normal() && shift > -0x8000_0000
    ensures Represents(v, if shift >= 0 then RightShifted(x.Int(), x.len, shift) else x.Int() * Pow(2, -shift as int))
  {
    if shift < 0 {
      v := LeftShift(x, -shift as int);
    } else {
      v := RightShift(x, shift);
    }
  }

  /**
   * Ruby's `>>` is meant to floor. The digits alone truncate, so the result is the floor exactly when the number is
   * not negative, no bit that is shifted out is set, or the count passes the end of the digits.
   */
  lemma RightShiftFloorsIff(x: int, len: nat, shift: nat)
    requires (if x >= 0 then x else -x) < W(len)
    ensures RightShifted(x, len, shift) == x / Pow(2, shift)
      <==> x >= 0 || shift / 16 > len || -x % Pow(2, shift) == 0
  {
    hide W, Pow;
    var p := Pow(2, shift);
    if shift / 16 > len {
      PassesTheEnd(if x >= 0 then x else -x, len, shift);
      if x >= 0 {
        DivUnique(x, p, 0, x);
      } else {
        DivUnique(x, p, -1, p + x);
      }
    } else if x < 0 {
      FloorOfNegative(-x, p);
    }
  }

  /** -(2^30 + 1) shifted right by 1 gives -2^29, and not the floor, which is one less. */
  lemma RightShiftFails()
    ensures var x := -0x4000_0001; -x < W(2) && RightShifted(x, 2, 1) == -0x2000_0000 && x / Pow(2, 1) == -0x2000_0001
  {
    assert Pow(2, 1) == 2 * Pow(2, 0) == 2;
    assert W(2) == 0x1_0000_0000 by { WStep(0); WStep(1); }
  }

  lemma PassesTheEnd(m: nat, len: nat, shift: nat)
    requires m < W(len) && shift / 16 > len
    ensures m < Pow(2, shift)
  {
    PowTwoW(shift / 16, shift % 16);
    PowMono(RADIX, len, shift / 16);
    MulMono(1, Pow(2, shift % 16), W(shift / 16));
  }

  lemma FloorOfNegative(m: int, p: nat)
    requires p > 0 && m >= 0
    ensures m % p == 0 ==> -m / p == -(m / p)
    ensures m % p != 0 ==> -m / p == -(m / p) - 1
  {
    var q, r := m / p, m % p;
    if r == 0 {
      assert -m == -q * p + 0;
      DivUnique(-m, p, -q, 0);
    } else {
      assert (-q - 1) * p == -(q * p) - p;
      DivUnique(-m, p, -q - 1, p - r);
    }
  }
}
