/** The Bignum object of bignum.c, its normalisation, comparison, addition, subtraction and multiplication. */
module Bignums {
  import opened Arith
  import opened Digits

  /** FIXNUM_MAX of a build whose `long` has 32 bits. */
  const FIXNUM_MAX := 0x3fff_ffff

  /** A sign-magnitude integer. `sign` is true for numbers that are not negative. */
  class Bignum {
    var sign: bool
    var len: nat
    var digits: array<Digit>

    ghost predicate Valid()
      reads this
    {
      len <= digits.Length
    }

    ghost function Digits(): seq<Digit>
      requires Valid()
      reads this, digits
    {
      digits[..len]
    }

    ghost function Mag(): nat
      requires Valid()
      reads this, digits
    {
      Val(Digits())
    }

    ghost function Int(): int
      requires Valid()
      reads this, digits
    {
      var m: int := Mag(); if sign then m else -m
    }

    /** No leading zero digit, and zero is not negative. */
    ghost predicate Normal()
      reads this, digits
    {
      Valid() && IsNormal(Digits()) && (len == 0 ==> sign)
    }

    /** `bignew`: the digits of a new bignum are not initialised. */
    constructor (len: nat, sign: bool)
      ensures Valid() && this.len == len == digits.Length && this.sign == sign
      ensures fresh(digits)
    {
      this.sign := sign;
      this.len := len;
      digits := new Digit[len];
    }

    /** `big_clone`. */
    constructor Clone(x: Bignum)
      requires x.Valid()
      ensures Valid() && len == x.len == digits.Length && sign == x.sign
      ensures digits[..] == x.Digits()
      ensures fresh(digits)
    {
      sign := x.sign;
      len := x.len;
      digits := new Digit[x.len](i requires 0 <= i < x.len <= x.digits.Length reads x, x.digits => x.digits[i]);
    }
  }

  /** What an Integer reference can hold. */
  datatype Value = Fix(n: int) | Big(b: Bignum)

  ghost function ValueFrame(v: Value): set<object> {
    if v.Big? then {v.b} else {}
  }

  ghost function ValueDigits(v: Value): set<object>
    reads ValueFrame(v)
  {
    if v.Big? then {v.b.digits} else {}
  }

  /**
   * `v` is the form in which the interpreter hands out the number `n`: a fixnum when the magnitude is below 2^30,
   * otherwise a bignum without leading zeros.
   */
  ghost predicate Represents(v: Value, n: int)
    reads ValueFrame(v), ValueDigits(v)
  {
    match v
    case Fix(k) => k == n && -FIXNUM_MAX <= n <= FIXNUM_MAX
    case Big(b) => b.Normal() && b.Int() == n && !(-FIXNUM_MAX <= n <= FIXNUM_MAX)
  }

  /** `v` stands for the number `n`, perhaps as a bignum where a fixnum would do. */
  ghost predicate StandsFor(v: Value, n: int)
    reads ValueFrame(v), ValueDigits(v)
  {
    match v
    case Fix(k) => k == n && -FIXNUM_MAX <= n <= FIXNUM_MAX
    case Big(b) => b.Normal() && b.Int() == n
  }

  lemma TwoDigits(ds: seq<Digit>)
    requires |ds| <= 2
    ensures |ds| == 0 ==> Val(ds) == 0
    ensures |ds| == 1 ==> Val(ds) == ds[0]
    ensures |ds| == 2 ==> Val(ds) == ds[1] * RADIX + ds[0]
  {
    assert W(0) == 1 && W(1) == RADIX by { WStep(0); }
    if |ds| == 2 {
      assert ds[..1] == [ds[0]];
      ValOne(ds[0]);
    }
  }

  /** Which normalised digit strings are below 2^30: the test of `bignorm`. */
  lemma SmallIff(ds: seq<Digit>)
    requires IsNormal(ds)
    ensures Val(ds) <= FIXNUM_MAX <==> |ds| < 2 || (|ds| == 2 && ds[1] <= 0x3fff)
  {
    if |ds| <= 2 {
      TwoDigits(ds);
    } else {
      ValTop(ds);
      PowMono(RADIX, 2, |ds| - 1);
      assert W(2) == 0x1_0000_0000 by { WStep(0); WStep(1); }
    }
  }

  method BigNorm(x: Bignum) returns (v: Value)
    requires x.Valid()
    modifies x`len
    ensures x.Valid() && x.len <= old(x.len) && x.Mag() == old(x.Mag()) && IsNormal(x.Digits())
    ensures Represents(v, old(x.Int()))
    ensures v.Big? ==> v.b == x
  {
    var len := x.len;
    var ds := x.digits;
    ghost var all := x.Digits();
    while len > 0 && ds[len - 1] == 0
      invariant 0 <= len <= |all|
      invariant forall i :: len <= i < |all| ==> all[i] == 0
    {
      len := len - 1;
    }
    x.len := len;
    assert x.Digits() == all[..len];
    ValZeros(all, len);
    SmallIff(x.Digits());
    if len < 2 || (len == 2 && ds[1] <= 0x3fff) {
      var num: Long := 0;
      TwoDigits(x.Digits());
      ghost var top := len;
      while len > 0
        invariant 0 <= len <= top <= 2
        invariant len == top ==> num == 0
        invariant len < top ==> num == if top == 2 && len == 0 then ds[1] * RADIX + ds[0] else ds[top - 1]
      {
        len := len - 1;
        num := Up(num) + ds[len];
      }
      if x.sign {
        if num <= FIXNUM_MAX { return Fix(num); }
      } else {
        if -num >= -FIXNUM_MAX - 1 { return Fix(-num); }
      }
    }
    return Big(x);
  }

  method UInt2Big(n: ULong) returns (big: Bignum)
    ensures fresh(big) && fresh(big.digits) && big.Normal() && big.Int() == n
    ensures big.digits.Length == 2 && big.len <= 2 && (big.len == 0 ==> big.digits[0] == 0)
  {
    big := new Bignum(2, true);
    var digits := big.digits;
    digits[0] := Lo(n);
    digits[1] := Lo(Dn(n));
    var i := 2;
    TwoDigits(digits[..2]);
    while i > 0 && digits[i - 1] == 0
      invariant 0 <= i <= 2
      invariant forall j :: i <= j < 2 ==> digits[j] == 0
    {
      i := i - 1;
    }
    ValZeros(digits[..2], i);
    assert digits[..2][..i] == digits[..i];
    big.len := i;
  }

  lemma MagOfNone(ds: seq<Digit>)
    ensures ds == [] ==> Val(ds) == 0
  {
  }

  /** `int2big`; `-n` is taken in `int`, so the most negative number comes back as itself and is read as unsigned. */
  method Int2Big(n: Long) returns (big: Bignum)
    ensures fresh(big) && fresh(big.digits) && big.Normal() && big.Int() == n
    ensures big.digits.Length == 2 && big.len <= 2 && (big.len == 0 ==> big.digits[0] == 0)
  {
    var neg := false;
    var m: Long := n;
    if n < 0 {
      var k: int := n;
      m := ToLong(-k);
      neg := true;
    }
    big := UInt2Big(ToULong(m));
    if neg {
      hide Val, IsNormal;
      assert big.Mag() > 0;
      MagOfNone(big.Digits());
      big.sign := false;
    }
  }

  /** `big_cmp` on two bignums. */
  method BigCmp(x: Bignum, y: Bignum) returns (c: int)
    requires x.Normal() && y.Normal()
    ensures c == 1 <==> x.Int() > y.Int()
    ensures c == 0 <==> x.Int() == y.Int()
    ensures c == -1 <==> x.Int() < y.Int()
  {
    var xlen := x.len;
    ghost var a, b := x.Digits(), y.Digits();
    ghost var posX := a != [] ==> Val(a) > 0;
    assert posX by { if a != [] { ValTop(a); } }
    ghost var posY := b != [] ==> Val(b) > 0;
    assert posY by { if b != [] { ValTop(b); } }
    if x.sign && !y.sign { return 1; }
    if !x.sign && y.sign { return -1; }
    if xlen < y.len {
      ValCompareLength(a, b);
      return if x.sign then -1 else 1;
    }
    if xlen > y.len {
      ValCompareLength(b, a);
      return if x.sign then 1 else -1;
    }
    xlen := xlen - 1;
    while xlen != -1 && x.digits[xlen] == y.digits[xlen]
      invariant -1 <= xlen < |a|
      invariant a[xlen + 1..] == b[xlen + 1..]
      decreases xlen
    {
      assert a[xlen..] == [a[xlen]] + a[xlen + 1..] && b[xlen..] == [b[xlen]] + b[xlen + 1..];
      xlen := xlen - 1;
    }
    if -1 == xlen {
      assert a == a[0..] && b == b[0..];
      return 0;
    }
    if a[xlen] < b[xlen] {
      ValCompare(a, b, xlen);
    } else {
      ValCompare(b, a, xlen);
    }
    return if x.digits[xlen] > y.digits[xlen] then (if x.sign then 1 else -1) else (if x.sign then -1 else 1);
  }

  /** Digit `i` of a number of which no more than the written digits are non-zero. */
  function DigitAt(a: seq<Digit>, i: nat): Digit {
    if i < |a| then a[i] else 0
  }

  /** The number made of the digits below position `i`. */
  function Below(a: seq<Digit>, i: nat): nat {
    if i < |a| then Val(a[..i]) else Val(a)
  }

  lemma BelowStep(a: seq<Digit>, i: nat)
    ensures Below(a, i + 1) == Below(a, i) + DigitAt(a, i) * W(i)
  {
    if i < |a| {
      assert a[..i + 1] == a[..i] + [a[i]];
      assert i + 1 == |a| ==> a[..i + 1] == a;
      ValSnoc(a[..i], a[i]);
    }
  }

  /**
   * The digits written so far plus the carry equal the sum (`k` is 1) or difference (`k` is -1) of the digits
   * consumed so far.
   */
  ghost predicate Written(z: seq<Digit>, c: int, a: seq<Digit>, b: seq<Digit>, k: int) {
    Val(z) + c * W(|z|) == Below(a, |z|) + k * Below(b, |z|)
  }

  lemma WrittenNone(z: seq<Digit>, a: seq<Digit>, b: seq<Digit>, k: int)
    requires z == []
    ensures Written(z, 0, a, b, k)
  {
    assert a[..0] == [] && b[..0] == [];
  }

  lemma WrittenAll(z: seq<Digit>, c: int, a: seq<Digit>, b: seq<Digit>, k: int)
    requires Written(z, c, a, b, k) && |z| >= |a| && |z| >= |b|
    ensures Val(z) + c * W(|z|) == Val(a) + k * Val(b)
  {
  }

  /** Writing one column keeps "digits written plus carry" exact. */
  lemma CarryStep(z: seq<Digit>, c: int, a: seq<Digit>, b: seq<Digit>, k: int, acc: int, z': seq<Digit>)
    requires (k == 1 || k == -1) && Written(z, c, a, b, k)
    requires acc == c + DigitAt(a, |z|) + k * DigitAt(b, |z|)
    requires z' == z + [Lo(acc)]
    ensures Written(z', Dn(acc), a, b, k)
  {
    hide Val, W, Below, DigitAt, Lo, Dn;
    var i := |z|;
    BelowStep(a, i);
    BelowStep(b, i);
    ValSnoc(z, Lo(acc));
    WStep(i);
    Column(acc, W(i));
    Distribute3(W(i), c, DigitAt(a, i), k, DigitAt(b, i));
  }

  /** A subtraction that does not go below zero leaves no borrow. */
  lemma NoBorrow(z: seq<Digit>, c: int, a: seq<Digit>, b: seq<Digit>)
    requires Written(z, c, a, b, -1) && |z| >= |a| && |z| >= |b|
    requires Val(a) >= Val(b) && c <= 0
    ensures c == 0
  {
    ValBound(z);
    if c < 0 {
      MulMono(c, -1, W(|z|));
      assert false;
    }
  }

  lemma Distribute3(w: int, c: int, p: int, k: int, q: int)
    requires k == 1 || k == -1
    ensures (c + p + k * q) * w == c * w + p * w + k * (q * w)
  {
    if k == 1 {
      assert (c + p + q) * w == c * w + p * w + q * w;
    } else {
      assert (c + p - q) * w == c * w + p * w - q * w;
    }
  }

  /** Whether the first magnitude is smaller: how `bigsub` decides to swap. */
  method Smaller(x: Bignum, y: Bignum) returns (swap: bool)
    requires x.Valid() && y.Valid() && IsNormal(x.Digits()) && IsNormal(y.Digits())
    ensures swap <==> x.Mag() < y.Mag()
    ensures swap ==> x.len <= y.len
    ensures !swap ==> y.len <= x.len
  {
    swap := false;
    var i := x.len;
    ghost var a, b := x.Digits(), y.Digits();
    if x.len < y.len {
      ValCompareLength(a, b);
      swap := true;
    } else if x.len == y.len {
      while i > 0
        invariant 0 <= i <= |a| && !swap
        invariant a[i..] == b[i..]
      {
        i := i - 1;
        assert a[i..] == [a[i]] + a[i + 1..] && b[i..] == [b[i]] + b[i + 1..];
        if x.digits[i] > y.digits[i] {
          ValCompare(b, a, i);
          return;
        }
        if x.digits[i] < y.digits[i] {
          ValCompare(a, b, i);
          swap := true;
          return;
        }
      }
      assert a == a[0..] && b == b[0..];
    } else {
      ValCompareLength(b, a);
    }
  }

  /** `bigsub`: the difference of the magnitudes. */
  method BigSub(x0: Bignum, y0: Bignum) returns (v: Value)
    requires x0.Valid() && y0.Valid() && IsNormal(x0.Digits()) && IsNormal(y0.Digits())
    ensures Represents(v, x0.Mag() - y0.Mag())
  {
    var swap := Smaller(x0, y0);
    var x, y := x0, y0;
    if swap { x, y := y0, x0; }
    var z := new Bignum(x.len, !swap);
    SubDigits(x, y, z);
    v := BigNorm(z);
  }

  /** The borrow loops of `bigsub`. */
  method SubDigits(x: Bignum, y: Bignum, z: Bignum)
    requires x.Valid() && y.Valid() && z.Valid() && x.Mag() >= y.Mag() && y.len <= x.len == z.len
    requires z != x && z != y && z.digits != x.digits && z.digits != y.digits
    modifies z.digits
    ensures z.Mag() == x.Mag() - y.Mag()
  {
    hide Val, W, Below, Written;
    var zds := z.digits;
    ghost var a, b := x.Digits(), y.Digits();
    var i := 0;
    var num: Long := 0;
    WrittenNone(zds[..0], a, b, -1);
    while i < y.len
      invariant 0 <= i <= y.len && -1 <= num <= 0
      invariant Written(zds[..i], num, a, b, -1)
    {
      ghost var c, written := num, zds[..i];
      num := num + x.digits[i] - y.digits[i];
      zds[i] := Lo(num);
      CarryStep(written, c, a, b, -1, num, zds[..i + 1]);
      num := Dn(num);
      i := i + 1;
    }
    while num != 0 && i < x.len
      invariant y.len <= i <= x.len && -1 <= num <= 0
      invariant Written(zds[..i], num, a, b, -1)
    {
      ghost var c, written := num, zds[..i];
      num := num + x.digits[i];
      zds[i] := Lo(num);
      CarryStep(written, c, a, b, -1, num, zds[..i + 1]);
      num := Dn(num);
      i := i + 1;
    }
    if num != 0 {
      NoBorrow(zds[..i], num, a, b);
      assert false;
    }
    while i < x.len
      invariant y.len <= i <= x.len
      invariant Written(zds[..i], 0, a, b, -1)
    {
      ghost var written := zds[..i];
      zds[i] := x.digits[i];
      CarryStep(written, 0, a, b, -1, zds[i], zds[..i + 1]);
      i := i + 1;
    }
    WrittenAll(zds[..i], 0, a, b, -1);
  }

  /** `bigadd`: `x + y` when `sign`, `x - y` otherwise. */
  method BigAdd(x: Bignum, y: Bignum, sign: bool) returns (v: Value)
    requires x.Normal() && y.Normal()
    ensures Represents(v, if sign then x.Int() + y.Int() else x.Int() - y.Int())
  {
    if x.sign == (y.sign != sign) {
      if y.sign == sign {
        v := BigSub(y, x);
      } else {
        v := BigSub(x, y);
      }
      return;
    }
    var len := if x.len > y.len then x.len + 1 else y.len + 1;
    var z := new Bignum(len, sign == y.sign);
    var s, l := x, y;
    if x.len > y.len { s, l := y, x; }
    AddDigits(s, l, z);
    v := BigNorm(z);
  }

  /** The carry loops of `bigadd`; `x` is not longer than `y`. */
  method AddDigits(x: Bignum, y: Bignum, z: Bignum)
    requires x.Valid() && y.Valid() && z.Valid() && x.len <= y.len && z.len == y.len + 1
    requires z != x && z != y && z.digits != x.digits && z.digits != y.digits
    modifies z.digits
    ensures z.Mag() == x.Mag() + y.Mag()
  {
    hide Val, W, Below, Written;
    var zds := z.digits;
    ghost var a, b := x.Digits(), y.Digits();
    var i := 0;
    var num: Long := 0;
    WrittenNone(zds[..0], a, b, 1);
    while i < x.len
      invariant 0 <= i <= x.len && 0 <= num <= 1
      invariant Written(zds[..i], num, a, b, 1)
    {
      ghost var c, written := num, zds[..i];
      num := num + x.digits[i] + y.digits[i];
      zds[i] := Lo(num);
      CarryStep(written, c, a, b, 1, num, zds[..i + 1]);
      num := Dn(num);
      i := i + 1;
    }
    while num != 0 && i < y.len
      invariant x.len <= i <= y.len && 0 <= num <= 1
      invariant Written(zds[..i], num, a, b, 1)
    {
      ghost var c, written := num, zds[..i];
      num := num + y.digits[i];
      zds[i] := Lo(num);
      CarryStep(written, c, a, b, 1, num, zds[..i + 1]);
      num := Dn(num);
      i := i + 1;
    }
    ghost var carry := num;
    while i < y.len
      invariant x.len <= i <= y.len && num == carry && (carry != 0 ==> i == y.len)
      invariant Written(zds[..i], num, a, b, 1)
    {
      ghost var written := zds[..i];
      zds[i] := y.digits[i];
      CarryStep(written, num, a, b, 1, zds[i], zds[..i + 1]);
      i := i + 1;
    }
    ghost var written := zds[..i];
    WrittenAll(written, num, a, b, 1);
    zds[i] := num;
    ValSnoc(written, zds[i]);
    assert z.Digits() == written + [zds[i]];
  }
}
