/** Schoolbook multiplication, powers and shifts of bignum.c. */
module BignumMul {
  import opened Arith
  import opened Digits
  import opened Bignums

  /** Storing `v` at position `k` changes the number by the difference times the weight of the place. */
  lemma {:induction false} ValUpdate(ds: seq<Digit>, k: nat, v: Digit)
    requires k < |ds|
    ensures Val(ds[k := v]) == Val(ds) + (v as int - ds[k]) * W(k)
  {
    var n := |ds| - 1;
    if k == n {
      assert ds[k := v][..n] == ds[..n];
      assert (v as int - ds[k]) * W(k) == v * W(k) - ds[k] * W(k);
    } else {
      assert ds[k := v][..n] == ds[..n][k := v];
      ValUpdate(ds[..n], k, v);
    }
  }

  /**
   * One column of the inner loop: `ee` is the low `int` of `n + dd * y`, which may come out negative, and the sum
   * with the old digit is taken back to `unsigned long`. Nothing is lost: the accumulator never exceeds 2^32 - 1.
   */
  lemma MulColumnExact(n: int, dd: int, y: int, z: int)
    requires 0 <= n <= 0xffff && 0 <= dd <= 0xffff && 0 <= y <= 0xffff && 0 <= z <= 0xffff
    ensures 0 <= dd * y
    ensures 0 <= n + dd * y + z <= 0xffff_ffff
    ensures ToULong(z + ToLong(n + dd * y)) == n + dd * y + z
    ensures ToLong(n + dd * y) == 0 ==> n + dd * y == 0
    ensures 0 <= Dn(n + dd * y + z) <= 0xffff
  {
    MulMono(0, y, dd);
    MulMono(y, 0xffff, dd);
    MulMono(dd, 0xffff, 0xffff);
  }

  /** The product so far: digits of `z`, plus the carry `n` waiting for position `i + j`. */
  ghost predicate Partial(z: seq<Digit>, n: int, i: nat, j: nat, base: int, dd: int, b: seq<Digit>) {
    Val(z) + n * W(i + j) == base + dd * Below(b, j) * W(i)
  }

  lemma PartialStart(z: seq<Digit>, i: nat, dd: int, b: seq<Digit>)
    ensures Partial(z, 0, i, 0, Val(z), dd, b)
  {
    assert b[..0] == [];
  }

  lemma PartialArith(w: int, wi: int, wj: int, n: int, dd: int, bj: int, zk: int, below: int, t: int, lo: int)
    requires w == wi * wj && t == n + dd * bj + zk
    ensures (lo - zk) * w + (t * w - lo * w) + dd * below * wi == n * w + dd * (below + bj * wj) * wi
  {
    assert (lo - zk) * w == lo * w - zk * w;
    assert t * w == n * w + dd * bj * w + zk * w;
    calc {
      dd * (below + bj * wj) * wi;
      { Distribute(dd, below, bj, wj); }
      (dd * below + bj * (dd * wj)) * wi;
      { assert bj * (dd * wj) == dd * bj * wj; }
      (dd * below + dd * bj * wj) * wi;
      dd * below * wi + dd * bj * wj * wi;
      { assert dd * bj * wj * wi == dd * bj * w; }
      dd * below * wi + dd * bj * w;
    }
  }

  lemma PartialStep(z: seq<Digit>, n: int, i: nat, j: nat, base: int, dd: int, b: seq<Digit>, t: int)
    requires Partial(z, n, i, j, base, dd, b) && i + j < |z| && j < |b|
    requires t == n + dd * b[j] + z[i + j]
    ensures Partial(z[i + j := Lo(t)], Dn(t), i, j + 1, base, dd, b)
  {
    hide Val, W, Below, Lo, Dn;
    var w := W(i + j);
    ValUpdate(z, i + j, Lo(t));
    WStep(i + j);
    Column(t, w);
    BelowStep(b, j);
    PowAdd(RADIX, i, j);
    WAdd(i, j);
    PartialArith(w, W(i), W(j), n, dd, b[j], z[i + j], Below(b, j), t, Lo(t));
  }

  /** A row is finished by storing the last carry in a place that still holds zero. */
  lemma PartialEnd(z: seq<Digit>, n: Digit, i: nat, base: int, dd: int, b: seq<Digit>)
    requires Partial(z, n, i, |b|, base, dd, b) && i + |b| < |z| && z[i + |b|] == 0
    ensures Val(z[i + |b| := n]) == base + dd * W(i) * Val(b)
  {
    ValUpdate(z, i + |b|, n);
    assert dd * Val(b) * W(i) == dd * W(i) * Val(b);
  }

  /** What the product holds after the rows below `i`. */
  ghost predicate Rows(z: seq<Digit>, a: seq<Digit>, i: nat, b: seq<Digit>) {
    Val(z) == Below(a, i) * Val(b)
  }

  lemma RowStep(z: seq<Digit>, z': seq<Digit>, a: seq<Digit>, i: nat, b: seq<Digit>)
    requires i < |a| && Rows(z, a, i, b) && Val(z') == Val(z) + a[i] * W(i) * Val(b)
    ensures Rows(z', a, i + 1, b)
  {
    hide Val, W, Below;
    BelowStep(a, i);
    DistributeRight(Below(a, i), a[i] * W(i), Val(b));
  }

  /** One row of `big_mul`: adds `dd * y * 2^(16 * i)` into `zds`. */
  method MulRow(zds: array<Digit>, i: nat, dd: Digit, y: Bignum)
    requires y.Valid() && zds != y.digits && i + y.len < zds.Length
    requires forall k :: i + y.len <= k < zds.Length ==> zds[k] == 0
    modifies zds
    ensures Val(zds[..]) == old(Val(zds[..])) + dd * W(i) * y.Mag()
    ensures forall k :: i + y.len + 1 <= k < zds.Length ==> zds[k] == 0
  {
    hide Val, W, Below, Partial, Lo, Dn, ToLong, ToULong;
    ghost var b := y.Digits();
    ghost var base := Val(zds[..]);
    var n: ULong := 0;
    var j := 0;
    PartialStart(zds[..], i, dd, b);
    while j < y.len
      invariant 0 <= j <= y.len && 0 <= n <= 0xffff
      invariant Partial(zds[..], n, i, j, base, dd, b)
      invariant forall k :: i + y.len <= k < zds.Length ==> zds[k] == 0
    {
      ghost var z := zds[..];
      MulColumnExact(n, dd, y.digits[j], zds[i + j]);
      PartialStep(z, n, i, j, base, dd, b, n + dd * y.digits[j] + zds[i + j]);
      var ee: Long := ToLong(n + dd * y.digits[j]);
      n := ToULong(zds[i + j] + ee);
      if ee != 0 {
        zds[i + j] := Lo(n);
      } else {
        assert Lo(n) == zds[i + j] by { LoOfDigit(n); }
      }
      assert zds[..] == z[i + j := Lo(n)];
      n := Dn(n);
      j := j + 1;
    }
    ghost var z, last: Digit := zds[..], n;
    PartialEnd(z, last, i, base, dd, b);
    if n != 0 {
      zds[i + j] := n;
    }
    assert zds[..] == z[i + j := last];
  }

  lemma LoOfDigit(n: int)
    requires 0 <= n <= 0xffff
    ensures Lo(n) == n
  {
  }

  /** `big_mul` on two bignums. */
  method BigMul(x: Bignum, y: Bignum) returns (v: Value)
    requires x.Valid() && y.Valid()
    ensures Represents(v, x.Int() * y.Int())
  {
    hide Val, W, Below, Rows;
    var j := x.len + y.len + 1;
    var z := new Bignum(j, x.sign == y.sign);
    var zds := z.digits;
    ZeroFill(zds, j);
    MulRows(x, y, zds);
    assert z.Digits() == zds[..];
    RowsEnd(z.Digits(), x.Digits(), y.Digits());
    SignOfProduct(x.sign, y.sign, Val(x.Digits()), Val(y.Digits()));
    v := BigNorm(z);
  }

  /** The first loop of `big_mul`. */
  method ZeroFill(zds: array<Digit>, n: nat)
    requires n <= zds.Length
    modifies zds
    ensures forall k :: 0 <= k < n ==> zds[k] == 0
  {
    var j: nat := n;
    while j > 0
      invariant 0 <= j <= n
      invariant forall k :: j <= k < n ==> zds[k] == 0
    {
      j := j - 1;
      zds[j] := 0;
    }
  }

  /** The second loop of `big_mul`: one row per digit of `x` that is not zero. */
  method MulRows(x: Bignum, y: Bignum, zds: array<Digit>)
    requires x.Valid() && y.Valid() && zds.Length == x.len + y.len + 1 && zds != x.digits && zds != y.digits
    requires forall k :: 0 <= k < zds.Length ==> zds[k] == 0
    modifies zds
    ensures Rows(zds[..], x.Digits(), x.len, y.Digits())
  {
    hide Val, W, Below, Rows;
    ghost var a, b := x.Digits(), y.Digits();
    RowsStart(zds[..], a, b);
    var i := 0;
    while i < x.len
      invariant 0 <= i <= x.len
      invariant forall k :: i + y.len + 1 <= k < zds.Length ==> zds[k] == 0
      invariant i < x.len ==> zds[i + y.len] == 0
      invariant Rows(zds[..], a, i, b)
    {
      ghost var z0 := zds[..];
      var dd := x.digits[i];
      if dd != 0 {
        MulRow(zds, i, dd, y);
      }
      RowStep(z0, zds[..], a, i, b);
      i := i + 1;
    }
  }

  lemma RowsStart(z: seq<Digit>, a: seq<Digit>, b: seq<Digit>)
    requires forall k :: 0 <= k < |z| ==> z[k] == 0
    ensures Rows(z, a, 0, b)
  {
    ValZeros(z, 0);
    assert a[..0] == [] && z[..0] == [];
  }

  lemma RowsEnd(z: seq<Digit>, a: seq<Digit>, b: seq<Digit>)
    requires Rows(z, a, |a|, b)
    ensures Val(z) == Val(a) * Val(b)
  {
  }

  lemma SignOfProduct(sx: bool, sy: bool, a: int, b: int)
    ensures (if sx then a else -a) * (if sy then b else -b) == if sx == sy then a * b else -(a * b)
  {
  }

  /** The conversion `big_mul` makes of a fixnum operand. */
  method ToBig(v: Value, ghost n: int) returns (b: Bignum)
    requires StandsFor(v, n)
    ensures b.Normal() && b.Int() == n
  {
    match v
    case Fix(k) => b := Int2Big(k);
    case Big(x) => b := x;
  }

  function IntPow(b: int, n: nat): int {
    if n == 0 then 1 else b * IntPow(b, n - 1)
  }

  lemma {:induction false} IntPowSquare(b: int, n: nat)
    ensures IntPow(b * b, n) == IntPow(b, 2 * n)
  {
    if n > 0 {
      IntPowSquare(b, n - 1);
      assert IntPow(b, 2 * n) == b * IntPow(b, 2 * n - 1) == b * (b * IntPow(b, 2 * (n - 1)));
      MulAssoc(b, b, IntPow(b, 2 * (n - 1)));
    }
  }

  lemma IntPowStep(b: int, n: nat)
    ensures IntPow(b, 0) == 1 && IntPow(b, n + 1) == b * IntPow(b, n)
  {
  }

  lemma MulAssocStep(z: int, x: int, y: nat)
    requires y >= 1
    ensures z * x * IntPow(x, y - 1) == z * IntPow(x, y)
  {
    MulAssoc(z, x, IntPow(x, y - 1));
  }

  method MulValues(x: Value, y: Value, ghost xi: int, ghost yi: int) returns (v: Value)
    requires StandsFor(x, xi) && StandsFor(y, yi)
    ensures Represents(v, xi * yi) && StandsFor(v, xi * yi)
  {
    var xb := ToBig(x, xi);
    var yb := ToBig(y, yi);
    v := BigMul(xb, yb);
  }

  /** The inner loop of `big_pow`: squares while the remaining exponent is even. */
  method SquareWhileEven(x0: Value, y0: nat, ghost xi0: int, ghost zi: int) returns (x: Value, y: nat, ghost xi: int)
    requires StandsFor(x0, xi0) && y0 >= 1
    ensures StandsFor(x, xi) && 1 <= y <= y0 && y % 2 == 1
    ensures zi * IntPow(xi, y) == zi * IntPow(xi0, y0)
  {
    hide IntPow, Val, W, IsNormal;
    x, y, xi := x0, y0, xi0;
    while y % 2 == 0
      invariant 1 <= y <= y0
      invariant StandsFor(x, xi)
      invariant IntPow(xi, y) == IntPow(xi0, y0)
      decreases y
    {
      y := y / 2;
      IntPowSquare(xi, y);
      x := MulValues(x, x, xi, xi);
      xi := xi * xi;
    }
  }

  /** The loop of `big_pow` for a positive exponent; only without a multiplication the result is not normalised. */
  method PowerLoop(x0: Value, y0: nat, ghost b: int) returns (z: Value)
    requires StandsFor(x0, b) && y0 >= 1
    ensures StandsFor(z, IntPow(b, y0))
    ensures if y0 == 1 then z == x0 else Represents(z, IntPow(b, y0))
  {
    hide IntPow, Val, W, IsNormal;
    var x, y := x0, y0;
    z := x;
    ghost var xi, zi := b, b;
    IntPowStep(b, y0 - 1);
    while true
      invariant 1 <= y <= y0
      invariant StandsFor(x, xi) && StandsFor(z, zi)
      invariant if y == y0 then z == x0 else Represents(z, zi)
      invariant zi * IntPow(xi, y - 1) == IntPow(b, y0)
      decreases y
    {
      y := y - 1;
      IntPowStep(xi, 0);
      if y == 0 { break; }
      x, y, xi := SquareWhileEven(x, y, xi, zi);
      MulAssocStep(zi, xi, y);
      z := MulValues(z, x, zi, xi);
      zi := zi * xi;
    }
  }

  /**
   * The integer branch of `big_pow`. The value is always the power. It has the form in which the interpreter hands out
   * numbers unless a small bignum is raised to the first power: that bignum itself comes back.
   */
  method BigPow(x0: Bignum, y0: nat) returns (z: Value)
    requires x0.Normal()
    ensures StandsFor(z, IntPow(x0.Int(), y0))
    ensures Represents(z, IntPow(x0.Int(), y0)) <==> y0 != 1 || !(-FIXNUM_MAX <= x0.Int() <= FIXNUM_MAX)
  {
    hide IntPow, Val, W, IsNormal;
    ghost var b := x0.Int();
    IntPowStep(b, 0);
    if y0 == 0 { return Fix(1); }
    z := PowerLoop(Big(x0), y0, b);
  }

  /** `fix_pow` with an exponent that is not negative. */
  method FixPow(a: int, b: nat) returns (z: Value)
    requires -FIXNUM_MAX - 1 <= a <= FIXNUM_MAX
    ensures StandsFor(z, IntPow(a, b))
    ensures Represents(z, IntPow(a, b)) <==> b != 1 || a == -FIXNUM_MAX - 1
  {
    hide IntPow, Val, W, IsNormal;
    IntPowStep(a, 0);
    if b == 0 { return Fix(1); }
    var x := Int2Big(a);
    z := BigPow(x, b);
  }

  /** `3 ** 1` is a bignum, and not the fixnum 3. */
  method ThreeToTheFirst() returns (z: Value)
    ensures z.Big? && StandsFor(z, 3) && !Represents(z, 3)
  {
    z := FixPow(3, 1);
    assert IntPow(3, 1) == 3;
  }
}
