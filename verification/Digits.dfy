/** Digit sequences in base 2^16, least significant digit first, and the 32-bit words of the i386 build. */
module Digits {
  import opened Arith

  const RADIX := 0x1_0000

  type Digit = d: int | 0 <= d < 0x1_0000
  type Long = x: int | -0x8000_0000 <= x < 0x8000_0000
  type ULong = x: int | 0 <= x < 0x1_0000_0000

  /** BIGLO: the low 16 bits, also of a negative `long`. */
  function Lo(x: int): Digit { x % 0x1_0000 }

  /** BIGDN: an arithmetic right shift by 16. */
  function Dn(x: int): int { x / 0x1_0000 }

  /** BIGUP: `(unsigned long)x << 16`, which drops the bits above 32. */
  function Up(x: int): ULong { x * 0x1_0000 % 0x1_0000_0000 }

  /** Conversion of any integer value to `unsigned long`. */
  function ToULong(x: int): ULong { x % 0x1_0000_0000 }

  /** Conversion of any integer value to `long` or `int`. */
  function ToLong(x: int): Long {
    var u := x % 0x1_0000_0000;
    if u < 0x8000_0000 then u else u - 0x1_0000_0000
  }

  /** The weight of digit position `n`. */
  function W(n: nat): (r: nat)
    ensures r > 0
  {
    Pow(RADIX, n)
  }

  /** The number a digit sequence stands for. */
  function Val(ds: seq<Digit>): nat {
    if ds == [] then 0
    else
      var k := |ds| - 1;
      Val(ds[..k]) + ds[k] * W(k)
  }

  lemma WStep(n: nat)
    ensures W(n + 1) == RADIX * W(n)
  {
  }

  lemma WAdd(i: nat, j: nat)
    ensures W(i + j) == W(i) * W(j)
  {
    PowAdd(RADIX, i, j);
  }

  lemma ValSnoc(ds: seq<Digit>, d: Digit)
    ensures Val(ds + [d]) == Val(ds) + d * W(|ds|)
  {
    assert (ds + [d])[..|ds|] == ds;
  }

  lemma ValOne(d: Digit)
    ensures Val([d]) == d
  {
    ValSnoc([], d);
    assert [] + [d] == [d];
  }

  lemma {:induction false} ValBound(ds: seq<Digit>)
    ensures Val(ds) < W(|ds|)
  {
    if ds != [] {
      var k := |ds| - 1;
      var d: int := ds[k];
      ValBound(ds[..k]);
      WStep(k);
      MulMono(d + 1, RADIX, W(k));
      assert (d + 1) * W(k) == d * W(k) + W(k);
    }
  }

  lemma {:induction false} ValSplit(ds: seq<Digit>, k: nat)
    requires k <= |ds|
    ensures Val(ds) == Val(ds[..k]) + W(k) * Val(ds[k..])
  {
    if |ds| == k {
      assert ds[..k] == ds;
    } else {
      var n := |ds| - 1;
      var init := ds[..n];
      ValSplit(init, k);
      assert init[..k] == ds[..k];
      assert ds[k..] == init[k..] + [ds[n]];
      ValSnoc(init[k..], ds[n]);
      PowAdd(RADIX, k, n - k);
      Distribute(W(k), Val(init[k..]), ds[n], W(n - k));
    }
  }

  /** Leading zeros do not change the number. */
  lemma {:induction false} ValZeros(ds: seq<Digit>, k: nat)
    requires k <= |ds|
    requires forall i :: k <= i < |ds| ==> ds[i] == 0
    ensures Val(ds) == Val(ds[..k])
  {
    if |ds| == k {
      assert ds[..k] == ds;
    } else {
      var n := |ds| - 1;
      ValZeros(ds[..n], k);
      assert ds[..n][..k] == ds[..k];
    }
  }

  /** A non-zero top digit makes the number at least the weight of its place. */
  lemma ValTop(ds: seq<Digit>)
    requires ds != [] && ds[|ds| - 1] != 0
    ensures Val(ds) >= W(|ds| - 1)
  {
    MulMono(1, ds[|ds| - 1], W(|ds| - 1));
  }

  /** The top digit is the quotient by its place weight. */
  lemma ValTopBounds(ds: seq<Digit>)
    requires ds != []
    ensures var k := |ds| - 1;
      ds[k] * W(k) <= Val(ds) < (ds[k] + 1) * W(k)
  {
    var k := |ds| - 1;
    ValBound(ds[..k]);
    assert (ds[k] + 1) * W(k) == ds[k] * W(k) + W(k);
  }

  predicate IsNormal(ds: seq<Digit>) {
    ds != [] ==> ds[|ds| - 1] != 0
  }

  /** Digit strings without leading zeros represent different numbers. */
  lemma {:induction false} ValInjective(a: seq<Digit>, b: seq<Digit>)
    requires IsNormal(a) && IsNormal(b) && Val(a) == Val(b)
    ensures a == b
  {
    if |a| < |b| {
      ValBound(a);
      ValTop(b);
      PowMono(RADIX, |a|, |b| - 1);
    } else if |b| < |a| {
      ValBound(b);
      ValTop(a);
      PowMono(RADIX, |b|, |a| - 1);
    } else {
      ValInjectiveSameLength(a, b);
    }
  }

  lemma {:induction false} ValInjectiveSameLength(a: seq<Digit>, b: seq<Digit>)
    requires |a| == |b| && Val(a) == Val(b)
    ensures a == b
  {
    if a != [] {
      var k := |a| - 1;
      ValTopBounds(a);
      ValTopBounds(b);
      var x: int, y: int := a[k], b[k];
      MulCancelLt(x, y + 1, W(k));
      MulCancelLt(y, x + 1, W(k));
      ValInjectiveSameLength(a[..k], b[..k]);
      assert a == a[..k] + [a[k]] && b == b[..k] + [b[k]];
    }
  }

  /** The most significant differing digit decides a comparison. */
  lemma {:induction false} ValCompare(a: seq<Digit>, b: seq<Digit>, k: nat)
    requires |a| == |b| && k < |a|
    requires a[k + 1..] == b[k + 1..] && a[k] < b[k]
    ensures Val(a) < Val(b)
  {
    ValSplit(a, k + 1);
    ValSplit(b, k + 1);
    var x: int, y: int := a[k], b[k];
    ValTopBounds(a[..k + 1]);
    ValTopBounds(b[..k + 1]);
    MulMono(x + 1, y, W(k));
  }

  /** A longer number without leading zeros is larger. */
  lemma ValCompareLength(a: seq<Digit>, b: seq<Digit>)
    requires |a| < |b| && IsNormal(b)
    ensures Val(a) < Val(b)
  {
    ValBound(a);
    ValTop(b);
    PowMono(RADIX, |a|, |b| - 1);
  }

  /** One column of a carry chain: what is written plus the carry out equals what came in. */
  lemma Column(acc: int, w: nat)
    ensures acc * w == Lo(acc) * w + Dn(acc) * (RADIX * w)
  {
    assert acc == Lo(acc) + Dn(acc) * RADIX;
    MulAssoc(Dn(acc), RADIX, w);
  }
}
