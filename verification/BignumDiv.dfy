/** Long division of bignum.c: `bigdivmod`. */
module BignumDiv {
  import opened Arith
  import opened Digits
  import opened Bignums
  import opened BignumShift

  /** One column of a chain that multiplies by `dd`. */
  ghost predicate Scaled(z: seq<Digit>, c: int, a: seq<Digit>, dd: int) {
    Val(z) + c * W(|z|) == dd * Below(a, |z|)
  }

  lemma ScaledStep(z: seq<Digit>, c: int, a: seq<Digit>, dd: int, t: int, z': seq<Digit>)
    requires Scaled(z, c, a, dd) && |z| < |a| && t == c + a[|z|] * dd && z' == z + [Lo(t)]
    ensures Scaled(z', Dn(t), a, dd)
  {
    hide Val, W, Below, Lo, Dn;
    var i := |z|;
    BelowStep(a, i);
    ValSnoc(z, Lo(t));
    WStep(i);
    Column(t, W(i));
    ScaleArith(c, a[i], dd, W(i), Below(a, i));
  }

  lemma ScaleArith(c: int, d: int, dd: int, w: int, below: int)
    ensures (c + d * dd) * w + dd * below == c * w + dd * (below + d * w)
  {
    DistributeRight(c, d * dd, w);
    Distribute(dd, below, d, w);
    assert d * dd * w == d * (dd * w);
  }

  lemma ProductFits(d: Digit, dd: int, c: int)
    requires 0 <= dd <= 0x8000 && 0 <= c < 0x8000
    ensures 0 <= c + d * dd < 0x8000_0000 && Dn(c + d * dd) < 0x8000 && 0 <= Dn(c + d * dd)
    ensures 0 <= d * dd
    ensures c < dd ==> Dn(c + d * dd) < dd
  {
    MulMono(0, d, dd);
    MulMono(d, 0xffff, dd);
  }

  /** The scaling loops: `dst` receives the `n` low digits of `src * dd`; the carry is returned. */
  method ScaleDigits(src: array<Digit>, n: nat, dd: Digit, dst: array<Digit>) returns (num: Long)
    requires n <= src.Length && n <= dst.Length && src != dst && 1 <= dd <= 0x8000
    modifies dst
    ensures 0 <= num < dd
    ensures Val(dst[..n]) + num * W(n) == dd * Val(src[..n])
    ensures dst[n..] == old(dst[n..])
  {
    hide Val, W, Below, Scaled, Lo, Dn;
    ghost var a := src[..n];
    var j := 0;
    num := 0;
    ScaledNone(dst[..0], a, dd);
    while j < n
      invariant 0 <= j <= n && 0 <= num < dd
      invariant Scaled(dst[..j], num, a, dd)
      invariant dst[n..] == old(dst[n..])
    {
      ghost var written, c := dst[..j], num;
      ProductFits(src[j], dd, num);
      num := num + src[j] * dd;
      dst[j] := Lo(num);
      ScaledStep(written, c, a, dd, num, dst[..j + 1]);
      num := Dn(num);
      j := j + 1;
    }
    ScaledAll(dst[..n], num, a, dd);
  }

  lemma ScaledNone(z: seq<Digit>, a: seq<Digit>, dd: int)
    requires z == []
    ensures Scaled(z, 0, a, dd)
  {
    assert a[..0] == [];
  }

  lemma ScaledAll(z: seq<Digit>, c: int, a: seq<Digit>, dd: int)
    requires Scaled(z, c, a, dd) && |z| == |a|
    ensures Val(z) + c * W(|z|) == dd * Val(a)
  {
  }

  /** The digits of a running division by one digit, from the top: quotient written, remainder carried. */
  ghost predicate ShortQuotient(q: seq<Digit>, r: int, a: seq<Digit>, dd: int) {
    Val(a) == Val(q) * dd + r
  }

  lemma ShortStep(q: seq<Digit>, r: int, a: seq<Digit>, dd: int, d: Digit, e: Digit, r': int)
    requires ShortQuotient(q, r, a, dd) && dd > 0 && r * RADIX + d == e * dd + r'
    ensures ShortQuotient([e] + q, r', [d] + a, dd)
  {
    hide Val;
    ValCons(d, a);
    ValCons(e, q);
    DistributeRight(Val(q) * dd, r, RADIX);
    DistributeRight(e, RADIX * Val(q), dd);
    assert Val(q) * dd * RADIX == RADIX * Val(q) * dd;
  }

  lemma ShortDigit(r: nat, d: Digit, dd: int)
    requires r < dd <= 0x1_0000
    ensures Up(r) == r * RADIX && r * RADIX + d < 0x1_0000_0000
    ensures 0 <= (r * RADIX + d) / dd <= 0xffff
    ensures r * RADIX + d == (r * RADIX + d) / dd * dd + (r * RADIX + d) % dd
  {
    QuotientDigit(r, d, dd);
  }

  /** The single-digit division loop, used for a one-digit divisor, for un-scaling the remainder and for printing. */
  method ShortDivide(zds: array<Digit>, n: nat, dd: ULong) returns (t2: ULong)
    requires n <= zds.Length && 0 < dd <= 0x1_0000
    modifies zds
    ensures t2 < dd
    ensures old(Val(zds[..n])) == Val(zds[..n]) * dd + t2
    ensures zds[n..] == old(zds[n..])
  {
    hide Val, ShortQuotient, Up;
    ghost var a := zds[..n];
    t2 := 0;
    var i := n;
    ShortNone(zds[n..n], a[n..], dd);
    while i > 0
      invariant 0 <= i <= n && t2 < dd
      invariant zds[..i] == a[..i] && zds[n..] == old(zds[n..])
      invariant ShortQuotient(zds[i..n], t2, a[i..], dd)
    {
      i := i - 1;
      ghost var written, consumed, r := zds[i + 1..n], a[i + 1..], t2;
      var d := zds[i];
      assert d == a[..i + 1][i];
      ShortDigit(t2, d, dd);
      t2 := Up(t2) + d;
      var e: Digit := t2 / dd;
      zds[i] := e;
      t2 := t2 % dd;
      ShortStep(written, r, consumed, dd, d, e, t2);
      assert zds[i..n] == [e] + written && a[i..] == [d] + consumed;
    }
    ShortAll(zds[0..n], zds[..n], t2, a[0..], a, dd);
  }

  lemma ShortNone(q: seq<Digit>, a: seq<Digit>, dd: int)
    requires q == a == []
    ensures ShortQuotient(q, 0, a, dd)
  {
  }

  lemma ShortAll(q0: seq<Digit>, q: seq<Digit>, r: int, a0: seq<Digit>, a: seq<Digit>, dd: int)
    requires ShortQuotient(q0, r, a0, dd) && q == q0 && a == a0
    ensures Val(a) == Val(q) * dd + r
  {
  }

  /** The window of `z` after subtracting `q` times the low digits of `y`, with borrow `num` and product carry `t2`. */
  ghost predicate Subtracted(z: seq<Digit>, num: int, t2: int, a: seq<Digit>, q: int, y: seq<Digit>) {
    Val(z) + (num - t2) * W(|z|) == Below(a, |z|) - q * Below(y, |z|)
  }

  lemma SubtractStep(z: seq<Digit>, num: int, t2: int, a: seq<Digit>, q: int, y: seq<Digit>, t: int, s: int, z': seq<Digit>)
    requires Subtracted(z, num, t2, a, q, y) && |z| < |a| && |z| < |y|
    requires t == t2 + y[|z|] * q && s == a[|z|] + (num - Lo(t)) && z' == z + [Lo(s)]
    ensures Subtracted(z', Dn(s), Dn(t), a, q, y)
  {
    hide Val, W, Below, Lo, Dn;
    var i := |z|;
    var w := W(i);
    BelowStep(a, i);
    BelowStep(y, i);
    ValSnoc(z, Lo(s));
    WStep(i);
    Column(s, w);
    Column(t, w);
    SubtractArith(w, num, t2, a[i], q, y[i], Below(y, i), Lo(t), RADIX * w, Dn(s), Dn(t));
  }

  lemma SubtractArith(w: int, num: int, t2: int, ai: int, q: int, yi: int, below: int, lo: int, w': int, hs: int, ht: int)
    ensures (hs - ht) * w' == hs * w' - ht * w'
    ensures (ai + (num - lo)) * w - (t2 + yi * q) * w + lo * w - q * below
         == ai * w + (num - t2) * w - q * (below + yi * w)
  {
    assert (ai + (num - lo)) * w == ai * w + num * w - lo * w;
    assert (t2 + yi * q) * w == t2 * w + yi * q * w;
    Distribute(q, below, yi, w);
    assert yi * (q * w) == yi * q * w;
    assert (num - t2) * w == num * w - t2 * w;
  }

  lemma SubtractFits(z: Digit, num: int, t2: int, y: Digit, q: Digit)
    requires -1 <= num <= 0 && 0 <= t2 <= 0xffff
    ensures 0 <= y * q && 0 <= t2 + y * q < 0x1_0000_0000 && 0 <= Dn(t2 + y * q) <= 0xffff
    ensures var s := z + (num - Lo(t2 + y * q)); -0x1_0000 <= s <= 0xffff && -1 <= Dn(s) <= 0
  {
    MulMono(0, y, q);
    MulMono(y, 0xffff, q);
    MulMono(q, 0xffff, 0xffff);
  }

  /**
   * "multiply and subtract": `ny` digits of `zds` from `lo` on lose `q * y`. The returned word is the high digit with
   * the borrow taken off; the high digit itself is not updated.
   */
  method MultiplySubtract(zds: array<Digit>, lo: nat, yds: array<Digit>, ny: nat, q: Digit) returns (num: Long)
    requires zds != yds && 0 < ny <= yds.Length && lo + ny < zds.Length
    modifies zds
    ensures zds[..lo] == old(zds[..lo]) && zds[lo + ny..] == old(zds[lo + ny..])
    ensures Val(zds[lo..lo + ny]) + num * W(ny)
         == old(Val(zds[lo..lo + ny])) + zds[lo + ny] * W(ny) - q * Val(yds[..ny])
  {
    hide Val, W, Below, Subtracted, Lo, Dn, ToLong;
    ghost var a, y := zds[lo..lo + ny], yds[..ny];
    var i := 0;
    num := 0;
    var t2: ULong := 0;
    SubtractedNone(zds[lo..lo], a, q, y);
    while i < ny
      invariant 0 <= i <= ny && -1 <= num <= 0 && t2 <= 0xffff
      invariant zds[..lo] == old(zds[..lo]) && zds[lo + i..] == old(zds[lo + i..])
      invariant Subtracted(zds[lo..lo + i], num, t2, a, q, y)
    {
      ghost var written, n0, c0 := zds[lo..lo + i], num, t2;
      assert zds[lo + i] == zds[lo + i..][0] == a[i];
      SubtractFits(zds[lo + i], num, t2, yds[i], q);
      t2 := t2 + yds[i] * q;
      var ee: Long := num - Lo(t2);
      num := zds[lo + i] + ee;
      ghost var s := num;
      if ee != 0 {
        zds[lo + i] := Lo(num);
      } else {
        LoOfSum(0, num);
      }
      assert zds[lo + i + 1..] == old(zds[lo + i..])[1..] == old(zds[lo + i + 1..]);
      SubtractStep(written, n0, c0, a, q, y, t2, s, zds[lo..lo + i + 1]);
      num := Dn(num);
      t2 := Dn(t2);
      i := i + 1;
    }
    assert zds[lo + ny] == zds[lo + ny..][0];
    BorrowFromTop(num, zds[lo + ny], t2);
    SubtractedAll(zds[lo..lo + ny], num, t2, a, q, y, zds[lo + ny]);
    num := ToLong(num + ToULong(zds[lo + ny] - t2));
  }

  lemma BorrowFromTop(num: int, z: Digit, t2: int)
    requires -1 <= num <= 0 && 0 <= t2 <= 0xffff
    ensures ToLong(num + ToULong(z as int - t2)) == num + z - t2
  {
  }

  lemma SubtractedNone(z: seq<Digit>, a: seq<Digit>, q: int, y: seq<Digit>)
    requires z == []
    ensures Subtracted(z, 0, 0, a, q, y)
  {
    assert a[..0] == [] && y[..0] == [];
  }

  lemma SubtractedAll(z: seq<Digit>, num: int, t2: int, a: seq<Digit>, q: int, y: seq<Digit>, top: int)
    requires Subtracted(z, num, t2, a, q, y) && |z| == |a| == |y|
    ensures Val(z) + (num + top - t2) * W(|z|) == Val(a) + top * W(|z|) - q * Val(y)
  {
    hide Val, W;
    assert (num + top - t2) * W(|z|) == (num - t2) * W(|z|) + top * W(|z|) by {
      DistributeRight(num - t2, top, W(|z|));
    }
  }

  /** "add back": `ny` digits of `zds` from `lo` on gain `y`; the carry is returned. */
  method AddBack(zds: array<Digit>, lo: nat, yds: array<Digit>, ny: nat) returns (num: Long)
    requires zds != yds && 0 < ny <= yds.Length && lo + ny < zds.Length
    modifies zds
    ensures zds[..lo] == old(zds[..lo]) && zds[lo + ny..] == old(zds[lo + ny..])
    ensures 0 <= num <= 1
    ensures Val(zds[lo..lo + ny]) + num * W(ny) == old(Val(zds[lo..lo + ny])) + Val(yds[..ny])
  {
    hide Val, W, Below, Written, Lo, Dn;
    ghost var a, y := zds[lo..lo + ny], yds[..ny];
    var i := 0;
    num := 0;
    WrittenNone(zds[lo..lo], a, y, 1);
    while i < ny
      invariant 0 <= i <= ny && 0 <= num <= 1
      invariant zds[..lo] == old(zds[..lo]) && zds[lo + i..] == old(zds[lo + i..])
      invariant Written(zds[lo..lo + i], num, a, y, 1)
    {
      ghost var written, c := zds[lo..lo + i], num;
      assert zds[lo + i] == zds[lo + i..][0] == a[i];
      var ee: Long := num + yds[i];
      num := zds[lo + i] + ee;
      CarryBit(num);
      if ee != 0 {
        zds[lo + i] := Lo(num);
      } else {
        LoOfSum(0, num);
      }
      assert zds[lo + i + 1..] == old(zds[lo + i..])[1..] == old(zds[lo + i + 1..]);
      CarryStep(written, c, a, y, 1, num, zds[lo..lo + i + 1]);
      num := Dn(num);
      i := i + 1;
    }
    WrittenAll(zds[lo..lo + ny], num, a, y, 1);
  }

  lemma CarryBit(num: int)
    requires 0 <= num <= 0x1ffff
    ensures 0 <= Dn(num) <= 1
  {
  }

  /** The trial digit of the division loop, from the two top digits of the window and the top digit of the divisor. */
  function TrialDigit(z1: Digit, z0: Digit, v1: Digit): (q: Digit)
    requires 0 < v1 && z1 <= v1
    ensures q * v1 <= z1 * RADIX + z0
    ensures z1 < v1 ==> z1 * RADIX + z0 < (q as int + 1) * v1
    ensures z1 == v1 ==> q == 0xffff
  {
    if z1 == v1 then
      MulMono(0xffff, RADIX, v1);
      0xffff
    else
      TrialFits(z1, z0, v1);
      (Up(z1) + z0) / v1
  }

  lemma TrialFits(z1: Digit, z0: Digit, v1: Digit)
    requires z1 < v1
    ensures 0 <= (Up(z1) + z0) / v1 <= 0xffff
    ensures (Up(z1) + z0) / v1 * v1 <= z1 * RADIX + z0 < ((Up(z1) + z0) / v1 + 1) * v1
  {
    ShortDigit(z1, z0, v1);
    var n, q := z1 * RADIX + z0, (z1 * RADIX + z0) / v1;
    DistributeRight(q, 1, v1);
  }

  /** The trial digit is never below the true digit. */
  lemma TrialNotBelow(u: int, low: int, p: int, v1: int, y: int, qt: int, q: int)
    requires p > 0 && v1 > 0 && 0 <= low < p && v1 * p <= y && qt * y <= u * p + low && qt >= 0
    requires u < (q + 1) * v1
    ensures qt <= q
  {
    if qt > q {
      MulMono(q + 1, qt, v1);
      MulMono(u + 1, qt * v1, p);
      MulMono(v1 * p, y, qt);
      assert qt * (v1 * p) == qt * v1 * p by { MulAssoc(qt, v1, p); }
      DistributeRight(u, 1, p);
    }
  }

  /** A window minus trial times divisor stays above minus one unit of the place above the window. */
  lemma TrialBorrow(u: int, low: int, p: int, v1: int, ylow: int, q: int, B: int)
    requires p > 0 && 0 <= low < p && 0 <= ylow < p && 0 <= q < B && q * v1 <= u
    ensures u * p + low - q * (v1 * p + ylow) > -(B * p)
  {
    MulMono(q * v1, u, p);
    Distribute(q, ylow, v1, p);
    assert q * v1 * p == v1 * (q * p) by { MulAssoc(v1, q, p); }
    assert q * (v1 * p + ylow) == q * v1 * p + q * ylow;
    MulMono(ylow, p, q);
    MulMonoStrict(q, B, p);
  }

  /** With a divisor whose top digit is at least half the radix the trial digit is at most two too large. */
  lemma TrialAtMostTwoAbove(U: int, y: int, qt: int, q: int, v1: int, p: int)
    requires p > 0 && y > 0 && v1 >= 0x8000 && v1 * p <= y
    requires U < (qt + 1) * y && U - q * y > -(RADIX * p)
    ensures q <= qt + 2
  {
    DistributeRight(q - qt - 1, qt + 1, y);
    assert (q - qt - 1) * y < RADIX * p;
    MulMono(RADIX, 2 * v1, p);
    assert 2 * v1 * p == 2 * (v1 * p) by { MulAssoc(2, v1, p); }
    MulCancelLt(q - qt - 1, 2, y);
  }

  /** What the division of one window must leave behind. */
  lemma WindowDigits(z: seq<Digit>, ny: nat)
    requires |z| == ny + 1 && ny > 0
    ensures Val(z) == Val(z[..ny]) + z[ny] * W(ny)
    ensures Val(z) == (z[ny] * RADIX + z[ny - 1]) * W(ny - 1) + Val(z[..ny - 1])
    ensures Val(z[..ny - 1]) < W(ny - 1)
    ensures W(ny) == RADIX * W(ny - 1)
  {
    hide Val, W;
    ValPrefixEnd(z, ny);
    ValPrefixEnd(z[..ny], ny - 1);
    assert z[..ny][..ny - 1] == z[..ny - 1];
    ValBound(z[..ny - 1]);
    WStep(ny - 1);
    DistributeRight(z[ny] * RADIX, z[ny - 1], W(ny - 1));
    MulAssoc(z[ny], RADIX, W(ny - 1));
  }

  lemma ValPrefixEnd(z: seq<Digit>, k: nat)
    requires |z| == k + 1
    ensures Val(z) == Val(z[..k]) + z[k] * W(k)
  {
    assert z == z[..k] + [z[k]];
    ValSnoc(z[..k], z[k]);
  }

  /** The window is below the divisor one place up, so its top digit does not exceed the divisor's. */
  lemma TopDigitBound(z: seq<Digit>, y: seq<Digit>)
    requires |z| == |y| + 1 && |y| > 0 && Val(z) < Val(y) * RADIX
    ensures z[|y|] <= y[|y| - 1]
  {
    hide Val, W;
    var ny := |y|;
    var z1: int, y1: int := z[ny], y[ny - 1];
    ValTopBounds(z);
    ValTopBounds(y);
    WStep(ny - 1);
    MulMonoStrict(Val(y), (y1 + 1) * W(ny - 1), RADIX);
    assert (y1 + 1) * W(ny - 1) * RADIX == (y1 + 1) * (RADIX * W(ny - 1));
    MulCancelLt(z1, y1 + 1, W(ny));
  }

  /** The three facts about a trial digit, on the numbers. */
  lemma TrialNumbers(U: nat, Y: nat, u: int, low: int, p: int, v1: int, ylow: int, q: int)
    requires U == u * p + low && Y == v1 * p + ylow && p > 0 && 0 <= low < p && 0 <= ylow < p
    requires 0x8000 <= v1 && 0 <= q < RADIX && q * v1 <= u && U < Y * RADIX
    requires u < (q + 1) * v1 || q == 0xffff
    ensures Y > 0 && U / Y <= q <= U / Y + 2
    ensures U - q * Y > -(RADIX * p)
  {
    MulMono(1, v1, p);
    var qt, r := U / Y, U % Y;
    assert U == qt * Y + r && 0 <= r < Y;
    QuotientBelowRadix(U, Y);
    if u < (q + 1) * v1 {
      TrialNotBelow(u, low, p, v1, Y, qt, q);
    }
    TrialBorrow(u, low, p, v1, ylow, q, RADIX);
    DistributeRight(qt, 1, Y);
    TrialAtMostTwoAbove(U, Y, qt, q, v1, p);
  }

  /** The three facts about a trial digit, for a window of digits and a scaled divisor. */
  lemma TrialBounds(z: seq<Digit>, y: seq<Digit>, q: Digit)
    requires |z| == |y| + 1 && |y| > 0 && Val(z) < Val(y) * RADIX
    requires y[|y| - 1] >= 0x8000 && z[|y|] <= y[|y| - 1]
    requires q == TrialDigit(z[|y|], z[|y| - 1], y[|y| - 1])
    ensures Val(y) > 0 && Val(z) / Val(y) <= q <= Val(z) / Val(y) + 2
    ensures Val(z) - q * Val(y) + W(|y|) > 0
  {
    hide Val, W, TrialDigit;
    var ny := |y|;
    WindowDigits(z, ny);
    ValPrefixEnd(y, ny - 1);
    ValBound(y[..ny - 1]);
    TrialNumbers(Val(z), Val(y), z[ny] * RADIX + z[ny - 1], Val(z[..ny - 1]), W(ny - 1), y[ny - 1],
      Val(y[..ny - 1]), q);
  }

  lemma QuotientBelowRadix(U: nat, Y: nat)
    requires U < Y * RADIX && Y > 0
    ensures 0 <= U / Y <= 0xffff
  {
    assert U == U / Y * Y + U % Y;
    MulCancelLt(U / Y, RADIX, Y);
  }

  /** The state of the add-back loop: `q` is not below the true digit and the window is `U - q * Y` up to the borrow. */
  ghost predicate Corrected(w: seq<Digit>, num: int, U: nat, Y: nat, q: int)
    requires Y > 0
  {
    -1 <= num <= 0 && U / Y <= q && Val(w) + num * W(|w|) == U - q * Y
  }

  /** The borrow word after multiply-subtract is 0 or -1. */
  lemma BorrowIsOneBit(w: seq<Digit>, num: int, U: nat, Y: nat, q: int)
    requires Y > 0 && U / Y <= q && Y <= W(|w|)
    requires Val(w) + num * W(|w|) == U - q * Y && U - q * Y + W(|w|) > 0
    ensures Corrected(w, num, U, Y, q)
  {
    ValBound(w);
    var P := W(|w|);
    assert U == U / Y * Y + U % Y;
    MulMono(U / Y, q, Y);
    if num >= 1 {
      MulMono(1, num, P);
    }
    if num <= -2 {
      MulMono(num, -2, P);
    }
  }

  lemma BelowTrueDigit(U: nat, Y: nat, q: int)
    requires Y > 0 && U - q * Y < 0
    ensures U / Y <= q - 1
  {
    var qt := U / Y;
    assert U == qt * Y + U % Y;
    if q <= qt {
      MulMono(q, qt, Y);
    }
  }

  lemma AddBackStep(w: seq<Digit>, w': seq<Digit>, num: int, num': int, U: nat, Y: nat, q: int)
    requires Y > 0 && Corrected(w, num, U, Y, q) && num == -1 && 0 <= num' <= 1 && |w| == |w'|
    requires Val(w') + num' * W(|w|) == Val(w) + Y
    ensures Corrected(w', num' - 1, U, Y, q - 1)
  {
    hide Val, W;
    ValBound(w);
    BelowTrueDigit(U, Y, q);
    DistributeRight(num', -1, W(|w|));
    DistributeRight(q, -1, Y);
  }

  lemma CorrectedDone(w: seq<Digit>, U: nat, Y: nat, q: int)
    requires Y > 0 && Corrected(w, 0, U, Y, q)
    ensures q == U / Y && Val(w) == U % Y
  {
    assert U == U / Y * Y + U % Y;
    DistributeRight(q, -(U / Y), Y);
    if q > U / Y {
      MulMono(1, q - U / Y, Y);
    }
  }

  /**
   * One turn of the division loop at place `j`: the window of `ny + 1` digits up to `j` is replaced by its remainder,
   * and its top digit by the quotient digit. `trial` is the first guess and `rounds` the number of add-backs.
   */
  method DivideDigit(zds: array<Digit>, j: nat, yds: array<Digit>, ny: nat)
    returns (ghost trial: Digit, ghost rounds: nat)
    requires zds != yds && 0 < ny <= yds.Length && ny <= j < zds.Length
    requires yds[ny - 1] >= 0x8000
    requires Val(zds[j - ny..j + 1]) < Val(yds[..ny]) * RADIX
    modifies zds
    ensures zds[..j - ny] == old(zds[..j - ny]) && zds[j + 1..] == old(zds[j + 1..])
    ensures Val(yds[..ny]) > 0
    ensures zds[j] == old(Val(zds[j - ny..j + 1])) / Val(yds[..ny])
    ensures Val(zds[j - ny..j]) == old(Val(zds[j - ny..j + 1])) % Val(yds[..ny])
    ensures trial == zds[j] + rounds && rounds <= 2
  {
    hide Val, W, Corrected, TrialDigit;
    var lo := j - ny;
    ghost var z, y := zds[lo..j + 1], yds[..ny];
    ghost var U, Y := Val(z), Val(y);
    TopDigitBound(z, y);
    var q: Digit := TrialDigit(zds[j], zds[j - 1], yds[ny - 1]);
    TrialBounds(z, y, q);
    trial := q;
    rounds := 0;
    WindowDigits(z, ny);
    assert z[..ny] == zds[lo..j];
    ValBound(y);
    if q != 0 {
      var num := MultiplySubtract(zds, lo, yds, ny, q);
      BorrowIsOneBit(zds[lo..j], num, U, Y, q);
      while num != 0
        invariant zds[..lo] == old(zds[..lo]) && zds[j..] == old(zds[j..])
        invariant Corrected(zds[lo..j], num, U, Y, q) && -1 <= num <= 0
        invariant q as int + rounds == trial
        decreases q
      {
        ghost var w := zds[lo..j];
        var carry := AddBack(zds, lo, yds, ny);
        AddBackStep(w, zds[lo..j], num, carry, U, Y, q);
        QuotientBelow(zds[lo..j], carry - 1, U, Y, q - 1);
        q := q - 1;
        rounds := rounds + 1;
        num := carry - 1;
      }
    } else {
      NothingToSubtract(z, y);
    }
    CorrectedDone(zds[lo..j], U, Y, q);
    ghost var w := zds[lo..j];
    zds[j] := q;
    assert zds[lo..j] == w;
    assert zds[j + 1..] == old(zds[j..])[1..];
  }

  lemma QuotientBelow(w: seq<Digit>, num: int, U: nat, Y: nat, q: int)
    requires Y > 0 && Corrected(w, num, U, Y, q)
    ensures U / Y <= q && q >= 0
  {
  }

  /** When the trial digit is zero the top digit of the window is zero already. */
  lemma NothingToSubtract(z: seq<Digit>, y: seq<Digit>)
    requires |z| == |y| + 1 && Val(y) > 0 && Val(z) / Val(y) <= 0
    ensures Corrected(z[..|y|], 0, Val(z), Val(y), 0)
  {
    hide Val, W;
    var ny := |y|;
    ValPrefixEnd(z, ny);
    ValBound(y);
    assert Val(z) < Val(y) by {
      assert Val(z) == Val(z) / Val(y) * Val(y) + Val(z) % Val(y);
    }
    MulCancelLt(z[ny], 1, W(ny));
  }

  /**
   * The state of the division loop before place `j`: quotient digits above `j`, the running remainder up to `j`, and
   * the remainder below the divisor moved to its place.
   */
  ghost predicate Progress(z: seq<Digit>, j: int, X: nat, Y: nat, ny: nat)
    requires 0 < ny <= j + 1 <= |z|
  {
    && X == Val(z[j + 1..]) * (W(j + 1 - ny) * Y) + Val(z[..j + 1])
    && Val(z[..j + 1]) < Y * W(j + 1 - ny)
  }

  /** The window at `j` is below the divisor one place up. */
  lemma WindowBound(z: seq<Digit>, j: nat, Y: nat, ny: nat)
    requires 0 < ny <= j < |z| && Val(z[..j + 1]) < Y * W(j + 1 - ny)
    ensures Val(z[j - ny..j + 1]) < Y * RADIX
  {
    hide Val, W;
    var k := j - ny;
    var U := Val(z[k..j + 1]);
    ValSplit(z[..j + 1], k);
    assert z[..j + 1][k..] == z[k..j + 1];
    WStep(k);
    MulAssoc(Y, RADIX, W(k));
    assert W(k) * U == U * W(k);
    MulCancelLt(U, Y * RADIX, W(k));
  }

  lemma ProgressArith(X: int, Q: int, w: int, Y: int, L: int, U: int, q: int, R: int)
    requires X == Q * (RADIX * w * Y) + (L + w * U) && U == q * Y + R
    requires 0 <= L < w && 0 <= R < Y
    ensures X == (q + RADIX * Q) * (w * Y) + (L + w * R)
    ensures L + w * R < Y * w
  {
    assert RADIX * w * Y == RADIX * (w * Y) by { MulAssoc(RADIX, w, Y); }
    assert Q * (RADIX * (w * Y)) == RADIX * Q * (w * Y) by { MulAssoc(Q, RADIX, w * Y); }
    DistributeRight(q, RADIX * Q, w * Y);
    assert w * (q * Y + R) == q * (w * Y) + w * R by {
      assert w * (q * Y) == q * (w * Y) by { MulAssoc(w, q, Y); MulAssoc(q, w, Y); }
    }
    MulMono(R + 1, Y, w);
    DistributeRight(R, 1, w);
  }

  lemma ProgressStep(z: seq<Digit>, z': seq<Digit>, j: nat, X: nat, Y: nat, ny: nat)
    requires 0 < ny <= j < |z| == |z'| && Y > 0 && Progress(z, j, X, Y, ny)
    requires z'[..j - ny] == z[..j - ny] && z'[j + 1..] == z[j + 1..]
    requires z'[j] == Val(z[j - ny..j + 1]) / Y && Val(z'[j - ny..j]) == Val(z[j - ny..j + 1]) % Y
    ensures Progress(z', j - 1, X, Y, ny)
  {
    hide Val, W;
    var k := j - ny;
    ValSplit(z[..j + 1], k);
    assert z[..j + 1][..k] == z[..k] && z[..j + 1][k..] == z[k..j + 1];
    ValSplit(z'[..j], k);
    assert z'[..j][..k] == z'[..k] && z'[..j][k..] == z'[k..j];
    assert z'[j..] == [z'[j]] + z'[j + 1..];
    ValCons(z'[j], z'[j + 1..]);
    ValBound(z[..k]);
    WStep(k);
    var U := Val(z[k..j + 1]);
    assert U == U / Y * Y + U % Y;
    ProgressArith(X, Val(z[j + 1..]), W(k), Y, Val(z[..k]), U, z'[j], U % Y);
  }

  lemma ProgressStart(z: seq<Digit>, j: nat, Y: nat, ny: nat)
    requires 0 < ny <= j && j + 1 == |z| && Val(z) < Y * W(j + 1 - ny)
    ensures Progress(z, j, Val(z), Y, ny)
  {
    assert z[j + 1..] == [] && z[..j + 1] == z;
  }

  lemma ProgressEnd(z: seq<Digit>, X: nat, Y: nat, ny: nat)
    requires 0 < ny <= |z| && Progress(z, ny - 1, X, Y, ny)
    ensures X == Val(z[ny..]) * Y + Val(z[..ny]) && Val(z[..ny]) < Y
  {
    assert W(0) == 1;
  }

  /** The division loop: the quotient ends up above place `ny` and the remainder below it. */
  method DivideLoop(zds: array<Digit>, top: nat, yds: array<Digit>, ny: nat)
    requires zds != yds && 0 < ny <= yds.Length && ny <= top && top + 1 == zds.Length
    requires yds[ny - 1] >= 0x8000
    requires Val(zds[..]) < Val(yds[..ny]) * W(top + 1 - ny)
    modifies zds
    ensures old(Val(zds[..])) == Val(zds[ny..]) * Val(yds[..ny]) + Val(zds[..ny])
    ensures Val(zds[..ny]) < Val(yds[..ny])
  {
    hide Val, W, Progress;
    ghost var X, Y := Val(zds[..]), Val(yds[..ny]);
    var j := top;
    ProgressStart(zds[..], j, Y, ny);
    while j >= ny
      invariant ny - 1 <= j <= top
      invariant Progress(zds[..], j, X, Y, ny)
    {
      ghost var z := zds[..];
      WindowOfProgress(z, j, X, Y, ny);
      assert z[j - ny..j + 1] == zds[j - ny..j + 1];
      ghost var trial, rounds := DivideDigit(zds, j, yds, ny);
      assert zds[..][j + 1..] == z[j + 1..] && zds[..][..j - ny] == z[..j - ny];
      assert zds[..][j - ny..j] == zds[j - ny..j];
      ProgressStep(z, zds[..], j, X, Y, ny);
      j := j - 1;
    }
    ProgressEnd(zds[..], X, Y, ny);
    assert zds[..][ny..] == zds[ny..] && zds[..][..ny] == zds[..ny];
  }

  lemma WindowOfProgress(z: seq<Digit>, j: nat, X: nat, Y: nat, ny: nat)
    requires 0 < ny <= j < |z| && Progress(z, j, X, Y, ny)
    ensures Val(z[j - ny..j + 1]) < Y * RADIX
  {
    WindowBound(z, j, Y, ny);
  }

  /** The scale factor makes the divisor's top digit at least half the radix without overflowing it. */
  lemma ScaleFactor(v: Digit)
    requires v > 0
    ensures var dd := RADIX / (v as int + 1);
      1 <= dd <= 0x8000 && (v as int + 1) * dd <= RADIX && v * dd >= 0x8000
  {
    var u: int := v;
    var dd, r := RADIX / (u + 1), RADIX % (u + 1);
    assert RADIX == (u + 1) * dd + r && 0 <= r < u + 1;
    assert (u + 1) * dd == u * dd + dd;
    if dd >= 4 && u >= 2 {
      ScaleProduct(u, dd);
    } else if u == 1 {
    } else if dd <= 0 {
      MulMono(dd, 0, u + 1);
      assert false;
    } else if dd == 1 {
    } else if dd == 2 {
    } else {
      assert dd == 3;
    }
  }

  lemma ScaleProduct(u: int, dd: int)
    requires u >= 2 && dd >= 4
    ensures u * dd >= 4 * u + 2 * dd - 8
  {
    MulMono(4, dd, u - 2);
    assert (u - 2) * dd == u * dd - 2 * dd;
  }

  /** A scaled divisor still has as many digits, and its top digit is at least half the radix. */
  lemma ScaledDivisor(y: seq<Digit>, t: seq<Digit>, c: int, dd: int)
    requires |y| == |t| > 0 && y[|y| - 1] > 0 && dd == RADIX / (y[|y| - 1] as int + 1)
    requires 0 <= c && Val(t) + c * W(|t|) == dd * Val(y)
    ensures c == 0 && t[|t| - 1] >= 0x8000
  {
    hide Val, W;
    var k := |y| - 1;
    var v: int, p := y[k], W(k);
    ScaleFactor(y[k]);
    ValTopBounds(y);
    WStep(k);
    assert dd * Val(y) < RADIX * p by {
      MulMonoStrict(Val(y), (v + 1) * p, dd);
      assert dd * ((v + 1) * p) == (v + 1) * dd * p by { MulAssoc(dd, v + 1, p); }
      MulMono((v + 1) * dd, RADIX, p);
    }
    if c > 0 {
      MulMono(1, c, W(|t|));
      assert false;
    }
    ValTopBounds(t);
    var t1: int := t[k];
    assert dd * Val(y) >= v * dd * p by {
      MulMono(v * p, Val(y), dd);
      assert dd * (v * p) == v * dd * p by { MulAssoc(dd, v, p); }
    }
    MulMono(0x8000, v * dd, p);
    MulCancelLt(0x8000, t1 + 1, p);
  }

  /** The scaled dividend is below the scaled divisor moved past its top digit. */
  lemma ScaledDividend(x: nat, nx: nat, dd: int, y: seq<Digit>, top: nat)
    requires x < W(nx) && 0 < |y| <= nx && nx <= top && 1 <= dd <= 0x8000 && y[|y| - 1] >= 0x8000
    ensures dd * x < Val(y) * W(top + 1 - |y|)
  {
    hide Val, W;
    var k := |y| - 1;
    ValTopBounds(y);
    MulMonoStrict(x, W(nx), dd);
    MulMono(dd, 0x8000, W(nx));
    PowMonoW(nx, top);
    MulMono(W(nx), W(top), 0x8000);
    WAdd(k, top - k);
    MulMono(0x8000, y[k], W(k));
    assert 0x8000 * (W(k) * W(top - k)) == 0x8000 * W(k) * W(top - k) by { MulAssoc(0x8000, W(k), W(top - k)); }
    MulMono(0x8000 * W(k), Val(y), W(top - k));
  }

  lemma PowMonoW(m: nat, n: nat)
    requires m <= n
    ensures W(m) <= W(n)
  {
    PowMono(RADIX, m, n);
  }

  /** Un-scaling: from the scaled identity to quotient and remainder of the original magnitudes. */
  lemma Unscale(x: nat, y: nat, dd: int, Q: nat, R: nat, r: nat, t2: int)
    requires dd >= 1 && dd * x == Q * (dd * y) + R && R < dd * y && R == r * dd + t2 && 0 <= t2 < dd
    ensures y > 0 && x / y == Q && x % y == r
  {
    assert dd * x == dd * (Q * y) + R by { MulAssoc(Q, dd, y); MulAssoc(dd, Q, y); }
    assert dd * (x - Q * y) == R by { Distribute(dd, x, -1, Q * y); }
    assert (x - Q * y - r) * dd == t2 by {
      assert (x - Q * y - r) * dd == (x - Q * y) * dd - r * dd;
    }
    SmallMultiple(x - Q * y - r, dd);
    assert x == Q * y + r;
    assert r * dd < y * dd;
    MulCancelLt(r, y, dd);
    DivUnique(x, y, Q, r);
  }

  lemma ZeroAbove(ds: seq<Digit>, k: nat)
    requires k <= |ds| && forall i :: k <= i < |ds| ==> ds[i] == 0
    ensures Val(ds) == Val(ds[..k])
  {
    ValZeros(ds, k);
  }

  /** Where the leading zeros of a non-zero divisor end. */
  method SkipLeadingZeros(y: Bignum) returns (ny: nat)
    requires y.Valid() && y.Mag() > 0
    ensures 0 < ny <= y.len && y.digits[ny - 1] != 0 && Val(y.digits[..ny]) == y.Mag()
    ensures y.digits[y.len - 1] != 0 ==> ny == y.len
  {
    hide Val;
    ny := y.len;
    ghost var b := y.Digits();
    NonZeroHasDigits(b);
    while y.digits[ny - 1] == 0
      invariant 0 < ny <= y.len
      invariant forall i :: ny <= i < |b| ==> b[i] == 0
      decreases ny
    {
      ny := ny - 1;
      ZeroAbove(b, ny);
      assert b[..ny] == y.digits[..ny];
      NonZeroHasDigits(b[..ny]);
    }
    ZeroAbove(b, ny);
    assert b[..ny] == y.digits[..ny];
  }

  lemma NonZeroHasDigits(b: seq<Digit>)
    requires Val(b) > 0
    ensures |b| > 0
  {
  }

  function Signed(sign: bool, m: nat): int {
    if sign then m else -(m as int)
  }

  lemma UnscaledDivisor(y: seq<Digit>)
    requires |y| > 0 && y[|y| - 1] > 0 && RADIX / (y[|y| - 1] as int + 1) == 1
    ensures y[|y| - 1] >= 0x8000
  {
  }

  /** The scaling step of `bigdivmod`: dividend into `zds`, divisor into a clone unless the factor is 1. */
  method Scale(x: Bignum, y: Bignum, ny: nat, zds: array<Digit>) returns (dd: Digit, yds: array<Digit>)
    requires x.Valid() && y.Valid() && 0 < ny == y.len && y.digits[ny - 1] > 0 && x.len < zds.Length
    requires zds != x.digits && zds != y.digits
    modifies zds
    ensures 1 <= dd <= 0x8000 && yds != zds && ny <= yds.Length && yds[ny - 1] >= 0x8000
    ensures Val(yds[..ny]) == dd * y.Mag()
    ensures Val(zds[..x.len + 1]) == dd * x.Mag()
    ensures zds[x.len + 1..] == old(zds[x.len + 1..])
  {
    hide Val, W;
    var nx := x.len;
    ghost var a, b := x.Digits(), y.Digits();
    ScaleFactor(y.digits[ny - 1]);
    dd := RADIX / (y.digits[ny - 1] as int + 1);
    yds := y.digits;
    if dd != 1 {
      var t := new Bignum.Clone(y);
      var carry := ScaleDigits(yds, ny, dd, t.digits);
      assert yds[..ny] == b;
      ScaledDivisor(b, t.digits[..ny], carry, dd);
      yds := t.digits;
      var num := ScaleDigits(x.digits, nx, dd, zds);
      ghost var written, last: Digit := zds[..nx], num;
      zds[nx] := num;
      assert zds[..nx + 1] == written + [last];
      ValSnoc(written, last);
      assert zds[nx + 1..] == old(zds[nx..])[1..];
    } else {
      UnscaledDivisor(b);
      zds[nx] := 0;
      var j := nx;
      while j > 0
        invariant 0 <= j <= nx && zds[nx] == 0
        invariant zds[j..nx] == a[j..]
        invariant zds[nx + 1..] == old(zds[nx + 1..])
      {
        j := j - 1;
        ghost var done := zds[j + 1..nx];
        zds[j] := x.digits[j];
        assert zds[j..nx] == [a[j]] + done;
      }
      assert zds[..nx + 1] == a + [0] by { assert zds[0..nx] == a; }
      ValSnoc(a, 0);
      assert yds[..ny] == b;
    }
  }

  /** "move quotient down in z". */
  method MoveDown(z: Bignum, ny: nat) returns (v: Value)
    requires z.Valid() && ny <= z.len == z.digits.Length
    ensures Represents(v, Signed(z.sign, Val(z.digits[ny..])))
  {
    hide Val, W;
    var d := new Bignum.Clone(z);
    var zds := d.digits;
    ghost var all := z.digits[..];
    assert zds[..] == all;
    var j := z.len - ny;
    var i := 0;
    while i < j
      modifies zds
      invariant 0 <= i <= j
      invariant zds[..i] == all[ny..ny + i] && zds[i..] == all[i..]
    {
      ghost var moved := zds[..i];
      assert zds[i + ny] == zds[i..][ny];
      zds[i] := zds[i + ny];
      assert zds[..i + 1] == moved + [all[ny + i]];
      assert zds[i + 1..] == all[i..][1..];
      i := i + 1;
    }
    d.len := i;
    assert d.Digits() == all[ny..];
    v := BigNorm(d);
  }

  /** "just normalize remainder", after dividing the scale factor out of it. */
  method UnscaleRemainder(z: Bignum, ny: nat, dd: Digit, sign: bool, ghost x: nat, ghost y: nat) returns (v: Value)
    requires z.Valid() && ny <= z.len == z.digits.Length && dd >= 1
    requires dd * x == Val(z.digits[ny..]) * (dd * y) + Val(z.digits[..ny]) && Val(z.digits[..ny]) < dd * y
    ensures y > 0 && x / y == Val(z.digits[ny..])
    ensures Represents(v, Signed(sign, x % y))
  {
    hide Val, W;
    var m := new Bignum.Clone(z);
    ghost var Q, R := Val(z.digits[ny..]), Val(z.digits[..ny]);
    assert m.digits[..ny] == z.digits[..ny];
    var t2 := ShortDivide(m.digits, ny, dd);
    Unscale(x, y, dd, Q, R, Val(m.digits[..ny]), t2);
    m.len := ny;
    m.sign := sign;
    v := BigNorm(m);
  }

  lemma AllButZero(z: seq<Digit>, n: nat, high: seq<Digit>)
    requires n <= |z| && z[n..] == high && forall i :: 0 <= i < |high| ==> high[i] == 0
    ensures Val(z) == Val(z[..n])
  {
    assert forall i :: n <= i < |z| ==> z[i] == high[i - n];
    ValZeros(z, n);
  }

  /** Scaling and the division loop: `z` ends up with the quotient above place `ny` and the scaled remainder below. */
  method ScaleAndDivide(x: Bignum, y: Bignum, z: Bignum) returns (ny: nat, dd: Digit)
    requires x.Valid() && y.Valid() && 0 < y.len <= x.len && IsNormal(y.Digits())
    requires z.len == z.digits.Length == (if x.len == y.len then x.len + 2 else x.len + 1)
    requires z.digits != x.digits && z.digits != y.digits
    modifies z.digits
    ensures ny == y.len && dd >= 1
    ensures dd * x.Mag() == Val(z.digits[ny..]) * (dd * y.Mag()) + Val(z.digits[..ny])
    ensures Val(z.digits[..ny]) < dd * y.Mag()
  {
    hide Val, W;
    var nx := x.len;
    var zds := z.digits;
    NormalIsPositive(y.Digits());
    if nx == y.len { zds[nx + 1] := 0; }
    ny := SkipLeadingZeros(y);
    ghost var high := zds[nx + 1..];
    assert forall i :: 0 <= i < |high| ==> high[i] == 0;
    var yds;
    dd, yds := Scale(x, y, ny, zds);
    var top := if nx == ny then nx + 1 else nx;
    AllButZero(zds[..], nx + 1, high);
    DividendFits(x.Digits(), dd, yds[..ny], top);
    DivideLoop(zds, top, yds, ny);
  }

  /** The main path of `bigdivmod`: scale, divide, move the quotient down, un-scale the remainder. */
  method LongDivide(x: Bignum, y: Bignum) returns (div: Value, mod: Value)
    requires x.Valid() && y.Valid() && 0 < y.len <= x.len && IsNormal(y.Digits())
    ensures y.Mag() > 0
    ensures Represents(div, Signed(x.sign == y.sign, x.Mag() / y.Mag()))
    ensures Represents(mod, Signed(y.sign, x.Mag() % y.Mag()))
  {
    hide Val, W;
    ghost var xm, ym := x.Mag(), y.Mag();
    var z := new Bignum(if x.len == y.len then x.len + 2 else x.len + 1, x.sign == y.sign);
    var ny, dd := ScaleAndDivide(x, y, z);
    ghost var Q := Val(z.digits[ny..]);
    div := MoveDown(z, ny);
    assert Represents(div, Signed(x.sign == y.sign, Q));
    mod := UnscaleRemainder(z, ny, dd, y.sign, xm, ym);
    assert xm / ym == Q;
    assert Represents(div, Signed(x.sign == y.sign, Q));
  }

  lemma NormalIsPositive(b: seq<Digit>)
    requires b != [] && IsNormal(b)
    ensures Val(b) > 0
  {
    ValTop(b);
  }

  lemma DividendFits(a: seq<Digit>, dd: int, y: seq<Digit>, top: nat)
    requires 0 < |y| <= |a| <= top && 1 <= dd <= 0x8000 && y[|y| - 1] >= 0x8000
    ensures dd * Val(a) < Val(y) * W(top + 1 - |y|)
  {
    ValBound(a);
    ScaledDividend(Val(a), |a|, dd, y, top);
  }

  lemma SmallNegation(t: int)
    requires 0 <= t <= 0xffff
    ensures ToLong(ToULong(-t)) == -t
  {
  }

  /** The one-digit path of `bigdivmod`. */
  method DivideByDigit(x: Bignum, y: Bignum) returns (div: Value, mod: Value)
    requires x.Valid() && y.Valid() && y.len == 1 && y.digits[0] > 0
    ensures y.Mag() > 0
    ensures Represents(div, Signed(x.sign, x.Mag() / y.Mag()))
    ensures Represents(mod, Signed(y.sign, x.Mag() % y.Mag()))
  {
    hide Val, W, ToLong, ToULong;
    var dd := y.digits[0];
    assert y.Digits() == [dd];
    ValOne(dd);
    var t2;
    div, t2 := QuotientByDigit(x, dd);
    mod := SignedDigit(t2, y.sign);
  }

  /** A rest of one digit as a fixnum with the divisor's sign. */
  method SignedDigit(t2: Digit, sign: bool) returns (mod: Value)
    ensures Represents(mod, Signed(sign, t2))
  {
    hide ToLong, ToULong;
    SmallNegation(t2);
    mod := Fix(if sign then t2 else ToLong(ToULong(-(t2 as int))));
  }

  /** A copy of the dividend divided in place by one digit: its quotient and the rest. */
  method QuotientByDigit(x: Bignum, dd: Digit) returns (div: Value, t2: Digit)
    requires x.Valid() && dd > 0
    ensures Represents(div, Signed(x.sign, x.Mag() / dd)) && t2 == x.Mag() % dd
  {
    hide Val, W;
    ghost var xm := x.Mag();
    var z := new Bignum.Clone(x);
    assert z.digits[..x.len] == x.Digits();
    t2 := ShortDivide(z.digits, x.len, dd);
    DivUnique(xm, dd, Val(z.digits[..x.len]), t2);
    assert z.Digits() == z.digits[..x.len];
    div := BigNorm(z);
  }

  /** The test of the early out: the divisor has more digits, or as many with a larger top digit. */
  predicate EarlyOut(a: seq<Digit>, b: seq<Digit>) {
    |a| < |b| || (|a| == |b| > 0 && a[|a| - 1] < b[|b| - 1])
  }

  lemma EarlyOutIsSmaller(a: seq<Digit>, b: seq<Digit>)
    requires IsNormal(b) && EarlyOut(a, b)
    ensures Val(a) < Val(b)
  {
    if |a| < |b| {
      ValCompareLength(a, b);
    } else {
      assert a[|a|..] == b[|a|..] == [];
      ValCompare(a, b, |a| - 1);
    }
  }

  /** The quotient `bigdivmod` delivers. The one-digit path copies the dividend's sign. */
  function QuotientOf(sx: bool, a: seq<Digit>, sy: bool, b: seq<Digit>): int
    requires Val(b) > 0
  {
    if EarlyOut(a, b) then 0
    else if |b| == 1 then Signed(sx, Val(a) / Val(b))
    else Signed(sx == sy, Val(a) / Val(b))
  }

  /** The remainder `bigdivmod` delivers. The early out keeps the dividend, the other paths take the divisor's sign. */
  function RemainderOf(sx: bool, a: seq<Digit>, sy: bool, b: seq<Digit>): int
    requires Val(b) > 0
  {
    if EarlyOut(a, b) then Signed(sx, Val(a)) else Signed(sy, Val(a) % Val(b))
  }

  datatype Division = ZeroDivide | Divided(div: Value, mod: Value)

  /** `bigdivmod`. */
  method BigDivMod(x: Bignum, y: Bignum) returns (r: Division)
    requires x.Normal() && y.Normal() && y.digits.Length > 0 && (y.len == 0 ==> y.digits[0] == 0)
    modifies x`len
    ensures x.len == old(x.len)
    ensures r.ZeroDivide? <==> y.Int() == 0
    ensures r.Divided? ==>
      && y.Mag() > 0
      && Represents(r.div, QuotientOf(x.sign, x.Digits(), y.sign, y.Digits()))
      && Represents(r.mod, RemainderOf(x.sign, x.Digits(), y.sign, y.Digits()))
  {
    hide Val, W;
    var nx, ny := x.len, y.len;
    ghost var a, b := x.Digits(), y.Digits();
    if ny == 0 && y.digits[0] == 0 {
      EmptyIsZero(b);
      return ZeroDivide;
    }
    NormalIsPositive(b);
    if nx < ny || (nx == ny && x.digits[nx - 1] < y.digits[ny - 1]) {
      var mod := BigNorm(x);
      SameLength(a, x.Digits());
      return Divided(Fix(0), mod);
    }
    var div, mod;
    if ny == 1 {
      div, mod := DivideByDigit(x, y);
    } else {
      div, mod := LongDivide(x, y);
    }
    return Divided(div, mod);
  }

  lemma EmptyIsZero(b: seq<Digit>)
    requires b == []
    ensures Val(b) == 0
  {
  }

  lemma SameLength(a: seq<Digit>, b: seq<Digit>)
    requires IsNormal(a) && IsNormal(b) && Val(a) == Val(b)
    ensures a == b
  {
    ValInjective(a, b);
  }

  /** Division is exact on magnitudes, on every path. */
  lemma DivisionExactOnMagnitudes(sx: bool, a: seq<Digit>, sy: bool, b: seq<Digit>)
    requires IsNormal(a) && IsNormal(b) && b != []
    ensures Val(b) > 0
    ensures var q, r := QuotientOf(sx, a, sy, b), RemainderOf(sx, a, sy, b);
      Val(a) == Abs(q) * Val(b) + Abs(r) && Abs(r) < Val(b)
  {
    hide Val, IsNormal, EarlyOut, Abs, Signed;
    NormalIsPositive(b);
    var n, d := Val(a), Val(b);
    AbsSigned(sx, n / d);
    AbsSigned(sx == sy, n / d);
    AbsSigned(sy, n % d);
    AbsSigned(sx, n);
    AbsSigned(sx, 0);
    if EarlyOut(a, b) {
      EarlyOutIsSmaller(a, b);
    } else {
      QuotientAndRest(n, d);
    }
  }

  lemma AbsSigned(s: bool, n: nat)
    ensures Abs(Signed(s, n)) == n && Abs(0) == 0
  {
  }

  lemma QuotientAndRest(n: nat, d: nat)
    requires d > 0
    ensures n == n / d * d + n % d && n % d < d
  {
  }

  /**
   * The signed identity `x == q * y + r` of Ruby's divmod. It holds exactly on the early out; for a one-digit divisor
   * that is positive, when the dividend is not negative or the division leaves no rest; and for a longer divisor when
   * the signs agree or the division leaves no rest.
   */
  lemma SignedDivisionIff(sx: bool, a: seq<Digit>, sy: bool, b: seq<Digit>)
    requires IsNormal(a) && IsNormal(b) && b != []
    ensures Val(b) > 0
    ensures Signed(sx, Val(a)) == QuotientOf(sx, a, sy, b) * Signed(sy, Val(b)) + RemainderOf(sx, a, sy, b)
      <==> (
        || EarlyOut(a, b)
        || (|b| == 1 && sy && (sx || Val(a) % Val(b) == 0))
        || (|b| > 1 && (sx == sy || Val(a) % Val(b) == 0)))
  {
    hide Val;
    NormalIsPositive(b);
    if !EarlyOut(a, b) {
      if |b| == 1 {
        OneDigitDividend(a, b);
      }
      SignCases(sx, Val(a), sy, Val(b), |b| == 1);
    }
  }

  /** -(2^30 + 1) divided by 2: the quotient -2^29 and the remainder 1 do not make up the dividend. */
  lemma SignedDivisionFails()
    ensures var a, b: seq<Digit> := [1, 0x4000], [2];
      && IsNormal(a) && IsNormal(b) && Val(a) == 0x4000_0001 && Val(b) == 2
      && QuotientOf(false, a, true, b) == -0x2000_0000 && RemainderOf(false, a, true, b) == 1
      && Signed(false, Val(a)) != QuotientOf(false, a, true, b) * Signed(true, Val(b)) + RemainderOf(false, a, true, b)
  {
    TwoDigits([1, 0x4000]);
    TwoDigits([2]);
  }

  /** Past the early out a one-digit divisor is not above the dividend. */
  lemma OneDigitDividend(a: seq<Digit>, b: seq<Digit>)
    requires IsNormal(a) && IsNormal(b) && |b| == 1 && !EarlyOut(a, b)
    ensures Val(b) <= Val(a)
  {
    assert b[..0] == [];
    if |a| == 1 {
      TwoDigits(a);
      TwoDigits(b);
    } else {
      ValCompareLength(b, a);
    }
  }

  lemma SignCases(sx: bool, a: int, sy: bool, b: int, single: bool)
    requires a >= 0 && b > 0 && (single ==> b <= a)
    ensures
      var q := if single then Signed(sx, a / b) else Signed(sx == sy, a / b);
      Signed(sx, a) == q * Signed(sy, b) + Signed(sy, a % b)
      <==> if single then sy && (sx || a % b == 0) else sx == sy || a % b == 0
  {
    var q, r := a / b, a % b;
    assert a == q * b + r && 0 <= r < b;
    assert (-q) * b == -(q * b) && q * (-b) == -(q * b) && (-q) * (-b) == q * b;
    if single {
      if q <= 0 { MulMono(q, 0, b); }
      MulMono(1, q, b);
    }
  }
}
