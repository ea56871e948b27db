/** Integer gcd and lcm and the reduction of fractions: lib/rational.rb. */
module Rationals {
  import opened Arith
  import opened NumberTheory
  import opened Mathn
  import opened Wrappers

  /** `Integer#gcd`: the loop of lib/rational.rb. */
  method IntegerGcd(self: int, other: int) returns (a: nat)
    ensures a == Gcd(Abs(self), Abs(other))
  {
    a := Abs(self);
    var b := Abs(other);
    if a < b { GcdSymmetric(a, b); a, b := b, a; }
    while b != 0
      invariant Gcd(a, b) == Gcd(Abs(self), Abs(other))
      decreases b
    {
      a := a % b;
      a, b := b, a;
    }
  }

  /** `gcd2` and `gcd` agree wherever `gcd2` is defined. */
  method BothGcds(self: int, other: int) returns (g: nat, g2: nat)
    requires self != 0 && other != 0
    ensures g == g2
  {
    g := IntegerGcd(self, other);
    g2 := Gcd2(self, other);
  }

  /** Ruby's `div`. It is exact wherever it is used here, so that flooring and truncating agree. */
  function Div(a: int, b: int): int
    requires b > 0
  {
    a / b
  }

  /** The least common multiple; dividing by a gcd of zero fails. */
  function Lcm(a: nat, b: nat): Option<nat> {
    if Gcd(a, b) == 0 then None else LcmNat(a, b)
  }

  function LcmNat(a: nat, b: nat): Option<nat>
    requires Gcd(a, b) > 0
  {
    MulPositive(a / Gcd(a, b), b);
    Some(a / Gcd(a, b) * b)
  }

  /** `Integer#lcm`. */
  method IntegerLcm(self: int, other: int) returns (m: Option<nat>)
    ensures m == Lcm(Abs(self), Abs(other))
  {
    hide Gcd;
    var a, b := Abs(self), Abs(other);
    var g := IntegerGcd(a, b);
    if g == 0 { return None; }
    MulPositive(a / g, b);
    m := Some(Div(a, g) * b);
  }

  /** Two zeros have none. */
  lemma NoLcm(a: nat, b: nat)
    ensures Lcm(a, b).None? <==> a == 0 && b == 0
  {
    hide Divides, Gcd;
    if a == 0 && b == 0 {
      GcdOfZeros();
    } else {
      GcdDivides(a, b);
    }
  }

  lemma GcdOfZeros()
    ensures Gcd(0, 0) == 0
  {
  }

  /** The lcm is a multiple of both numbers and divides every common multiple; with a zero it is zero. */
  lemma LcmIsLeast(a: nat, b: nat)
    requires a > 0 || b > 0
    ensures Lcm(a, b).Some? && (a == 0 || b == 0 ==> Lcm(a, b).value == 0)
    ensures a > 0 ==> Divides(a, Lcm(a, b).value)
    ensures b > 0 ==> Divides(b, Lcm(a, b).value)
    ensures forall m: nat :: a > 0 && b > 0 && Divides(a, m) && Divides(b, m) ==> Divides(Lcm(a, b).value, m)
  {
    hide Gcd, Divides;
    GcdDivides(a, b);
    var g := Gcd(a, b);
    DividesQuotient(g, a);
    DividesQuotient(g, b);
    var k, l := a / g, b / g;
    assert k * b == l * a by {
      assert k * (l * g) == l * (k * g) by { MulAssoc(k, l, g); MulAssoc(l, k, g); }
    }
    if a > 0 { DividesMultiple(a, l); }
    if b > 0 { DividesMultiple(b, k); }
    forall m: nat | a > 0 && b > 0 && Divides(a, m) && Divides(b, m)
      ensures Divides(k * b, m)
    {
      DividesProduct(a, m, b, b) by { DividesSelf(b); }
      CommonMultiple(a, b, g, k, l, m);
    }
  }

  lemma BothWays(x: int, y: int, a: int, b: int, s: int, t: int, m: int)
    requires m == s * a && m == t * b
    ensures (x * a + y * b) * m == (x * t + y * s) * (a * b)
  {
    assert x * a * (t * b) == x * t * (a * b) by { MulAssoc(x * a, t, b); MulAssoc(x * t, a, b); assert x * a * t == x * t * a; }
    assert y * b * (s * a) == y * s * (a * b) by { MulAssoc(y * b, s, a); MulAssoc(y * s, a, b); assert y * b * s == y * s * b; }
    DistributeRight(x * a, y * b, m);
    DistributeRight(x * t, y * s, a * b);
  }

  lemma CommonMultiple(a: nat, b: nat, g: nat, k: nat, l: nat, m: nat)
    requires g == Gcd(a, b) && g > 0 && a == k * g && b == l * g && a > 0 && b > 0
    requires Divides(a, m) && Divides(b, m)
    ensures Divides(k * b, m)
  {
    hide Gcd, Divides;
    var x, y := Bezout(a, b);
    DividesQuotient(a, m);
    DividesQuotient(b, m);
    var s, t := m / a, m / b;
    // m * g == x * a * m + y * b * m == (x * t + y * s) * (a * b), and a * b == g * (k * b)
    var c := x * t + y * s;
    BothWays(x, y, a, b, s, t, m);
    assert g * m == c * (a * b);
    assert a * b == g * (k * b) by { MulAssoc(k, g, b); MulAssoc(g, k, b); }
    assert c * (g * (k * b)) == g * (c * (k * b)) by { MulAssoc(c, g, k * b); MulAssoc(g, c, k * b); }
    assert (m - c * (k * b)) * g == 0 by { DistributeRight(m, -(c * (k * b)), g); }
    SmallMultiple(m - c * (k * b), g);
    MulPositive(k, b);
    if k <= 0 { MulMono(k, 0, g); }
    DividesMultiple(k * b, c);
  }

  /** A fraction in lowest terms, or the integer it amounts to, or the error of dividing by a gcd of zero. */
  datatype Number = ZeroDivide | Whole(n: int) | Fraction(num: int, den: int)

  /** What `Rational.reduce` returns; `unify` tells whether the constant Unify is defined. */
  function Reduced(num: int, den: int, unify: bool): Number {
    var n, d := if den < 0 then -num else num, if den < 0 then -den else den;
    var g := Gcd(Abs(n), Abs(d));
    if g == 0 then ZeroDivide
    else if Div(d, g) == 1 && unify then Whole(Div(n, g))
    else Fraction(Div(n, g), Div(d, g))
  }

  /** `Rational.reduce`. */
  method Reduce(num0: int, den0: int, unify: bool) returns (r: Number)
    ensures r == Reduced(num0, den0, unify)
  {
    var num, den := num0, den0;
    if den < 0 { num, den := -num, -den; }
    var gcd := IntegerGcd(num, den);
    if gcd == 0 { return ZeroDivide; }
    num := Div(num, gcd);
    den := Div(den, gcd);
    if den == 1 && unify { r := Whole(num); } else { r := Fraction(num, den); }
  }

  function Numerator(r: Number): int
    requires !r.ZeroDivide?
  {
    if r.Whole? then r.n else r.num
  }

  function Denominator(r: Number): int
    requires !r.ZeroDivide?
  {
    if r.Whole? then 1 else r.den
  }

  lemma DividesAbs(g: int, n: int)
    requires Divides(g, Abs(n))
    ensures n == n / g * g && Divides(g, n)
  {
    DividesQuotient(g, Abs(n));
    if n < 0 {
      var k := Abs(n) / g;
      assert n == -k * g + 0;
      DivUnique(n, g, -k, 0);
    }
  }

  /** The reduced fraction has a positive denominator, no common factor, and the value it was made from. */
  lemma ReducedIsLowest(num: int, den: int, unify: bool)
    requires den != 0
    ensures var r := Reduced(num, den, unify);
      !r.ZeroDivide? && Denominator(r) > 0 && Gcd(Abs(Numerator(r)), Denominator(r)) == 1
      && Numerator(r) * den == num * Denominator(r)
  {
    hide Gcd, Divides;
    var n, d := if den < 0 then -num else num, if den < 0 then -den else den;
    GcdDivides(Abs(n), Abs(d));
    var g := Gcd(Abs(n), Abs(d));
    DividesAbs(g, n);
    DividesAbs(g, d);
    var n1, d1 := n / g, d / g;
    if d1 <= 0 { MulMono(d1, 0, g); }
    QuotientsCoprime(Abs(n1), d1, Abs(n), d, g) by {
      if n1 < 0 { MulMono(n1, 0, g); } else { MulMono(0, n1, g); }
      assert Abs(n) == Abs(n1) * g by {
        if n1 < 0 { assert -n1 * g == -(n1 * g); }
      }
    }
    assert n1 * d == n * d1 by {
      assert n1 * (d1 * g) == n1 * g * d1 by { MulAssoc(n1, d1, g); MulAssoc(n1, g, d1); }
    }
    if den < 0 {
      assert n1 * -den == -(n1 * den) && -num * d1 == -(num * d1);
    }
  }

  lemma QuotientsCoprime(n1: nat, d1: nat, n: nat, d: nat, g: nat)
    requires g > 0 && g == Gcd(n, d) && n == n1 * g && d == d1 * g && d1 > 0
    ensures Gcd(n1, d1) == 1
  {
    hide Gcd, Divides;
    GcdDivides(n1, d1);
    var h := Gcd(n1, d1);
    DividesProduct(h, n1, g, g) by { DividesSelf(g); }
    DividesProduct(h, d1, g, g) by { DividesSelf(g); }
    GcdGreatest(n, d, h * g);
    MulMono(1, h, g);
    DividesBound(h * g, g);
    if h > 1 { MulMono(2, h, g); }
  }

  /** Two coprime pairs with the same quotient and positive denominators are equal. */
  lemma LowestTermsUnique(n: int, d: int, m: int, e: int)
    requires d > 0 && e > 0 && Gcd(Abs(n), d) == 1 && Gcd(Abs(m), e) == 1 && n * e == m * d
    ensures n == m && d == e
  {
    hide Gcd, Divides;
    DenominatorDivides(n, d, m, e);
    DenominatorDivides(m, e, n, d);
    DividesBound(d, e);
    DividesBound(e, d);
    assert (n - m) * d == 0 by { DistributeRight(n, -m, d); }
    SmallMultiple(n - m, d);
  }

  lemma DenominatorDivides(n: int, d: int, m: int, e: int)
    requires d > 0 && e > 0 && Gcd(Abs(n), d) == 1 && n * e == m * d
    ensures Divides(d, e)
  {
    hide Gcd, Divides;
    GcdSymmetric(Abs(n), d);
    assert Abs(n) * e == Abs(m) * d by {
      if n < 0 { assert -n * e == -(n * e); }
      if m < 0 { assert -m * d == -(m * d); }
      if n >= 0 && m < 0 { MulMono(0, n, e); MulMonoStrict(m, 0, d); }
      if n < 0 && m >= 0 { MulMono(0, m, d); MulMonoStrict(n, 0, e); }
    }
    DividesMultiple(d, Abs(m));
    CoprimeDivides(d, Abs(n), e);
  }

  /** Reduction is canonical: two fractions reduce to the same object exactly when they are equal as fractions. */
  lemma ReducedCanonicalIff(a: int, b: int, c: int, d: int, unify: bool)
    requires b != 0 && d != 0
    ensures Reduced(a, b, unify) == Reduced(c, d, unify) <==> a * d == c * b
  {
    var r, s := Reduced(a, b, unify), Reduced(c, d, unify);
    ReducedIsLowest(a, b, unify);
    ReducedIsLowest(c, d, unify);
    ReducedShape(a, b, unify);
    ReducedShape(c, d, unify);
    SameFraction(Numerator(r), Denominator(r), a, b, Numerator(s), Denominator(s), c, d);
    if a * d == c * b {
      LowestTermsUnique(Numerator(r), Denominator(r), Numerator(s), Denominator(s));
    }
  }

  lemma ReducedShape(a: int, b: int, unify: bool)
    requires b != 0
    ensures var r := Reduced(a, b, unify);
      r.ZeroDivide? || r == if Denominator(r) == 1 && unify then Whole(Numerator(r)) else Fraction(Numerator(r), Denominator(r))
  {
  }

  /** Cross products of two fractions agree exactly when those of equal fractions do. */
  lemma SameFraction(n: int, p: int, a: int, b: int, m: int, q: int, c: int, d: int)
    requires n * b == a * p && m * d == c * q && p > 0 && q > 0 && b != 0 && d != 0
    ensures n * q == m * p <==> a * d == c * b
  {
    // (n * q) * (b * d) == (a * d) * (p * q) and (m * p) * (b * d) == (c * b) * (p * q)
    Shuffle(n, q, b, d, a, p);
    Shuffle(m, p, d, b, c, q);
    assert b * d == d * b && p * q == q * p;
    CancelNonZero(n * q, m * p, b * d);
    CancelNonZero(a * d, c * b, p * q);
  }

  lemma Shuffle(n: int, q: int, b: int, d: int, a: int, p: int)
    requires n * b == a * p
    ensures n * q * (b * d) == a * d * (p * q)
  {
    assert n * q * (b * d) == n * b * (q * d) by { MulAssoc(n * q, b, d); MulAssoc(n * b, q, d); assert n * q * b == n * b * q; }
    assert a * p * (q * d) == a * d * (p * q) by { MulAssoc(a * p, q, d); MulAssoc(a * d, p, q); assert a * p * q * d == a * d * p * q; }
  }

  lemma CancelNonZero(x: int, y: int, k: int)
    requires k != 0
    ensures x * k == y * k <==> x == y
  {
    if x * k == y * k {
      assert (x - y) * k == 0 by { DistributeRight(x, -y, k); }
    }
  }
}
