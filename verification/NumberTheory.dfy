/** Divisibility, Euclid's gcd, primes and prime powers: what lib/mathn.rb and lib/rational.rb rely on. */
module NumberTheory {
  import opened Arith

  predicate Divides(d: int, n: int) {
    d > 0 && n % d == 0
  }

  lemma DividesQuotient(d: int, n: int)
    requires Divides(d, n)
    ensures n == n / d * d
  {
  }

  lemma DividesMultiple(d: int, k: int)
    requires d > 0
    ensures Divides(d, k * d) && Divides(d, d * k)
  {
    ModOfMultiple(d, k);
  }

  lemma DividesSum(d: int, a: int, b: int, x: int, y: int)
    requires Divides(d, a) && Divides(d, b)
    ensures Divides(d, x * a + y * b)
  {
    hide Divides;
    DividesPositive(d, a);
    DividesQuotient(d, a);
    DividesQuotient(d, b);
    var k, l := a / d, b / d;
    MulAssoc(x, k, d);
    MulAssoc(y, l, d);
    DistributeRight(x * k, y * l, d);
    DividesMultiple(d, x * k + y * l);
  }

  lemma DividesPositive(d: int, a: int)
    requires Divides(d, a)
    ensures d > 0
  {
  }

  lemma DividesTrans(a: int, b: int, c: int)
    requires Divides(a, b) && Divides(b, c)
    ensures Divides(a, c)
  {
    DividesQuotient(b, c);
    DividesSum(a, b, b, c / b, 0);
  }

  lemma DividesBound(d: int, n: int)
    requires Divides(d, n) && n > 0
    ensures d <= n && n / d >= 1
  {
    DividesQuotient(d, n);
    if n / d <= 0 { MulMono(n / d, 0, d); }
    MulMono(1, n / d, d);
  }

  lemma DividesProduct(d: int, a: int, e: int, b: int)
    requires Divides(d, a) && Divides(e, b)
    ensures Divides(d * e, a * b)
  {
    DividesQuotient(d, a);
    DividesQuotient(e, b);
    var k, l := a / d, b / e;
    MulMonoStrict(0, d, e);
    assert a * b == k * l * (d * e) by {
      assert k * d * (l * e) == k * l * (d * e) by {
        MulAssoc(k, d, l * e);
        MulAssoc(d, l, e);
        MulAssoc(l, d, e);
        MulAssoc(k, l, d * e);
      }
    }
    DividesMultiple(d * e, k * l);
  }

  /** Dividing both sides of "divides" by a common factor. */
  lemma DividesCancel(p: int, d: int, n: int)
    requires p > 0 && d > 0 && Divides(p * d, p * n)
    ensures Divides(d, n)
  {
    var k := p * n / (p * d);
    DividesQuotient(p * d, p * n);
    assert p * n == p * (k * d) by {
      assert k * (p * d) == p * (k * d) by { MulAssoc(k, p, d); MulAssoc(p, k, d); }
    }
    assert (n - k * d) * p == 0 by { DistributeRight(n, -(k * d), p); }
    SmallMultiple(n - k * d, p);
    DividesMultiple(d, k);
  }

  /** Euclid's algorithm. */
  function Gcd(a: nat, b: nat): nat
    decreases b
  {
    if b == 0 then a else Gcd(b, a % b)
  }

  lemma DividesSelf(a: nat)
    requires a > 0
    ensures Divides(a, a) && Divides(a, 0)
  {
    DividesMultiple(a, 1);
  }

  lemma {:induction false} GcdDivides(a: nat, b: nat)
    requires a > 0 || b > 0
    ensures Gcd(a, b) > 0 && Divides(Gcd(a, b), a) && Divides(Gcd(a, b), b)
    decreases b
  {
    hide Divides;
    if b == 0 {
      DividesSelf(a);
    } else {
      var r := a % b;
      GcdDivides(b, r);
      DividesSum(Gcd(a, b), b, r, a / b, 1);
    }
  }

  /** The gcd is an integer combination of the two numbers. */
  lemma {:induction false} Bezout(a: nat, b: nat) returns (x: int, y: int)
    ensures x * a + y * b == Gcd(a, b)
    decreases b
  {
    if b == 0 {
      x, y := 1, 0;
    } else {
      var u, v := Bezout(b, a % b);
      x, y := v, u - v * (a / b);
      assert a % b == a - a / b * b;
      assert v * (a % b) == v * a - v * (a / b) * b by {
        assert v * (a / b * b) == v * (a / b) * b by { MulAssoc(v, a / b, b); }
      }
      DistributeRight(u, -(v * (a / b)), b);
    }
  }

  lemma GcdGreatest(a: nat, b: nat, d: nat)
    requires Divides(d, a) && Divides(d, b)
    ensures Divides(d, Gcd(a, b))
  {
    var x, y := Bezout(a, b);
    DividesSum(d, a, b, x, y);
  }

  /** What makes a number the gcd. */
  ghost predicate IsGcd(g: nat, a: nat, b: nat) {
    && Divides(g, a) && Divides(g, b)
    && forall d :: Divides(d, a) && Divides(d, b) ==> Divides(d, g)
  }

  lemma GcdIsGcd(a: nat, b: nat)
    requires a > 0 || b > 0
    ensures IsGcd(Gcd(a, b), a, b)
  {
    GcdDivides(a, b);
    forall d | Divides(d, a) && Divides(d, b)
      ensures Divides(d, Gcd(a, b))
    {
      GcdGreatest(a, b, d);
    }
  }

  lemma GcdUnique(g: nat, h: nat, a: nat, b: nat)
    requires IsGcd(g, a, b) && IsGcd(h, a, b)
    ensures g == h
  {
    assert Divides(g, h) && Divides(h, g);
    DividesBound(g, h);
    DividesBound(h, g);
  }

  lemma GcdSymmetric(a: nat, b: nat)
    ensures Gcd(a, b) == Gcd(b, a)
  {
    if a > 0 || b > 0 {
      GcdIsGcd(a, b);
      GcdIsGcd(b, a);
      GcdUnique(Gcd(a, b), Gcd(b, a), a, b);
    }
  }

  /** Gauss: a factor coprime to one side of a product divides the other. */
  lemma CoprimeDivides(d: nat, a: nat, b: nat)
    requires d > 0 && Gcd(d, a) == 1 && Divides(d, a * b)
    ensures Divides(d, b)
  {
    var x, y := Bezout(d, a);
    DividesMultiple(d, x * b);
    DividesSum(d, x * b * d, a * b, 1, y);
    assert 1 * (x * b * d) + y * (a * b) == b by {
      assert (x * d + y * a) * b == b;
      DistributeRight(x * d, y * a, b);
      assert x * d * b == x * b * d;
      MulAssoc(y, a, b);
    }
  }

  ghost predicate IsPrime(p: int) {
    p >= 2 && forall d :: 2 <= d < p ==> !Divides(d, p)
  }

  /** Every number from 2 on has a prime factor. */
  lemma {:induction false} PrimeFactor(n: int) returns (p: int)
    requires n >= 2
    ensures IsPrime(p) && Divides(p, n) && p <= n
    ensures IsPrime(n) || p * p <= n
    decreases n
  {
    if IsPrime(n) {
      p := n;
    } else {
      var d :| 2 <= d < n && Divides(d, n);
      var e := n / d;
      DividesQuotient(d, n);
      DividesBound(d, n);
      if e == 1 { assert false; }
      assert n == d * e && Divides(e, n) by { DividesMultiple(e, d); }
      var s := if d <= e then d else e;
      MulMono(s, d, e);
      MulMono(s, e, s);
      p := PrimeFactor(s);
      DividesTrans(p, s, n);
      MulMono(p, s, p);
      MulMono(p, s, s);
    }
  }

  function Factorial(n: nat): (r: nat)
    ensures r > 0
  {
    if n == 0 then 1 else MulPositive(n, Factorial(n - 1)); n * Factorial(n - 1)
  }

  lemma {:induction false} DividesFactorial(d: nat, n: nat)
    requires 1 <= d <= n
    ensures Divides(d, Factorial(n))
    decreases n
  {
    if d == n {
      DividesMultiple(d, Factorial(n - 1));
    } else {
      DividesFactorial(d, n - 1);
      DividesSum(d, Factorial(n - 1), Factorial(n - 1), n, 0);
    }
  }

  /** Euclid's theorem: beyond every number there is a prime. */
  lemma MorePrimes(n: nat) returns (p: int)
    ensures IsPrime(p) && p > n
  {
    p := PrimeFactor(Factorial(n) + 1);
    if p <= n {
      DividesFactorial(p, n);
      DividesSum(p, Factorial(n) + 1, Factorial(n), 1, -1);
      assert Divides(p, 1);
      DividesBound(p, 1);
      assert false;
    }
  }

  lemma {:induction false} PrimeCoprime(p: int, a: nat)
    requires IsPrime(p) && !Divides(p, a)
    ensures Gcd(p, a) == 1
  {
    GcdDivides(p, a);
    var g := Gcd(p, a);
    DividesBound(g, p);
    if g != 1 && g == p {
      assert false;
    }
  }

  /** Euclid's lemma. */
  lemma PrimeDividesProduct(p: int, a: nat, b: nat)
    requires IsPrime(p) && Divides(p, a * b)
    ensures Divides(p, a) || Divides(p, b)
  {
    if !Divides(p, a) {
      PrimeCoprime(p, a);
      CoprimeDivides(p, a, b);
    }
  }

  lemma {:induction false} PrimeDividesPower(p: nat, q: nat, k: nat)
    requires IsPrime(p) && IsPrime(q) && Divides(p, Pow(q, k))
    ensures p == q
  {
    if k == 0 {
      DividesBound(p, 1);
      assert false;
    } else {
      PrimeDividesProduct(p, q, Pow(q, k - 1));
      if Divides(p, q) {
        DividesBound(p, q);
      } else {
        PrimeDividesPower(p, q, k - 1);
      }
    }
  }

  /** A power of `p` that divides `g * t` with `p` not in `g` divides `t`. */
  lemma {:induction false} PowerDividesOther(p: nat, k: nat, g: nat, t: nat)
    requires IsPrime(p) && !Divides(p, g) && Divides(Pow(p, k), g * t)
    ensures Divides(Pow(p, k), t)
    decreases k
  {
    hide Divides, IsPrime;
    if k == 0 {
      OneDivides(p, t);
    } else {
      PrimeIsPositive(p);
      var q := Pow(p, k - 1);
      assert Pow(p, k) == p * q;
      DividesMultiple(p, q);
      DividesTrans(p, Pow(p, k), g * t);
      PrimeDividesProduct(p, g, t);
      DividesQuotient(p, t);
      var u := t / p;
      NonNegativeQuotient(t, p);
      assert g * t == p * (g * u) by { MulAssoc(g, u, p); }
      DividesCancel(p, q, g * u);
      PowerDividesOther(p, k - 1, g, u);
      DividesProduct(p, p, q, u) by { DividesMultiple(p, 1); }
      assert p * u == t;
    }
  }

  lemma OneDivides(p: nat, t: int)
    ensures Divides(Pow(p, 0), t)
  {
  }

  lemma PrimeIsPositive(p: int)
    requires IsPrime(p)
    ensures p >= 2
  {
  }

  lemma NonNegativeQuotient(t: int, p: int)
    requires t >= 0 && p > 0
    ensures t / p >= 0
  {
  }

  /** A number without the factor `p` that divides `m * p^e` divides `m`. */
  lemma {:induction false} DividesWithoutPower(d: nat, m: nat, p: nat, e: nat)
    requires IsPrime(p) && !Divides(p, d) && Divides(d, m * Pow(p, e))
    ensures Divides(d, m)
    decreases e
  {
    hide Divides, IsPrime;
    if e == 0 {
      assert m * Pow(p, 0) == m;
    } else {
      PrimeIsPositive(p);
      DividesPositive(d, m * Pow(p, e));
      PrimeCoprime(p, d);
      GcdSymmetric(p, d);
      var q := Pow(p, e - 1);
      assert m * Pow(p, e) == p * (m * q) by {
        assert Pow(p, e) == p * q;
        MulAssoc(m, p, q);
        MulAssoc(p, m, q);
      }
      CoprimeDivides(d, p, m * q);
      DividesWithoutPower(d, m, p, e - 1);
    }
  }

  /** Every positive number is a power of `p` times a number without the factor `p`. */
  lemma {:induction false} ExtractPower(p: nat, n: nat) returns (j: nat, m: nat)
    requires IsPrime(p) && n > 0
    ensures n == Pow(p, j) * m && m > 0 && !Divides(p, m)
    decreases n
  {
    if Divides(p, n) {
      DividesQuotient(p, n);
      DividesBound(p, n);
      MulMonoStrict(1, p, n / p);
      j, m := ExtractPower(p, n / p);
      assert Pow(p, j + 1) == p * Pow(p, j);
      MulAssoc(p, Pow(p, j), m);
      j := j + 1;
    } else {
      j, m := 0, n;
    }
  }

  lemma PowDivides(p: nat, i: nat, j: nat)
    requires p > 0 && i <= j
    ensures Divides(Pow(p, i), Pow(p, j))
  {
    PowAdd(p, i, j - i);
    DividesMultiple(Pow(p, i), Pow(p, j - i));
  }

  lemma {:induction false} PowStrict(p: nat, i: nat, j: nat)
    requires p >= 2 && i < j
    ensures Pow(p, i) < Pow(p, j)
  {
    PowMono(p, i + 1, j);
    assert Pow(p, i + 1) == p * Pow(p, i);
    MulMono(2, p, Pow(p, i));
  }

  lemma PowerExponents(p: nat, i: nat, j: nat)
    requires p >= 2 && Divides(Pow(p, i), Pow(p, j))
    ensures i <= j
  {
    DividesBound(Pow(p, i), Pow(p, j));
    if j < i { PowStrict(p, j, i); }
  }
}
