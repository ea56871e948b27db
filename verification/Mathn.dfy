/** Primes, prime factorisation and its gcd: lib/mathn.rb. */
module Mathn {
  import opened Arith
  import opened NumberTheory

  /** `ps` lists the primes up to `n` in increasing order. */
  ghost predicate PrimesUpTo(ps: seq<nat>, n: nat) {
    && (forall i, j :: 0 <= i < j < |ps| ==> ps[i] < ps[j])
    && (forall i :: 0 <= i < |ps| ==> IsPrime(ps[i]) && ps[i] <= n)
    && (forall p: nat :: IsPrime(p) && p <= n ==> p in ps)
  }

  /** Counter `i` is a multiple of prime `i` and the multiple before it is not above `s`. */
  ghost predicate CountersBehind(ps: seq<nat>, cs: seq<nat>, s: nat) {
    |cs| == |ps| && forall i :: 0 <= i < |ps| ==> Divides(ps[i], cs[i]) && cs[i] <= s + ps[i]
  }

  /** With all smaller primes known, a number none of them divides is prime. */
  lemma NotDividedIsPrime(ps: seq<nat>, s: nat)
    requires s >= 2 && PrimesUpTo(ps, s - 1)
    requires forall k :: 0 <= k < |ps| ==> !Divides(ps[k], s)
    ensures IsPrime(s)
  {
    var p := PrimeFactor(s);
    if p < s {
      assert p in ps;
    }
  }

  lemma ExtendPrimes(ps: seq<nat>, s: nat)
    requires s >= 1 && PrimesUpTo(ps, s - 1)
    ensures IsPrime(s) ==> PrimesUpTo(ps + [s], s)
    ensures !IsPrime(s) ==> PrimesUpTo(ps, s)
  {
    if IsPrime(s) {
      forall p: nat | IsPrime(p) && p <= s
        ensures p in ps + [s]
      {
        if p < s { assert p in ps; }
      }
    }
  }

  /** Between two neighbouring multiples of `p` there is no multiple. */
  lemma BetweenMultiples(p: nat, c: nat, s: nat)
    requires Divides(p, c) && s < c < s + p
    ensures !Divides(p, s)
  {
    if Divides(p, s) {
      DividesSum(p, c, s, 1, -1);
      DividesBound(p, c - s);
    }
  }

  /** Class Prime. */
  class Prime {
    var seed: nat
    var primes: seq<nat>
    var counts: seq<nat>

    ghost predicate Valid()
      reads this
    {
      && seed >= 1
      && PrimesUpTo(primes, seed)
      && CountersBehind(primes, counts, seed)
    }

    constructor ()
      ensures Valid() && seed == 1 && primes == []
    {
      seed := 1;
      primes := [];
      counts := [];
      new;
      assert forall p: nat :: IsPrime(p) && p <= 1 ==> false;
    }

    /** The `while @seed > @counts[i]` loop. */
    method Advance(i: nat)
      requires i < |primes| == |counts| && primes[i] >= 2 && Divides(primes[i], counts[i])
      requires counts[i] < seed + primes[i]
      modifies this`counts
      ensures |counts| == |primes| && counts == old(counts)[i := counts[i]]
      ensures Divides(primes[i], counts[i]) && seed <= counts[i] < seed + primes[i]
    {
      while seed > counts[i]
        invariant |counts| == |primes| && counts == old(counts)[i := counts[i]]
        invariant Divides(primes[i], counts[i]) && counts[i] < seed + primes[i]
        decreases seed as int - counts[i]
      {
        DividesSum(primes[i], counts[i], primes[i], 1, 1) by { DividesMultiple(primes[i], 1); }
        counts := counts[i := counts[i] + primes[i]];
      }
    }

    /** `succ`: the next prime, which is appended to the list. */
    method Succ() returns (p: nat)
      requires Valid()
      modifies this
      ensures Valid()
      ensures p == seed && IsPrime(p) && p > old(seed)
      ensures primes == old(primes) + [p]
    {
      hide IsPrime, Divides;
      ghost var bound := MorePrimes(seed);
      ghost var ps := primes;
      var i := -1;
      var size := |primes|;
      while i < size
        invariant -1 <= i <= size == |primes| && primes == ps
        invariant old(seed) <= seed <= bound && (i == -1 ==> seed < bound)
        invariant i == -1 ==> PrimesUpTo(primes, seed) && CountersBehind(primes, counts, seed)
        invariant i >= 0 ==> seed > old(seed) && PrimesUpTo(primes, seed - 1) && CountersBehind(primes, counts, seed - 1)
        invariant forall k :: 0 <= k < i ==> !Divides(primes[k], seed)
        decreases bound - seed, if i == -1 then 0 else 1, size - i
      {
        if i == -1 {
          seed := seed + 1;
          i := i + 1;
        } else {
          PrimeIsPositive(primes[i]);
          Advance(i);
          if seed != counts[i] {
            BetweenMultiples(primes[i], counts[i], seed);
            i := i + 1;
          } else {
            CompositeSeed(primes, primes[i], seed, bound);
            i := -1;
          }
        }
      }
      SucceedsWith(primes, counts, seed);
      primes := primes + [seed];
      counts := counts + [seed + seed];
      p := seed;
    }
  }

  lemma CompositeSeed(ps: seq<nat>, p: nat, s: nat, bound: nat)
    requires s >= 1 && PrimesUpTo(ps, s - 1) && p in ps && Divides(p, s) && IsPrime(bound) && s <= bound
    ensures !IsPrime(s) && s < bound && PrimesUpTo(ps, s)
  {
    assert p >= 2 && p < s;
    ExtendPrimes(ps, s);
  }

  lemma SucceedsWith(ps: seq<nat>, cs: seq<nat>, s: nat)
    requires s >= 2 && PrimesUpTo(ps, s - 1) && CountersBehind(ps, cs, s - 1)
    requires forall k :: 0 <= k < |ps| ==> !Divides(ps[k], s)
    ensures IsPrime(s) && PrimesUpTo(ps + [s], s) && CountersBehind(ps + [s], cs + [s + s], s)
  {
    NotDividedIsPrime(ps, s);
    ExtendPrimes(ps, s);
    DividesMultiple(s, 2);
  }

  /** Two such lists agree at the first place where they could differ. */
  lemma NextPrimeUnique(ps: seq<nat>, m: nat, qs: seq<nat>, n: nat, k: nat)
    requires PrimesUpTo(ps, m) && PrimesUpTo(qs, n) && k < |ps| && k < |qs| && ps[..k] == qs[..k]
    ensures qs[k] >= ps[k]
  {
    forall j | 0 <= j < |ps|
      ensures ps[j] < qs[k] || ps[k] <= ps[j]
    {
      if j < k { assert ps[..k][j] == qs[..k][j]; }
    }
    assert IsPrime(qs[k]);
    assert qs[k] <= m ==> qs[k] in ps;
    assert ps[k] <= m;
  }

  /** The list after `k` calls of `succ` depends on nothing but `k`: it holds the first `k` primes. */
  lemma {:induction false} PrimesUpToUnique(ps: seq<nat>, m: nat, qs: seq<nat>, n: nat, k: nat)
    requires PrimesUpTo(ps, m) && PrimesUpTo(qs, n) && k <= |ps| && k <= |qs|
    ensures ps[..k] == qs[..k]
    decreases k
  {
    if k > 0 {
      hide PrimesUpTo;
      PrimesUpToUnique(ps, m, qs, n, k - 1);
      NextPrimeUnique(ps, m, qs, n, k - 1);
      NextPrimeUnique(qs, n, ps, m, k - 1);
      assert ps[..k] == ps[..k - 1] + [ps[k - 1]];
    }
  }

  datatype Factor = Factor(prime: nat, count: nat)

  /** The number a list of prime powers stands for. */
  function Value(pd: seq<Factor>): nat {
    if pd == [] then 1 else Value(pd[..|pd| - 1]) * Pow(pd[|pd| - 1].prime, pd[|pd| - 1].count)
  }

  /** Strictly increasing prime bases with positive exponents. */
  ghost predicate IsFactorization(pd: seq<Factor>) {
    && (forall i :: 0 <= i < |pd| ==> IsPrime(pd[i].prime) && pd[i].count > 0)
    && (forall i, j :: 0 <= i < j < |pd| ==> pd[i].prime < pd[j].prime)
  }

  lemma ValueSnoc(pd: seq<Factor>, f: Factor)
    ensures Value(pd + [f]) == Value(pd) * Pow(f.prime, f.count)
  {
    assert (pd + [f])[..|pd|] == pd;
  }

  lemma {:induction false} ValuePositive(pd: seq<Factor>)
    requires IsFactorization(pd)
    ensures Value(pd) > 0
  {
    if pd != [] {
      var k := |pd| - 1;
      ValuePositive(pd[..k]);
      MulPositive(Value(pd[..k]), Pow(pd[k].prime, pd[k].count));
    }
  }

  /** `Integer.from_prime_division`. */
  method FromPrimeDivision(pd: seq<Factor>) returns (value: nat)
    ensures value == Value(pd)
  {
    value := 1;
    var i := 0;
    while i < |pd|
      invariant 0 <= i <= |pd| && value == Value(pd[..i])
    {
      assert pd[..i + 1] == pd[..i] + [pd[i]];
      ValueSnoc(pd[..i], pd[i]);
      value := value * Pow(pd[i].prime, pd[i].count);
      i := i + 1;
    }
    assert pd[..i] == pd;
  }

  /** No number from 2 to `m` divides `v`. */
  ghost predicate NoFactorUpTo(v: nat, m: nat) {
    forall d :: 2 <= d <= m ==> !Divides(d, v)
  }

  /** Removing the factor `p` leaves numbers that had no factor below `p` without a factor up to `p`. */
  lemma FactorsRemoved(v0: nat, v: nat, c: nat, last: nat, p: nat, ps: seq<nat>)
    requires NoFactorUpTo(v0, last) && PrimesUpTo(ps + [p], p) && PrimesUpTo(ps, last) && last < p
    requires v > 0 && v0 == v * Pow(p, c) && !Divides(p, v)
    ensures NoFactorUpTo(v, p)
  {
    forall d | 2 <= d <= p
      ensures !Divides(d, v)
    {
      if Divides(d, v) {
        var q := PrimeFactor(d);
        DividesTrans(q, d, v);
        DividesMultiple(v, Pow(p, c));
        DividesTrans(q, v, v0);
      }
    }
  }

  /** The cut-off: past the square root only 1 or a prime is left. */
  lemma CutOff(v: nat, p: nat)
    requires v >= 2 && NoFactorUpTo(v, p) && p * p >= v
    ensures IsPrime(v) && v > p
  {
    var q := PrimeFactor(v);
    assert q > p;
    if !IsPrime(v) {
      MulMonoStrict(p, q, p);
      MulMonoStrict(p, q, q);
    }
  }

  /** The inner `while` of `prime_division`: divides `value` by `prime` as often as it goes. */
  method DivideOut(value0: int, prime: nat) returns (value: int, count: nat)
    requires value0 != 0 && prime >= 2
    ensures value0 == value * Pow(prime, count) && !Divides(prime, value)
    ensures value != 0 && (value > 0 <==> value0 > 0)
  {
    hide Pow;
    value, count := value0, 0;
    PowZero(prime);
    while value % prime == 0
      invariant value != 0 && (value > 0 <==> value0 > 0) && value0 == value * Pow(prime, count)
      decreases Abs(value)
    {
      DivideStep(value, prime);
      PowOneMore(value / prime, prime, count);
      value := value / prime;
      count := count + 1;
    }
  }

  /** An exact quotient is nearer to zero and keeps the sign. */
  lemma DivideStep(v: int, p: nat)
    requires v != 0 && p >= 2 && v % p == 0
    ensures v == v / p * p && v / p != 0 && (v / p > 0 <==> v > 0) && Abs(v / p) < Abs(v)
  {
    DividesQuotient(p, v);
    if v / p > 0 {
      MulMonoStrict(1, p, v / p);
    } else if v / p < 0 {
      MulMonoStrict(1, p, -(v / p));
      assert -(v / p) * p == -v;
    }
  }

  lemma PowZero(b: nat)
    ensures Pow(b, 0) == 1
  {
  }

  lemma PowOneMore(v: int, p: nat, c: nat)
    ensures v * Pow(p, c + 1) == v * p * Pow(p, c)
  {
    MulAssoc(v, p, Pow(p, c));
  }

  /** The list holds the factors 2 of `n`, and no others. */
  ghost predicate HoldsTwos(pv: seq<Factor>, n: nat) {
    && IsFactorization(pv) && (pv == [] || (|pv| == 1 && pv[0].prime == 2))
    && Value(pv) > 0 && n % Value(pv) == 0 && n / Value(pv) % 2 == 1
  }

  /**
   * `Integer#prime_division` on numbers other than zero. A negative number is never larger than the square of a prime,
   * so that its division ends behind the first one.
   */
  method PrimeDivision(self: int) returns (pv: seq<Factor>)
    requires self != 0
    ensures self > 0 ==> IsFactorization(pv) && Value(pv) == self
    ensures self < 0 ==> HoldsTwos(pv, -self)
  {
    hide IsPrime, Divides, Pow, Value, PrimesUpTo, NoFactorUpTo, IsFactorization, HoldsTwos;
    var ps := new Prime();
    var value := self;
    pv := [];
    if self > 0 { DividedNone(self); }
    while true
      invariant fresh(ps) && ps.Valid()
      invariant if self > 0 then value > 0 && Divided(pv, value, self, ps.seed)
        else value == self && pv == [] && ps.seed == 1 && ps.primes == []
      decreases Abs(self) + 1 - ps.seed
    {
      ghost var v0, last, known, pv0 := value, ps.seed, ps.primes, pv;
      var prime := ps.Succ();
      PrimeIsPositive(prime);
      var count;
      value, count := DivideOut(value, prime);
      if count != 0 {
        pv := pv + [Factor(prime, count)];
      }
      if self > 0 {
        DividedMore(pv0, v0, self, last, known, prime, count, value);
      } else {
        assert ps.primes == [prime];
        FirstPrime(prime);
        TwosOut(pv, self, value, count);
      }
      if prime * prime >= value { break; }
      if self > 0 { StillBelow(pv, value, self, prime); } else { MulMono(0, prime, prime); }
    }
    if value > 1 {
      LastFactor(pv, value, self, ps.seed);
      pv := pv + [Factor(value, 1)];
    }
  }

  /** What `prime_division` has found when all primes up to `last` are divided out of `n`. */
  ghost predicate Divided(pv: seq<Factor>, value: nat, n: nat, last: nat) {
    && IsFactorization(pv) && (forall i :: 0 <= i < |pv| ==> pv[i].prime <= last)
    && Value(pv) * value == n && NoFactorUpTo(value, last)
  }

  lemma DividedNone(n: nat)
    ensures Divided([], n, n, 1)
  {
    ValueEmpty(n);
  }

  /** One more prime. */
  lemma DividedMore(pv0: seq<Factor>, v0: nat, n: nat, last: nat, known: seq<nat>, p: nat, c: nat, v: nat)
    requires Divided(pv0, v0, n, last) && PrimesUpTo(known + [p], p) && PrimesUpTo(known, last) && last < p && IsPrime(p)
    requires v > 0 && v0 == v * Pow(p, c) && !Divides(p, v)
    ensures Divided(if c != 0 then pv0 + [Factor(p, c)] else pv0, v, n, p)
  {
    hide IsPrime, Divides, Pow, Value, PrimesUpTo, NoFactorUpTo;
    FactorsRemoved(v0, v, c, last, p, known);
    if c != 0 {
      ValueSnoc(pv0, Factor(p, c));
      AccountForPower(pv0, pv0 + [Factor(p, c)], v0, v, p, c, n);
    } else {
      AccountForPower(pv0, pv0, v0, v, p, c, n);
    }
  }

  /** What is left at the end is a prime above the others. */
  lemma LastFactor(pv: seq<Factor>, v: nat, n: nat, last: nat)
    requires Divided(pv, v, n, last) && v > 1 && last * last >= v
    ensures IsFactorization(pv + [Factor(v, 1)]) && Value(pv + [Factor(v, 1)]) == n
  {
    hide IsPrime, Divides, Pow, Value, NoFactorUpTo;
    CutOff(v, last);
    ValueSnoc(pv, Factor(v, 1));
    PowOne(v);
  }

  /** The first prime found is 2. */
  lemma FirstPrime(p: nat)
    requires PrimesUpTo([p], p) && IsPrime(p)
    ensures p == 2
  {
    assert IsPrime(2) && 2 <= p;
  }

  lemma TwosOut(pv: seq<Factor>, n: int, v: int, c: nat)
    requires pv == (if c != 0 then [Factor(2, c)] else []) && n == v * Pow(2, c) && n < 0 && v < 0 && !Divides(2, v)
    ensures HoldsTwos(pv, -n)
  {
    hide Pow, Value, IsFactorization;
    PowPositive(2, c);
    TwosValue(pv, c);
    var k := Pow(2, c);
    assert -n == -v * k;
    QuotientExact(-v, k);
    assert -v % 2 == 1;
  }

  lemma TwosValue(pv: seq<Factor>, c: nat)
    requires pv == if c != 0 then [Factor(2, c)] else []
    ensures IsFactorization(pv) && Value(pv) == Pow(2, c)
  {
    PowZero(2);
    ValueEmpty(1);
    ValueSnoc([], Factor(2, c));
    hide Value, Pow;
    assert [] + [Factor(2, c)] == [Factor(2, c)];
    assert IsPrime(2);
  }

  lemma QuotientExact(v: nat, k: nat)
    requires k > 0
    ensures v * k % k == 0 && v * k / k == v
  {
    DivUnique(v * k, k, v, 0);
  }

  lemma ValueEmpty(n: nat)
    ensures Value([]) * n == n && NoFactorUpTo(n, 1)
  {
  }

  lemma PowOne(b: nat)
    ensures Pow(b, 1) == b
  {
  }

  lemma AccountForPower(pv0: seq<Factor>, pv: seq<Factor>, v0: nat, v: nat, p: nat, c: nat, n: nat)
    requires Value(pv0) * v0 == n && v0 == v * Pow(p, c)
    requires if c == 0 then pv == pv0 else Value(pv) == Value(pv0) * Pow(p, c)
    ensures Value(pv) * v == n
  {
    hide Value;
    assert Value(pv0) * (v * Pow(p, c)) == Value(pv0) * Pow(p, c) * v by {
      MulAssoc(Value(pv0), Pow(p, c), v);
    }
  }

  lemma StillBelow(pv: seq<Factor>, v: nat, n: nat, p: nat)
    requires Value(pv) * v == n && n >= 1 && p * p < v && p >= 2
    ensures p <= n
  {
    hide Value;
    if Value(pv) <= 0 { MulMono(Value(pv), 0, v); }
    MulMono(1, Value(pv), v);
    MulMono(1, p, p);
  }

  /** `prime_division` and `from_prime_division` undo each other exactly on positive numbers. */
  method DivideAndMultiply(n: int) returns (m: nat)
    requires n != 0
    ensures m == n <==> n > 0
  {
    var pd := PrimeDivision(n);
    m := FromPrimeDivision(pd);
  }

  /** `assoc`: the exponent of `p` in a list of prime powers, 0 when it is not there. */
  function Exponent(pd: seq<Factor>, p: nat): nat {
    if pd == [] then 0 else if pd[0].prime == p then pd[0].count else Exponent(pd[1..], p)
  }

  lemma {:induction false} ExponentAt(pd: seq<Factor>, i: nat)
    requires IsFactorization(pd) && i < |pd|
    ensures Exponent(pd, pd[i].prime) == pd[i].count
  {
    if i > 0 {
      ExponentAt(pd[1..], i - 1);
    }
  }

  lemma {:induction false} ExponentAbsent(pd: seq<Factor>, p: nat)
    requires forall i :: 0 <= i < |pd| ==> pd[i].prime != p
    ensures Exponent(pd, p) == 0
  {
    if pd != [] {
      ExponentAbsent(pd[1..], p);
    }
  }

  /** A prime that is not a base does not divide the number. */
  lemma {:induction false} NotABase(pd: seq<Factor>, p: nat)
    requires IsFactorization(pd) && IsPrime(p) && forall i :: 0 <= i < |pd| ==> pd[i].prime != p
    ensures !Divides(p, Value(pd))
  {
    hide IsPrime, Divides, Pow;
    if pd == [] {
      PrimeIsPositive(p);
      NotDividesOne(p);
    } else {
      var k := |pd| - 1;
      NotABase(pd[..k], p);
      if Divides(p, Value(pd)) {
        PrimeDividesProduct(p, Value(pd[..k]), Pow(pd[k].prime, pd[k].count));
        PrimeDividesPower(p, pd[k].prime, pd[k].count);
      }
    }
  }

  lemma NotDividesOne(p: nat)
    requires p >= 2
    ensures !Divides(p, 1)
  {
  }

  /** The number is the power of `p` it contains times a number without `p`. */
  lemma {:induction false} SplitOff(pd: seq<Factor>, p: nat) returns (c: nat)
    requires IsFactorization(pd) && IsPrime(p)
    ensures Value(pd) == Pow(p, Exponent(pd, p)) * c && c > 0 && !Divides(p, c)
  {
    hide IsPrime, Divides, Pow, Exponent;
    if i :| 0 <= i < |pd| && pd[i].prime == p {
      ExponentAt(pd, i);
      c := SplitAt(pd, i);
    } else {
      ExponentAbsent(pd, p);
      NotABase(pd, p);
      ValuePositive(pd);
      PowZero(p);
      c := Value(pd);
    }
  }

  lemma {:induction false} SplitAt(pd: seq<Factor>, i: nat) returns (c: nat)
    requires IsFactorization(pd) && i < |pd|
    ensures Value(pd) == Pow(pd[i].prime, pd[i].count) * c && c > 0 && !Divides(pd[i].prime, c)
    decreases |pd|
  {
    hide IsPrime, Divides, Pow;
    var k := |pd| - 1;
    var last := Pow(pd[k].prime, pd[k].count);
    if i == k {
      c := Value(pd[..k]);
      ValuePositive(pd[..k]);
      NotABase(pd[..k], pd[k].prime);
    } else {
      var d := SplitAt(pd[..k], i);
      c := d * last;
      PrimeIsPositive(pd[k].prime);
      PowPositive(pd[k].prime, pd[k].count);
      MulPositive(d, last);
      MulAssoc(Pow(pd[i].prime, pd[i].count), d, last);
      if Divides(pd[i].prime, c) {
        PrimeDividesProduct(pd[i].prime, d, last);
        PrimeDividesPower(pd[i].prime, pd[k].prime, pd[k].count);
      }
    }
  }

  lemma PowPositive(b: nat, n: nat)
    requires b > 0
    ensures Pow(b, n) > 0
  {
  }

  function Min(a: nat, b: nat): nat {
    if a < b then a else b
  }

  /** A new prime contributes its smaller exponent to the gcd. */
  lemma GcdTimesPower(g: nat, m: nat, b: nat, p: nat, e: nat, f: nat, c: nat)
    requires IsPrime(p) && IsGcd(g, m, b) && m > 0 && b > 0 && !Divides(p, m)
    requires b == Pow(p, f) * c && !Divides(p, c)
    ensures IsGcd(g * Pow(p, Min(e, f)), m * Pow(p, e), b)
  {
    hide IsPrime, Divides, Pow;
    var k := Min(e, f);
    var q := Pow(p, k);
    PrimeIsPositive(p);
    PowDivides(p, k, e);
    PowDivides(p, k, f);
    DividesProduct(g, m, q, Pow(p, e));
    DividesBoth(g, m, b, p, k, f, c);
    forall d: nat | Divides(d, m * Pow(p, e)) && Divides(d, b)
      ensures Divides(d, g * q)
    {
      CommonDivisor(g, m, b, p, e, f, c, d);
    }
    forall d | Divides(d, m * Pow(p, e)) && Divides(d, b)
      ensures Divides(d, g * q)
    {
      DividesPositive(d, b);
    }
  }

  lemma DividesBoth(g: nat, m: nat, b: nat, p: nat, k: nat, f: nat, c: nat)
    requires IsPrime(p) && Divides(g, m) && Divides(g, b) && !Divides(p, m) && k <= f
    requires b == Pow(p, f) * c
    ensures Divides(g * Pow(p, k), b)
  {
    hide IsPrime, Divides, Pow;
    if Divides(p, g) {
      DividesTrans(p, g, m);
      assert false;
    }
    PrimeIsPositive(p);
    PowDivides(p, k, f);
    DividesQuotient(g, b);
    DividesPositive(g, b);
    NonNegativeQuotient(b, g);
    DividesMultiple(Pow(p, f), c) by { PowPositive(p, f); }
    DividesTrans(Pow(p, k), Pow(p, f), b);
    assert g * (b / g) == b;
    PowerDividesOther(p, k, g, b / g);
    DividesProduct(g, g, Pow(p, k), b / g) by { DividesSelf(g); }
  }

  lemma CommonDivisor(g: nat, m: nat, b: nat, p: nat, e: nat, f: nat, c: nat, d: nat)
    requires IsPrime(p) && IsGcd(g, m, b) && m > 0 && b > 0 && !Divides(p, m)
    requires b == Pow(p, f) * c && !Divides(p, c)
    requires Divides(d, m * Pow(p, e)) && Divides(d, b)
    ensures Divides(d, g * Pow(p, Min(e, f)))
  {
    hide IsPrime, Divides, Pow;
    DividesPositive(d, b);
    var j, u := ExtractPower(p, d);
    PrimeIsPositive(p);
    DividesMultiple(u, Pow(p, j));
    DividesMultiple(Pow(p, j), u) by { PowPositive(p, j); }
    DividesTrans(u, d, m * Pow(p, e));
    DividesTrans(u, d, b);
    DividesWithoutPower(u, m, p, e);
    assert Divides(u, g);
    DividesTrans(Pow(p, j), d, m * Pow(p, e));
    DividesTrans(Pow(p, j), d, b);
    PowerDividesOther(p, j, m, Pow(p, e));
    assert Pow(p, f) * c == c * Pow(p, f);
    PowerDividesOther(p, j, c, Pow(p, f));
    PowerExponents(p, j, e);
    PowerExponents(p, j, f);
    PowDivides(p, j, Min(e, f));
    DividesProduct(u, g, Pow(p, j), Pow(p, Min(e, f)));
  }

  /** The product `gcd2` accumulates over the first `k` pairs. */
  function CommonPowers(pa: seq<Factor>, pb: seq<Factor>): nat {
    if pa == [] then 1
    else
      var f := pa[|pa| - 1];
      CommonPowers(pa[..|pa| - 1], pb) * Pow(f.prime, Min(f.count, Exponent(pb, f.prime)))
  }

  /** The product over the smaller exponents is the gcd: `gcd2` agrees with Euclid's algorithm. */
  lemma {:induction false} CommonPowersIsGcd(pa: seq<Factor>, pb: seq<Factor>)
    requires IsFactorization(pa) && IsFactorization(pb)
    ensures IsGcd(CommonPowers(pa, pb), Value(pa), Value(pb))
  {
    hide IsPrime, Divides, Pow, Exponent;
    ValuePositive(pb);
    if pa == [] {
      OneIsGcd(Value(pb));
    } else {
      var k := |pa| - 1;
      var f := pa[k];
      CommonPowersIsGcd(pa[..k], pb);
      ValuePositive(pa[..k]);
      NotABase(pa[..k], f.prime);
      var c := SplitOff(pb, f.prime);
      GcdTimesPower(CommonPowers(pa[..k], pb), Value(pa[..k]), Value(pb), f.prime, f.count, Exponent(pb, f.prime), c);
    }
  }

  lemma OneIsGcd(b: nat)
    requires b > 0
    ensures IsGcd(1, 1, b)
  {
    forall d | Divides(d, 1) && Divides(d, b)
      ensures Divides(d, 1)
    {
    }
  }

  /** `assoc` on a list of pairs. */
  method Assoc(pd: seq<Factor>, p: nat) returns (i: int)
    requires IsFactorization(pd)
    ensures -1 <= i < |pd|
    ensures i >= 0 ==> pd[i].prime == p && Exponent(pd, p) == pd[i].count
    ensures i == -1 ==> Exponent(pd, p) == 0
  {
    hide IsPrime, Exponent;
    i := 0;
    while i < |pd|
      invariant 0 <= i <= |pd| && forall k :: 0 <= k < i ==> pd[k].prime != p
    {
      if pd[i].prime == p {
        ExponentAt(pd, i);
        return;
      }
      i := i + 1;
    }
    ExponentAbsent(pd, p);
    i := -1;
  }

  /** `Integer#gcd2` on numbers other than zero. */
  method Gcd2(self: int, other: int) returns (gcd: nat)
    requires self != 0 && other != 0
    ensures gcd == Gcd(Abs(self), Abs(other))
  {
    hide IsPrime, Divides, Pow, Exponent, Value, IsFactorization, Gcd, IsGcd;
    var a, b := Abs(self), Abs(other);
    if a < b { a, b := b, a; }
    var pa := PrimeDivision(a);
    var pb := PrimeDivision(b);
    gcd := 1;
    var i := 0;
    while i < |pa|
      invariant 0 <= i <= |pa| && gcd == CommonPowers(pa[..i], pb)
    {
      var pair := pa[i];
      var at := Assoc(pb, pair.prime);
      CommonPowersStep(pa, pb, i);
      PowZero(pair.prime);
      if at >= 0 {
        gcd := gcd * Pow(pb[at].prime, Min(pb[at].count, pair.count));
      }
      i := i + 1;
    }
    assert pa[..i] == pa;
    CommonPowersIsGcd(pa, pb);
    GcdIsGcd(a, b);
    GcdUnique(gcd, Gcd(a, b), a, b);
    GcdSymmetric(a, b);
  }

  lemma CommonPowersStep(pa: seq<Factor>, pb: seq<Factor>, i: nat)
    requires i < |pa|
    ensures CommonPowers(pa[..i + 1], pb)
         == CommonPowers(pa[..i], pb) * Pow(pa[i].prime, Min(pa[i].count, Exponent(pb, pa[i].prime)))
  {
    assert pa[..i + 1][..i] == pa[..i];
  }

  /** The exponent of a prime is fixed by the number alone. */
  lemma ExponentUnique(pa: seq<Factor>, pb: seq<Factor>, p: nat)
    requires IsFactorization(pa) && IsFactorization(pb) && Value(pa) == Value(pb) && IsPrime(p)
    ensures Exponent(pa, p) == Exponent(pb, p)
  {
    hide IsPrime, Divides, Pow, Exponent, Value, IsFactorization;
    PrimeIsPositive(p);
    var c := SplitOff(pa, p);
    var d := SplitOff(pb, p);
    ExponentsAgree(p, Exponent(pa, p), c, Exponent(pb, p), d);
  }

  lemma ExponentsAgree(p: nat, i: nat, c: nat, j: nat, d: nat)
    requires IsPrime(p) && Pow(p, i) * c == Pow(p, j) * d && !Divides(p, c) && !Divides(p, d)
    ensures i == j
  {
    hide IsPrime, Divides, Pow;
    ExponentNotAbove(p, i, c, j, d);
    ExponentNotAbove(p, j, d, i, c);
  }

  lemma ExponentNotAbove(p: nat, i: nat, c: nat, j: nat, d: nat)
    requires IsPrime(p) && Pow(p, i) * c == Pow(p, j) * d && !Divides(p, d)
    ensures i <= j
  {
    hide IsPrime, Divides, Pow;
    PrimeIsPositive(p);
    PowPositive(p, i);
    DividesMultiple(Pow(p, i), c);
    assert Pow(p, i) * c == d * Pow(p, j);
    PowerDividesOther(p, i, d, Pow(p, j));
    PowerExponents(p, i, j);
  }

  lemma {:induction false} ExponentIsCount(pd: seq<Factor>, p: nat)
    requires IsFactorization(pd) && Exponent(pd, p) > 0
    ensures exists i :: 0 <= i < |pd| && pd[i] == Factor(p, Exponent(pd, p))
  {
    if pd[0].prime != p {
      ExponentIsCount(pd[1..], p);
      var i :| 0 <= i < |pd[1..]| && pd[1..][i] == Factor(p, Exponent(pd[1..], p));
      assert pd[i + 1] == Factor(p, Exponent(pd, p));
    } else {
      assert pd[0] == Factor(p, Exponent(pd, p));
    }
  }

  /** Every pair of one factorisation of a number occurs in every other. */
  lemma SamePairs(pa: seq<Factor>, pb: seq<Factor>, i: nat)
    requires IsFactorization(pa) && IsFactorization(pb) && Value(pa) == Value(pb) && i < |pa|
    ensures pa[i] in pb
  {
    hide IsPrime, Value;
    ExponentAt(pa, i);
    ExponentUnique(pa, pb, pa[i].prime);
    ExponentIsCount(pb, pa[i].prime);
  }

  /** Unique factorisation: the list `prime_division` returns is the only one with that product. */
  lemma FactorizationUnique(pa: seq<Factor>, pb: seq<Factor>)
    requires IsFactorization(pa) && IsFactorization(pb) && Value(pa) == Value(pb)
    ensures pa == pb
  {
    forall i | 0 <= i < |pa|
      ensures pa[i] in pb
    {
      SamePairs(pa, pb, i);
    }
    forall i | 0 <= i < |pb|
      ensures pb[i] in pa
    {
      SamePairs(pb, pa, i);
    }
    SortedWithSameElements(pa, pb);
  }

  lemma {:induction false} SortedWithSameElements(pa: seq<Factor>, pb: seq<Factor>)
    requires Rising(pa) && Rising(pb) && Within(pa, pb) && Within(pb, pa)
    ensures pa == pb
  {
    assert |pb| > 0 ==> pb[0] in pa;
    if pa != [] {
      assert pa[0] in pb;
      SameHead(pa, pb);
      TailWithin(pa, pb);
      TailWithin(pb, pa);
      hide Rising, Within;
      SortedWithSameElements(pa[1..], pb[1..]);
      assert pa == [pa[0]] + pa[1..] && pb == [pb[0]] + pb[1..];
    }
  }

  ghost predicate Rising(ps: seq<Factor>) {
    forall i, j :: 0 <= i < j < |ps| ==> ps[i].prime < ps[j].prime
  }

  ghost predicate Within(pa: seq<Factor>, pb: seq<Factor>) {
    forall i :: 0 <= i < |pa| ==> pa[i] in pb
  }

  lemma SameHead(pa: seq<Factor>, pb: seq<Factor>)
    requires Rising(pa) && Rising(pb) && Within(pa, pb) && Within(pb, pa) && pa != [] && pb != []
    ensures pa[0] == pb[0]
  {
    assert pa[0] in pb && pb[0] in pa;
  }

  lemma TailWithin(pa: seq<Factor>, pb: seq<Factor>)
    requires pa != [] && pb != [] && pa[0] == pb[0] && Rising(pa) && Within(pa, pb)
    ensures Rising(pa[1..]) && Within(pa[1..], pb[1..])
  {
    forall i | 0 <= i < |pa[1..]|
      ensures pa[1..][i] in pb[1..]
    {
      assert pa[i + 1] in pb;
      var j :| 0 <= j < |pb| && pb[j] == pa[i + 1];
      assert j > 0 && pb[1..][j - 1] == pb[j];
    }
  }
}
