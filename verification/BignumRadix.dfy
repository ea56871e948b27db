/** Printing and parsing of bignums: `big2str` and `str2inum` of bignum.c, and `strtoul` of missing/strtoul.c. */
module BignumRadix {
  import opened Arith
  import opened Digits
  import opened Bignums
  import opened BignumShift
  import opened BignumDiv

  const HEXMAP := "0123456789abcdef"

  /** The digit a character stands for, or 100. */
  function DigitOf(c: char): nat {
    if '0' <= c <= '9' then (c - '0') as nat
    else if 'a' <= c <= 'f' then (c - 'a') as nat + 10
    else if 'A' <= c <= 'F' then (c - 'A') as nat + 10
    else 100
  }

  lemma HexMapDigit(d: nat)
    requires d < 16
    ensures DigitOf(HEXMAP[d]) == d
    ensures HEXMAP[d] == '0' <==> d == 0
    ensures HEXMAP[d] != 'x' && HEXMAP[d] != '-' && HEXMAP[d] != '\0' && !IsSpace(HEXMAP[d])
  {
  }

  predicate IsSpace(c: char) {
    c == ' ' || '\t' <= c <= '\r'
  }

  /** The digits of `n`, most significant first; nothing for zero. */
  function Numeral(n: nat, base: nat): string
    requires 2 <= base <= 16
  {
    if n == 0 then "" else Numeral(n / base, base) + [HEXMAP[n % base]]
  }

  predicate AllDigits(s: string, base: nat) {
    forall k :: 0 <= k < |s| ==> DigitOf(s[k]) < base
  }

  /** The number a string of digits stands for. */
  function NumVal(s: string, base: nat): nat {
    if s == "" then 0 else NumVal(s[..|s| - 1], base) * base + DigitOf(s[|s| - 1])
  }

  lemma NumValSnoc(s: string, c: char, base: nat)
    ensures NumVal(s + [c], base) == NumVal(s, base) * base + DigitOf(c)
  {
    assert (s + [c])[..|s|] == s;
  }

  lemma NumeralStep(n: nat, base: nat)
    requires 2 <= base <= 16 && n > 0
    ensures n == n / base * base + n % base && 0 <= n / base < n
    ensures Numeral(n, base) == Numeral(n / base, base) + [HEXMAP[n % base]]
  {
    var m := n / base;
    assert n == m * base + n % base;
    if m >= n { MulMono(2, base, m); }
  }

  /** What is printed for `n` is made of digits, begins with a non-zero one, and reads back as `n`. */
  lemma {:induction false} NumeralParses(n: nat, base: nat)
    requires 2 <= base <= 16
    ensures AllDigits(Numeral(n, base), base) && NumVal(Numeral(n, base), base) == n
    ensures n > 0 ==> Numeral(n, base) != "" && Numeral(n, base)[0] != '0'
  {
    hide NumVal, Numeral;
    if n > 0 {
      var m := n / base;
      NumeralStep(n, base);
      NumeralParses(m, base);
      HexMapDigit(n % base);
      NumValSnoc(Numeral(m, base), HEXMAP[n % base], base);
      if m == 0 {
        NumeralZero(base);
        assert n % base == n;
      }
    } else {
      NumeralZero(base);
    }
  }

  lemma NumeralZero(base: nat)
    requires 2 <= base <= 16
    ensures Numeral(0, base) == "" && NumVal("", base) == 0
  {
  }

  lemma PowStep(b: nat, n: nat)
    ensures Pow(b, 0) == 1 && Pow(b, n + 1) == b * Pow(b, n)
  {
  }

  /** A number printed with `k + 1` digits is at least `base^k`, and below `base^(k + 1)`. */
  lemma {:induction false} NumeralLength(n: nat, base: nat)
    requires 2 <= base <= 16 && n > 0
    ensures |Numeral(n, base)| > 0
    ensures Pow(base, |Numeral(n, base)| - 1) <= n < Pow(base, |Numeral(n, base)|)
  {
    hide Numeral, Pow;
    var m := n / base;
    NumeralStep(n, base);
    var k := |Numeral(m, base)|;
    PowStep(base, k);
    if m == 0 {
      NumeralZero(base);
    } else {
      NumeralLength(m, base);
      PowStep(base, k - 1);
      MulMono(Pow(base, k - 1), m, base);
      MulMono(m + 1, Pow(base, k), base);
      DistributeRight(m, 1, base);
    }
  }

  /** The literal fact behind the estimate 241/800 for the decimal logarithm of 2: 2^100 is below 1.3 * 10^30. */
  lemma TwoTo800()
    ensures Pow(2, 800) <= Pow(10, 241)
  {
    hide Pow;
    var a, b := Pow(2, 100), Pow(10, 29);
    TwoTo100();
    TenTo29();
    PowMul(2, 100, 8);
    PowMul(10, 29, 8);
    PowMonoBase(a, 13 * b, 8);
    EighthPower(13 * b);
    EighthPower(b);
    EighthOfProduct(13, b);
    PowAdd(10, 232, 9);
    TenTo9();
    MulMono(815730721, 1000000000, Pow(10, 232));
  }

  lemma TenTo9()
    ensures Pow(10, 9) == 1000000000
  {
    assert Pow(10, 4) == 10000 && Pow(10, 1) == 10;
    PowAdd(10, 4, 4);
    PowAdd(10, 8, 1);
  }

  lemma EighthPower(a: nat)
    ensures Pow(a, 8) == (a * a) * (a * a) * ((a * a) * (a * a))
  {
    hide Pow;
    PowStep(a, 0);
    PowStep(a, 1);
    assert Pow(a, 2) == a * a;
    PowAdd(a, 2, 2);
    PowAdd(a, 4, 4);
  }

  lemma SquareOfProduct(x: nat, y: nat)
    ensures (x * y) * (x * y) == (x * x) * (y * y)
  {
    MulAssoc(x * y, x, y);
    MulAssoc(x, y, x);
    MulAssoc(x, x, y);
    MulAssoc(x * x, y, y);
  }

  lemma EighthOfProduct(x: nat, y: nat)
    requires x == 13
    ensures (x * y * (x * y)) * (x * y * (x * y)) * ((x * y * (x * y)) * (x * y * (x * y)))
      == 815730721 * (y * y * (y * y) * (y * y * (y * y)))
  {
    SquareOfProduct(x, y);
    SquareOfProduct(x * x, y * y);
    SquareOfProduct(x * x * (x * x), y * y * (y * y));
  }

  lemma TwoTo100()
    ensures Pow(2, 100) == 1267650600228229401496703205376
  {
    assert Pow(2, 5) == 32;
    PowAdd(2, 5, 5);
    PowAdd(2, 10, 10);
    PowAdd(2, 20, 5);
    PowAdd(2, 25, 25);
    PowAdd(2, 50, 50);
  }

  lemma TenTo29()
    ensures Pow(10, 29) == 100000000000000000000000000000
  {
    TenTo9();
    PowAdd(10, 9, 9);
    PowAdd(10, 18, 9);
    assert Pow(10, 2) == 100;
    PowAdd(10, 27, 2);
  }

  /** The `hbase` of `big2str`: how much is divided off per round, four digits' worth. */
  function HBase(base: nat): (h: nat)
    requires base in {2, 8, 10, 16}
    ensures h == Pow(base, 4) && 0 < h <= 0x1_0000
  {
    FourthPower(base);
    if base == 10 then 10000 else if base == 16 then 0x10000 else if base == 8 then 4096 else 16
  }

  lemma FourthPower(base: nat)
    ensures Pow(base, 4) == base * base * (base * base)
  {
    hide Pow;
    PowStep(base, 0);
    PowStep(base, 1);
    PowAdd(base, 2, 2);
  }

  /** The size `big2str` computes for its buffer, in 32-bit arithmetic. */
  function BufferSize(len: nat, base: nat): nat
    requires base in {2, 8, 10, 16}
  {
    if base == 10 then ToULong(16 * len * 241) / 800 + 2
    else if base == 16 then ToULong(16 * len) / 4 + 2
    else ToULong(16 * len) + 2
  }

  /** The buffer is one longer than the number of digits at least, so that the sign fits in front. */
  ghost predicate BufferFits(len: nat, base: nat)
    requires base in {2, 8, 10, 16}
  {
    if base == 10 then 16 * len * 241 < 0x1_0000_0000 else 16 * len < 0x1_0000_0000
  }

  /** With `d` digits printed, base^(d - 1) < 2^(16 * len). */
  lemma DigitsVersusBits(n: nat, len: nat, base: nat)
    requires 2 <= base <= 16 && 0 < n < W(len)
    ensures |Numeral(n, base)| > 0 && Pow(base, |Numeral(n, base)| - 1) < Pow(2, 16 * len)
  {
    hide Numeral, Pow, W;
    NumeralLength(n, base);
    PowTwoW(len, 0);
    PowStep(2, 0);
  }

  lemma PowLessMeansLess(b: nat, m: nat, n: nat)
    requires b > 0 && Pow(b, m) < Pow(b, n)
    ensures m < n
  {
    if n <= m {
      PowMono(b, n, m);
    }
  }

  /** Powers of two as bases: one digit takes `k` bits. */
  lemma BinaryDigits(d: nat, bits: nat, k: nat, base: nat)
    requires base == Pow(2, k) && Pow(base, d) < Pow(2, bits)
    ensures k * d < bits
  {
    hide Pow;
    PowMul(2, k, d);
    PowLessMeansLess(2, k * d, bits);
  }

  /** 800 decimal digits take more bits than 241 * 800 / 241: from 2^800 <= 10^241. */
  lemma DecimalDigits(d: nat, bits: nat)
    requires Pow(10, d) < Pow(2, bits)
    ensures 800 * d < 241 * bits
  {
    hide Pow;
    PowMul(10, d, 800);
    PowMonoStrict(Pow(10, d), Pow(2, bits), 800);
    PowMul(2, bits, 800);
    PowMul(2, 800, bits);
    TwoTo800();
    PowMonoBase(Pow(2, 800), Pow(10, 241), bits);
    PowMul(10, 241, bits);
    PowLessMeansLess(10, d * 800, 241 * bits);
  }

  lemma {:induction false} PowMonoStrict(a: nat, b: nat, n: nat)
    requires a < b && n > 0
    ensures Pow(a, n) < Pow(b, n)
  {
    if n == 1 {
      PowStep(a, 0);
      PowStep(b, 0);
    } else {
      PowMonoStrict(a, b, n - 1);
      PowStep(a, n - 1);
      PowStep(b, n - 1);
      MulMono(Pow(a, n - 1), Pow(b, n - 1), a);
      MulMonoStrict(a, b, Pow(b, n - 1));
    }
  }

  lemma PowersOfTwo()
    ensures Pow(2, 1) == 2 && Pow(2, 3) == 8 && Pow(2, 4) == 16
  {
  }

  /** The buffer leaves room for all digits and the sign. */
  lemma BufferLargeEnough(n: nat, len: nat, base: nat)
    requires base in {2, 8, 10, 16} && 0 < n < W(len) && BufferFits(len, base)
    ensures |Numeral(n, base)| + 1 <= BufferSize(len, base)
  {
    hide Numeral, Pow, W;
    DigitsVersusBits(n, len, base);
    var d := |Numeral(n, base)| - 1;
    PowersOfTwo();
    if base == 10 {
      DecimalDigits(d, 16 * len);
    } else if base == 16 {
      BinaryDigits(d, 16 * len, 4, 16);
    } else if base == 8 {
      BinaryDigits(d, 16 * len, 3, 8);
    } else {
      BinaryDigits(d, 16 * len, 1, 2);
    }
  }

  /** A decimal numeral of a normalised number has more than 4.8 digits per bignum digit below the top one. */
  lemma DecimalDigitsAtLeast(n: nat, len: nat)
    requires len > 0 && W(len - 1) <= n
    ensures 48 * (len - 1) < 10 * |Numeral(n, 10)|
  {
    hide Numeral, Pow, W;
    var d := |Numeral(n, 10)|;
    NumeralLength(n, 10);
    PowTwoW(len - 1, 0);
    PowStep(2, 0);
    assert Pow(2, 16 * (len - 1)) < Pow(10, d);
    PowMonoStrict(Pow(2, 16 * (len - 1)), Pow(10, d), 3);
    PowMul(2, 16 * (len - 1), 3);
    PowMul(10, d, 3);
    PowMul(10, 3, d);
    ThousandBelow();
    PowMonoBase(Pow(10, 3), Pow(2, 10), d);
    PowMul(2, 10, d);
    PowLessMeansLess(2, 16 * (len - 1) * 3, 10 * d);
  }

  lemma ThousandBelow()
    ensures Pow(10, 3) <= Pow(2, 10)
  {
    assert Pow(2, 5) == 32;
    PowAdd(2, 5, 5);
    assert Pow(10, 3) == 1000;
  }

  /**
   * The decimal estimate is computed in 32 bits. It leaves room for the digits and the sign of a normalised bignum
   * exactly when `16 * len * 241` does not wrap around.
   */
  lemma DecimalBufferIff(n: nat, len: nat)
    requires len > 0 && W(len - 1) <= n < W(len)
    ensures |Numeral(n, 10)| + 1 <= BufferSize(len, 10) <==> 16 * len * 241 < 0x1_0000_0000
  {
    hide Numeral, W;
    if 16 * len * 241 < 0x1_0000_0000 {
      BufferLargeEnough(n, len, 10);
    } else {
      DecimalDigitsAtLeast(n, len);
    }
  }

  /** With 1113841 digits the product wraps around: a buffer of 6 characters is made, whatever the number. */
  lemma DecimalBufferFails(n: nat)
    requires W(1113840) <= n < W(1113841)
    ensures BufferSize(1113841, 10) == 6 && |Numeral(n, 10)| > 5
  {
    hide Numeral, W;
    DecimalBufferIff(n, 1113841);
  }

  /** Printing so far: the numeral of what is left followed by the characters written is the whole numeral. */
  ghost predicate Printing(rest: nat, written: string, n: nat, base: nat)
    requires 2 <= base <= 16
  {
    Numeral(rest, base) + written == Numeral(n, base)
  }

  lemma PrintStep(rest: nat, written: string, n: nat, base: nat, written': string)
    requires 2 <= base <= 16 && rest > 0 && Printing(rest, written, n, base)
    requires written' == [HEXMAP[rest % base]] + written
    ensures Printing(rest / base, written', n, base)
  {
    hide Numeral;
    NumeralStep(rest, base);
    assert Numeral(rest / base, base) + written' == Numeral(rest, base) + written;
  }

  lemma PrintingRoom(rest: nat, written: string, n: nat, base: nat)
    requires 2 <= base <= 16 && Printing(rest, written, n, base)
    ensures rest > 0 ==> |written| < |Numeral(n, base)|
    ensures rest == 0 ==> written == Numeral(n, base)
  {
    hide Numeral;
    if rest > 0 {
      NumeralStep(rest, base);
    } else {
      NumeralZero(base);
      assert "" + written == written;
    }
  }

  /** What is left to print inside a round: quotient `v` and the `k` low digits `num`. */
  function Rest(v: nat, k: nat, num: nat, base: nat): nat {
    v * Pow(base, k) + num
  }

  /** Taking one digit off. */
  lemma TakeDigit(v: nat, k: nat, num: nat, base: nat)
    requires base > 0 && k > 0 && num < Pow(base, k)
    ensures Rest(v, k, num, base) % base == num % base
    ensures Rest(v, k, num, base) / base == Rest(v, k - 1, num / base, base)
    ensures num / base < Pow(base, k - 1)
  {
    hide Pow;
    var p := Pow(base, k - 1);
    PowStep(base, k - 1);
    assert v * Pow(base, k) == v * p * base;
    assert num == num / base * base + num % base;
    DistributeRight(v * p, num / base, base);
    DivUnique(v * Pow(base, k) + num, base, v * p + num / base, num % base);
    assert base * p == p * base;
    MulCancelLt(num / base, p, base);
  }

  lemma RestFacts(v: nat, k: nat, num: nat, base: nat)
    requires base > 0
    ensures v > 0 || num > 0 ==> Rest(v, k, num, base) > 0
    ensures v == 0 ==> Rest(v, k, num, base) == num
    ensures k == 0 && num < Pow(base, k) ==> Rest(v, k, num, base) == v && num == 0
  {
    if v > 0 { MulMono(1, v, Pow(base, k)); }
  }

  /** The inner loop of `big2str`: writes up to four digits of `num` in front of position `j`. */
  method WriteDigits(s: array<char>, j0: nat, end: nat, num0: ULong, base: nat, last: bool, ghost v: nat, ghost n: nat)
    returns (j: nat)
    requires base in {2, 8, 10, 16} && j0 <= end < s.Length && num0 < Pow(base, 4)
    requires last <==> v == 0
    requires v > 0 || num0 > 0
    requires Printing(Rest(v, 4, num0, base), s[j0..end], n, base)
    requires |Numeral(n, base)| < end
    modifies s
    ensures 1 <= j <= end
    ensures s[end..] == old(s[end..]) && s[0] == old(s[0])
    ensures Printing(v, s[j..end], n, base)
  {
    hide Numeral, Pow, Printing, Rest;
    j := j0;
    var num: ULong := num0;
    var k := 4;
    while k > 0
      invariant 0 <= k <= 4 && 0 <= j <= end && num < Pow(base, k)
      invariant v > 0 || num > 0
      invariant s[end..] == old(s[end..]) && s[0] == old(s[0])
      invariant Printing(Rest(v, k, num, base), s[j..end], n, base)
    {
      WriteDigit(s, j, end, num, base, v, k, n);
      k, j, num := k - 1, j - 1, num / base;
      if last && num == 0 { break; }
    }
    RestFacts(v, k, num, base);
    PrintingRoom(v, s[j..end], n, base);
  }

  /** One digit, in front of position `j`. */
  method WriteDigit(s: array<char>, j: nat, end: nat, num: ULong, base: nat, ghost v: nat, ghost k: nat, ghost n: nat)
    requires base in {2, 8, 10, 16} && j <= end < s.Length && 0 < k && num < Pow(base, k) && (v > 0 || num > 0)
    requires Printing(Rest(v, k, num, base), s[j..end], n, base) && |Numeral(n, base)| < end
    modifies s
    ensures 1 < j && s[end..] == old(s[end..]) && s[0] == old(s[0]) && num / base < Pow(base, k - 1)
    ensures Printing(Rest(v, k - 1, num / base, base), s[j - 1..end], n, base)
  {
    hide Numeral, Pow, Printing, Rest;
    ghost var rest, written := Rest(v, k, num, base), s[j..end];
    RestFacts(v, k, num, base);
    PrintingRoom(rest, written, n, base);
    TakeDigit(v, k, num, base);
    s[j - 1] := HEXMAP[num % base];
    PrintStep(rest, written, n, base, s[j - 1..end]);
  }

  /** One round of dividing by `hbase` keeps the top digit non-zero once a vanished one is dropped. */
  lemma TopStaysNonZero(a: seq<Digit>, q: seq<Digit>, hbase: int, r: int)
    requires |a| == |q| > 0 && a[|a| - 1] != 0 && 0 < hbase <= 0x1_0000 && 0 <= r < hbase
    requires Val(a) == Val(q) * hbase + r
    ensures q[|q| - 1] == 0 && |q| > 1 ==> q[|q| - 2] != 0
    ensures q[|q| - 1] == 0 ==> Val(q) == Val(q[..|q| - 1])
  {
    hide Val, W;
    var k := |q| - 1;
    ValTop(a);
    if q[k] == 0 {
      ValZeros(q, k);
      if k > 0 && q[k - 1] == 0 {
        ValZeros(q, k - 1);
        ValBound(q[..k - 1]);
        WStep(k - 1);
        MulMono(Val(q) + 1, W(k - 1), hbase);
        MulMono(hbase, RADIX, W(k - 1));
        DistributeRight(Val(q), 1, hbase);
        assert false;
      }
    }
  }

  lemma PositiveWhenDigits(a: seq<Digit>)
    requires a != [] ==> a[|a| - 1] != 0
    ensures Val(a) > 0 <==> a != []
  {
    if a != [] { ValTop(a); }
  }

  /** The conversion loop of `big2str`; the digits of `ds` are used up. */
  method PrintDigits(ds: array<Digit>, i0: nat, s: array<char>, end: nat, base: nat) returns (j: nat)
    requires base in {2, 8, 10, 16} && 0 < i0 <= ds.Length && ds[i0 - 1] != 0 && 0 < end < s.Length
    requires |Numeral(Val(ds[..i0]), base)| < end
    modifies ds, s
    ensures 1 <= j <= end
    ensures s[j..end] == Numeral(old(Val(ds[..i0])), base)
    ensures s[end..] == old(s[end..]) && s[0] == old(s[0])
  {
    hide Numeral, Pow, Printing, Val, W;
    ghost var n := Val(ds[..i0]);
    var hbase := HBase(base);
    var i := i0;
    j := end;
    PrintingStart(n, s[end..end], base);
    PositiveWhenDigits(ds[..i]);
    while i > 0 && j > 0
      invariant 0 <= i <= i0 && 1 <= j <= end
      invariant i > 0 ==> ds[i - 1] != 0
      invariant s[end..] == old(s[end..]) && s[0] == old(s[0])
      invariant Printing(Val(ds[..i]), s[j..end], n, base)
      decreases i, Val(ds[..i])
    {
      ghost var a := ds[..i];
      PositiveWhenDigits(a);
      var num := ShortDivide(ds, i, hbase);
      ghost var q := ds[..i];
      TopStaysNonZero(a, q, hbase, num);
      ghost var i1 := i;
      if ds[i - 1] == 0 { i := i - 1; }
      assert ds[..i] == q[..i];
      assert i == i1 ==> q[..i] == q;
      PositiveWhenDigits(ds[..i]);
      SmallerAfterDivision(Val(a), Val(q), hbase, num);
      assert Val(a) == Rest(Val(ds[..i]), 4, num, base);
      j := WriteDigits(s, j, end, num, base, i == 0, Val(ds[..i]), n);
    }
    PositiveWhenDigits(ds[..i]);
    PrintingRoom(0, s[j..end], n, base);
  }

  lemma PrintingStart(n: nat, none: string, base: nat)
    requires none == "" && 2 <= base <= 16
    ensures Printing(n, none, n, base)
  {
    hide Numeral;
    assert Numeral(n, base) + "" == Numeral(n, base);
  }

  lemma SmallerAfterDivision(a: nat, q: nat, h: int, r: int)
    requires a == q * h + r && h >= 2 && 0 <= r < h && a > 0
    ensures q < a && q * h + r > 0
  {
    if q >= a { MulMono(2, h, q); }
  }

  /** Skips the zeros at the front of what was written. */
  method SkipZeros(s: array<char>, j0: nat, ghost k: nat) returns (j: nat)
    requires j0 <= k < s.Length && s[k] != '0'
    ensures j0 <= j <= k && s[j] != '0' && forall i :: j0 <= i < j ==> s[i] == '0'
  {
    j := j0;
    while s[j] == '0'
      invariant j0 <= j <= k && forall i :: j0 <= i < j ==> s[i] == '0'
      decreases k - j
    {
      j := j + 1;
    }
  }

  /** `memmove` towards the front of one buffer. */
  method MoveFront(s: array<char>, to: nat, from: nat, n: nat)
    requires to <= from && from + n <= s.Length
    modifies s
    ensures s[to..to + n] == old(s[from..from + n]) && s[..to] == old(s[..to])
  {
    var i := 0;
    while i < n
      invariant 0 <= i <= n
      invariant s[..to] == old(s[..to])
      invariant s[to..to + i] == old(s[from..from + i])
      invariant s[from + i..] == old(s[from + i..])
    {
      ghost var moved := s[to..to + i];
      assert s[from + i] == s[from + i..][0];
      s[to + i] := s[from + i];
      assert s[to..to + i + 1] == moved + [old(s[from + i])];
      assert s[from + i + 1..] == old(s[from + i..])[1..];
      i := i + 1;
    }
  }

  /** What is printed for the number `n`. */
  function Printed(n: int, base: nat): string
    requires 2 <= base <= 16
  {
    if n == 0 then "0" else if n > 0 then Numeral(n, base) else "-" + Numeral(-n, base)
  }

  datatype Text = BadBase | Text(s: string)

  /** `big2str` on a bignum. */
  method Big2Str(x: Bignum, base: nat) returns (r: Text)
    requires x.Normal()
    requires base in {2, 8, 10, 16} ==> BufferFits(x.len, base)
    ensures r.BadBase? <==> x.len > 0 && base !in {2, 8, 10, 16}
    ensures r.Text? && x.len > 0 ==> r.s == Printed(x.Int(), base)
    ensures x.len == 0 ==> r == Text("0")
  {
    hide Numeral, Val, W, BufferSize, BufferFits;
    var i := x.len;
    ghost var a := x.Digits();
    if i == 0 { return Text("0"); }
    if base !in {2, 8, 10, 16} { return BadBase; }
    NormalIsPositive(a);
    BufferEnough(a, base);
    var j := BufferSize(i, base);
    var end := j;
    var t := new Bignum.Clone(x);
    var s := new char[j + 1](_ => '\0');
    s[0] := if x.sign then '+' else '-';
    assert t.digits[..i] == a;
    j := PrintDigits(t.digits, i, s, end, base);
    NumeralParses(Val(a), base);
    var text := Finish(s, j, x.sign, Numeral(Val(a), base));
    return Text(text);
  }

  /** The end of `big2str`: leading zeros go, the digits move to the front, behind the minus sign if there is one. */
  method Finish(s: array<char>, j0: nat, sign: bool, ghost num: string) returns (text: string)
    requires 1 <= j0 < s.Length - 1 && s[j0..s.Length - 1] == num && num[0] != '0'
    requires s[0] == if sign then '+' else '-'
    modifies s
    ensures text == if sign then num else "-" + num
  {
    assert s[j0] == s[j0..s.Length - 1][0];
    var j := SkipZeros(s, j0, j0);
    var len := s.Length - 1 - (if sign then j else j - 1);
    ghost var all := s[j..j + len];
    MoveFront(s, if sign then 0 else 1, j, len);
    text := s[..len];
    if sign {
      assert text == s[0..0 + len] == all;
    } else {
      assert s[0] == s[..1][0];
      assert text == [s[0]] + s[1..1 + len][..len - 1];
      assert all[..len - 1] == num;
    }
    s[len] := '\0';
  }

  lemma BufferEnough(a: seq<Digit>, base: nat)
    requires base in {2, 8, 10, 16} && Val(a) > 0 && BufferFits(|a|, base)
    ensures |Numeral(Val(a), base)| + 1 <= BufferSize(|a|, base)
  {
    ValBound(a);
    BufferLargeEnough(Val(a), |a|, base);
  }

  function SkipSpace(s: string): string {
    if s != "" && IsSpace(s[0]) then SkipSpace(s[1..]) else s
  }

  /** The longest prefix made of digits of the base. */
  function Run(s: string, base: nat): string {
    if s != "" && DigitOf(s[0]) < base then [s[0]] + Run(s[1..], base) else ""
  }

  /** Where `strtoul` starts reading digits: behind blanks and, for base 16, behind "0x". */
  function StrToULStart(s: string, base: nat): string {
    var t := SkipSpace(s);
    if base == 16 && |t| >= 2 && t[0] == '0' && t[1] == 'x' then t[2..] else t
  }

  /** Reading is bounded by the length of what is read. */
  lemma {:induction false} NumValBound(s: string, base: nat)
    requires AllDigits(s, base)
    ensures NumVal(s, base) < Pow(base, |s|)
  {
    if s != "" {
      var k := |s| - 1;
      NumValBound(s[..k], base);
      PowStep(base, k);
      MulMono(NumVal(s[..k], base) + 1, Pow(base, k), base);
      DistributeRight(NumVal(s[..k], base), 1, base);
    }
  }

  /** Having read a digit prefix, whatever run follows belongs to it. */
  lemma RunNext(s: string, k: nat, base: nat, done: string)
    requires k <= |s| && Run(s, base) == done + Run(s[k..], base)
    ensures k < |s| && DigitOf(s[k]) < base ==> Run(s, base) == done + [s[k]] + Run(s[k + 1..], base)
    ensures k == |s| || DigitOf(s[k]) >= base ==> Run(s, base) == done
  {
    if k < |s| {
      assert s[k..][1..] == s[k + 1..];
    }
  }

  /** `strtoul` of missing/strtoul.c on a string too short to overflow; its four digit loops read digits alike. */
  method StrToUL(s: string, base: nat) returns (result: ULong)
    requires 2 <= base <= 16 && Pow(base, |s|) <= 0x1_0000_0000
    ensures result == NumVal(Run(StrToULStart(s, base), base), base)
  {
    hide Pow, NumVal, Run;
    var p := s;
    while p != "" && IsSpace(p[0])
      invariant SkipSpace(s) == SkipSpace(p) && |p| <= |s|
      decreases |p|
    {
      p := p[1..];
    }
    if base == 16 && |p| >= 2 && p[0] == '0' && p[1] == 'x' {
      p := p[2..];
    }
    result := 0;
    var k := 0;
    ghost var done := "";
    RunStart(p, base);
    while k < |p| && DigitOf(p[k]) < base
      invariant 0 <= k <= |p| && |done| == k && AllDigits(done, base)
      invariant Run(p, base) == done + Run(p[k..], base)
      invariant result == NumVal(done, base)
    {
      RunNext(p, k, base, done);
      NumValSnoc(done, p[k], base);
      done := done + [p[k]];
      NumValBound(done, base);
      PowMono(base, |done|, |s|);
      k := k + 1;
      result := ToULong(result * base + DigitOf(p[k - 1]));
    }
    RunNext(p, k, base, done);
  }

  lemma RunStart(p: string, base: nat)
    ensures Run(p, base) == "" + Run(p[0..], base) && NumVal("", base) == 0
  {
    assert p[0..] == p;
    assert "" + Run(p, base) == Run(p, base);
  }

  /** Bits `str2inum` reserves per character. */
  function BitsPerChar(base: nat): nat {
    if base == 8 then 3 else 4
  }

  lemma BaseFitsBits(base: nat, k: nat)
    requires 2 <= base <= 16
    ensures Pow(base, k) <= Pow(2, BitsPerChar(base) * k)
  {
    hide Pow;
    PowersOfTwo();
    PowMul(2, BitsPerChar(base), k);
    PowMonoBase(base, Pow(2, BitsPerChar(base)), k);
  }

  /** The digit count `str2inum` allocates holds every number its string can stand for. */
  lemma AllocationLargeEnough(base: nat, k: nat)
    requires 2 <= base <= 16
    ensures Pow(base, k) < W(BitsPerChar(base) * k / 16 + 1)
  {
    hide Pow, W;
    var bits := BitsPerChar(base) * k;
    var len := bits / 16 + 1;
    BaseFitsBits(base, k);
    PowTwoW(len, 0);
    PowStep(2, 0);
    PowMonoStep(2, bits, 16 * len);
  }

  lemma PowMonoStep(b: nat, m: nat, n: nat)
    requires b >= 2 && m < n
    ensures Pow(b, m) < Pow(b, n)
  {
    hide Pow;
    PowStep(b, m);
    MulMono(2, b, Pow(b, m));
    PowMono(b, m + 1, n);
  }

  /** The inner loop of `str2inum`: multiplies the digits below `blen` by the base and adds `c`, up to the carry. */
  method MulAddDigits(zds: array<Digit>, blen: nat, base: nat, c: nat) returns (num: ULong)
    requires blen <= zds.Length && 2 <= base <= 16 && c < base
    modifies zds
    ensures num < base && zds[blen..] == old(zds[blen..])
    ensures Val(zds[..blen]) + num * W(blen) == base * old(Val(zds[..blen])) + c
  {
    hide Val, W, Below, Scaled, Lo, Dn;
    ghost var a := zds[..blen];
    var i := 0;
    num := c;
    ScaledFrom(zds[..0], a, base, c);
    while i < blen
      invariant 0 <= i <= blen && num < base
      invariant zds[i..] == old(zds[i..])
      invariant ScaledPlus(zds[..i], num, a, base, c)
    {
      ghost var written, n0 := zds[..i], num;
      assert zds[i] == zds[i..][0] == a[i];
      ProductFits(zds[i], base, num);
      num := num + zds[i] * base;
      zds[i] := Lo(num);
      ScaledPlusStep(written, n0, a, base, c, num, zds[..i + 1]);
      assert zds[i + 1..] == old(zds[i..])[1..];
      num := Dn(num);
      i := i + 1;
    }
    ScaledPlusAll(zds[..blen], num, a, base, c);
  }

  ghost predicate ScaledPlus(z: seq<Digit>, n: int, a: seq<Digit>, dd: int, c: int) {
    Val(z) + n * W(|z|) == dd * Below(a, |z|) + c
  }

  lemma ScaledFrom(z: seq<Digit>, a: seq<Digit>, dd: int, c: int)
    requires z == []
    ensures ScaledPlus(z, c, a, dd, c)
  {
    assert a[..0] == [];
    assert W(0) == 1;
  }

  lemma ScaledPlusStep(z: seq<Digit>, n: int, a: seq<Digit>, dd: int, c: int, t: int, z': seq<Digit>)
    requires ScaledPlus(z, n, a, dd, c) && |z| < |a| && t == n + a[|z|] * dd && z' == z + [Lo(t)]
    ensures ScaledPlus(z', Dn(t), a, dd, c)
  {
    hide Val, W, Below, Lo, Dn;
    var i := |z|;
    BelowStep(a, i);
    ValSnoc(z, Lo(t));
    WStep(i);
    Column(t, W(i));
    ScaleArith(n, a[i], dd, W(i), Below(a, i));
  }

  lemma ScaledPlusAll(z: seq<Digit>, n: int, a: seq<Digit>, dd: int, c: int)
    requires ScaledPlus(z, n, a, dd, c) && |z| == |a|
    ensures Val(z) + n * W(|z|) == dd * Val(a) + c
  {
  }

  /** The digits in use hold `v`, the rest of the allocation is zero, and no more digits are in use than needed. */
  ghost predicate Holds(z: seq<Digit>, blen: nat, v: nat) {
    1 <= blen <= |z| && Val(z[..blen]) == v && (forall i :: blen <= i < |z| ==> z[i] == 0)
      && (blen > 1 ==> W(blen - 1) <= v)
  }

  /** One more character: `blen` grows when a carry is left, and never past the allocation. */
  method MulAdd(zds: array<Digit>, blen0: nat, base: nat, c: nat, ghost v: nat) returns (blen: nat)
    requires Holds(zds[..], blen0, v) && 2 <= base <= 16 && c < base
    requires base * v + c < W(zds.Length)
    modifies zds
    ensures Holds(zds[..], blen, base * v + c)
  {
    hide Val, W, Dn;
    blen := blen0;
    assert zds[..][..blen] == zds[..blen];
    ghost var high := zds[blen..];
    assert forall i :: 0 <= i < |high| ==> high[i] == zds[..][blen + i] == 0;
    var num := MulAddDigits(zds, blen, base, c);
    assert zds[..][..blen] == zds[..blen];
    assert forall i :: blen <= i < zds.Length ==> zds[i] == zds[blen..][i - blen];
    if num != 0 {
      GrowthFits(zds[..blen], num, base * v + c, zds.Length);
      // `continue`: the loop goes on with the next, still zero, digit
      ghost var low, last: Digit := zds[..blen], num;
      blen := blen + 1;
      var i := blen - 1;
      num := num + zds[i] * base;
      zds[i] := LoIdentity(num);
      num := DnOfDigit(num);
      assert zds[..][..blen] == low + [last];
      ValSnoc(low, last);
    } else {
      NoGrowth(blen, v, base, c);
    }
  }

  function DnOfDigit(num: int): (d: ULong)
    requires 0 <= num <= 0xffff
    ensures d == 0
  {
    Dn(num)
  }

  lemma GrowthFits(low: seq<Digit>, num: int, n: nat, len: nat)
    requires num > 0 && Val(low) + num * W(|low|) == n && n < W(len)
    ensures |low| < len && W(|low|) <= n
  {
    hide Val, W;
    MulMono(1, num, W(|low|));
    if len <= |low| {
      PowMonoW(len, |low|);
    }
  }

  lemma NoGrowth(blen: nat, v: nat, base: nat, c: nat)
    requires base >= 2
    ensures blen > 1 && W(blen - 1) <= v ==> W(blen - 1) <= base * v + c
  {
    MulMono(1, base, v);
  }

  function Magnitude(s: string, base: nat): nat {
    if BitsPerChar(base) * |s| <= 32 then NumVal(Run(StrToULStart(s, base), base), base)
    else NumVal(Run(s, base), base)
  }

  /** The number `str2inum` reads from a string, its prefix and sign included. */
  function ParsedValue(str: string, base: nat): int {
    var s := SkipSpace(str);
    var neg := s != "" && s[0] == '-';
    var t := if neg then s[1..] else s;
    if base != 0 then Signed(!neg, Magnitude(t, base))
    else if t != "" && t[0] == '0' then
      var hex := |t| > 1 && (t[1] == 'x' || t[1] == 'X');
      var u := if hex then t[2..] else t[1..];
      if u == "" then 0 else Signed(!neg, Magnitude(u, if hex then 16 else 8))
    else Signed(!neg, Magnitude(t, 10))
  }

  /** The part of `str2inum` behind sign and prefix. */
  method ParseMagnitude(s: string, base: nat, sign: bool) returns (v: Value)
    requires 2 <= base <= 16 && |s| < 0x4000_0000
    ensures Represents(v, Signed(sign, Magnitude(s, base)))
  {
    var len: ULong := BitsPerChar(base) * |s|;
    if len <= 32 {
      ShortString(base, |s|);
      var val := StrToUL(s, base);
      if val <= FIXNUM_MAX {
        return if sign then Fix(val) else Fix(-(val as int));
      }
      var big := UInt2Big(val);
      big.sign := sign;
      return Big(big);
    }
    v := ParseLong(s, base, sign, len / 16 + 1);
  }

  lemma ShortString(base: nat, k: nat)
    requires 2 <= base <= 16 && BitsPerChar(base) * k <= 32
    ensures Pow(base, k) <= 0x1_0000_0000
  {
    hide Pow;
    BaseFitsBits(base, k);
    PowMono(2, BitsPerChar(base) * k, 32);
    PowTwo16();
    PowAdd(2, 16, 16);
  }

  method ParseLong(s: string, base: nat, sign: bool, len: nat) returns (v: Value)
    requires 2 <= base <= 16 && len == BitsPerChar(base) * |s| / 16 + 1
    ensures Represents(v, Signed(sign, NumVal(Run(s, base), base)))
  {
    hide Val, W, Pow, NumVal, Run, Holds;
    var z := new Bignum(len, sign);
    var zds := z.digits;
    var i := len;
    while i > 0
      modifies zds
      invariant 0 <= i <= len && forall k :: i <= k < len ==> zds[k] == 0
    {
      i := i - 1;
      zds[i] := 0;
    }
    var blen := 1;
    var p := 0;
    ghost var done := "";
    HoldsZero(zds[..]);
    RunStart(s, base);
    AllocationLargeEnough(base, |s|);
    while p < |s| && DigitOf(s[p]) < base
      modifies zds
      invariant 0 <= p <= |s| && |done| == p && AllDigits(done, base)
      invariant Run(s, base) == done + Run(s[p..], base)
      invariant Holds(zds[..], blen, NumVal(done, base))
    {
      var c := DigitOf(s[p]);
      RunNext(s, p, base, done);
      NumValSnoc(done, s[p], base);
      NumValBound(done + [s[p]], base);
      PowMono(base, p + 1, |s|);
      blen := MulAdd(zds, blen, base, c, NumVal(done, base));
      done := done + [s[p]];
      p := p + 1;
    }
    RunNext(s, p, base, done);
    HoldsAll(zds[..], blen, NumVal(done, base));
    assert z.Digits() == zds[..];
    v := BigNorm(z);
  }

  lemma HoldsZero(z: seq<Digit>)
    requires |z| >= 1 && forall i :: 0 <= i < |z| ==> z[i] == 0
    ensures Holds(z, 1, 0)
  {
    assert z[..1] == [0];
    ValOne(0);
  }

  lemma HoldsAll(z: seq<Digit>, blen: nat, v: nat)
    requires Holds(z, blen, v)
    ensures Val(z) == v
  {
    ValZeros(z, blen);
  }

  /** `str2inum` on a C string. */
  method Str2Inum(str: string, base0: nat) returns (v: Value)
    requires '\0' !in str && |str| < 0x4000_0000
    requires base0 == 0 || 2 <= base0 <= 16
    ensures Represents(v, ParsedValue(str, base0))
  {
    hide Magnitude;
    var s, base, sign := str, base0, true;
    while s != "" && IsSpace(s[0])
      invariant SkipSpace(str) == SkipSpace(s) && |s| <= |str|
      decreases |s|
    {
      s := s[1..];
    }
    if s != "" && s[0] == '-' {
      s := s[1..];
      sign := false;
    }
    if base == 0 {
      if s != "" && s[0] == '0' {
        s := s[1..];
        if s != "" && (s[0] == 'x' || s[0] == 'X') {
          s := s[1..];
          base := 16;
        } else {
          base := 8;
        }
        if s == "" { return Fix(0); }
      } else {
        base := 10;
      }
    }
    v := ParseMagnitude(s, base, sign);
  }

  lemma {:induction false} RunAll(s: string, base: nat)
    requires AllDigits(s, base)
    ensures Run(s, base) == s
  {
    if s != "" {
      RunAll(s[1..], base);
    }
  }

  lemma NumeralHead(n: nat, base: nat)
    requires 2 <= base <= 16 && n > 0
    ensures Numeral(n, base) != ""
    ensures var c := Numeral(n, base)[0]; !IsSpace(c) && c != '-' && c != '0'
  {
    NumeralParses(n, base);
  }

  lemma MagnitudeOfNumeral(n: nat, base: nat)
    requires 2 <= base <= 16 && n > 0
    ensures Magnitude(Numeral(n, base), base) == n
  {
    hide Numeral, NumVal;
    NumeralParses(n, base);
    NumeralHead(n, base);
    RunAll(Numeral(n, base), base);
  }

  /** Printing then parsing is the identity, for both signs. */
  lemma PrintParseRoundTrip(n: int, base: nat)
    requires 2 <= base <= 16
    ensures ParsedValue(Printed(n, base), base) == n
  {
    hide Numeral, Magnitude;
    if n == 0 {
      ParseZero(base);
    } else if n > 0 {
      NumeralHead(n, base);
      MagnitudeOfNumeral(n, base);
    } else {
      MagnitudeOfNumeral(-n, base);
      assert Printed(n, base)[1..] == Numeral(-n, base);
    }
  }

  lemma ParseZero(base: nat)
    requires 2 <= base <= 16
    ensures ParsedValue("0", base) == 0
  {
    assert Run("0", base) == "0" by { assert "0"[1..] == ""; }
    assert NumVal("0", base) == 0 by { assert "0"[..0] == ""; }
  }

  // ---- what a string denotes, from tables of characters

  const UPPERMAP := "0123456789ABCDEF"
  const BLANKS := [' ', '\t', '\n', 11 as char, 12 as char, '\r']

  /** The character is the digit `d`, its letter in either case. */
  predicate IsDigit(c: char, d: nat)
    requires d < 16
  {
    c == HEXMAP[d] || c == UPPERMAP[d]
  }

  /** The digits of `t`, of which some at the front may be zeros, make up the number. */
  predicate Spells(t: string, n: nat, base: nat)
    requires 2 <= base <= 16
  {
    if t == "" then n == 0 else IsDigit(t[|t| - 1], n % base) && Spells(t[..|t| - 1], n / base, base)
  }

  /** No digit of the base follows. */
  predicate EndsNumber(rest: string, base: nat)
    requires base <= 16
  {
    rest != "" ==> rest[0] !in HEXMAP[..base] && rest[0] !in UPPERMAP[..base]
  }

  lemma DigitIs(c: char, d: nat)
    requires d < 16 && IsDigit(c, d)
    ensures DigitOf(c) == d && !IsSpace(c) && c != '-' && (c == '0' <==> d == 0) && c != 'x' && c != 'X'
  {
  }

  lemma DigitInTable(c: char)
    ensures DigitOf(c) < 16 ==> IsDigit(c, DigitOf(c))
  {
  }

  lemma OutsideTable(c: char, table: string, base: nat)
    requires base <= |table| && c !in table[..base]
    ensures forall d :: 0 <= d < base ==> table[d] != c
  {
    forall d | 0 <= d < base ensures table[d] != c {
      assert table[d] == table[..base][d];
    }
  }

  lemma NoDigit(c: char, base: nat)
    requires 2 <= base <= 16 && c !in HEXMAP[..base] && c !in UPPERMAP[..base]
    ensures DigitOf(c) >= base
  {
    hide DigitOf;
    DigitInTable(c);
    OutsideTable(c, HEXMAP, base);
    OutsideTable(c, UPPERMAP, base);
  }

  lemma BlankIs(c: char)
    ensures c in BLANKS <==> IsSpace(c)
  {
    if IsSpace(c) {
      assert c == BLANKS[if c == ' ' then 0 else (c - '\t') as nat + 1];
    }
  }

  lemma {:induction false} SpelledValue(t: string, n: nat, base: nat)
    requires 2 <= base <= 16 && Spells(t, n, base)
    ensures AllDigits(t, base) && NumVal(t, base) == n
    ensures t != "" ==> !IsSpace(t[0]) && t[0] != '-'
  {
    if t != "" {
      SpelledValue(t[..|t| - 1], n / base, base);
      DigitIs(t[|t| - 1], n % base);
      assert n == n / base * base + n % base;
    }
  }

  lemma {:induction false} RunStops(t: string, rest: string, base: nat)
    requires 2 <= base <= 16 && AllDigits(t, base) && EndsNumber(rest, base)
    ensures Run(t + rest, base) == t
  {
    if t == "" {
      assert t + rest == rest;
      if rest != "" { NoDigit(rest[0], base); }
    } else {
      assert (t + rest)[1..] == t[1..] + rest;
      RunStops(t[1..], rest, base);
    }
  }

  /** Whatever follows the digits; in base 16 the code takes `0x` for a prefix wherever it reads a short number. */
  lemma SpelledMagnitude(t: string, rest: string, n: nat, base: nat)
    requires 2 <= base <= 16 && t != "" && Spells(t, n, base) && EndsNumber(rest, base)
    requires base == 16 && t == "0" ==> !(rest != "" && rest[0] == 'x')
    ensures Magnitude(t + rest, base) == n
  {
    hide Run, NumVal, Spells;
    SpelledValue(t, n, base);
    RunStops(t, rest, base);
    var s := t + rest;
    assert s[0] == t[0];
    assert SkipSpace(s) == s;
    if |t| >= 2 {
      assert s[1] == t[1] && DigitOf(t[1]) < base;
    }
  }

  lemma {:induction false} BlanksSkipped(w: string, s: string)
    requires (forall k :: 0 <= k < |w| ==> w[k] in BLANKS) && (s == "" || s[0] !in BLANKS)
    ensures SkipSpace(w + s) == s
  {
    if w == "" {
      assert w + s == s;
      if s != "" { BlankIs(s[0]); }
    } else {
      BlankIs(w[0]);
      assert (w + s)[1..] == w[1..] + s;
      BlanksSkipped(w[1..], s);
    }
  }

  /** The prefixes: an `0x` in either case for base 16, a zero for base 8, none for base 10. */
  predicate IsPrefix(p: string, base: nat) {
    || (p == "0x" && base == 16) || (p == "0X" && base == 16) || (p == "0" && base == 8) || (p == "" && base == 10)
  }

  /** What is read where the base is given. */
  lemma ReadsInBase(w: string, neg: bool, t: string, rest: string, n: nat, base: nat)
    requires 2 <= base <= 16 && (forall k :: 0 <= k < |w| ==> w[k] in BLANKS)
    requires t != "" && Spells(t, n, base) && EndsNumber(rest, base)
    requires base == 16 && t == "0" ==> !(rest != "" && rest[0] == 'x')
    ensures ParsedValue(w + ((if neg then "-" else "") + (t + rest)), base) == Signed(!neg, n)
  {
    hide Magnitude, Spells, SkipSpace;
    SpelledValue(t, n, base);
    SpelledMagnitude(t, rest, n, base);
    var s := (if neg then "-" else "") + (t + rest);
    BlankIs(s[0]);
    BlanksSkipped(w, s);
    assert neg ==> s[1..] == t + rest;
    assert !neg ==> s == t + rest;
  }

  /** What is read where the prefix tells the base: without one, the first digit is not zero. */
  lemma ReadsWithPrefix(w: string, neg: bool, p: string, t: string, rest: string, n: nat, base: nat)
    requires IsPrefix(p, base) && (forall k :: 0 <= k < |w| ==> w[k] in BLANKS)
    requires t != "" && Spells(t, n, base) && EndsNumber(rest, base) && (p == "" ==> t[0] != '0')
    requires base == 16 && t == "0" ==> !(rest != "" && rest[0] == 'x')
    ensures ParsedValue(w + ((if neg then "-" else "") + (p + (t + rest))), 0) == Signed(!neg, n)
  {
    hide Magnitude, Spells, SkipSpace;
    SpelledValue(t, n, base);
    SpelledMagnitude(t, rest, n, base);
    var u := p + (t + rest);
    var s := (if neg then "-" else "") + u;
    BlankIs(s[0]);
    BlanksSkipped(w, s);
    assert neg ==> s[1..] == u;
    assert !neg ==> s == u;
    assert u[|p|..] == t + rest;
    if p == "0" { assert u[1] == t[0] && DigitOf(t[0]) < 8; }
  }

  /** The numerals that are printed are spelled so. */
  lemma {:induction false} NumeralSpells(n: nat, base: nat)
    requires 2 <= base <= 16
    ensures Spells(Numeral(n, base), n, base)
  {
    if n > 0 {
      NumeralStep(n, base);
      NumeralSpells(n / base, base);
      assert Numeral(n, base)[..|Numeral(n, base)| - 1] == Numeral(n / base, base);
    } else {
      NumeralZero(base);
    }
  }

  /** `0xFF`, `0Xff`, `0377` and `255` are the same number. */
  lemma FourSpellings()
    ensures ParsedValue("0xFF", 0) == ParsedValue("0Xff", 0) == ParsedValue("0377", 0) == ParsedValue("255", 0) == 255
  {
    hide ParsedValue, Spells;
    UpperFF();
    LowerFF();
    Octal377();
    Decimal255();
  }

  lemma UpperFF()
    ensures ParsedValue("0xFF", 0) == 255
  {
    hide ParsedValue, Spells;
    SpellsNone(16);
    SpellsMore("", 'F', "F", 0, 15, 16);
    SpellsMore("F", 'F', "FF", 15, 15, 16);
    ReadsWithPrefix("", false, "0x", "FF", "", 255, 16);
    assert "" + ("" + ("0x" + ("FF" + ""))) == "0xFF";
  }

  lemma LowerFF()
    ensures ParsedValue("0Xff", 0) == 255
  {
    hide ParsedValue, Spells;
    SpellsNone(16);
    SpellsMore("", 'f', "f", 0, 15, 16);
    SpellsMore("f", 'f', "ff", 15, 15, 16);
    ReadsWithPrefix("", false, "0X", "ff", "", 255, 16);
    assert "" + ("" + ("0X" + ("ff" + ""))) == "0Xff";
  }

  lemma Octal377()
    ensures ParsedValue("0377", 0) == 255
  {
    hide ParsedValue, Spells;
    SpellsNone(8);
    SpellsMore("", '3', "3", 0, 3, 8);
    SpellsMore("3", '7', "37", 3, 7, 8);
    SpellsMore("37", '7', "377", 31, 7, 8);
    ReadsWithPrefix("", false, "0", "377", "", 255, 8);
    assert "" + ("" + ("0" + ("377" + ""))) == "0377";
  }

  lemma Decimal255()
    ensures ParsedValue("255", 0) == 255
  {
    hide ParsedValue, Spells;
    SpellsNone(10);
    SpellsMore("", '2', "2", 0, 2, 10);
    SpellsMore("2", '5', "25", 2, 5, 10);
    SpellsMore("25", '5', "255", 25, 5, 10);
    ReadsWithPrefix("", false, "", "255", "", 255, 10);
    assert "" + ("" + ("" + ("255" + ""))) == "255";
  }

  lemma SpellsNone(base: nat)
    requires 2 <= base <= 16
    ensures Spells("", 0, base)
  {
  }

  lemma SpellsMore(t: string, c: char, longer: string, n: nat, d: nat, base: nat)
    requires 2 <= base <= 16 && d < base && longer == t + [c] && Spells(t, n, base) && IsDigit(c, d)
    ensures Spells(longer, n * base + d, base)
  {
    DivUnique(n * base + d, base, n, d);
    assert longer[..|t|] == t;
  }

  /** The object read back from a printed bignum is the bignum again, digit for digit. */
  method PrintThenParse(x: Bignum, base: nat) returns (v: Value)
    requires x.Normal() && base in {2, 8, 10, 16} && BufferFits(x.len, base)
    requires |Printed(x.Int(), base)| < 0x4000_0000
    ensures Represents(v, x.Int())
    ensures v.Big? ==> v.b.sign == x.sign && v.b.Digits() == x.Digits()
  {
    PrintParseRoundTrip(x.Int(), base);
    ghost var n := x.Int();
    NormalPositive(x);
    var t := Big2Str(x, base);
    PrintedIsCString(n, base);
    v := Str2Inum(t.s, base);
    if v.Big? {
      NormalPositive(v.b);
      ValInjective(v.b.Digits(), x.Digits());
    }
  }

  lemma NormalPositive(x: Bignum)
    requires x.Normal()
    ensures x.Int() == 0 <==> x.len == 0
    ensures x.sign <==> x.Int() >= 0
  {
    PositiveWhenDigits(x.Digits());
  }

  lemma PrintedIsCString(n: int, base: nat)
    requires 2 <= base <= 16
    ensures '\0' !in Printed(n, base)
  {
    hide Numeral;
    NumeralParses(if n < 0 then -n else n, base);
  }
}
