/** `encode64` and `decode64` of lib/base64.rb, against the encoding of section 6.8 of RFC 2045. */
module Base64 {
  import opened Tr
  import opened Uuencode
  import Arith

  const PAD: byte := 61

  /** The character lists of lib/base64.rb: `A-Za-z0-9+/`, `^A-Za-z0-9+/`, `AA-Za-z0-9+/`, ` -_` and its extension. */
  const B64_LIST: seq<byte> := [65, 45, 90, 97, 45, 122, 48, 45, 57, 43, 47]
  const NOT_B64: seq<byte> := [CARET] + B64_LIST
  const B64_TWICE_A: seq<byte> := [65] + B64_LIST
  const UU_LIST: seq<byte> := [32, 45, 95]
  const QUOTED_UU_LIST: seq<byte> := [BACKQUOTE] + UU_LIST

  /** Table 1 of section 6.8: the character of a six-bit value. */
  function B64Char(v: byte): (c: byte)
    requires v < 64
    ensures c != NEWLINE && c != PAD
  {
    if v < 26 then 65 + v
    else if v < 52 then 97 + v - 26
    else if v < 62 then 48 + v - 52
    else if v == 62 then 43
    else 47
  }

  function B64Chars(s: seq<byte>): (r: seq<byte>)
    requires forall i :: 0 <= i < |s| ==> s[i] < 64
    ensures |r| == |s| && forall i :: 0 <= i < |s| ==> r[i] == B64Char(s[i])
  {
    seq(|s|, i requires 0 <= i < |s| => B64Char(s[i]))
  }

  /** The 24-bit number of three bytes. */
  function Word24(x: byte, y: byte, z: byte): (w: int)
    ensures 0 <= w < 0x100_0000
  {
    x as int * 0x1_0000 + y as int * 0x100 + z
  }

  /** A 24-bit number as four six-bit groups, the highest first. */
  function Sixes(w: int): (s: seq<byte>)
    requires 0 <= w < 0x100_0000
    ensures |s| == 4 && forall i :: 0 <= i < 4 ==> s[i] < 64
  {
    [w / 0x4_0000, w / 0x1000 % 64, w / 64 % 64, w % 64]
  }

  /** The six-bit groups of a byte string; bits missing at the end are zero. */
  function SixBits(bin: seq<byte>): (s: seq<byte>)
    ensures |s| == (4 * |bin| + 2) / 3
    ensures forall i :: 0 <= i < |s| ==> s[i] < 64
  {
    if |bin| == 0 then []
    else if |bin| == 1 then Sixes(Word24(bin[0], 0, 0))[..2]
    else if |bin| == 2 then Sixes(Word24(bin[0], bin[1], 0))[..3]
    else Sixes(Word24(bin[0], bin[1], bin[2])) + SixBits(bin[3..])
  }

  /** The encoding of section 6.8: one or two pads fill the last group of four. */
  function Base64Of(bin: seq<byte>): seq<byte> {
    B64Chars(SixBits(bin)) + seq((3 - |bin| % 3) % 3, _ => PAD)
  }

  /** The bytes of six-bit groups; a rest of less than eight bits is dropped. */
  function FromSixBits(v: seq<byte>): (r: seq<byte>)
    requires forall i :: 0 <= i < |v| ==> v[i] < 64
    ensures |r| == |v| * 3 / 4
  {
    if |v| < 2 then []
    else if |v| == 2 then [v[0] as int * 4 + v[1] / 16]
    else if |v| == 3 then [v[0] as int * 4 + v[1] / 16, v[1] as int % 16 * 16 + v[2] / 4]
    else [v[0] as int * 4 + v[1] / 16, v[1] as int % 16 * 16 + v[2] / 4, v[2] as int % 4 * 64 + v[3]] + FromSixBits(v[4..])
  }

  lemma Part1(x: int, y: int, z: int)
    requires 0 <= x < 256 && 0 <= y < 256 && 0 <= z < 256
    ensures (x * 0x1_0000 + y * 0x100 + z) / 0x4_0000 == x / 4
  {
    Arith.DivUnique(x * 0x1_0000 + y * 0x100 + z, 0x4_0000, x / 4, x % 4 * 0x1_0000 + y * 0x100 + z);
  }

  lemma Part2(x: int, y: int, z: int)
    requires 0 <= x < 256 && 0 <= y < 256 && 0 <= z < 256
    ensures (x * 0x1_0000 + y * 0x100 + z) / 0x1000 % 64 == x % 4 * 16 + y / 16
  {
    Arith.DivUnique(x * 0x1_0000 + y * 0x100 + z, 0x1000, x * 16 + y / 16, y % 16 * 0x100 + z);
    Arith.DivUnique(x * 16 + y / 16, 64, x / 4, x % 4 * 16 + y / 16);
  }

  lemma Part3(x: int, y: int, z: int)
    requires 0 <= x < 256 && 0 <= y < 256 && 0 <= z < 256
    ensures (x * 0x1_0000 + y * 0x100 + z) / 64 % 64 == y % 16 * 4 + z / 64
  {
    Arith.DivUnique(x * 0x1_0000 + y * 0x100 + z, 64, x * 1024 + y * 4 + z / 64, z % 64);
    Arith.DivUnique(x * 1024 + y * 4 + z / 64, 64, x * 16 + y / 16, y % 16 * 4 + z / 64);
  }

  lemma Part4(x: int, y: int, z: int)
    requires 0 <= x < 256 && 0 <= y < 256 && 0 <= z < 256
    ensures (x * 0x1_0000 + y * 0x100 + z) % 64 == z % 64
  {
    Arith.DivUnique(x * 0x1_0000 + y * 0x100 + z, 64, x * 1024 + y * 4 + z / 64, z % 64);
  }

  /** The six-bit groups of three bytes, from the 24-bit number that they make. */
  lemma Group24(x: byte, y: byte, z: byte)
    ensures Sixes(Word24(x, y, z)) == Sextets(x, y, z)
  {
    var w := Word24(x, y, z);
    assert w / 0x4_0000 == Sextets(x, y, z)[0] by { Part1(x, y, z); }
    assert w / 0x1000 % 64 == Sextets(x, y, z)[1] by { Part2(x, y, z); }
    assert w / 64 % 64 == Sextets(x, y, z)[2] by { Part3(x, y, z); }
    assert w % 64 == Sextets(x, y, z)[3] by { Part4(x, y, z); }
    hide Word24, Sextets;
  }

  /** The six-bit groups are those of the hunks of uuencode. */
  lemma SixBitsAre(bin: seq<byte>)
    ensures |bin| == 1 ==> SixBits(bin) == Sextets(bin[0], 0, 0)[..2]
    ensures |bin| == 2 ==> SixBits(bin) == Sextets(bin[0], bin[1], 0)[..3]
    ensures |bin| >= 3 ==> SixBits(bin) == Sextets(bin[0], bin[1], bin[2]) + SixBits(bin[3..])
  {
    hide Sextets, Sixes, Word24;
    if |bin| > 0 {
      Group24(bin[0], if |bin| > 1 then bin[1] else 0, if |bin| > 2 then bin[2] else 0);
    }
  }

  lemma ShiftBy4(x: int, low: int)
    requires 0 <= x < 64 && 0 <= low < 16
    ensures (x * 16 + low) % 256 == x % 16 * 16 + low
  {
    assert x * 16 + low == x / 16 * 256 + (x % 16 * 16 + low);
  }

  lemma ShiftBy6(x: int, low: int)
    requires 0 <= x < 64 && 0 <= low < 64
    ensures (x * 64 + low) % 256 == x % 4 * 64 + low
  {
    assert x * 64 + low == x / 4 * 256 + (x % 4 * 64 + low);
  }

  /** The shifts of the decoder of uuencode, without the bits that fall out of a byte. */
  lemma TripleIs(a: byte, b: byte, c: byte, d: byte)
    requires a < 64 && b < 64 && c < 64 && d < 64
    ensures Triple(a, b, c, d) == [a as int * 4 + b / 16, b as int % 16 * 16 + c / 4, c as int % 4 * 64 + d]
  {
    ShiftBy4(b, c / 4);
    ShiftBy6(c, d);
    assert (a as int * 4 + b / 16) % 256 == a as int * 4 + b / 16;
  }

  lemma FromSixBitsStep(v: seq<byte>)
    requires |v| >= 4 && forall i :: 0 <= i < |v| ==> v[i] < 64
    ensures FromSixBits(v) == Triple(v[0], v[1], v[2], v[3]) + FromSixBits(v[4..])
  {
    hide Triple;
    TripleIs(v[0], v[1], v[2], v[3]);
  }

  /** Decoding the six-bit groups of a byte string gives it back. */
  lemma {:induction false} SixBitsBack(bin: seq<byte>)
    ensures FromSixBits(SixBits(bin)) == bin
  {
    var s := SixBits(bin);
    SixBitsAre(bin);
    if 0 < |bin| < 3 {
      hide FromSixBits, SixBits;
      ShortBack(s, bin);
    } else if |bin| >= 3 {
      hide SixBits, FromSixBits, Sextets, Triple;
      SixBitsBack(bin[3..]);
      var v := Sextets(bin[0], bin[1], bin[2]);
      assert s[4..] == SixBits(bin[3..]);
      GroupDecodes(bin[0], bin[1], bin[2]);
      FromSixBitsStep(s);
      assert s[0] == v[0] && s[1] == v[1] && s[2] == v[2] && s[3] == v[3];
    }
  }

  lemma ShortBack(s: seq<byte>, bin: seq<byte>)
    requires 0 < |bin| < 3 && |s| == |bin| + 1 && forall i :: 0 <= i < |s| ==> s[i] < 64
    requires s == Sextets(bin[0], if |bin| > 1 then bin[1] else 0, 0)[..|s|]
    ensures FromSixBits(s) == bin
  {
    hide Sextets;
    SextetsBack(bin[0], if |bin| > 1 then bin[1] else 0, 0);
  }

  lemma SextetsBack(x: byte, y: byte, z: byte)
    ensures var v := Sextets(x, y, z);
      v[0] as int * 4 + v[1] / 16 == x && v[1] as int % 16 * 16 + v[2] / 4 == y && v[2] as int % 4 * 64 + v[3] == z
  {
  }

  // ---- what the character lists stand for

  lemma {:induction false} RestIs(now: nat, max: byte)
    requires now < max
    ensures |Rest(now, max)| == max - now
    ensures forall i :: 0 <= i < max - now ==> Rest(now, max)[i].value == now + 1 + i
    decreases max - now
  {
    if now + 1 < max {
      RestIs(now + 1, max);
    }
  }

  lemma RangeStep(pat: seq<byte>, p: nat, n: nat)
    requires p + 2 < |pat| && pat[p + 1] == DASH && pat[p] < pat[p + 2] && n == pat[p + 2] as int - pat[p] + 1
    ensures |Listed(pat, p)| == n + |Listed(pat, p + 3)|
    ensures forall i :: 0 <= i < n ==> Listed(pat, p)[i].value == pat[p] as int + i
    ensures forall i :: n <= i < |Listed(pat, p)| ==> Listed(pat, p)[i] == Listed(pat, p + 3)[i - n]
  {
    hide Rest;
    RestIs(pat[p], pat[p + 2]);
    var run, more := [Emit(pat[p], pat[p])] + Rest(pat[p], pat[p + 2]), Listed(pat, p + 3);
    assert Listed(pat, p) == run + more && |run| == n;
    hide Listed;
    assert forall i :: 0 <= i < n ==> run[i].value == pat[p] as int + i;
  }

  lemma SingleStep(pat: seq<byte>, p: nat)
    requires p < |pat| && (p + 1 < |pat| ==> pat[p + 1] != DASH)
    ensures |Listed(pat, p)| == 1 + |Listed(pat, p + 1)| && Listed(pat, p)[0].value == pat[p]
    ensures forall i :: 1 <= i < |Listed(pat, p)| ==> Listed(pat, p)[i] == Listed(pat, p + 1)[i - 1]
  {
  }

  lemma EndStep(pat: seq<byte>)
    ensures Listed(pat, |pat|) == []
  {
  }

  /** `A-Za-z0-9+/` stands for the characters of Table 1, in order. */
  lemma ListedB64(pat: seq<byte>, p: nat)
    requires p <= |pat| && pat[p..] == B64_LIST
    ensures |Listed(pat, p)| == 64 && forall v :: 0 <= v < 64 ==> Listed(pat, p)[v].value == B64Char(v)
  {
    hide Listed;
    assert forall i :: 0 <= i < 11 ==> pat[p..][i] == B64_LIST[i];
    assert |pat| == p + 11;
    RangeStep(pat, p, 26);
    RangeStep(pat, p + 3, 26);
    RangeStep(pat, p + 6, 10);
    SingleStep(pat, p + 9);
    SingleStep(pat, p + 10);
    EndStep(pat);
  }

  /** ` -_` stands for the characters of uuencode, in order. */
  lemma ListedUu(pat: seq<byte>, p: nat)
    requires p <= |pat| && pat[p..] == UU_LIST
    ensures |Listed(pat, p)| == 64 && forall v :: 0 <= v < 64 ==> Listed(pat, p)[v].value == BLANK + v
  {
    hide Listed;
    assert forall i :: 0 <= i < 3 ==> pat[p..][i] == UU_LIST[i];
    assert |pat| == p + 3;
    RangeStep(pat, p, 64);
    EndStep(pat);
  }

  lemma B64Injective(v: byte, w: byte)
    requires v < 64 && w < 64 && B64Char(v) == B64Char(w)
    ensures v == w
  {
  }

  /** A character that is listed at `k` and not behind gets the replacement at `k`. */
  lemma {:induction false} PairedAt(s: seq<Emit>, r: seq<Emit>, end: nat, k: nat, n: nat, c: byte)
    requires k < n <= |s| && s[k].value == c && forall j :: k < j < n ==> s[j].value != c
    ensures Paired(s, r, end, n, c) == Replacement(r, end, k)
  {
    if k < n - 1 {
      PairedAt(s, r, end, k, n - 1, c);
    }
  }

  /** The translation of `encode64` takes the character of a value to that of Table 1. */
  lemma ImageEncode(v: byte)
    requires v < 64
    ensures Image(QUOTED_UU_LIST, B64_TWICE_A, UuChar(v)) == B64Char(v)
  {
    hide Listed, NowAtEnd, Paired, B64Char;
    var s, r, end := Listed(QUOTED_UU_LIST, 0), Listed(B64_TWICE_A, 0), NowAtEnd(B64_TWICE_A, 0, 0);
    ListedUu(QUOTED_UU_LIST, 1);
    SingleStep(QUOTED_UU_LIST, 0);
    ListedB64(B64_TWICE_A, 1);
    SingleStep(B64_TWICE_A, 0);
    var k := if v == 0 then 0 else 1 + v as int;
    forall j | 0 <= j < 65
      ensures s[j].value == (if j == 0 then BACKQUOTE else BLANK + j - 1)
      ensures r[j].value == (if j == 0 then 65 else B64Char(j - 1))
    {
      if j > 0 {
        assert s[j] == Listed(QUOTED_UU_LIST, 1)[j - 1];
        assert r[j] == Listed(B64_TWICE_A, 1)[j - 1];
      }
    }
    PairedAt(s, r, end, k, 65, UuChar(v));
    NoLastByte(v);
  }

  lemma NoLastByte(v: byte)
    requires v < 64
    ensures B64Char(v) != 255 && B64Char(0) == 65
  {
  }

  /** The translation of `decode64` takes the character of Table 1 to one that the decoder of uuencode reads alike. */
  lemma ImageDecode(v: byte)
    requires v < 64
    ensures Image(B64_LIST, UU_LIST, B64Char(v)) == BLANK + v
  {
    hide Listed, NowAtEnd, Paired, B64Char;
    var s, r, end := Listed(B64_LIST, 0), Listed(UU_LIST, 0), NowAtEnd(UU_LIST, 0, 0);
    ListedB64(B64_LIST, 0);
    ListedUu(UU_LIST, 0);
    forall j | v < j < 64
      ensures s[j].value != B64Char(v)
    {
      if s[j].value == B64Char(v) { B64Injective(v, j); }
    }
    PairedAt(s, r, end, v, 64, B64Char(v));
  }

  ghost predicate IsB64(c: int) {
    exists v :: 0 <= v < 64 && B64Char(v) == c
  }

  /** `delete!` takes out what is not in Table 1. */
  lemma StruckIff(c: int)
    ensures Struck(NOT_B64, c) <==> !IsB64(c)
  {
    hide Listed, B64Char;
    var s := Listed(NOT_B64, 1);
    ListedB64(NOT_B64, 1);
    if IsB64(c) {
      var v :| 0 <= v < 64 && B64Char(v) == c;
      assert s[v].value == c;
    }
  }

  // ---- encode64

  lemma EncodeImages(v: seq<byte>)
    requires forall i :: 0 <= i < |v| ==> v[i] < 64
    ensures Images(QUOTED_UU_LIST, B64_TWICE_A, UuChars(v)) == B64Chars(v)
  {
    hide Image, UuChar, B64Char;
    forall i | 0 <= i < |v|
      ensures Image(QUOTED_UU_LIST, B64_TWICE_A, UuChars(v)[i]) == B64Chars(v)[i]
    {
      ImageEncode(v[i]);
    }
  }

  /** The characters of a line without its fill are those of the six-bit groups, whatever follows in memory. */
  lemma {:induction false} GroupsPrefix(bin: seq<byte>, junk: byte, off: nat, n: nat)
    requires off + n <= |bin| && (n % 3 == 0 || off + n == |bin|)
    ensures Groups(bin, junk, off, n)[..(4 * n + 2) / 3] == UuChars(SixBits(bin[off..off + n]))
    decreases n
  {
    hide Sextets, SixBits, UuChars, Groups;
    if n == 0 {
      NoGroups(bin, junk, off);
    } else if n < 3 {
      ShortGroup(bin, junk, off, n);
    } else {
      GroupsPrefix(bin, junk, off + 3, n - 3);
      LongGroup(bin, junk, off, n);
    }
  }

  lemma NoGroups(bin: seq<byte>, junk: byte, off: nat)
    requires off <= |bin|
    ensures Groups(bin, junk, off, 0)[..2 / 3] == UuChars(SixBits(bin[off..off]))
  {
  }

  lemma ShortGroup(bin: seq<byte>, junk: byte, off: nat, n: nat)
    requires 0 < n < 3 && off + n == |bin|
    ensures Groups(bin, junk, off, n)[..(4 * n + 2) / 3] == UuChars(SixBits(bin[off..off + n]))
  {
    hide Sextets, SixBits, UuChar;
    var b := bin[off..off + n];
    var s := Sextets(ByteAt(bin, junk, off), ByteAt(bin, junk, off + 1), ByteAt(bin, junk, off + 2));
    SixBitsAre(b);
    Canonical(bin[off], ByteAt(bin, junk, off + 1), ByteAt(bin, junk, off + 2));
    assert SixBits(b) == s[..n + 1];
    assert Groups(bin, junk, off, n) == UuChars(s);
  }

  lemma LongGroup(bin: seq<byte>, junk: byte, off: nat, n: nat)
    requires 3 <= n && off + n <= |bin|
    requires Groups(bin, junk, off + 3, n - 3)[..(4 * (n - 3) + 2) / 3] == UuChars(SixBits(bin[off + 3..off + n]))
    ensures Groups(bin, junk, off, n)[..(4 * n + 2) / 3] == UuChars(SixBits(bin[off..off + n]))
  {
    hide Sextets, SixBits, UuChars;
    var b := bin[off..off + n];
    var s := Sextets(bin[off], bin[off + 1], bin[off + 2]);
    SixBitsAre(b);
    assert b[3..] == bin[off + 3..off + n];
    UuCharsPlus(s, SixBits(b[3..]));
    var h := Groups(bin, junk, off + 3, n - 3);
    assert Groups(bin, junk, off, n) == UuChars(s) + h;
    assert (4 * n + 2) / 3 == 4 + (4 * (n - 3) + 2) / 3;
  }

  lemma UuCharsPlus(s: seq<byte>, t: seq<byte>)
    requires (forall i :: 0 <= i < |s| ==> s[i] < 64) && (forall i :: 0 <= i < |t| ==> t[i] < 64)
    ensures UuChars(s + t) == UuChars(s) + UuChars(t)
  {
  }

  /** The six-bit groups that matter do not depend on the bytes behind the end. */
  lemma Canonical(x: byte, y: byte, z: byte)
    ensures Sextets(x, 0, z)[..2] == Sextets(x, 0, 0)[..2]
    ensures Sextets(x, y, 0)[..3] == Sextets(x, y, 0)[..3]
  {
  }

  lemma {:induction false} SixBitsSplit(bin: seq<byte>, k: nat)
    requires k <= |bin| && (k % 3 == 0 || k == |bin|)
    ensures SixBits(bin) == SixBits(bin[..k]) + SixBits(bin[k..])
    decreases k
  {
    hide Sextets;
    if k == |bin| {
      assert bin[..k] == bin && SixBits(bin[k..]) == [];
    } else if k == 0 {
      assert bin[k..] == bin && SixBits(bin[..k]) == [];
    } else {
      SixBitsSplit(bin[3..], k - 3);
      SplitStep(bin, k);
    }
  }

  lemma SplitStep(bin: seq<byte>, k: nat)
    requires 3 <= k <= |bin|
    requires SixBits(bin[3..]) == SixBits(bin[3..][..k - 3]) + SixBits(bin[3..][k - 3..])
    ensures SixBits(bin) == SixBits(bin[..k]) + SixBits(bin[k..])
  {
    SixBitsHead(bin);
    SixBitsHead(bin[..k]);
    hide SixBits, Sextets;
    assert bin[3..][..k - 3] == bin[..k][3..];
    assert bin[3..][k - 3..] == bin[k..];
    Associate(Sextets(bin[0], bin[1], bin[2]), SixBits(bin[..k][3..]), SixBits(bin[k..]));
  }

  lemma SixBitsHead(bin: seq<byte>)
    requires |bin| >= 3
    ensures SixBits(bin) == Sextets(bin[0], bin[1], bin[2]) + SixBits(bin[3..])
  {
    hide SixBits;
    SixBitsAre(bin);
  }

  lemma Associate(x: seq<byte>, y: seq<byte>, z: seq<byte>)
    ensures x + (y + z) == x + y + z
  {
  }

  lemma B64CharsPlus(s: seq<byte>, t: seq<byte>)
    requires (forall i :: 0 <= i < |s| ==> s[i] < 64) && (forall i :: 0 <= i < |t| ==> t[i] < 64)
    ensures B64Chars(s + t) == B64Chars(s) + B64Chars(t)
  {
  }

  /** One uuencoded line, as `encode64` takes it apart. */
  lemma LineChars(bin: seq<byte>, junk: byte, off: nat, n: nat)
    requires 0 < n <= LINE_BYTES && off + n <= |bin| && (n == LINE_BYTES || off + n == |bin|)
    ensures var uu := Line(bin, junk, off, n); var len := (2 + n * 4) / 3;
      && |uu| == 2 + len + (3 - n % 3) % 3 && uu[0] == 32 + n
      && uu[|uu| - 1] == NEWLINE && (forall i :: 0 <= i < |uu| - 1 ==> uu[i] != NEWLINE)
      && Images(QUOTED_UU_LIST, B64_TWICE_A, uu[1..1 + len]) == B64Chars(SixBits(bin[off..off + n]))
  {
    hide Groups, SixBits, UuChars, Images, B64Chars;
    var uu := Line(bin, junk, off, n);
    var len := (2 + n * 4) / 3;
    FillLength(n);
    GroupsPrefix(bin, junk, off, n);
    assert uu[1..1 + len] == Groups(bin, junk, off, n)[..len];
    EncodeImages(SixBits(bin[off..off + n]));
  }

  lemma FillLength(n: nat)
    ensures (n + 2) / 3 * 4 == (2 + n * 4) / 3 + (3 - n % 3) % 3
  {
  }

  /** `encode64` follows section 6.8 of RFC 2045, whatever the memory behind the string holds. */
  method Encode64(bin: seq<byte>, junk: byte) returns (text: seq<byte>)
    ensures text == Base64Of(bin)
  {
    hide Lines, Line, SixBits, B64Chars, Images;
    var packed := Pack(bin, junk);
    var encode, pad, pos := [], 0, 0;
    ghost var off := 0;
    EncodeStart(bin);
    assert packed[0..] == packed;
    while pos < |packed|
      invariant 0 <= off <= |bin| && (off % 3 == 0 || off == |bin|) && pos <= |packed|
      invariant packed[pos..] == Lines(bin, junk, off)
      invariant encode == B64Chars(SixBits(bin[..off]))
      invariant pad == PadAt(bin, off)
      decreases |packed| - pos
    {
      var uu;
      ghost var n;
      uu, n := NextUu(packed, pos, bin, junk, off);
      LineChars(bin, junk, off, n);
      EncodeStep(bin, off, n);
      PadStep(bin, off, n);
      var chars, len := EncodeLine(uu);
      encode := encode + chars;
      pad := pad + |uu| - 2 - len;
      pos := pos + |uu|;
      off := off + n;
    }
    EncodeEnd(bin, junk, off, packed[pos..]);
    text := encode + seq(pad % 3, _ => PAD);
  }

  /** How many fill characters were counted when `off` bytes are encoded. */
  function PadAt(bin: seq<byte>, off: nat): (pad: nat)
    ensures pad < 3
  {
    if off == |bin| then (3 - |bin| % 3) % 3 else 0
  }

  lemma PadStep(bin: seq<byte>, off: nat, n: nat)
    requires off % 3 == 0 && n > 0 && off + n <= |bin| && (n == LINE_BYTES || off + n == |bin|)
    ensures PadAt(bin, off + n) == PadAt(bin, off) + (3 - n % 3) % 3
  {
  }

  /** The characters that `encode64` takes from a line. */
  method EncodeLine(uu: seq<byte>) returns (chars: seq<byte>, len: nat)
    requires |uu| > 0 && 32 < uu[0] && 1 + (2 + (uu[0] as int - 32) * 4) / 3 <= |uu|
    ensures len == (2 + (uu[0] as int - 32) * 4) / 3
    ensures chars == Images(QUOTED_UU_LIST, B64_TWICE_A, uu[1..1 + len])
  {
    hide Images;
    len := (2 + (uu[0] as int - 32) * 4) / 3;
    var part := new Str(uu[1..1 + len]);
    part.TrBang(QUOTED_UU_LIST, B64_TWICE_A);
    chars := part.ptr[..part.len];
  }

  /** The next of the lines of `pack`. */
  method NextUu(packed: seq<byte>, pos: nat, ghost bin: seq<byte>, ghost junk: byte, ghost off: nat)
    returns (uu: seq<byte>, ghost n: nat)
    requires pos < |packed| && off <= |bin| && packed[pos..] == Lines(bin, junk, off)
    ensures 0 < n <= LINE_BYTES && off + n <= |bin| && (n == LINE_BYTES || off + n == |bin|)
    ensures uu == Line(bin, junk, off, n)
    ensures pos + |uu| <= |packed| && packed[pos + |uu|..] == Lines(bin, junk, off + n)
  {
    hide Lines, Line, SixBits, B64Chars, Images;
    n := if |bin| - off > LINE_BYTES then LINE_BYTES else |bin| - off;
    NextLine(bin, junk, off, n);
    LineChars(bin, junk, off, n);
    ghost var l := Line(bin, junk, off, n);
    uu := EachLine(packed, pos);
    assert packed[pos..][..|l|] == l;
    SameLine(packed, pos, uu, l);
    assert packed[pos..][|l|..] == Lines(bin, junk, off + n);
  }

  lemma EncodeStart(bin: seq<byte>)
    ensures B64Chars(SixBits(bin[..0])) == []
    ensures PadAt(bin, 0) == 0
  {
  }

  lemma NextLine(bin: seq<byte>, junk: byte, off: nat, n: nat)
    requires off <= |bin| && n == (if |bin| - off > LINE_BYTES then LINE_BYTES else |bin| - off)
    ensures off == |bin| <==> Lines(bin, junk, off) == []
    ensures off < |bin| ==> Lines(bin, junk, off) == Line(bin, junk, off, n) + Lines(bin, junk, off + n)
  {
  }

  lemma EncodeEnd(bin: seq<byte>, junk: byte, off: nat, left: seq<byte>)
    requires off <= |bin| && left == [] && left == Lines(bin, junk, off)
    ensures off == |bin| && bin[..off] == bin
  {
  }

  lemma EncodeStep(bin: seq<byte>, off: nat, n: nat)
    requires off + n <= |bin| && off % 3 == 0
    ensures B64Chars(SixBits(bin[..off])) + B64Chars(SixBits(bin[off..off + n])) == B64Chars(SixBits(bin[..off + n]))
  {
    hide SixBits, B64Chars;
    var b := bin[..off + n];
    SixBitsSplit(b, off);
    assert b[..off] == bin[..off] && b[off..] == bin[off..off + n];
    B64CharsPlus(SixBits(bin[..off]), SixBits(bin[off..off + n]));
  }

  /** The line at `pos` with its newline, as `each` yields it. */
  method EachLine(text: seq<byte>, pos: nat) returns (line: seq<byte>)
    requires pos < |text|
    ensures 0 < |line| <= |text| - pos && line == text[pos..pos + |line|]
    ensures forall i :: 0 <= i < |line| - 1 ==> line[i] != NEWLINE
    ensures line[|line| - 1] == NEWLINE || pos + |line| == |text|
  {
    var e := pos;
    while e < |text| && text[e] != NEWLINE
      invariant pos <= e <= |text|
      invariant forall i :: pos <= i < e ==> text[i] != NEWLINE
    {
      e := e + 1;
    }
    if e < |text| { e := e + 1; }
    line := text[pos..e];
  }

  lemma SameLine(text: seq<byte>, pos: nat, line: seq<byte>, l: seq<byte>)
    requires pos < |text| && 0 < |line| <= |text| - pos && line == text[pos..pos + |line|]
    requires forall i :: 0 <= i < |line| - 1 ==> line[i] != NEWLINE
    requires line[|line| - 1] == NEWLINE || pos + |line| == |text|
    requires 0 < |l| <= |text| - pos && l == text[pos..][..|l|] && l[|l| - 1] == NEWLINE
    requires forall i :: 0 <= i < |l| - 1 ==> l[i] != NEWLINE
    ensures line == l
  {
    var m := if |line| < |l| then |line| else |l|;
    assert line[m - 1] == text[pos + m - 1] == l[m - 1];
  }

  // ---- decode64

  /** The length byte that `decode64` puts before a line of `n` characters. */
  function LengthByte(n: nat): byte {
    (32 + n * 3 / 4) % 256
  }

  /** What `decode64` makes of one line. */
  ghost function DecodedLine(line: seq<byte>): seq<byte> {
    var t := Images(B64_LIST, UU_LIST, Kept(line, NOT_B64));
    Unpacked([LengthByte(|t|)] + t, 0, (|t| + 1) * 3 / 4)
  }

  /** The length of the first line. */
  function FirstLine(text: seq<byte>): (k: nat)
    ensures k <= |text| && (k < |text| ==> text[k] == NEWLINE)
    ensures forall i :: 0 <= i < k ==> text[i] != NEWLINE
  {
    if text == [] || text[0] == NEWLINE then 0 else 1 + FirstLine(text[1..])
  }

  /** What `decode64` makes of the lines of a text; empty lines at its end, which `split` drops, make no difference. */
  ghost function DecodedText(text: seq<byte>): seq<byte>
    decreases |text|
  {
    if text == [] then []
    else
      var k := FirstLine(text);
      DecodedLine(text[..k]) + if k == |text| then [] else DecodedText(text[k + 1..])
  }

  lemma FirstLineIs(text: seq<byte>, k: nat)
    requires k <= |text| && (k < |text| ==> text[k] == NEWLINE)
    requires forall i :: 0 <= i < k ==> text[i] != NEWLINE
    ensures FirstLine(text) == k
  {
  }

  /** `decode64`. */
  method Decode64(text: seq<byte>) returns (res: seq<byte>)
    ensures res == DecodedText(text)
  {
    hide DecodedLine, DecodedText;
    res := [];
    var pos := 0;
    assert text[0..] == text;
    while pos < |text|
      invariant 0 <= pos <= |text|
      invariant res + DecodedText(text[pos..]) == DecodedText(text)
      decreases |text| - pos
    {
      var e := LineTo(text, pos);
      ghost var was := res;
      TextStep(text, pos, e);
      var part := DecodeLine(text[pos..e]);
      pos := if e < |text| then e + 1 else e;
      res := res + part;
      assert was + (part + DecodedText(text[pos..])) == res + DecodedText(text[pos..]);
    }
    assert text[pos..] == [];
    EmptyText();
  }

  /** The end of the line at `pos`. */
  method LineTo(text: seq<byte>, pos: nat) returns (e: nat)
    requires pos < |text|
    ensures pos <= e <= |text| && (e < |text| ==> text[e] == NEWLINE)
    ensures forall i :: pos <= i < e ==> text[i] != NEWLINE
  {
    e := pos;
    while e < |text| && text[e] != NEWLINE
      invariant pos <= e <= |text|
      invariant forall i :: pos <= i < e ==> text[i] != NEWLINE
    {
      e := e + 1;
    }
  }

  lemma TextStep(text: seq<byte>, pos: nat, e: nat)
    requires pos <= e <= |text| && pos < |text| && (e < |text| ==> text[e] == NEWLINE)
    requires forall i :: pos <= i < e ==> text[i] != NEWLINE
    ensures DecodedText(text[pos..]) ==
      DecodedLine(text[pos..e]) + DecodedText(text[if e < |text| then e + 1 else e..])
  {
    hide DecodedLine;
    var t := text[pos..];
    FirstLineIs(t, e - pos);
    assert t[..e - pos] == text[pos..e];
    if e < |text| {
      assert t[e - pos + 1..] == text[e + 1..];
    } else {
      assert text[e..] == [];
    }
  }

  /** The body of the loop of `decode64`. */
  method DecodeLine(line: seq<byte>) returns (part: seq<byte>)
    ensures part == DecodedLine(line)
  {
    hide Kept, Image, Unpacked;
    var s := new Str(line);
    s.Delete(NOT_B64);
    s.TrBang(B64_LIST, UU_LIST);
    var len: byte := (32 + s.len * 3 / 4) % 256;
    part := Unpack([len] + s.ptr[..s.len]);
  }

  /** The characters that the decoder of uuencode reads as the values `v`. */
  function Plus32(v: seq<byte>): (r: seq<byte>)
    requires forall i :: 0 <= i < |v| ==> v[i] < 64
    ensures |r| == |v| && forall i :: 0 <= i < |v| ==> r[i] == BLANK + v[i]
  {
    seq(|v|, i requires 0 <= i < |v| => BLANK + v[i])
  }

  lemma DecodeImages(v: seq<byte>)
    requires forall i :: 0 <= i < |v| ==> v[i] < 64
    ensures Images(B64_LIST, UU_LIST, B64Chars(v)) == Plus32(v)
  {
    hide Image, B64Char;
    forall i | 0 <= i < |v|
      ensures Image(B64_LIST, UU_LIST, B64Chars(v)[i]) == Plus32(v)[i]
    {
      ImageDecode(v[i]);
    }
  }

  /** Nothing of a string of characters of Table 1 is taken out. */
  lemma {:induction false} KeptAll(v: seq<byte>)
    requires forall i :: 0 <= i < |v| ==> v[i] < 64
    ensures Kept(B64Chars(v), NOT_B64) == B64Chars(v)
  {
    hide Struck, B64Char, Kept;
    var s := B64Chars(v);
    if v == [] {
      KeptNone(s, NOT_B64);
    } else {
      var n := |v| - 1;
      KeptAll(v[..n]);
      assert s[..n] == B64Chars(v[..n]);
      KeptMore(s, n, NOT_B64);
      assert s[..n + 1] == s;
      StruckIff(s[n]);
      assert s[n] == B64Char(v[n]);
    }
  }

  /** The pads are taken out. */
  lemma {:induction false} KeptPadded(s: seq<byte>, k: nat)
    ensures Kept(s + seq(k, _ => PAD), NOT_B64) == Kept(s, NOT_B64)
  {
    hide Struck;
    var t := s + seq(k, _ => PAD);
    if k == 0 {
      assert t == s;
    } else {
      KeptPadded(s, k - 1);
      StruckIff(PAD);
      NotB64(PAD);
      assert t[..|t| - 1] == s + seq(k - 1, _ => PAD);
    }
  }

  lemma NotB64(c: int)
    requires c == PAD
    ensures !IsB64(c)
  {
  }

  lemma DigitIs(buf: seq<byte>, s: nat, v: seq<byte>, i: nat)
    requires forall i :: 0 <= i < |v| ==> v[i] < 64
    requires s <= |buf| && buf[s..] == Plus32(v)
    ensures Digit(buf, s + i) == if i < |v| then v[i] else 0
    ensures Past(buf, s + i) == if i < |v| then s + i + 1 else s + i
  {
    if i < |v| {
      assert buf[s + i] == buf[s..][i];
    }
  }

  /** The group that starts at `s`: missing values count as zero. */
  lemma ValuesAt(buf: seq<byte>, s: nat, v: seq<byte>)
    requires forall i :: 0 <= i < |v| ==> v[i] < 64
    requires s <= |buf| && buf[s..] == Plus32(v)
    ensures var d := seq(4, i requires 0 <= i => if i < |v| then v[i] else 0);
      TripleAt(buf, s) == Triple(d[0], d[1], d[2], d[3])
    ensures Past4(buf, s) == s + if |v| < 4 then |v| else 4
  {
    hide Digit, Past, Plus32, Triple;
    DigitIs(buf, s, v, 0);
    DigitIs(buf, s, v, 1);
    DigitIs(buf, s, v, 2);
    DigitIs(buf, s, v, 3);
    if |v| < 3 { DigitIs(buf, s, v, |v|); }
  }

  /** The decoder of uuencode on the values of a line. */
  lemma {:induction false} DecodedValues(buf: seq<byte>, s: nat, v: seq<byte>)
    requires forall i :: 0 <= i < |v| ==> v[i] < 64
    requires s <= |buf| && buf[s..] == Plus32(v)
    ensures Decoded(buf, s, |v| * 3 / 4) == FromSixBits(v)
    ensures DecodedTo(buf, s, |v| * 3 / 4) == if |v| % 4 == 1 then |buf| - 1 else |buf|
    decreases |v|
  {
    hide Digit, Past, Plus32, Past4, TripleAt, Triple, FromSixBits, Decoded, DecodedTo;
    assert |buf| == s + |v|;
    ValuesAt(buf, s, v);
    if |v| < 4 {
      ShortValues(buf, s, v);
    } else {
      Plus32Drop(buf, s, v);
      DecodedValues(buf, s + 4, v[4..]);
      FromSixBitsStep(v);
      Quarters(|v|);
      LongValues(buf, s, |v| * 3 / 4);
    }
  }

  lemma Quarters(n: nat)
    requires n >= 4
    ensures n * 3 / 4 == 3 + (n - 4) * 3 / 4 && (n - 4) % 4 == n % 4
  {
  }

  lemma LongValues(buf: seq<byte>, s: nat, n: nat)
    requires n >= 3
    ensures Decoded(buf, s, n) == TripleAt(buf, s) + Decoded(buf, Past4(buf, s), n - 3)
    ensures DecodedTo(buf, s, n) == DecodedTo(buf, Past4(buf, s), n - 3)
  {
    hide TripleAt, Past4;
  }

  lemma Plus32Drop(buf: seq<byte>, s: nat, v: seq<byte>)
    requires forall i :: 0 <= i < |v| ==> v[i] < 64
    requires s <= |buf| && buf[s..] == Plus32(v) && |v| >= 4
    ensures buf[s + 4..] == Plus32(v[4..])
  {
    assert buf[s + 4..] == buf[s..][4..];
  }

  lemma ShortValues(buf: seq<byte>, s: nat, v: seq<byte>)
    requires forall i :: 0 <= i < |v| ==> v[i] < 64
    requires |v| < 4 && |buf| == s + |v| && Past4(buf, s) == s + |v|
    requires var d := seq(4, i requires 0 <= i => if i < |v| then v[i] else 0);
      TripleAt(buf, s) == Triple(d[0], d[1], d[2], d[3])
    ensures Decoded(buf, s, |v| * 3 / 4) == FromSixBits(v)
    ensures DecodedTo(buf, s, |v| * 3 / 4) == if |v| % 4 == 1 then |buf| - 1 else |buf|
  {
    hide Past4, TripleAt, Triple;
    if |v| >= 2 {
      TripleIs(v[0], v[1], if |v| == 3 then v[2] else 0, 0);
    }
  }

  /** At most one character is left over, and the decoder ends there. */
  lemma EndsHere(buf: seq<byte>, s: nat)
    requires s == |buf| || (s + 1 == |buf| && buf[s] >= BLANK)
    ensures LineEnd(buf, s) >= |buf|
  {
  }

  lemma UnpackedOnce(buf: seq<byte>, n: nat, room: nat)
    requires |buf| > 0 && n < 64 && buf[0] == BLANK + n && room >= n
    requires n > 0 ==> LineEnd(buf, DecodedTo(buf, 1, n)) >= |buf|
    ensures Unpacked(buf, 0, room) == Decoded(buf, 1, n)
  {
    hide LineEnd, DecodedTo;
  }

  /** A line of up to 85 characters of Table 1 decodes to the bytes that section 6.8 gives it, whatever else it holds. */
  lemma LineMeaning(line: seq<byte>, v: seq<byte>)
    requires forall i :: 0 <= i < |v| ==> v[i] < 64
    requires Kept(line, NOT_B64) == B64Chars(v) && |v| <= 85
    ensures DecodedLine(line) == FromSixBits(v)
  {
    hide Kept, Images, Unpacked, Plus32, B64Chars, FromSixBits;
    DecodeImages(v);
    ValuesUnpacked(v);
  }

  lemma ValuesUnpacked(v: seq<byte>)
    requires (forall i :: 0 <= i < |v| ==> v[i] < 64) && |v| <= 85
    ensures Unpacked([LengthByte(|v|)] + Plus32(v), 0, (|v| + 1) * 3 / 4) == FromSixBits(v)
  {
    hide Unpacked, Decoded, DecodedTo, FromSixBits, LineEnd, Plus32;
    var n := |v| * 3 / 4;
    var buf := [LengthByte(|v|)] + Plus32(v);
    assert buf[1..] == Plus32(v);
    DecodedValues(buf, 1, v);
    LastCharacter(v, buf);
    EndsHere(buf, DecodedTo(buf, 1, n));
    UnpackedOnce(buf, n, (|v| + 1) * 3 / 4);
  }

  lemma LastCharacter(v: seq<byte>, buf: seq<byte>)
    requires (forall i :: 0 <= i < |v| ==> v[i] < 64) && |v| <= 85
    requires buf == [LengthByte(|v|)] + Plus32(v)
    ensures |buf| == |v| + 1 && buf[|buf| - 1] >= BLANK && buf[0] == BLANK + |v| * 3 / 4
  {
  }

  // ---- the round trip

  /** The lines of `b64encode`: `w` characters each, the last may be shorter. */
  function Wrapped(text: seq<byte>, w: nat): seq<byte>
    requires w > 0
    decreases |text|
  {
    if text == [] then []
    else if |text| <= w then text + [NEWLINE]
    else text[..w] + [NEWLINE] + Wrapped(text[w..], w)
  }

  /** A line that holds a whole encoding decodes to what was encoded. */
  lemma WholeLine(bin: seq<byte>)
    requires |bin| <= 63
    ensures DecodedLine(Base64Of(bin)) == bin
  {
    hide Kept, DecodedLine, SixBits, B64Chars, FromSixBits;
    var v := SixBits(bin);
    KeptAll(v);
    KeptPadded(B64Chars(v), (3 - |bin| % 3) % 3);
    LineMeaning(Base64Of(bin), v);
    SixBitsBack(bin);
  }

  lemma FullLine(bin: seq<byte>)
    requires |bin| <= 63
    ensures DecodedLine(B64Chars(SixBits(bin))) == bin
  {
    hide Kept, DecodedLine, SixBits, B64Chars, FromSixBits;
    var v := SixBits(bin);
    KeptAll(v);
    LineMeaning(B64Chars(v), v);
    SixBitsBack(bin);
  }

  /** An encoding is that of the first groups of three bytes, then that of the rest. */
  lemma Base64Split(bin: seq<byte>, m: nat)
    requires m <= |bin| && m % 3 == 0
    ensures Base64Of(bin) == B64Chars(SixBits(bin[..m])) + Base64Of(bin[m..])
    ensures |B64Chars(SixBits(bin[..m]))| == m / 3 * 4
  {
    hide SixBits, B64Chars;
    SixBitsSplit(bin, m);
    B64CharsPlus(SixBits(bin[..m]), SixBits(bin[m..]));
    assert |bin[m..]| % 3 == |bin| % 3;
  }

  lemma Base64Length(bin: seq<byte>)
    ensures |Base64Of(bin)| == (|bin| + 2) / 3 * 4
    ensures forall i :: 0 <= i < |Base64Of(bin)| ==> Base64Of(bin)[i] != NEWLINE
  {
    FillLength(|bin|);
  }

  lemma DecodedFirst(line: seq<byte>, rest: seq<byte>)
    requires forall i :: 0 <= i < |line| ==> line[i] != NEWLINE
    ensures DecodedText(line + [NEWLINE] + rest) == DecodedLine(line) + DecodedText(rest)
  {
    hide DecodedLine;
    var text := line + [NEWLINE] + rest;
    FirstLineIs(text, |line|);
    assert text[..|line|] == line && text[|line| + 1..] == rest;
  }

  /**
   * Encoding, breaking into lines of any width that is a multiple of four up to 84 (the library breaks at 60) and
   * decoding gives back every byte string.
   */
  lemma {:induction false} Base64RoundTrip(bin: seq<byte>, w: nat)
    requires w % 4 == 0 && 0 < w <= 84
    ensures DecodedText(Wrapped(Base64Of(bin), w)) == bin
    decreases |bin|
  {
    hide DecodedLine, Base64Of, DecodedText, B64Chars, SixBits;
    var m := w / 4 * 3;
    var text := Base64Of(bin);
    Base64Length(bin);
    if |bin| == 0 {
      EmptyText();
    } else if |bin| <= m {
      assert |text| <= w;
      WholeLine(bin);
      DecodedFirst(text, []);
      assert text + [NEWLINE] + [] == Wrapped(text, w);
      EmptyText();
    } else {
      Base64Split(bin, m);
      var line := B64Chars(SixBits(bin[..m]));
      assert |line| == w && text[..w] == line && text[w..] == Base64Of(bin[m..]);
      FullLine(bin[..m]);
      DecodedFirst(line, Wrapped(text[w..], w));
      Base64RoundTrip(bin[m..], w);
      assert bin == bin[..m] + bin[m..];
    }
  }

  lemma EmptyText()
    ensures DecodedText([]) == []
  {
  }

  /** The scan of `b64encode` over its result. */
  method Wrap(text: seq<byte>, w: nat) returns (lines: seq<byte>)
    requires w > 0
    ensures lines == Wrapped(text, w)
  {
    lines := [];
    var pos := 0;
    assert text[0..] == text;
    while pos < |text|
      invariant 0 <= pos <= |text|
      invariant lines + Wrapped(text[pos..], w) == Wrapped(text, w)
    {
      var e := if pos + w < |text| then pos + w else |text|;
      ghost var was, t := lines, text[pos..];
      assert e == |text| ==> text[pos..e] == t && text[e..] == [];
      assert e < |text| ==> text[pos..e] == t[..w] && text[e..] == t[w..];
      lines := lines + text[pos..e] + [NEWLINE];
      assert was + (text[pos..e] + [NEWLINE] + Wrapped(text[e..], w)) == lines + Wrapped(text[e..], w);
      pos := e;
    }
  }

  /** `b64encode`, then `decode64`. */
  method EncodeThenDecode(bin: seq<byte>, junk: byte) returns (back: seq<byte>)
    ensures back == bin
  {
    var text := Encode64(bin, junk);
    var lines := Wrap(text, 60);
    back := Decode64(lines);
    Base64RoundTrip(bin, 60);
  }
}
