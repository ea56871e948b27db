/** `pack('u')` and `unpack('u')` of pack.c. */
module Uuencode {
  import opened Tr

  const BLANK: byte := 32
  const BACKQUOTE: byte := 96
  const NEWLINE: byte := 10
  const RETURN: byte := 13

  /**
   * The byte that C reads at `i`: behind the end of a string there is a NUL, and whatever follows that. The encoder
   * reads up to two bytes behind the end.
   */
  function ByteAt(bin: seq<byte>, junk: byte, i: nat): byte {
    if i < |bin| then bin[i] else if i == |bin| then 0 else junk
  }

  /** The four six-bit parts of three bytes. */
  function Sextets(x: byte, y: byte, z: byte): (s: seq<byte>)
    ensures |s| == 4 && forall i :: 0 <= i < 4 ==> s[i] < 64
  {
    [x / 4, x % 4 * 16 + y / 16, y % 16 * 4 + z / 64, z % 64]
  }

  /** The character of a six-bit value: the backquote stands for 0. */
  function UuChar(v: byte): (c: byte)
    requires v < 64
    ensures BLANK < c <= BACKQUOTE
  {
    if v == 0 then BACKQUOTE else BLANK + v
  }

  function UuChars(s: seq<byte>): (r: seq<byte>)
    requires forall i :: 0 <= i < |s| ==> s[i] < 64
    ensures |r| == |s| && forall i :: 0 <= i < |s| ==> r[i] == UuChar(s[i])
  {
    seq(|s|, i requires 0 <= i < |s| => UuChar(s[i]))
  }

  /** The characters of the three bytes at `off`. */
  function GroupAt(bin: seq<byte>, junk: byte, off: nat): (r: seq<byte>)
    ensures |r| == 4 && forall i :: 0 <= i < 4 ==> BLANK < r[i] <= BACKQUOTE
  {
    UuChars(Sextets(ByteAt(bin, junk, off), ByteAt(bin, junk, off + 1), ByteAt(bin, junk, off + 2)))
  }

  lemma GroupCount(n: nat, left: nat)
    requires n > 0 && left == if n < 3 then 0 else n - 3
    ensures (n + 2) / 3 == 1 + (left + 2) / 3
  {
  }

  /** The characters of `n` bytes from `off` on, in groups of four. */
  function Groups(bin: seq<byte>, junk: byte, off: nat, n: nat): (r: seq<byte>)
    ensures |r| == (n + 2) / 3 * 4
    ensures forall i :: 0 <= i < |r| ==> BLANK < r[i] <= BACKQUOTE
    decreases n
  {
    if n == 0 then []
    else
      var left := if n < 3 then 0 else n - 3;
      GroupCount(n, left);
      GroupAt(bin, junk, off) + Groups(bin, junk, off + 3, left)
  }

  /** One line: its length, its groups, a newline. */
  function Line(bin: seq<byte>, junk: byte, off: nat, n: nat): (r: seq<byte>)
    requires n <= 45
  {
    [BLANK + n] + Groups(bin, junk, off, n) + [NEWLINE]
  }

  const LINE_BYTES := 45

  /** The lines for the bytes from `off` on. */
  function Lines(bin: seq<byte>, junk: byte, off: nat): seq<byte>
    requires off <= |bin|
    decreases |bin| - off
  {
    if off == |bin| then []
    else
      var todo := if |bin| - off > LINE_BYTES then LINE_BYTES else |bin| - off;
      Line(bin, junk, off, todo) + Lines(bin, junk, off + todo)
  }

  ghost predicate NoBlank(s: seq<byte>) {
    forall i :: 0 <= i < |s| ==> s[i] != BLANK
  }

  /** Blanks and backquotes are the same to the decoder. */
  function Backquoted(s: seq<byte>): (r: seq<byte>)
    ensures |r| == |s| && forall i :: 0 <= i < |s| ==> r[i] == if s[i] == BLANK then BACKQUOTE else s[i]
  {
    seq(|s|, i requires 0 <= i < |s| => if s[i] == BLANK then BACKQUOTE else s[i])
  }

  /** `encodes`: appends one line to `str`, and turns the blanks that `str` had before into backquotes. */
  method Encodes(str: seq<byte>, bin: seq<byte>, junk: byte, off: nat, n: nat) returns (res: seq<byte>)
    requires 0 < n <= LINE_BYTES
    ensures res == Backquoted(str) + Line(bin, junk, off, n) && NoBlank(res)
    ensures NoBlank(str) ==> res == str + Line(bin, junk, off, n)
  {
    hide Groups;
    res := str + [n + BLANK];
    ghost var start := res;
    res := AppendHunks(res, bin, junk, off, n);
    res := ReplaceBlanks(res);
    assert Backquoted(start) == Backquoted(str) + [n + BLANK];
    res := res + [NEWLINE];
    assert res == Backquoted(str) + Line(bin, junk, off, n);
    assert NoBlank(str) ==> Backquoted(str) == str;
  }

  /** The loop of `encodes` over groups of three bytes. */
  method AppendHunks(str: seq<byte>, bin: seq<byte>, junk: byte, off: nat, n: nat) returns (res: seq<byte>)
    ensures Backquoted(res) == Backquoted(str) + Groups(bin, junk, off, n)
  {
    res := str;
    var s, len := off, n as int;
    ghost var left := n;
    ghost var all := Backquoted(str) + Groups(bin, junk, off, n);
    while len > 0
      invariant left == if len > 0 then len else 0
      invariant Backquoted(res) + Groups(bin, junk, s, left) == all
      decreases len
    {
      hide Backquoted;
      var hunk := Hunk(ByteAt(bin, junk, s), ByteAt(bin, junk, s + 1), ByteAt(bin, junk, s + 2));
      GroupsStep(bin, junk, s, left, Backquoted(res), hunk);
      BackquotedPlus(res, hunk);
      res := res + hunk;
      s := s + 3;
      len := len - 3;
      left := if len > 0 then len else 0;
    }
  }

  lemma BackquotedPlus(s: seq<byte>, t: seq<byte>)
    ensures Backquoted(s + t) == Backquoted(s) + Backquoted(t)
  {
  }

  lemma GroupsStep(bin: seq<byte>, junk: byte, s: nat, n: nat, pre: seq<byte>, hunk: seq<byte>)
    requires n > 0 && Backquoted(hunk) == GroupAt(bin, junk, s)
    ensures pre + Backquoted(hunk) + Groups(bin, junk, s + 3, if n < 3 then 0 else n - 3) == pre + Groups(bin, junk, s, n)
  {
    hide GroupAt, Backquoted;
  }

  /** The four characters for three bytes, with the shifts and masks of `encodes`. */
  method Hunk(s0: byte, s1: byte, s2: byte) returns (hunk: seq<byte>)
    ensures Backquoted(hunk) == UuChars(Sextets(s0, s1, s2))
  {
    var x: int, y: int, z: int := s0, s1, s2;
    var h0: int, h1: int := BLANK + x / 4 % 64, BLANK + (x * 16 % 64 + y / 16 % 16) % 64;
    var h2: int, h3: int := BLANK + (y * 4 % 64 + z / 64 % 4) % 64, BLANK + z % 64;
    HunkIs(s0, s1, s2);
    hunk := [h0, h1, h2, h3];
  }

  /** The last loop of `encodes`: every blank becomes a backquote. */
  method ReplaceBlanks(str: seq<byte>) returns (res: seq<byte>)
    ensures res == Backquoted(str)
  {
    res := str;
    var p := 0;
    while p < |res|
      invariant 0 <= p <= |res| == |str|
      invariant forall i :: 0 <= i < p ==> res[i] == Backquoted(str)[i]
      invariant forall i :: p <= i < |res| ==> res[i] == str[i]
    {
      if res[p] == BLANK { res := res[p := BACKQUOTE]; }
      p := p + 1;
    }
  }

  lemma MaskLow4(x: int)
    requires 0 <= x < 256
    ensures x * 16 % 64 == x % 4 * 16
  {
    assert x * 16 == x / 4 * 64 + x % 4 * 16;
  }

  lemma MaskLow2(y: int)
    requires 0 <= y < 256
    ensures y * 4 % 64 == y % 16 * 4
  {
    assert y * 4 == y / 16 * 64 + y % 16 * 4;
  }

  lemma SmallMod(x: int, m: int)
    requires 0 <= x < m
    ensures x % m == x
  {
  }

  /** The shifts and masks of `encodes` pick the six-bit parts. */
  lemma HunkIs(x: byte, y: byte, z: byte)
    ensures x / 4 % 64 == Sextets(x, y, z)[0]
    ensures (x * 16 % 64 + y / 16 % 16) % 64 == Sextets(x, y, z)[1]
    ensures (y * 4 % 64 + z / 64 % 4) % 64 == Sextets(x, y, z)[2]
    ensures z % 64 == Sextets(x, y, z)[3]
  {
    MaskLow4(x);
    MaskLow2(y);
    SmallMod(x / 4, 64);
    SmallMod(y / 16, 16);
    SmallMod(z / 64, 4);
    SmallMod(x % 4 * 16 + y / 16, 64);
    SmallMod(y % 16 * 4 + z / 64, 64);
  }

  /** The `'u'` case of `pack_pack`, with lines of 45 bytes. */
  method Pack(bin: seq<byte>, junk: byte) returns (res: seq<byte>)
    ensures res == Lines(bin, junk, 0)
  {
    hide Line, Lines;
    res := [];
    var ptr, plen := 0, |bin|;
    var len := LINE_BYTES;
    while plen > 0
      invariant 0 <= ptr && 0 <= plen && ptr + plen == |bin| && NoBlank(res)
      invariant res + Lines(bin, junk, ptr) == Lines(bin, junk, 0)
      decreases plen
    {
      var todo := if plen > len then len else plen;
      LinesStep(bin, junk, ptr, todo, res);
      res := Encodes(res, bin, junk, ptr, todo);
      plen := plen - todo;
      ptr := ptr + todo;
    }
    LinesEnd(bin, junk);
  }

  lemma LinesStep(bin: seq<byte>, junk: byte, off: nat, todo: nat, pre: seq<byte>)
    requires off < |bin| && todo == if |bin| - off > LINE_BYTES then LINE_BYTES else |bin| - off
    ensures pre + Line(bin, junk, off, todo) + Lines(bin, junk, off + todo) == pre + Lines(bin, junk, off)
  {
    hide Line;
  }

  lemma LinesEnd(bin: seq<byte>, junk: byte)
    ensures Lines(bin, junk, |bin|) == []
  {
  }

  /** What the decoder makes of a character: 0 behind the end and for control characters. */
  function Digit(buf: seq<byte>, s: nat): (v: byte)
    ensures v < 64
  {
    if s < |buf| && buf[s] >= BLANK then (buf[s] - BLANK) % 64 else 0
  }

  /** The position after a character was read for a digit. */
  function Past(buf: seq<byte>, s: nat): nat {
    if s < |buf| && buf[s] >= BLANK then s + 1 else s
  }

  function Past4(buf: seq<byte>, s: nat): nat {
    Past(buf, Past(buf, Past(buf, Past(buf, s))))
  }

  /** The bytes of four six-bit values. */
  function Triple(a: byte, b: byte, c: byte, d: byte): (t: seq<byte>)
    ensures |t| == 3
  {
    [(a * 4 + b / 16) % 256, (b * 16 + c / 4) % 256, (c * 64 + d) % 256]
  }

  function TripleAt(buf: seq<byte>, s: nat): (t: seq<byte>)
    ensures |t| == 3
  {
    var s1 := Past(buf, s);
    var s2 := Past(buf, s1);
    var s3 := Past(buf, s2);
    Triple(Digit(buf, s), Digit(buf, s1), Digit(buf, s2), Digit(buf, s3))
  }

  /** `n` decoded bytes from position `s` on. */
  function Decoded(buf: seq<byte>, s: nat, n: nat): (r: seq<byte>)
    ensures |r| == n
    decreases n
  {
    if n == 0 then []
    else if n <= 3 then TripleAt(buf, s)[..n]
    else TripleAt(buf, s) + Decoded(buf, Past4(buf, s), n - 3)
  }

  /** The position behind the characters for `n` bytes. */
  function DecodedTo(buf: seq<byte>, s: nat, n: nat): (r: nat)
    ensures r >= s
    decreases n
  {
    if n == 0 then s else DecodedTo(buf, Past4(buf, s), if n < 3 then 0 else n - 3)
  }

  /** C's `*s`: the NUL behind the end counts. */
  function CharAt(buf: seq<byte>, s: nat): byte {
    if s < |buf| then buf[s] else 0
  }

  /** Behind a line: a return, a newline, or a checksum character and what follows it. */
  function LineEnd(buf: seq<byte>, s: nat): (r: nat)
    ensures r >= s
  {
    var t := if CharAt(buf, s) == RETURN then s + 1 else s;
    if CharAt(buf, t) == NEWLINE then t + 1
    else if t < |buf| && (t + 1 == |buf| || CharAt(buf, t + 1) == NEWLINE) then t + 2
    else t
  }

  /** The bytes of the lines from `s` on, when `room` more fit. */
  function Unpacked(buf: seq<byte>, s: nat, room: nat): (r: seq<byte>)
    ensures |r| <= room
    decreases |buf| - s
  {
    if s < |buf| && BLANK < buf[s] < 97 then
      var len := (buf[s] - BLANK) % 64;
      var n := if len > room then room else len;
      Decoded(buf, s + 1, n) + Unpacked(buf, LineEnd(buf, DecodedTo(buf, s + 1, n)), room - n)
    else []
  }

  /** The `'u'` case of `pack_unpack`: the length of the result and the space for it are those of the whole. */
  method Unpack(buf: seq<byte>) returns (str: seq<byte>)
    ensures str == Unpacked(buf, 0, |buf| * 3 / 4)
  {
    hide Decoded, DecodedTo, LineEnd, Unpacked;
    var cap := |buf| * 3 / 4;
    var total := 0;
    str := [];
    var s := 0;
    while s < |buf| && buf[s] > BLANK && buf[s] < 97
      invariant 0 <= total == |str| <= cap && 0 <= s
      invariant str + Unpacked(buf, s, cap - total) == Unpacked(buf, 0, cap)
      decreases |buf| - s
    {
      var len: int := (buf[s] - BLANK) % 64;
      ghost var at, room, was := s, cap - total, str;
      s := s + 1;
      total := total + len;
      if total > cap {
        len := len - (total - cap);
        total := cap;
      }
      UnpackedStep(buf, at, room, len, was);
      var chunk;
      chunk, s := UnpackLine(buf, s, len);
      str := str + chunk;
      s := SkipEnd(buf, s);
    }
    UnpackedEnd(buf, s, cap - total);
  }

  lemma UnpackedStep(buf: seq<byte>, s: nat, room: nat, n: nat, pre: seq<byte>)
    requires s < |buf| && BLANK < buf[s] < 97
    requires n == var len := (buf[s] - BLANK) % 64; if len > room then room else len
    ensures n <= room
    ensures pre + Decoded(buf, s + 1, n) + Unpacked(buf, LineEnd(buf, DecodedTo(buf, s + 1, n)), room - n)
      == pre + Unpacked(buf, s, room)
  {
    hide Decoded, DecodedTo, LineEnd;
  }

  lemma UnpackedEnd(buf: seq<byte>, s: nat, room: nat)
    requires !(s < |buf| && BLANK < buf[s] < 97)
    ensures Unpacked(buf, s, room) == []
  {
  }

  /** The end of the outer loop of `pack_unpack`. */
  method SkipEnd(buf: seq<byte>, s0: nat) returns (s: nat)
    ensures s == LineEnd(buf, s0)
  {
    s := s0;
    if CharAt(buf, s) == RETURN { s := s + 1; }
    if CharAt(buf, s) == NEWLINE {
      s := s + 1;
    } else if s < |buf| && (s + 1 == |buf| || CharAt(buf, s + 1) == NEWLINE) {
      s := s + 2;
    }
  }

  /** The inner loop of `pack_unpack`: the bytes of one line. */
  method UnpackLine(buf: seq<byte>, s0: nat, len0: nat) returns (str: seq<byte>, s: nat)
    ensures str == Decoded(buf, s0, len0) && s == DecodedTo(buf, s0, len0)
  {
    str, s := [], s0;
    var len: int := len0;
    while len > 0
      invariant 0 <= len <= len0
      invariant str + Decoded(buf, s, len) == Decoded(buf, s0, len0)
      invariant DecodedTo(buf, s, len) == DecodedTo(buf, s0, len0)
      decreases len
    {
      var mlen := if len > 3 then 3 else len;
      ghost var at, was := s, str;
      var hunk;
      hunk, s := ReadHunk(buf, s);
      str := str + hunk[..mlen];
      DecodedStep(buf, at, len, was);
      len := len - mlen;
    }
  }

  lemma DecodedStep(buf: seq<byte>, s: nat, n: nat, pre: seq<byte>)
    requires n > 0
    ensures var m := if n > 3 then 3 else n;
      && pre + TripleAt(buf, s)[..m] + Decoded(buf, Past4(buf, s), n - m) == pre + Decoded(buf, s, n)
      && DecodedTo(buf, s, n) == DecodedTo(buf, Past4(buf, s), n - m)
  {
    hide TripleAt, Past4;
    assert TripleAt(buf, s)[..3] == TripleAt(buf, s);
  }

  method ReadHunk(buf: seq<byte>, s0: nat) returns (hunk: seq<byte>, s: nat)
    ensures hunk == TripleAt(buf, s0) && s == Past4(buf, s0)
  {
    var a: int, b: int, c: int, d: int;
    a, s := ReadDigit(buf, s0);
    b, s := ReadDigit(buf, s);
    c, s := ReadDigit(buf, s);
    d, s := ReadDigit(buf, s);
    hunk := [(a * 4 + b / 16) % 256, (b * 16 + c / 4) % 256, (c * 64 + d) % 256];
  }

  method ReadDigit(buf: seq<byte>, s0: nat) returns (v: byte, s: nat)
    ensures v == Digit(buf, s0) && s == Past(buf, s0)
  {
    s := s0;
    if s < |buf| && buf[s] >= BLANK {
      v := (buf[s] - BLANK) % 64;
      s := s + 1;
    } else {
      v := 0;
    }
  }

  lemma FirstBack(x: int, y: int)
    requires 0 <= x < 256 && 0 <= y < 256
    ensures (x / 4 * 4 + (x % 4 * 16 + y / 16) / 16) % 256 == x
  {
    assert (x % 4 * 16 + y / 16) / 16 == x % 4;
  }

  lemma SecondBack(x: int, y: int, z: int)
    requires 0 <= x < 256 && 0 <= y < 256 && 0 <= z < 256
    ensures ((x % 4 * 16 + y / 16) * 16 + (y % 16 * 4 + z / 64) / 4) % 256 == y
  {
    assert (y % 16 * 4 + z / 64) / 4 == y % 16;
    assert (x % 4 * 16 + y / 16) * 16 + y % 16 == x % 4 * 256 + y;
  }

  lemma ThirdBack(y: int, z: int)
    requires 0 <= y < 256 && 0 <= z < 256
    ensures ((y % 16 * 4 + z / 64) * 64 + z % 64) % 256 == z
  {
    assert (y % 16 * 4 + z / 64) * 64 + z % 64 == y % 16 * 256 + z;
  }

  /** The decoder undoes the encoder on one group. */
  lemma GroupDecodes(x: byte, y: byte, z: byte)
    ensures var v := Sextets(x, y, z); Triple(v[0], v[1], v[2], v[3]) == [x, y, z]
  {
    var v := Sextets(x, y, z);
    assert Triple(v[0], v[1], v[2], v[3])[0] == x by { FirstBack(x, y); }
    assert Triple(v[0], v[1], v[2], v[3])[1] == y by { SecondBack(x, y, z); }
    assert Triple(v[0], v[1], v[2], v[3])[2] == z by { ThirdBack(y, z); }
  }

  lemma DigitOfUuChar(buf: seq<byte>, s: nat, v: byte)
    requires v < 64 && s < |buf| && buf[s] == UuChar(v)
    ensures Digit(buf, s) == v && Past(buf, s) == s + 1
  {
  }

  lemma GroupAtDecodes(buf: seq<byte>, s: nat, x: byte, y: byte, z: byte)
    requires s + 4 <= |buf| && buf[s..s + 4] == UuChars(Sextets(x, y, z))
    ensures TripleAt(buf, s) == [x, y, z] && Past4(buf, s) == s + 4
  {
    hide Digit, Past, UuChar, Triple, Sextets;
    var v := Sextets(x, y, z);
    var g := buf[s..s + 4];
    assert g[0] == buf[s] && g[1] == buf[s + 1] && g[2] == buf[s + 2] && g[3] == buf[s + 3];
    DigitOfUuChar(buf, s, v[0]);
    DigitOfUuChar(buf, s + 1, v[1]);
    DigitOfUuChar(buf, s + 2, v[2]);
    DigitOfUuChar(buf, s + 3, v[3]);
    GroupDecodes(x, y, z);
  }

  /** The decoder undoes the encoder on the groups of a line, wherever they stand. */
  lemma {:induction false} GroupsDecode(buf: seq<byte>, s: nat, bin: seq<byte>, junk: byte, off: nat, n: nat)
    requires off + n <= |bin|
    requires s + |Groups(bin, junk, off, n)| <= |buf|
    requires buf[s..s + |Groups(bin, junk, off, n)|] == Groups(bin, junk, off, n)
    ensures Decoded(buf, s, n) == bin[off..off + n]
    ensures DecodedTo(buf, s, n) == s + |Groups(bin, junk, off, n)|
    decreases n
  {
    hide TripleAt, Past4, UuChars, Sextets;
    if n > 0 {
      var g := Groups(bin, junk, off, n);
      var x, y, z := ByteAt(bin, junk, off), ByteAt(bin, junk, off + 1), ByteAt(bin, junk, off + 2);
      assert buf[s..s + 4] == buf[s..s + |g|][..4] == UuChars(Sextets(x, y, z));
      GroupAtDecodes(buf, s, x, y, z);
      var m := if n < 3 then 0 else n - 3;
      var h := Groups(bin, junk, off + 3, m);
      assert buf[s + 4..s + |g|] == buf[s..s + |g|][4..] == h;
      if n > 3 {
        GroupsDecode(buf, s + 4, bin, junk, off + 3, m);
      }
    }
  }

  /** A line decodes to its bytes, and the decoder then stands behind it. */
  lemma LineDecodes(buf: seq<byte>, s: nat, bin: seq<byte>, junk: byte, off: nat, n: nat)
    requires 0 < n <= LINE_BYTES && off + n <= |bin|
    requires Stands(buf, s, Line(bin, junk, off, n))
    ensures |Line(bin, junk, off, n)| == 2 + |Groups(bin, junk, off, n)| && s < |buf|
    ensures BLANK < buf[s] < 97 && (buf[s] - BLANK) % 64 == n
    ensures Decoded(buf, s + 1, n) == bin[off..off + n]
    ensures LineEnd(buf, DecodedTo(buf, s + 1, n)) == s + |Line(bin, junk, off, n)|
  {
    hide Decoded, DecodedTo, Groups, LineEnd, Line, Stands;
    LineIs(bin, junk, off, n);
    LinePlace(buf, s, Line(bin, junk, off, n), Groups(bin, junk, off, n));
    BodyDecodes(buf, s, bin, junk, off, n);
    EndAtNewline(buf, s + 1 + |Groups(bin, junk, off, n)|);
  }

  /** The text is found in the buffer at `s`. */
  predicate Stands(buf: seq<byte>, s: nat, t: seq<byte>) {
    s + |t| <= |buf| && buf[s..s + |t|] == t
  }

  /** What begins a text that stands at the end of the buffer, and what is left of it. */
  lemma Begins(buf: seq<byte>, s: nat, t: seq<byte>, u: seq<byte>)
    requires s <= |buf| && buf[s..] == t + u
    ensures Stands(buf, s, t) && s + |t| <= |buf| && buf[s + |t|..] == u
  {
    assert buf[s..s + |t|] == buf[s..][..|t|];
    assert buf[s + |t|..] == buf[s..][|t|..];
  }

  /** The parts of a line where it stands. */
  lemma LinePlace(buf: seq<byte>, s: nat, l: seq<byte>, g: seq<byte>)
    requires Stands(buf, s, l) && |l| > 1 + |g| && l[1..1 + |g|] == g
    ensures s + |l| <= |buf| && buf[s] == l[0] && buf[s + 1..s + 1 + |g|] == g
    ensures forall k :: 1 + |g| <= k < |l| ==> buf[s + k] == l[k]
  {
    Within(buf, s, l, 0, 1);
    Within(buf, s, l, 1, 1 + |g|);
    forall k | 1 + |g| <= k < |l|
      ensures buf[s + k] == l[k]
    {
      Within(buf, s, l, k, k + 1);
    }
  }

  /** The count and the groups of a line. */
  lemma BodyDecodes(buf: seq<byte>, s: nat, bin: seq<byte>, junk: byte, off: nat, n: nat)
    requires 0 < n <= LINE_BYTES && off + n <= |bin| && s + 1 + |Groups(bin, junk, off, n)| <= |buf|
    requires buf[s] == BLANK + n && buf[s + 1..s + 1 + |Groups(bin, junk, off, n)|] == Groups(bin, junk, off, n)
    ensures BLANK < buf[s] < 97 && (buf[s] - BLANK) % 64 == n
    ensures Decoded(buf, s + 1, n) == bin[off..off + n]
    ensures DecodedTo(buf, s + 1, n) == s + 1 + |Groups(bin, junk, off, n)|
  {
    hide Decoded, DecodedTo, Groups;
    GroupsDecode(buf, s + 1, bin, junk, off, n);
    SmallMod(n, 64);
  }

  lemma LineIs(bin: seq<byte>, junk: byte, off: nat, n: nat)
    requires n <= 45
    ensures var l, g := Line(bin, junk, off, n), Groups(bin, junk, off, n);
      |l| == |g| + 2 && l[1..1 + |g|] == g && l[0] == BLANK + n && l[1 + |g|] == NEWLINE
  {
    hide Groups;
    LineParts(Groups(bin, junk, off, n), n);
  }

  lemma LineParts(g: seq<byte>, n: nat)
    requires n <= 45
    ensures var l := [BLANK + n] + g + [NEWLINE]; l[1..1 + |g|] == g && l[0] == BLANK + n && l[1 + |g|] == NEWLINE
  {
  }

  /** A part of a part. */
  lemma Within(buf: seq<byte>, s: nat, l: seq<byte>, i: nat, j: nat)
    requires s + |l| <= |buf| && buf[s..s + |l|] == l && i <= j <= |l|
    ensures buf[s + i..s + j] == l[i..j]
    ensures i < j ==> buf[s + i] == l[i]
  {
    assert forall k :: 0 <= k < |l| ==> buf[s..s + |l|][k] == l[k];
    forall k | 0 <= k < j - i
      ensures buf[s + i..s + j][k] == l[i..j][k]
    {
      assert buf[s..s + |l|][i + k] == buf[s + i + k];
    }
  }

  lemma EndAtNewline(buf: seq<byte>, s: nat)
    requires s < |buf| && buf[s] == NEWLINE
    ensures LineEnd(buf, s) == s + 1
  {
  }

  /** The decoder undoes the encoder from any line on, given the room. */
  lemma {:induction false} LinesDecode(buf: seq<byte>, s: nat, bin: seq<byte>, junk: byte, off: nat, room: nat)
    requires off <= |bin| && room >= |bin| - off
    requires s <= |buf| && buf[s..] == Lines(bin, junk, off)
    ensures Unpacked(buf, s, room) == bin[off..]
    decreases |bin| - off
  {
    hide Decoded, DecodedTo, LineEnd, Line, Stands;
    if off < |bin| {
      var n := if |bin| - off > LINE_BYTES then LINE_BYTES else |bin| - off;
      var l := Line(bin, junk, off, n);
      Begins(buf, s, l, Lines(bin, junk, off + n));
      LineDecodes(buf, s, bin, junk, off, n);
      LinesDecode(buf, s + |l|, bin, junk, off + n, room - n);
      assert bin[off..] == bin[off..off + n] + bin[off + n..];
    }
  }

  /** The space that the decoder reserves is enough. */
  lemma {:induction false} RoomEnough(bin: seq<byte>, junk: byte, off: nat)
    requires off <= |bin|
    ensures |Lines(bin, junk, off)| * 3 >= 4 * (|bin| - off)
    decreases |bin| - off
  {
    if off < |bin| {
      var n := if |bin| - off > LINE_BYTES then LINE_BYTES else |bin| - off;
      RoomEnough(bin, junk, off + n);
      assert |Line(bin, junk, off, n)| == (n + 2) / 3 * 4 + 2;
    }
  }

  /** As long as there are 45 bytes, a line is an `M`, sixty characters and a newline. */
  lemma FullLine(bin: seq<byte>, junk: byte, off: nat)
    requires off + 45 <= |bin|
    ensures var text := Lines(bin, junk, off);
      |text| >= 62 && text[0] == 'M' as int && text[61] == '\n' as int && text[62..] == Lines(bin, junk, off + 45)
  {
    hide Groups;
    var l := Line(bin, junk, off, 45);
    assert Lines(bin, junk, off) == l + Lines(bin, junk, off + 45);
    LineIs(bin, junk, off, 45);
    GroupsLength(bin, junk, off, 45);
  }

  lemma GroupsLength(bin: seq<byte>, junk: byte, off: nat, n: nat)
    ensures |Groups(bin, junk, off, n)| == (n + 2) / 3 * 4
  {
  }

  /** Decoding what was encoded gives back every byte string, whatever the memory behind it holds. */
  lemma UuRoundTrip(bin: seq<byte>, junk: byte)
    ensures var text := Lines(bin, junk, 0); Unpacked(text, 0, |text| * 3 / 4) == bin
  {
    var text := Lines(bin, junk, 0);
    RoomEnough(bin, junk, 0);
    LinesDecode(text, 0, bin, junk, 0, |text| * 3 / 4);
  }

  /** Packing, then unpacking. */
  method PackThenUnpack(bin: seq<byte>, junk: byte) returns (back: seq<byte>)
    ensures back == bin
  {
    var text := Pack(bin, junk);
    back := Unpack(text);
    UuRoundTrip(bin, junk);
  }

  // ---- lines that end with a return and a newline

  function CrlfLine(bin: seq<byte>, junk: byte, off: nat, n: nat): seq<byte>
    requires n <= 45
  {
    [BLANK + n] + Groups(bin, junk, off, n) + [RETURN, NEWLINE]
  }

  function CrlfLines(bin: seq<byte>, junk: byte, off: nat): seq<byte>
    requires off <= |bin|
    decreases |bin| - off
  {
    if off == |bin| then []
    else
      var todo := if |bin| - off > LINE_BYTES then LINE_BYTES else |bin| - off;
      CrlfLine(bin, junk, off, todo) + CrlfLines(bin, junk, off + todo)
  }

  lemma CrlfParts(bin: seq<byte>, junk: byte, off: nat, n: nat)
    requires n <= 45
    ensures var l, g := CrlfLine(bin, junk, off, n), Groups(bin, junk, off, n);
      |l| == |g| + 3 && l[1..1 + |g|] == g && l[0] == BLANK + n && l[1 + |g|] == RETURN && l[2 + |g|] == NEWLINE
  {
    hide Groups;
  }

  lemma EndAtReturn(buf: seq<byte>, s: nat)
    requires s + 1 < |buf| && buf[s] == RETURN && buf[s + 1] == NEWLINE
    ensures LineEnd(buf, s) == s + 2
  {
  }

  lemma CrlfLineDecodes(buf: seq<byte>, s: nat, bin: seq<byte>, junk: byte, off: nat, n: nat)
    requires 0 < n <= LINE_BYTES && off + n <= |bin|
    requires Stands(buf, s, CrlfLine(bin, junk, off, n))
    ensures |CrlfLine(bin, junk, off, n)| > 0 && s < |buf| && BLANK < buf[s] < 97 && (buf[s] - BLANK) % 64 == n
    ensures Decoded(buf, s + 1, n) == bin[off..off + n]
    ensures LineEnd(buf, DecodedTo(buf, s + 1, n)) == s + |CrlfLine(bin, junk, off, n)|
  {
    hide Decoded, DecodedTo, Groups, LineEnd, CrlfLine, Stands;
    var w := |Groups(bin, junk, off, n)|;
    CrlfParts(bin, junk, off, n);
    CrlfPlace(buf, s, CrlfLine(bin, junk, off, n), Groups(bin, junk, off, n));
    BodyDecodes(buf, s, bin, junk, off, n);
    EndAtReturn(buf, s + 1 + w);
  }

  lemma CrlfPlace(buf: seq<byte>, s: nat, l: seq<byte>, g: seq<byte>)
    requires Stands(buf, s, l) && |l| == 3 + |g| && l[1..1 + |g|] == g
    ensures s + |l| <= |buf| && buf[s] == l[0] && buf[s + 1..s + 1 + |g|] == g
    ensures buf[s + 1 + |g|] == l[1 + |g|] && buf[s + 2 + |g|] == l[2 + |g|]
  {
    LinePlace(buf, s, l, g);
    assert buf[s + (1 + |g|)] == l[1 + |g|];
    assert buf[s + (2 + |g|)] == l[2 + |g|];
  }

  lemma {:induction false} CrlfDecode(buf: seq<byte>, s: nat, bin: seq<byte>, junk: byte, off: nat, room: nat)
    requires off <= |bin| && room >= |bin| - off
    requires s <= |buf| && buf[s..] == CrlfLines(bin, junk, off)
    ensures Unpacked(buf, s, room) == bin[off..]
    decreases |bin| - off
  {
    hide Decoded, DecodedTo, LineEnd, CrlfLine, Stands;
    if off < |bin| {
      var n := if |bin| - off > LINE_BYTES then LINE_BYTES else |bin| - off;
      var l := CrlfLine(bin, junk, off, n);
      Begins(buf, s, l, CrlfLines(bin, junk, off + n));
      CrlfLineDecodes(buf, s, bin, junk, off, n);
      CrlfDecode(buf, s + |l|, bin, junk, off + n, room - n);
      assert bin[off..] == bin[off..off + n] + bin[off + n..];
    }
  }

  lemma {:induction false} CrlfLonger(bin: seq<byte>, junk: byte, off: nat)
    requires off <= |bin|
    ensures |CrlfLines(bin, junk, off)| >= |Lines(bin, junk, off)|
    decreases |bin| - off
  {
    hide Groups;
    if off < |bin| {
      var n := if |bin| - off > LINE_BYTES then LINE_BYTES else |bin| - off;
      CrlfLonger(bin, junk, off + n);
    }
  }

  /** Text whose lines have come to end with a return and a newline decodes to the same bytes. */
  lemma CrlfRoundTrip(bin: seq<byte>, junk: byte)
    ensures var text := CrlfLines(bin, junk, 0); Unpacked(text, 0, |text| * 3 / 4) == bin
  {
    var text := CrlfLines(bin, junk, 0);
    RoomEnough(bin, junk, 0);
    CrlfLonger(bin, junk, 0);
    CrlfDecode(text, 0, bin, junk, 0, |text| * 3 / 4);
  }
}
