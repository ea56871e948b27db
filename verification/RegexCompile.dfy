/** `re_compile_pattern` of regex.c, for patterns of 7-bit characters without intervals, classes and back-references. */
module RegexCompile {
  import Arith
  import opened RegexSets
  import opened RegexTree
  import opened RegexFlow
  import opened RegexLayout
  import opened RegexSyntax
  import opened RegexState
  import opened RegexScan
  import opened RegexRefusal

  const MAX_BUFFER := 0x1_0000
  const INIT_BUF_SIZE := 28

  /** So much code is about to reach the limit. */
  predicate Full(b: nat) {
    b + 40 >= MAX_BUFFER
  }

  /** `store_jump` at a place in the code. */
  function Stored(code: seq<byte>, from: nat, op: byte, to: int): seq<byte>
    requires from + 3 <= |code|
  {
    code[..from] + JumpCode(op, to - (from + 3)) + code[from + 3..]
  }

  /** The output buffer: `b` is its end, and it grows by reallocation up to a limit. */
  class Buffer {
    var bytes: array<byte>
    var b: nat

    ghost predicate Valid()
      reads this
    {
      b <= bytes.Length && 0 < bytes.Length <= MAX_BUFFER
    }

    function Code(): seq<byte>
      reads this, bytes
      requires Valid()
    {
      bytes[..b]
    }

    constructor ()
      ensures Valid() && Code() == [] && fresh(bytes)
    {
      bytes := new byte[INIT_BUF_SIZE](_ => 0);
      b := 0;
    }

    /** `GET_BUFFER_SPACE`: false when the buffer may not grow any more. */
    method GetSpace(n: nat) returns (ok: bool)
      requires Valid()
      modifies this`bytes
      ensures Valid() && Code() == old(Code()) && (bytes == old(bytes) || fresh(bytes))
      ensures ok ==> b + n < bytes.Length
      ensures !ok ==> b + n >= MAX_BUFFER
    {
      ok := true;
      while b + n >= bytes.Length
        invariant Valid() && Code() == old(Code()) && (bytes == old(bytes) || fresh(bytes))
        decreases MAX_BUFFER - bytes.Length
      {
        if bytes.Length == MAX_BUFFER { return false; }
        var size := 2 * bytes.Length;
        if size > MAX_BUFFER { size := MAX_BUFFER; }
        var was := bytes;
        bytes := new byte[size](i requires 0 <= i reads was => if i < was.Length then was[i] else 0);
      }
    }

    /** `BUFPUSH`. */
    method Push(c: byte) returns (ok: bool)
      requires Valid()
      modifies this, bytes
      ensures Valid() && (bytes == old(bytes) || fresh(bytes))
      ensures !ok ==> old(b) + 1 >= MAX_BUFFER
      ensures ok ==> Code() == old(Code()) + [c]
    {
      ok := GetSpace(1);
      if ok {
        bytes[b] := c;
        b := b + 1;
      }
    }

    /** Leaves space whose bytes are written later. */
    method Skip(n: nat)
      requires Valid() && b + n <= bytes.Length
      modifies this`b
      ensures Valid() && Code() == old(Code()) + bytes[old(b)..old(b) + n]
    {
      b := b + n;
    }

    method PushAll(cs: seq<byte>) returns (ok: bool)
      requires Valid()
      modifies this, bytes
      ensures Valid() && (bytes == old(bytes) || fresh(bytes))
      ensures !ok ==> old(b) + |cs| >= MAX_BUFFER
      ensures ok ==> Code() == old(Code()) + cs
    {
      ghost var code := Code();
      var i := 0;
      ok := true;
      while i < |cs|
        invariant Valid() && (bytes == old(bytes) || fresh(bytes))
        invariant 0 <= i <= |cs| && Code() == code + cs[..i] && b == old(b) + i
      {
        ok := Push(cs[i]);
        if !ok { return; }
        assert cs[..i + 1] == cs[..i] + [cs[i]];
        i := i + 1;
      }
      assert cs[..i] == cs;
    }

    /** Counts up the byte at a place. */
    method Increment(at: nat)
      requires Valid() && at < b && bytes[at] < 255
      modifies bytes
      ensures Valid() && Code() == old(Code())[at := old(bytes[at]) + 1]
    {
      bytes[at] := bytes[at] + 1;
    }

    /** `exactn` with one character; the count is written first and then incremented. */
    method PushRun(c: byte) returns (ok: bool, count: nat)
      requires Valid()
      modifies this, bytes
      ensures Valid() && (bytes == old(bytes) || fresh(bytes))
      ensures !ok ==> old(b) + 3 >= MAX_BUFFER
      ensures ok ==> Code() == old(Code()) + [EXACTN, 1, c] && count == old(b) + 1
    {
      ghost var code := Code();
      count := 0;
      ok := Push(EXACTN);
      if !ok { return; }
      count := b;
      ok := Push(0);
      if !ok { return; }
      ok := Push(c);
      if !ok { return; }
      assert Code() == code + [EXACTN, 0, c];
      Increment(count);
    }

    /** `store_jump` inside the code. */
    method StoreJump(from: nat, op: byte, to: int)
      requires Valid() && from + 3 <= b
      modifies bytes
      ensures Valid() && Code() == Stored(old(Code()), from, op, to)
    {
      StoreAt(from, op, to);
    }

    /** `store_jump` at the end of the code. */
    method AppendJump(op: byte, to: int) returns (ok: bool)
      requires Valid()
      modifies this, bytes
      ensures Valid() && (bytes == old(bytes) || fresh(bytes))
      ensures !ok ==> old(b) + 3 >= MAX_BUFFER
      ensures ok ==> Code() == old(Code()) + JumpCode(op, to - (old(b) + 3)) && b == old(b) + 3
    {
      ok := GetSpace(3);
      if !ok { return; }
      ghost var was := bytes[..b];
      StoreAt(b, op, to);
      assert bytes[..b + 3] == was + JumpCode(op, to - (b + 3));
      b := b + 3;
    }

    method StoreAt(from: nat, op: byte, to: int)
      requires Valid() && from + 3 <= bytes.Length
      modifies bytes
      ensures bytes[..] == old(bytes[..from]) + JumpCode(op, to - (from + 3)) + old(bytes[from + 3..])
    {
      var dist := to - (from + 3);
      bytes[from] := op;
      bytes[from + 1] := dist % 256;
      bytes[from + 2] := dist / 256 % 256;
    }

    /** The loop of `insert_jump`: the bytes behind `from` are moved up, the last first. */
    method MoveUp(from: nat)
      requires Valid() && from <= b && b + 3 <= bytes.Length
      modifies bytes
      ensures bytes[..from] == old(bytes[..from]) && bytes[from + 3..b + 3] == old(bytes[from..b])
    {
      ghost var was := bytes[..];
      var pfrom, pto := b, b + 3;
      while pfrom != from
        invariant from <= pfrom <= b && pto == pfrom + 3
        invariant bytes[..pfrom] == was[..pfrom]
        invariant bytes[pto..b + 3] == was[pfrom..b]
      {
        pto, pfrom := pto - 1, pfrom - 1;
        bytes[pto] := bytes[pfrom];
      }
    }

    /** `insert_jump`. */
    method InsertJump(op: byte, from: nat, to: int)
      requires Valid() && from <= b && b + 3 <= bytes.Length
      modifies this`b, bytes
      ensures Valid() && Code() == Inserted(old(Code()), from, op, to) && b == old(b) + 3
    {
      ghost var was := bytes[..];
      MoveUp(from);
      ghost var moved := bytes[..];
      StoreAt(from, op, to);
      assert bytes[from + 3..b + 3] == moved[from + 3..b + 3];
      b := b + 3;
      assert bytes[..b] == was[..from] + JumpCode(op, to - (from + 3)) + was[from..b - 3];
    }
  }

  // ---- bracket expressions

  lemma ShowItemsSnoc(items: seq<SetItem>, i: SetItem)
    ensures ShowItems(items + [i]) == ShowItems(items) + ShowItem(i)
  {
    assert (items + [i])[..|items|] == items;
  }

  lemma InItemsSnoc(items: seq<SetItem>, i: SetItem, c: byte)
    ensures InItems(items + [i], c) <==> InItems(items, c) || InItem(i, c)
  {
    var all := items + [i];
    if InItems(items, c) {
      var k :| 0 <= k < |items| && InItem(items[k], c);
      assert InItem(all[k], c);
    }
    assert all[|items|] == i;
  }

  /** A character in brackets; the closing bracket is only read here in the first place. */
  method ReadSetLit(pat: seq<byte>, p: nat, first: bool) returns (e: Outcome, l: Lit, q: nat)
    requires p < |pat| && (pat[p] == UNBRACKET ==> first)
    ensures e == Good ==> p < q <= |pat| && pat[p..q] == ShowLit(l) && ProperSetLit(l, first)
    ensures (e, q) == SetLit(pat, p) && (e == Good ==> l.c == SetChar(pat, p))
    ensures e != Good ==> LitFails(e, pat[p..])
  {
    var c := pat[p];
    q := p + 1;
    l := Lit(c, false);
    if c >= 128 { return Outside, l, q; }
    if c == BACKSLASH {
      if q == |pat| { return Premature, l, q; }
      c := pat[q];
      q := q + 1;
      l := Lit(c, true);
      if c >= 128 || SetEscape(c) { return Outside, l, q; }
    }
    e := Good;
  }

  /** The bitmap has the bits of another one and those of the characters from `lo` to below `c`. */
  ghost predicate RangeSet(bits: seq<byte>, map0: seq<byte>, lo: int, c: int) {
    forall x: byte :: BitOf(bits, x) <==> BitOf(map0, x) || lo <= x < c
  }

  lemma RangeSetMore(bits: seq<byte>, map0: seq<byte>, lo: int, c: byte)
    requires |bits| == 32 && RangeSet(bits, map0, lo, c) && lo <= c
    ensures RangeSet(WithBit(bits, c), map0, lo, c as int + 1)
  {
    hide BitOf;
  }

  /** `SET_LIST_BIT` for all characters of a range. */
  method SetRange(map0: seq<byte>, lo: byte, hi: byte) returns (bits: seq<byte>)
    requires |map0| == 32 && lo <= hi
    ensures |bits| == 32 && forall c: byte :: BitOf(bits, c) <==> BitOf(map0, c) || lo <= c <= hi
  {
    hide BitOf;
    bits := map0;
    var c: int := lo;
    assert RangeSet(bits, map0, lo, c);
    while c <= hi
      invariant lo <= c <= hi as int + 1
      invariant |bits| == 32 && RangeSet(bits, map0, lo, c)
      decreases hi as int + 1 - c
    {
      hide RangeSet;
      RangeSetMore(bits, map0, lo, c);
      bits := WithBit(bits, c);
      c := c + 1;
    }
  }

  /** One bit more in a bitmap. */
  function WithBit(bits: seq<byte>, c: byte): (r: seq<byte>)
    requires |bits| == 32
    ensures |r| == 32 && forall x: byte :: BitOf(r, x) <==> BitOf(bits, x) || x == c
  {
    WithBitIs(bits, c);
    bits[c as int / 8 := SetBit(bits[c as int / 8], c as int % 8)]
  }

  lemma WithBitIs(bits: seq<byte>, c: byte)
    requires |bits| == 32
    ensures SetBit(bits[c as int / 8], c as int % 8) < 256
    ensures var r: seq<byte> := bits[c as int / 8 := SetBit(bits[c as int / 8], c as int % 8)];
      forall x: byte :: BitOf(r, x) <==> BitOf(bits, x) || x == c
  {
    hide HasBit, SetBit;
    assert Arith.Pow(2, 8) == 256;
    SetBitBound(bits[c as int / 8], c as int % 8, 8);
    var r: seq<byte> := bits[c as int / 8 := SetBit(bits[c as int / 8], c as int % 8)];
    forall x: byte
      ensures BitOf(r, x) <==> BitOf(bits, x) || x == c
    {
      if x as int / 8 == c as int / 8 { SetBitIs(bits[c as int / 8], c as int % 8, x as int % 8); }
    }
  }

  /** Zero bytes at the end of the bitmap are dropped. */
  method Trim(map0: seq<byte>) returns (bits: seq<byte>)
    ensures |bits| <= |map0| && (bits != [] ==> bits[|bits| - 1] != 0)
    ensures forall c: byte :: BitOf(bits, c) <==> BitOf(map0, c)
  {
    hide HasBit;
    var n: nat := |map0|;
    while n > 0 && map0[n - 1] == 0
      invariant n <= |map0| && forall k :: n <= k < |map0| ==> map0[k] == 0
    {
      n := n - 1;
    }
    bits := map0[..n];
    forall c: byte
      ensures BitOf(bits, c) <==> BitOf(map0, c)
    {
      NoBits(c as int % 8);
    }
  }

  /** How far the parts of brackets have been read. */
  ghost predicate ItemsRead(pat: seq<byte>, p0: nat, p: nat, items: seq<SetItem>, bits: seq<byte>) {
    && p0 <= p <= |pat| && pat[p0..p] == ShowItems(items) && (items == [] <==> p == p0)
    && ProperItems(items)
    && |bits| == 32 && forall c: byte :: BitOf(bits, c) <==> InItems(items, c)
  }

  /** Behind a single character no dash follows, unless it is the last. */
  predicate DashOk(pat: seq<byte>, p: nat, items: seq<SetItem>) {
    && (items != [] && items[|items| - 1].One? ==> !DashRange(pat, p))
    && (|items| > 1 && items[|items| - 1] == PLAIN_DASH && items[|items| - 2].One? ==>
          p < |pat| && pat[p] == UNBRACKET)
  }

  lemma ItemAdded(pat: seq<byte>, p0: nat, p: nat, items: seq<SetItem>, bits: seq<byte>, i: SetItem, q: nat, bits': seq<byte>)
    requires ItemsRead(pat, p0, p, items, bits) && DashOk(pat, p, items)
    requires p < q <= |pat| && pat[p..q] == ShowItem(i) && ProperItem(i, items == [])
    requires items != [] ==> pat[p] != UNBRACKET
    requires i.One? ==> !DashRange(pat, q)
    requires |bits'| == 32 && forall c: byte :: BitOf(bits', c) <==> BitOf(bits, c) || InItem(i, c)
    ensures ItemsRead(pat, p0, q, items + [i], bits') && DashOk(pat, q, items + [i])
  {
    hide BitOf, ShowItems, ShowItem, InItem;
    var all := items + [i];
    ShowItemsSnoc(items, i);
    assert pat[p0..q] == pat[p0..p] + pat[p..q];
    forall c: byte
      ensures BitOf(bits', c) <==> InItems(all, c)
    {
      InItemsSnoc(items, i, c);
    }
    DashStep(pat, p, items, i, q);
  }

  lemma DashStep(pat: seq<byte>, p: nat, items: seq<SetItem>, i: SetItem, q: nat)
    requires ProperItems(items) && DashOk(pat, p, items) && p < q <= |pat| && pat[p..q] == ShowItem(i)
    requires ProperItem(i, items == []) && (items != [] ==> pat[p] != UNBRACKET) && (i.One? ==> !DashRange(pat, q))
    ensures ProperItems(items + [i]) && DashOk(pat, q, items + [i])
  {
    var all := items + [i];
    if BeginsDash(i) { DashText(pat, p, i, q); }
    forall k | 0 <= k < |all|
      ensures ProperItem(all[k], k == 0)
    {
      if k < |items| { assert all[k] == items[k]; }
    }
    forall k | 0 < k < |all| && BeginsDash(all[k]) && all[k - 1].One?
      ensures k == |all| - 1 && all[k] == PLAIN_DASH
    {
      assert all[k - 1] == items[k - 1];
    }
  }

  /** The text of an item that begins with a dash. */
  lemma DashText(pat: seq<byte>, p: nat, i: SetItem, q: nat)
    requires p < q <= |pat| && pat[p..q] == ShowItem(i) && BeginsDash(i)
    ensures pat[p] == DASH && (i == PLAIN_DASH ==> q == p + 1) && (i != PLAIN_DASH ==> p + 1 < |pat| && pat[p + 1] == DASH)
  {
    assert pat[p] == pat[p..q][0];
    if i != PLAIN_DASH {
      assert pat[p + 1] == pat[p..q][1];
    }
  }

  /** The loop that reads brackets, from behind the opening one or its hat. */
  method ParseItems(pat: seq<byte>, p0: nat) returns (e: Outcome, p: nat, items: seq<SetItem>, bits: seq<byte>)
    requires p0 <= |pat|
    ensures e == Good ==>
      && p0 < p <= |pat| && pat[p0..p] == ShowItems(items) + [UNBRACKET] && items != [] && ProperItems(items)
      && |bits| == 32 && forall c: byte :: BitOf(bits, c) <==> InItems(items, c)
    ensures e == SetRest(pat, p0, p0).0 && (e == Good ==> p == SetRest(pat, p0, p0).1)
    ensures e != Good ==>
      && p0 <= p <= |pat| && pat[p0..p] == ShowItems(items) && ProperItems(items) && PartFails(e, pat[p..], items == [])
      && (items != [] && items[|items| - 1].One? ==> !DashRange(pat, p))
  {
    hide BitOf, ShowItems, ProperItems, HasBit, SetBit, SetPart, PartFails;
    p, items, bits := p0, [], seq(32, _ => 0);
    NothingRead(pat, p0, bits);
    while true
      invariant ItemsRead(pat, p0, p, items, bits) && DashOk(pat, p, items)
      invariant SetRest(pat, p0, p0) == SetRest(pat, p0, p)
      decreases |pat| - p
    {
      if p == |pat| {
        NoneBlamed(pat[p..], items == []);
        return Premature, p, items, bits;
      }
      if pat[p] == UNBRACKET && p != p0 {
        assert pat[p0..p + 1] == pat[p0..p] + [UNBRACKET];
        return Good, p + 1, items, bits;
      }
      var i, q;
      ghost var was := bits;
      e, i, q, bits := ReadItem(pat, p, items == [], bits);
      if e != Good { return; }
      ItemAdded(pat, p0, p, items, was, i, q, bits);
      items := items + [i];
      p := q;
    }
  }

  lemma NothingRead(pat: seq<byte>, p0: nat, bits: seq<byte>)
    requires p0 <= |pat| && bits == seq(32, _ => 0)
    ensures ItemsRead(pat, p0, p0, [], bits) && DashOk(pat, p0, [])
  {
    forall c: byte
      ensures !BitOf(bits, c)
    {
      NoBits(c as int % 8);
    }
  }

  /** One turn of that loop: a character or a range. */
  method ReadItem(pat: seq<byte>, p: nat, first: bool, map0: seq<byte>)
    returns (e: Outcome, i: SetItem, q: nat, bits: seq<byte>)
    requires p < |pat| && (pat[p] == UNBRACKET ==> first) && |map0| == 32
    ensures e == Good ==>
      && p < q <= |pat| && pat[p..q] == ShowItem(i) && ProperItem(i, first) && (i.One? ==> !DashRange(pat, q))
      && |bits| == 32 && forall c: byte :: BitOf(bits, c) <==> BitOf(map0, c) || InItem(i, c)
    ensures (e, q) == SetPart(pat, p)
    ensures e != Good ==> PartFails(e, pat[p..], first)
  {
    hide BitOf, ShowItem, ShowLit, ProperItem, ProperSetLit, InItem, SetLit, PartFails, LitFails, RunsBack;
    var l;
    e, l, q := ReadSetLit(pat, p, first);
    i, bits := One(l), map0;
    if e != Good {
      LitBlamed(e, pat[p..], first);
      return;
    }
    if q < |pat| && pat[q] == DASH && !(q + 1 < |pat| && pat[q + 1] == UNBRACKET) {
      ghost var m := q;
      q := q + 1;
      if q == |pat| {
        SpanBlamed(Premature, pat, p, m, l, first);
        return Premature, i, q, bits;
      }
      var hi;
      e, hi, q := ReadSetLit(pat, q, false);
      if e != Good {
        SpanBlamed(e, pat, p, m, l, first);
        return;
      }
      if l.c > hi.c {
        RunsBackwards(pat, m + 1, q, l, hi);
        SpanBlamed(Invalid, pat, p, m, l, first);
        return Invalid, i, q, bits;
      }
      i := Span(l, hi);
      bits := SetRange(map0, l.c, hi.c);
      SpanItem(pat, p, m, q, l, hi, first);
    } else {
      bits := WithBit(map0, l.c);
      OneItem(l, first);
    }
  }

  lemma OneItem(l: Lit, first: bool)
    requires ProperSetLit(l, first)
    ensures ShowItem(One(l)) == ShowLit(l) && ProperItem(One(l), first) && forall c: byte :: InItem(One(l), c) <==> c == l.c
  {
  }

  lemma SpanItem(pat: seq<byte>, p: nat, m: nat, q: nat, lo: Lit, hi: Lit, first: bool)
    requires p < m < q <= |pat| && pat[p..m] == ShowLit(lo) && pat[m] == DASH && pat[m + 1..q] == ShowLit(hi)
    requires ProperSetLit(lo, first) && ProperSetLit(hi, false) && lo.c <= hi.c
    ensures pat[p..q] == ShowItem(Span(lo, hi)) && ProperItem(Span(lo, hi), first)
    ensures forall c: byte :: InItem(Span(lo, hi), c) <==> lo.c <= c <= hi.c
  {
    hide ShowLit, ProperSetLit;
    assert pat[p..q] == pat[p..m] + [DASH] + pat[m + 1..q];
  }

  // ---- the compiler

  class Compiler {
    const pattern: seq<byte>
    const buf: Buffer
    var p: nat
    var begalt: nat
    var fixup: int
    var laststart: int
    var pending: int
    var regnum: nat
    var stack: seq<Saved>
    /** The trees read so far. */
    ghost var frames: seq<Frame>
    ghost var top: Frame

    ghost function Now(): View
      reads this, buf, buf.bytes
      requires buf.Valid()
    {
      View(pattern, p, buf.Code(), begalt, fixup, laststart, pending, regnum, stack, frames, top)
    }

    /** Where the compiler stands, as far as the verdict on the rest of the pattern depends on it. */
    ghost predicate Stands(q: nat, item: bool, depth: int, groups: nat)
      reads this`p, this`laststart, this`stack, this`regnum
    {
      p == q && (laststart != -1 <==> item) && |stack| == depth && regnum == groups
    }


    /** The verdict on the rest of the pattern. */
    ghost function Verdict(): Outcome
      reads this`p, this`laststart, this`stack, this`regnum
    {
      Scan(pattern, p, laststart != -1, |stack|, regnum)
    }

    ghost predicate Inv()
      reads this, buf, buf.bytes
    {
      buf.Valid() && Ok(Now())
    }

    constructor (pattern: seq<byte>)
      ensures Inv() && this.pattern == pattern && Stands(0, false, 0, 1) && fresh(buf) && fresh(buf.bytes)
    {
      this.pattern := pattern;
      buf := new Buffer();
      p, begalt, fixup, laststart, pending, regnum, stack := 0, 0, -1, -1, -1, 1, [];
      frames, top := [], Frame([], Empty);
      new;
      StartOk(pattern);
      assert Now() == Start(pattern);
    }

    /** `.` */
    method DoDot() returns (e: Outcome)
      requires Inv() && p < |pattern| && pattern[p] == DOT
      modifies this, buf, buf.bytes
      ensures buf.Valid() && (buf.bytes == old(buf.bytes) || fresh(buf.bytes))
      ensures e == TooBig ==> Full(old(buf.b))
      ensures e == Good ==> Inv() && Stands(old(p) + 1, true, old(|stack|), old(regnum))
      ensures e == Good || e == TooBig
    {
      hide Ok;
      ghost var v := Now();
      var at := buf.b;
      var ok := buf.Push(ANYCHAR);
      if !ok { return TooBig; }
      laststart := at;
      p := p + 1;
      top := top.(cur := Cat(top.cur, Any));
      SingleFits(v, Any, DOT);
      ItemOk(v, Any, v.pending);
      assert Now() == WithItem(v, Any, v.pending);
      e := Good;
    }

    lemma SingleFits(v: View, item: Re, c: byte)
      requires v.p < |v.pat| && v.pat[v.p] == c && Show(item) == [c] && (item.Any? || item.Bol? || item.Eol?)
      requires (item.Bol? ==> NoItem(v.top.cur)) && (item.Eol? ==> EolFollows(NextAt(v.pat, v.p + 1)))
      ensures ItemFits(v, item) && Gen(item) == [if item.Any? then ANYCHAR else if item.Bol? then BEGLINE else ENDLINE]
    {
    }

    /** `^` */
    method DoHat() returns (e: Outcome)
      requires Inv() && p < |pattern| && pattern[p] == HAT
      modifies this, buf, buf.bytes
      ensures buf.Valid() && (buf.bytes == old(buf.bytes) || fresh(buf.bytes))
      ensures e == TooBig ==> Full(old(buf.b))
      ensures e == Good ==> Inv() && Stands(old(p) + 1, false, old(|stack|), old(regnum))
      ensures e == Good || e == TooBig || e == Invalid
      ensures e == Invalid <==> old(laststart) != -1
    {
      hide Ok;
      if laststart != -1 { return Invalid; }
      ghost var v := Now();
      var ok := buf.Push(BEGLINE);
      if !ok { return TooBig; }
      p := p + 1;
      top := top.(cur := Cat(top.cur, Bol));
      NoneYet(v);
      SingleFits(v, Bol, HAT);
      ItemOk(v, Bol, v.pending);
      assert Now() == WithItem(v, Bol, v.pending);
      e := Good;
    }

    lemma NoneYet(v: View)
      requires Ok(v)
      ensures v.laststart == -1 <==> NoItem(v.top.cur)
      ensures v.laststart >= -1
    {
      hide CodeIs, TextOk, TreesOk, NumbersOk, PendingOk;
    }

    /** `$`, which stands for itself but before the end of an alternative, a group, the pattern or a line of it. */
    method DoDollar() returns (e: Outcome)
      requires Inv() && p < |pattern| && pattern[p] == DOLLAR
      modifies this, buf, buf.bytes
      ensures buf.Valid() && (buf.bytes == old(buf.bytes) || fresh(buf.bytes))
      ensures e == TooBig ==> Full(old(buf.b))
      ensures e == Good ==>
        Inv() && Stands(old(p) + 1, old(laststart) != -1 || !EolFollows(NextAt(pattern, old(p) + 1)), old(|stack|), old(regnum))
      ensures e == Good || e == TooBig || e == Outside
      ensures e == Outside <==> var q := old(p) + 1;
        q + 1 < |pattern| && pattern[q] == BACKSLASH && (pattern[q + 1] == 98 || pattern[q + 1] == 66)
    {
      hide Ok;
      var p1 := p + 1;
      while p1 < |pattern| && pattern[p1] == BACKSLASH && p1 + 1 < |pattern| && (pattern[p1 + 1] == 98 || pattern[p1 + 1] == 66)
        invariant p1 == p + 1
          || (p + 2 < |pattern| && pattern[p + 1] == BACKSLASH && (pattern[p + 2] == 98 || pattern[p + 2] == 66) && p1 > p + 1)
      {
        p1 := p1 + 2;
      }
      if p1 != p + 1 { return Outside; }
      if p1 == |pattern| || pattern[p1] == NEWLINE || pattern[p1] == CLOSE || pattern[p1] == BAR {
        ghost var v := Now();
        var ok := buf.Push(ENDLINE);
        if !ok { return TooBig; }
        p := p + 1;
        top := top.(cur := Cat(top.cur, Eol));
        SingleFits(v, Eol, DOLLAR);
        ItemOk(v, Eol, v.pending);
        assert Now() == WithItem(v, Eol, v.pending);
        e := Good;
      } else {
        e := DoLiteral(Lit(DOLLAR, false));
      }
    }

    /** The character at a position; behind the end of the pattern there is a NUL. */
    function CharAt(q: nat): byte {
      if q < |pattern| then pattern[q] else 0
    }

    /** A character that stands for itself: it joins the run before it, or begins one. */
    method DoLiteral(l: Lit) returns (e: Outcome)
      requires Inv() && p + |ShowLit(l)| <= |pattern| && pattern[p..p + |ShowLit(l)|] == ShowLit(l)
      requires ProperLit(l, NextAt(pattern, p + |ShowLit(l)|))
      modifies this, buf, buf.bytes
      ensures buf.Valid() && (buf.bytes == old(buf.bytes) || fresh(buf.bytes))
      ensures e == TooBig ==> Full(old(buf.b))
      ensures e == Good ==> Inv() && Stands(old(p) + |ShowLit(l)|, true, old(|stack|), old(regnum))
      ensures e == Good || e == TooBig
    {
      hide Ok, ShowLit;
      ghost var v := Now();
      var q := p + if l.escaped then 2 else 1;
      LitLength(l);
      var next := CharAt(q);
      PendingBounds(v);
      if pending == -1 || pending + buf.bytes[pending] as int + 1 != buf.b || buf.bytes[pending] >= 127
        || next == STAR || next == HAT || next == PLUS || next == QUERY || next == BRACE
      {
        e := NewRun(l, q);
      } else {
        e := LongerLast(l, q);
      }
    }

    lemma LitLength(l: Lit)
      ensures |ShowLit(l)| == if l.escaped then 2 else 1
    {
    }

    lemma PendingBounds(v: View)
      requires Ok(v)
      ensures v.pending == -1 || 0 <= v.pending < |v.code|
    {
      hide CodeIs, TextOk, TreesOk, NumbersOk, LastOk;
    }

    /** A new `exactn` command. */
    method NewRun(l: Lit, q: nat) returns (e: Outcome)
      requires Inv() && p + |ShowLit(l)| <= |pattern| && pattern[p..p + |ShowLit(l)|] == ShowLit(l)
      requires ProperLit(l, NextAt(pattern, p + |ShowLit(l)|)) && q == p + |ShowLit(l)|
      modifies this, buf, buf.bytes
      ensures buf.Valid() && (buf.bytes == old(buf.bytes) || fresh(buf.bytes))
      ensures e == TooBig ==> Full(old(buf.b))
      ensures e == Good ==> Inv() && Stands(q, true, old(|stack|), old(regnum))
      ensures e == Good || e == TooBig
    {
      hide Ok, ShowLit, ProperLit, ItemFits, Gen, Show, IsOp;
      ghost var v := Now();
      ghost var item := Run([l]);
      var at := buf.b;
      var ok, count := buf.PushRun(l.c);
      if !ok { return TooBig; }
      laststart, pending := at, count;
      p := q;
      top := top.(cur := Cat(top.cur, item));
      NewRunFits(v, l);
      ItemOk(v, item, |v.code| + 1);
      assert Now() == WithItem(v, item, |v.code| + 1);
      e := Good;
    }

    lemma NewRunFits(v: View, l: Lit)
      requires v.p + |ShowLit(l)| <= |v.pat| && v.pat[v.p..v.p + |ShowLit(l)|] == ShowLit(l)
      requires ProperLit(l, NextAt(v.pat, v.p + |ShowLit(l)|))
      ensures ItemFits(v, Run([l])) && Gen(Run([l])) == [EXACTN, 1, l.c] && Show(Run([l])) == ShowLit(l)
    {
      OneLit(l, NextAt(v.pat, v.p + |ShowLit(l)|));
      hide ShowLit, ShowLits, ProperLit, ProperLits, Chars;
    }

    lemma OneLit(l: Lit, next: int)
      ensures ShowLits([l]) == ShowLit(l) && Chars([l]) == [l.c] && (ProperLits([l], next) <==> ProperLit(l, next))
    {
      assert [l][..0] == [];
      assert ShowLits([]) == [] && ShowLits([l]) == ShowLits([]) + ShowLit(l) == ShowLit(l);
      assert ProperLits([l][..0], ShowLit(l)[0]);
    }

    /** One more character in the last `exactn` command. */
    method LongerLast(l: Lit, q: nat) returns (e: Outcome)
      requires Inv() && p + |ShowLit(l)| <= |pattern| && pattern[p..p + |ShowLit(l)|] == ShowLit(l)
      requires ProperLit(l, NextAt(pattern, p + |ShowLit(l)|)) && q == p + |ShowLit(l)|
      requires 0 <= pending < buf.b && pending + buf.bytes[pending] as int + 1 == buf.b && buf.bytes[pending] < 127
      requires !IsOp(NextAt(pattern, q))
      modifies this, buf, buf.bytes
      ensures buf.Valid() && (buf.bytes == old(buf.bytes) || fresh(buf.bytes))
      ensures e == TooBig ==> Full(old(buf.b))
      ensures e == Good ==> Inv() && Stands(q, true, old(|stack|), old(regnum))
      ensures e == Good || e == TooBig
    {
      hide Ok, ShowLit, WithLast;
      ghost var v := Now();
      LongerRun(v, l);
      HasOperand(v);
      ghost var item := Run(top.cur.right.lits + [l]);
      var ok := buf.Push(l.c);
      if !ok { return TooBig; }
      assert buf.Code()[pending] == v.code[pending];
      buf.Increment(pending);
      assert buf.Code() == Longer(v.code, pending, l.c);
      p := q;
      top := top.(cur := Cat(top.cur.left, item));
      WithLastIs(v, item, ShowLit(l), pending);
      e := Good;
    }

    /** A run is an operand. */
    lemma HasOperand(v: View)
      requires Ok(v) && v.top.cur.Cat? && v.top.cur.right.Run?
      ensures v.laststart != -1
    {
      hide CodeIs, TextOk, TreesOk, NumbersOk, PendingOk;
    }

    lemma WithLastIs(v: View, item: Re, t: seq<byte>, pend: int)
      requires v.top.cur.Cat? && v.begalt + |Gen(v.top.cur.left)| <= |v.code|
      ensures var w := WithLast(v, item, t, pend);
        w == v.(p := v.p + |t|, code := w.code, pending := pend, top := v.top.(cur := Cat(v.top.cur.left, item)))
    {
    }

    /** `*`, `+`, `?`: a sequence of them collapses to one. */
    method DoRepeat() returns (e: Outcome)
      requires Inv() && p < |pattern| && IsOp(pattern[p])
      modifies this, buf, buf.bytes
      ensures buf.Valid() && (buf.bytes == old(buf.bytes) || fresh(buf.bytes))
      ensures e == TooBig ==> Full(old(buf.b))
      ensures e == Good ==> Inv() && Stands(PastOps(pattern, old(p) + 1), true, old(|stack|), old(regnum))
      ensures e == Good || e == TooBig || e == Invalid
      ensures e == Invalid <==> old(laststart) == -1
    {
      hide Ok, WithLast, Repeated, PastOps, ZeroOk, ManyOk;
      if laststart == -1 { return Invalid; }
      ghost var v := Now();
      NoneYet(v);
      var zero, many, q := Operators();
      ghost var ops := pattern[p..q];
      RepeatOk(v, ops);
      ghost var r := top.cur.right;
      e := InsertRepeat(zero, many, ops);
      if e != Good { return; }
      p, pending := q, -1;
      top := top.(cur := Cat(top.cur.left, Rep(r, ops)));
      WithLastIs(v, Rep(r, ops), ops, -1);
    }

    /** The loop that collects operators. */
    method Operators() returns (zero: bool, many: bool, q: nat)
      requires p < |pattern| && IsOp(pattern[p])
      ensures p < q <= |pattern| && (forall k :: p <= k < q ==> IsOp(pattern[k])) && !IsOp(NextAt(pattern, q))
      ensures q == PastOps(pattern, p + 1)
      ensures zero == ZeroOk(pattern[p..q]) && many == ManyOk(pattern[p..q])
      ensures forall k :: 0 <= k < q - p ==> IsOp(pattern[p..q][k])
    {
      hide ZeroOk, ManyOk;
      zero, many := false, false;
      q := p + 1;
      var c := pattern[p];
      OpsNone(pattern[p..p]);
      while true
        invariant p < q <= |pattern| && c == pattern[q - 1]
        invariant forall k :: p <= k < q ==> IsOp(pattern[k])
        invariant PastOps(pattern, p + 1) == PastOps(pattern, q)
        invariant zero == ZeroOk(pattern[p..q - 1]) && many == ManyOk(pattern[p..q - 1])
        decreases |pattern| - q
      {
        assert pattern[p..q] == pattern[p..q - 1] + [c];
        OpsSnoc(pattern[p..q - 1], c);
        zero := zero || c != PLUS;
        many := many || c != QUERY;
        if q == |pattern| { break; }
        c := pattern[q];
        if c == STAR || c == PLUS || c == QUERY {
          q := q + 1;
        } else {
          break;
        }
      }
    }

    lemma OpsNone(ops: seq<byte>)
      requires ops == []
      ensures !ZeroOk(ops) && !ManyOk(ops)
    {
    }

    lemma OpsSnoc(ops: seq<byte>, c: byte)
      ensures ZeroOk(ops + [c]) == (ZeroOk(ops) || c != PLUS) && ManyOk(ops + [c]) == (ManyOk(ops) || c != QUERY)
    {
      var all := ops + [c];
      assert all[|ops|] == c;
      assert forall k :: 0 <= k < |ops| ==> all[k] == ops[k];
      if ZeroOk(ops) {
        var k :| 0 <= k < |ops| && ops[k] != PLUS;
        assert all[k] != PLUS;
      }
      if ManyOk(ops) {
        var k :| 0 <= k < |ops| && ops[k] != QUERY;
        assert all[k] != QUERY;
      }
    }

    /** The jumps around the operand. */
    method InsertRepeat(zero: bool, many: bool, ghost ops: seq<byte>) returns (e: Outcome)
      requires buf.Valid() && 0 <= laststart <= buf.b && zero == ZeroOk(ops) && many == ManyOk(ops)
      modifies buf, buf.bytes
      ensures buf.Valid() && (buf.bytes == old(buf.bytes) || fresh(buf.bytes))
      ensures e == TooBig ==> Full(old(buf.b))
      ensures e == Good || e == TooBig
      ensures e == Good ==> buf.Code() == Repeated(old(buf.Code()), laststart, ops)
    {
      hide ZeroOk, ManyOk, JumpCode, Inserted;
      ghost var code := buf.Code();
      if many {
        var ok := buf.AppendJump(MAYBE_FINALIZE_JUMP, laststart - 3);
        if !ok { return TooBig; }
      }
      ghost var c1 := buf.Code();
      assert c1 == if many then code + JumpCode(MAYBE_FINALIZE_JUMP, laststart - 3 - (|code| + 3)) else code;
      e := InsertBefore(ON_FAILURE_JUMP, 3, buf.b + 3);
      if e != Good { return; }
      if !zero {
        e := InsertBefore(DUMMY_FAILURE_JUMP, 6, laststart + 6);
      }
    }

    /** A jump before the operand. */
    method InsertBefore(op: byte, space: nat, to: nat) returns (e: Outcome)
      requires buf.Valid() && 0 <= laststart <= buf.b && 3 <= space <= 40
      modifies buf, buf.bytes
      ensures buf.Valid() && (buf.bytes == old(buf.bytes) || fresh(buf.bytes))
      ensures e == TooBig ==> old(buf.b) + space >= MAX_BUFFER
      ensures e == Good || e == TooBig
      ensures e == Good ==> buf.Code() == Inserted(old(buf.Code()), laststart, op, to) && buf.b == old(buf.b) + 3
    {
      hide JumpCode, Inserted;
      var ok := buf.GetSpace(space);
      if !ok { return TooBig; }
      buf.InsertJump(op, laststart, to);
      e := Good;
    }

    /** `(` */
    method DoOpen() returns (e: Outcome)
      requires Inv() && p < |pattern| && pattern[p] == OPEN
      modifies this, buf, buf.bytes
      ensures buf.Valid() && (buf.bytes == old(buf.bytes) || fresh(buf.bytes))
      ensures e == TooBig ==> Full(old(buf.b)) || old(regnum) + 1 >= MAX_GROUPS
      ensures e == Good ==>
        Inv() && Stands(old(p) + 1, false, old(|stack|) + 1, old(regnum) + 1) && old(regnum) + 1 < MAX_GROUPS
      ensures e == Good || e == TooBig || e == TooDeep
      ensures e == TooDeep <==> old(|stack|) >= MAX_OPEN
    {
      hide Ok;
      if |stack| >= MAX_OPEN { return TooDeep; }
      ghost var v := Now();
      RegisterFits(v);
      var t := Saved(buf.b, fixup, regnum, begalt);
      var ok := buf.PushAll([START_MEMORY, regnum]);
      if !ok { return TooBig; }
      Enter(t);
      if regnum >= 256 { return TooBig; }
      OpenOk(v);
      assert Now() == WithOpen(v);
      e := Good;
    }

    /** Goes on in a new group. */
    method Enter(t: Saved)
      requires buf.Valid()
      modifies this`p, this`begalt, this`fixup, this`laststart, this`regnum, this`stack, this`frames, this`top
      ensures Now() == old(Now()).(p := old(p) + 1, begalt := buf.b, fixup := -1, laststart := -1, regnum := old(regnum) + 1,
        stack := old(stack) + [t], frames := old(frames) + [old(top)], top := Frame([], Empty))
    {
      stack := stack + [t];
      regnum := regnum + 1;
      fixup, laststart, begalt := -1, -1, buf.b;
      p := p + 1;
      frames, top := frames + [top], Frame([], Empty);
    }

    lemma RegisterFits(v: View)
      requires Ok(v)
      ensures v.regnum < 256 && |v.stack| == |v.frames|
    {
      hide CodeIs, TextOk, TreesOk, LastOk, PendingOk;
    }

    /** `)` */
    method DoClose() returns (e: Outcome)
      requires Inv() && p < |pattern| && pattern[p] == CLOSE
      modifies this, buf, buf.bytes
      ensures buf.Valid() && (buf.bytes == old(buf.bytes) || fresh(buf.bytes))
      ensures e == TooBig ==> Full(old(buf.b))
      ensures e == Good ==> Inv() && Stands(old(p) + 1, true, old(|stack|) - 1, old(regnum))
      ensures e == Good || e == TooBig || e == UnmatchedClose
      ensures e == UnmatchedClose <==> old(stack) == []
    {
      hide Ok, JumpCode, Tree, WithClose, Filled, Closed;
      if stack == [] { return UnmatchedClose; }
      ghost var v := Now();
      CloseOk(v);
      var t := stack[|stack| - 1];
      begalt := t.begalt;
      FillFixup();
      var ok := buf.PushAll([STOP_MEMORY, t.regnum]);
      if !ok { return TooBig; }
      Leave(t, Closed(v));
      WithCloseIs(v);
      e := Good;
    }

    /** Goes on in the group around, behind `item`. */
    method Leave(t: Saved, ghost item: Re)
      requires buf.Valid() && stack != [] && |frames| == |stack|
      modifies this`p, this`fixup, this`laststart, this`stack, this`frames, this`top
      ensures var n := old(|stack|) - 1; var f := old(frames)[n];
        Now() == old(Now()).(p := old(p) + 1, fixup := t.fixup, laststart := t.start, stack := old(stack)[..n],
          frames := old(frames)[..n], top := f.(cur := Cat(f.cur, item)))
    {
      var n := |stack| - 1;
      frames, top := frames[..n], frames[n].(cur := Cat(frames[n].cur, item));
      stack := stack[..n];
      fixup, laststart := t.fixup, t.start;
      p := p + 1;
    }

    lemma WithCloseIs(v: View)
      requires v.stack != [] && |v.frames| == |v.stack| && v.stack[|v.stack| - 1].regnum < 256
      requires v.fixup < 0 || v.fixup + 3 <= |v.code|
      ensures var n := |v.stack| - 1; var t, f := v.stack[n], v.frames[n];
        WithClose(v) ==
          v.(p := v.p + 1, code := Filled(v.code, v.fixup, |v.code|) + [STOP_MEMORY, t.regnum],
             begalt := t.begalt, fixup := t.fixup, laststart := t.start, stack := v.stack[..n], frames := v.frames[..n],
             top := f.(cur := Cat(f.cur, Closed(v))))
    {
    }

    /** The jump behind the last finished alternative, if any, goes to the end. */
    method FillFixup()
      requires buf.Valid() && (fixup < 0 || fixup + 3 <= buf.b)
      modifies buf.bytes
      ensures buf.Valid() && buf.Code() == Filled(old(buf.Code()), fixup, buf.b)
    {
      hide JumpCode;
      if fixup >= 0 {
        buf.StoreJump(fixup, JUMP, buf.b);
      }
    }

    /** `|` */
    method DoBar() returns (e: Outcome)
      requires Inv() && p < |pattern| && pattern[p] == BAR
      modifies this, buf, buf.bytes
      ensures buf.Valid() && (buf.bytes == old(buf.bytes) || fresh(buf.bytes))
      ensures e == TooBig ==> Full(old(buf.b))
      ensures e == Good ==> Inv() && Stands(old(p) + 1, false, old(|stack|), old(regnum))
      ensures e == Good || e == TooBig
    {
      hide Ok, JumpCode, Barred;
      ghost var v := Now();
      BarPlaces(v);
      var ok := buf.GetSpace(6);
      if !ok { return TooBig; }
      ghost var hole := MakeBar();
      BarOk(v, hole);
      pending, laststart := -1, -1;
      fixup, begalt := buf.b - 3, buf.b;
      p := p + 1;
      top := Frame(top.alts + [top.cur], Empty);
      assert Now() == WithBar(v, hole);
      e := Good;
    }

    lemma BarPlaces(v: View)
      requires Ok(v)
      ensures v.begalt <= |v.code| && (v.fixup < 0 || v.fixup + 3 <= v.begalt)
    {
      hide TextOk, TreesOk, NumbersOk, LastOk, PendingOk, LowerOk, Chain, Gen;
    }

    /** The choice, the jump of the alternative before, and space for the jump of this one. */
    method MakeBar() returns (ghost hole: seq<byte>)
      requires buf.Valid() && buf.b + 6 <= buf.bytes.Length && begalt <= buf.b && (fixup < 0 || fixup + 3 <= begalt)
      modifies buf`b, buf.bytes
      ensures buf.Valid() && |hole| == 3 && buf.b == old(buf.b) + 6
      ensures buf.Code() == Barred(old(buf.Code()), begalt, fixup, hole)
    {
      hide JumpCode, Filled;
      ghost var code := buf.Code();
      buf.InsertJump(ON_FAILURE_JUMP, begalt, buf.b + 6);
      assert buf.Code() == Inserted(code, begalt, ON_FAILURE_JUMP, |code| + 6);
      FillFixup();
      hole := buf.bytes[buf.b..buf.b + 3];
      buf.Skip(3);
    }

    /** `[` */
    method DoBracket() returns (e: Outcome)
      requires Inv() && p < |pattern| && pattern[p] == BRACKET
      modifies this, buf, buf.bytes
      ensures buf.Valid() && (buf.bytes == old(buf.bytes) || fresh(buf.bytes))
      ensures e == TooBig ==> Full(old(buf.b))
      ensures e == Good ==> Inv() && p > old(p)
      ensures e == TooBig || if old(p) + 1 == |pattern| then e == Invalid
        else
          var p0 := if pattern[old(p) + 1] == HAT then old(p) + 2 else old(p) + 1;
          var r := SetRest(pattern, p0, p0);
          e == r.0 && (e == Good ==> Stands(r.1, true, old(|stack|), old(regnum)))
      ensures e == Good || e == TooBig || old(p) + 1 == |pattern| || BracketFails(e, pattern[old(p)..])
    {
      hide Ok, SetRest, Gen, ItemFits, BracketFails;
      if p + 1 == |pattern| { return Invalid; }
      ghost var v := Now();
      var at, neg, q := buf.b, pattern[p + 1] == HAT, 0;
      ghost var item;
      e, q, item := ReadBracket(neg);
      if e != Good { return; }
      laststart := at;
      p := q;
      top := top.(cur := Cat(top.cur, item));
      ItemOk(v, item, v.pending);
      assert Now() == WithItem(v, item, v.pending);
    }

    /** Reads the brackets and writes the command for them. */
    method ReadBracket(neg: bool) returns (e: Outcome, q: nat, ghost item: Re)
      requires buf.Valid() && p + 1 < |pattern| && pattern[p] == BRACKET && neg == (pattern[p + 1] == HAT)
      modifies buf, buf.bytes
      ensures buf.Valid() && (buf.bytes == old(buf.bytes) || fresh(buf.bytes))
      ensures e == TooBig ==> Full(old(buf.b))
      ensures e == Good ==>
        item.Set? && ItemFits(old(Now()), item) && q == p + |Show(item)| > p && buf.Code() == old(buf.Code()) + Gen(item)
      ensures var p0 := if neg then p + 2 else p + 1;
        e == TooBig || (e == SetRest(pattern, p0, p0).0 && (e == Good ==> q == SetRest(pattern, p0, p0).1))
      ensures e == Good || e == TooBig || BracketFails(e, pattern[p..])
    {
      hide Ok, PartFails, BracketFails, DashRange, BitOf, InItems, ProperItems, ShowItems, SetRest, ItemFits, Gen;
      ghost var v := Now();
      var p0 := if neg then p + 2 else p + 1;
      q, item := p0, Empty;
      var ok := buf.GetSpace(9 + 31);
      if !ok { return TooBig, q, item; }
      var items, full;
      e, q, items, full := ParseItems(pattern, p0);
      if e != Good {
        BracketBlamed(e, pattern, p, p0, q, items);
        return;
      }
      var bits := Trim(full);
      ok := buf.PushAll([if neg then CHARSET_NOT else CHARSET, |bits|] + bits + [0, 0]);
      if !ok { return TooBig, q, item; }
      item := Set(neg, items, bits);
      SetFits(v, item, p0, q);
    }

    lemma SetFits(v: View, item: Re, p0: nat, q: nat)
      requires v.p < |v.pat| && v.pat[v.p] == BRACKET && item.Set? && p0 < q <= |v.pat|
      requires p0 == v.p + (if item.neg then 2 else 1) && item.neg == (v.p + 1 < |v.pat| && v.pat[v.p + 1] == HAT)
      requires v.pat[p0..q] == ShowItems(item.items) + [UNBRACKET] && item.items != [] && ProperItems(item.items)
      requires |item.bits| <= 32 && forall c: byte :: BitOf(item.bits, c) <==> InItems(item.items, c)
      ensures ItemFits(v, item) && q == v.p + |Show(item)|
      ensures Gen(item) == [if item.neg then CHARSET_NOT else CHARSET, |item.bits|] + item.bits + [0, 0]
    {
      hide BitOf, InItems, ProperItems, ShowItems;
      SetText(v, item, p0, q);
      if !item.neg {
        FirstItem(item.items);
        assert v.pat[p0] == v.pat[p0..q][0];
      }
      SetIsProper(v, item, NextAt(v.pat, q));
      hide Show, Gen, Proper, Sized;
    }

    lemma SetIsProper(v: View, item: Re, next: int)
      requires item.Set? && item.items != [] && ProperItems(item.items)
      requires !item.neg ==>
        item.items[0] != One(Lit(HAT, false)) && !(item.items[0].Span? && item.items[0].lo == Lit(HAT, false))
      requires |item.bits| <= 32 && forall c: byte :: BitOf(item.bits, c) <==> InItems(item.items, c)
      ensures Proper(item, next) && Sized(item) && GroupsBelow(item, v.regnum) && Gen(item) != []
      ensures Gen(item) == [if item.neg then CHARSET_NOT else CHARSET, |item.bits|] + item.bits + [0, 0]
    {
      hide BitOf, InItems, ProperItems;
    }

    /** The text of the brackets is the part of the pattern. */
    lemma SetText(v: View, item: Re, p0: nat, q: nat)
      requires v.p < |v.pat| && v.pat[v.p] == BRACKET && item.Set? && p0 < q <= |v.pat|
      requires p0 == v.p + (if item.neg then 2 else 1) && item.neg == (v.p + 1 < |v.pat| && v.pat[v.p + 1] == HAT)
      requires v.pat[p0..q] == ShowItems(item.items) + [UNBRACKET]
      ensures Show(item) == v.pat[v.p..q] && q == v.p + |Show(item)|
    {
      hide ShowItems;
      var t := [BRACKET] + (if item.neg then [HAT] else []) + ShowItems(item.items) + [UNBRACKET];
      assert Show(item) == t;
      assert v.pat[v.p..q] == v.pat[v.p..p0] + v.pat[p0..q];
      assert v.pat[v.p..p0] == [BRACKET] + if item.neg then [HAT] else [];
    }

    /** A set that is not negated does not begin with a hat. */
    lemma {:induction false} FirstItem(items: seq<SetItem>)
      requires items != []
      ensures ShowItems(items) != []
      ensures items[0] == One(Lit(HAT, false)) || (items[0].Span? && items[0].lo == Lit(HAT, false)) ==> ShowItems(items)[0] == HAT
      decreases |items|
    {
      var n := |items| - 1;
      if n > 0 {
        FirstItem(items[..n]);
      } else {
        assert ShowItems(items[..n]) == [];
      }
    }

    /** A backslash makes what follows stand for itself, unless that is a construct outside this model. */
    method DoBackslash() returns (e: Outcome)
      requires Inv() && p < |pattern| && pattern[p] == BACKSLASH
      modifies this, buf, buf.bytes
      ensures buf.Valid() && (buf.bytes == old(buf.bytes) || fresh(buf.bytes))
      ensures e == TooBig ==> Full(old(buf.b))
      ensures e == Good ==> Inv() && Stands(old(p) + 2, true, old(|stack|), old(regnum))
      ensures e == Good || e == TooBig || e == Invalid || e == Outside
      ensures e == Outside <==> old(p) + 1 < |pattern| && (pattern[old(p) + 1] >= 128 || ClassEscape(pattern[old(p) + 1]))
      ensures e == Invalid <==> old(p) + 1 == |pattern|
    {
      hide Ok;
      if p + 1 == |pattern| { return Invalid; }
      var c := pattern[p + 1];
      if c >= 128 || ClassEscape(c) { return Outside; }
      assert pattern[p..p + 2] == ShowLit(Lit(c, true));
      e := DoLiteral(Lit(c, true));
    }

    /** One token. */
    method Token() returns (e: Outcome)
      requires Inv() && p < |pattern|
      modifies this, buf, buf.bytes
      ensures buf.Valid() && (buf.bytes == old(buf.bytes) || fresh(buf.bytes))
      ensures e == TooBig ==> Full(old(buf.b)) || e == old(Verdict())
      ensures e == Good ==> Inv() && p > old(p) && Verdict() == old(Verdict())
      ensures e == Good || e == TooBig || e == old(Verdict())
      ensures e == Good || e == TooBig || Blames(e, pattern, old(p), old(|stack|), old(top).cur)
    {
      hide Ok, BracketFails, EolFollows, PastOps, SetRest, NoItem;
      NoneYet(Now());
      var c := pattern[p];
      if c >= 128 || c == BRACE { return Outside; }
      if c == DOLLAR {
        e := DoDollar();
      } else if c == HAT {
        e := DoHat();
      } else if c == STAR || c == PLUS || c == QUERY {
        e := DoRepeat();
      } else if c == DOT {
        e := DoDot();
      } else if c == BRACKET {
        e := DoBracket();
      } else if c == OPEN {
        e := DoOpen();
      } else if c == CLOSE {
        e := DoClose();
      } else if c == BAR {
        e := DoBar();
      } else if c == BACKSLASH {
        e := DoBackslash();
      } else {
        assert pattern[p..p + 1] == ShowLit(Lit(c, false));
        e := DoLiteral(Lit(c, false));
      }
    }

    /**
     * `re_compile_pattern`: when it succeeds, the code is that of a tree that spells the pattern, with the choices that
     * the text forces. It ends as `Scan` says unless the pattern is long enough for the buffer to reach its limit. When
     * it refuses the pattern, that can be read as trees and open groups up to `at`, and the fault is there.
     */
    method Compile() returns (e: Outcome, ghost re: Re, ghost at: Place)
      requires Inv() && Stands(0, false, 0, 1)
      modifies this, buf, buf.bytes
      ensures buf.Valid() && (buf.bytes == old(buf.bytes) || fresh(buf.bytes))
      ensures e == Good ==>
        && buf.Code() == Gen(re) && Show(re) == pattern && Proper(re, -1)
        && Sized(re) && GroupsBelow(re, regnum) && 1 <= regnum
      ensures e == Scan(pattern, 0, false, 0, 1) || (e == TooBig && 12 * |pattern| + 40 >= MAX_BUFFER)
      ensures e == Good || e == TooBig || (ReadTo(pattern, at) && Blames(e, pattern, at.p, |at.frames|, at.top.cur))
    {
      hide Ok, Tree, ReadTo, Blames;
      e, re, at := Good, Empty, Place([], Frame([], Empty), 0);
      while p != |pattern|
        invariant Inv() && p <= |pattern| && (buf.bytes == old(buf.bytes) || fresh(buf.bytes))
        invariant e == Good && Verdict() == Scan(pattern, 0, false, 0, 1)
        decreases |pattern| - p
      {
        at := Place(frames, top, p);
        ReadUpTo(Now());
        RegisterFits(Now());
        CodeShort(Now());
        e := Token();
        if e != Good { return; }
        NotPast(Now());
      }
      ghost var v := Now();
      RegisterFits(v);
      BarPlaces(v);
      FillFixup();
      if stack != [] {
        at := Place(frames, top, p);
        ReadUpTo(v);
        LeftOpen(pattern, p, |frames|, top.cur);
        return UnmatchedOpen, re, at;
      }
      FinishOk(v);
      NumbersHold(v);
      re := Tree(top);
    }

    /** The buffer and how much of it is used. */
    method Result() returns (bytes: array<byte>, used: nat)
      requires buf.Valid()
      ensures bytes == buf.bytes && used <= bytes.Length && bytes[..used] == buf.Code() && used == |buf.Code()|
    {
      bytes, used := buf.bytes, buf.b;
    }

    lemma NotPast(v: View)
      requires Ok(v)
      ensures v.p <= |v.pat|
    {
      hide CodeIs, TreesOk, NumbersOk, LastOk, PendingOk;
    }

    lemma NumbersHold(v: View)
      requires Ok(v)
      ensures 1 <= v.regnum
    {
      hide CodeIs, TextOk, TreesOk, LastOk, PendingOk;
    }
  }
}
