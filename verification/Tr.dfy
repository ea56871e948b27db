/** Character lists of string.c and the in-place `tr!` and `delete!` that use them. */
module Tr {

  type byte = b: int | 0 <= b < 256

  const DASH: byte := 45
  const CARET: byte := 94

  /** A character of a list, and the field `now` after `trnext` returned it. */
  datatype Emit = Emit(value: byte, now: nat)

  /** The characters of a range behind `now`; a range of one character gives it a second time. */
  function Rest(now: nat, max: byte): (r: seq<Emit>)
    decreases if now < max then max - now else 0
  {
    if now + 1 < max then [Emit(now + 1, now + 1)] + Rest(now + 1, max) else [Emit(max, now + 1)]
  }

  lemma RestStep(now: nat, max: byte, more: seq<Emit>)
    ensures Rest(now, max) + more != []
    ensures (Rest(now, max) + more)[0] == Emit(if now + 1 < max then now + 1 else max, now + 1)
    ensures (Rest(now, max) + more)[1..] == if now + 1 < max then Rest(now + 1, max) + more else more
  {
  }

  /** The characters that a list stands for from position `p` on. */
  function Listed(pat: seq<byte>, p: nat): seq<Emit>
    decreases |pat| - p
  {
    if p >= |pat| then []
    else if p + 1 < |pat| && pat[p + 1] == DASH then
      if p + 2 >= |pat| then [Emit(pat[p], pat[p])]
      else if pat[p] > pat[p + 2] then Listed(pat, p + 3)
      else [Emit(pat[p], pat[p])] + Rest(pat[p], pat[p + 2]) + Listed(pat, p + 3)
    else [Emit(pat[p], pat[p])] + Listed(pat, p + 1)
  }

  /** What `now` is when the list is used up. */
  function NowAtEnd(pat: seq<byte>, p: nat, now: nat): nat
    decreases |pat| - p
  {
    if p >= |pat| then now
    else if p + 1 < |pat| && pat[p + 1] == DASH then
      if p + 2 >= |pat| then pat[p]
      else if pat[p] > pat[p + 2] then NowAtEnd(pat, p + 3, pat[p])
      else NowAtEnd(pat, p + 3, LastNow(pat[p], pat[p + 2]))
    else NowAtEnd(pat, p + 1, pat[p])
  }

  function LastNow(now: nat, max: byte): nat {
    if now + 1 < max then max else now + 1
  }

  /** `struct tr`. */
  class List {
    const pat: seq<byte>
    var gen: bool
    var now: nat
    var max: byte
    var p: nat

    constructor (pat: seq<byte>, start: nat)
      requires start <= |pat|
      ensures Valid() && Remaining() == Listed(pat, start) && EndNow() == NowAtEnd(pat, start, 0)
      ensures fresh(this)
    {
      this.pat := pat;
      gen, now, max, p := false, 0, 0, start;
    }

    ghost predicate Valid()
      reads this
    {
      p <= |pat| && now <= 256 && (gen ==> now <= max)
    }

    /** What is still to come. */
    ghost function Remaining(): seq<Emit>
      reads this
    {
      if gen then Rest(now, max) + Listed(pat, p) else Listed(pat, p)
    }

    ghost function EndNow(): nat
      reads this
    {
      NowAtEnd(pat, p, if gen then LastNow(now, max) else now)
    }

    /** `trnext`. */
    method Next() returns (c: int)
      requires Valid()
      modifies this
      ensures Valid()
      ensures Returned(c, old(Remaining()), old(EndNow()))
    {
      hide Listed, NowAtEnd, Rest;
      if !gen {
        c := Begin();
      } else {
        RestStep(now, max, Listed(pat, p));
        now := now + 1;
        if now < max {
          c := now;
        } else {
          gen := false;
          c := max;
        }
      }
    }

    /** The result of `trnext` is the next character of what was to come, or -1. */
    ghost predicate Returned(c: int, before: seq<Emit>, end: nat)
      reads this
    {
      && EndNow() == end
      && if before == [] then c == -1 && Remaining() == [] && now == end
         else c == before[0].value && now == before[0].now && Remaining() == before[1..]
    }

    /** The branch of `trnext` outside a range; ranges that run backwards are skipped. */
    method Begin() returns (c: int)
      requires Valid() && !gen
      modifies this
      ensures Valid()
      ensures Returned(c, old(Remaining()), old(EndNow()))
    {
      while true
        invariant Valid() && !gen
        invariant Listed(pat, p) == old(Listed(pat, p)) && NowAtEnd(pat, p, now) == old(NowAtEnd(pat, p, now))
        decreases |pat| - p
      {
        if p == |pat| { return -1; }
        now := pat[p];
        p := p + 1;
        if p < |pat| && pat[p] == DASH {
          p := p + 1;
          if p < |pat| {
            if now > pat[p] {
              p := p + 1;
              continue;
            }
            gen := true;
            max := pat[p];
            p := p + 1;
          }
        }
        return now;
      }
    }
  }

  /** `c` is a character that a list stands for. */
  ghost predicate Among(c: int, s: seq<Emit>) {
    exists i :: 0 <= i < |s| && s[i].value == c
  }

  /** The characters that `delete!` takes out. */
  ghost predicate Struck(pat: seq<byte>, c: int) {
    if |pat| > 1 && pat[0] == CARET then !Among(c, Listed(pat, 1)) else Among(c, Listed(pat, 0))
  }

  ghost function Kept(s: seq<byte>, pat: seq<byte>): seq<byte> {
    if s == [] then [] else Kept(s[..|s| - 1], pat) + if Struck(pat, s[|s| - 1]) then [] else [s[|s| - 1]]
  }

  lemma KeptNone(s: seq<byte>, pat: seq<byte>)
    requires s == []
    ensures Kept(s, pat) == []
  {
  }

  lemma KeptMore(s: seq<byte>, k: nat, pat: seq<byte>)
    requires k < |s|
    ensures Kept(s[..k + 1], pat) == Kept(s[..k], pat) + if Struck(pat, s[k]) then [] else [s[k]]
  {
    assert s[..k + 1][..k] == s[..k];
  }

  /** The replacement for the `i`-th character listed; the byte 255 counts as the end of the list. */
  function Replacement(r: seq<Emit>, end: nat, i: nat): byte {
    if i < |r| && r[i].value != 255 then r[i].value
    else (if i < |r| then r[i].now else end) % 256
  }

  /** What `tr!` makes of `c` after the first `k` pairs: the last pair for `c` counts. */
  function Paired(s: seq<Emit>, r: seq<Emit>, end: nat, k: nat, c: byte): byte
    requires k <= |s|
  {
    if k == 0 then c
    else if s[k - 1].value == c then Replacement(r, end, k - 1)
    else Paired(s, r, end, k - 1, c)
  }

  /** How many characters below `c` are not listed. */
  ghost function Unlisted(s: seq<Emit>, c: nat): nat {
    if c == 0 then 0 else Unlisted(s, c - 1) + if Among(c - 1, s) then 0 else 1
  }

  /** It is the number of characters below `c` that no entry of the list stands for. */
  lemma {:induction false} UnlistedCount(s: seq<Emit>, c: nat)
    ensures Unlisted(s, c) == |set d: nat | d < c && !Among(d, s)|
  {
    hide Among;
    if c > 0 {
      UnlistedCount(s, c - 1);
      var below := set d: nat | d < c - 1 && !Among(d, s);
      assert (set d: nat | d < c && !Among(d, s)) == below + if Among(c - 1, s) then {} else {c - 1};
    } else {
      assert (set d: nat | d < c && !Among(d, s)) == {};
    }
  }

  /** With a list that begins with `^`, the characters not listed become, in order, what the second list stands for. */
  lemma ComplementRanks(src: seq<byte>, repl: seq<byte>, c: byte)
    requires |src| > 2 && src[0] == CARET
    ensures Among(c, Listed(src, 1)) ==> Image(src, repl, c) == c
    ensures !Among(c, Listed(src, 1)) ==>
      var rank := |set d: nat | d < c && !Among(d, Listed(src, 1))|;
      Image(src, repl, c) == if rank < |Listed(repl, 0)| then Listed(repl, 0)[rank].value else NowAtEnd(repl, 0, 0) % 256
  {
    hide Among, Listed, NowAtEnd;
    UnlistedCount(Listed(src, 1), c);
  }

  /** `tr!('^...', 'x')` turns every character that is not listed into the one character. */
  lemma ComplementByOne(src: seq<byte>, x: byte, c: byte)
    requires |src| > 2 && src[0] == CARET
    ensures Image(src, [x], c) == if Among(c, Listed(src, 1)) then c else x
  {
    OneListed(x);
    hide Among, Listed, NowAtEnd, Unlisted;
  }

  lemma OneListed(x: byte)
    ensures |Listed([x], 0)| == 1 && Listed([x], 0)[0].value == x && NowAtEnd([x], 0, 0) == x
  {
  }

  /** What `tr!` with lists `src` and `repl` makes of a character. */
  ghost function Image(src: seq<byte>, repl: seq<byte>, c: byte): byte {
    var r, end := Listed(repl, 0), NowAtEnd(repl, 0, 0);
    if |src| > 2 && src[0] == CARET then
      var s := Listed(src, 1);
      Complemented(s, r, end, c)
    else
      var s := Listed(src, 0);
      Paired(s, r, end, |s|, c)
  }

  ghost function Images(src: seq<byte>, repl: seq<byte>, s: seq<byte>): (t: seq<byte>)
    ensures |t| == |s|
  {
    seq(|s|, i requires 0 <= i < |s| => Image(src, repl, s[i]))
  }

  /** `struct RString`: the characters, and room for the NUL behind them. */
  class Str {
    var ptr: array<byte>
    var len: nat

    ghost predicate Valid()
      reads this
    {
      len < ptr.Length
    }

    ghost function Contents(): seq<byte>
      reads this, ptr
      requires Valid()
    {
      ptr[..len]
    }

    constructor (s: seq<byte>)
      ensures Valid() && Contents() == s && fresh(ptr)
    {
      len := |s|;
      ptr := new byte[|s| + 1](i => if 0 <= i < |s| then s[i] else 0);
    }

    /** `str_delete_bang`. */
    method Delete(pat: seq<byte>)
      requires Valid()
      modifies this`len, ptr
      ensures Valid() && Contents() == Kept(old(Contents()), pat)
    {
      hide Kept, Struck;
      var squeez := SetupTable(pat);
      ghost var was := Contents();
      KeptNone(was[..0], pat);
      var s, t := 0, 0;
      while s < len
        invariant 0 <= t <= s <= len == |was|
        invariant ptr[..t] == Kept(was[..s], pat)
        invariant forall i :: s <= i < len ==> ptr[i] == was[i]
        modifies ptr
      {
        assert ptr[s] == was[s] && was[..s + 1][..s] == was[..s];
        ghost var kept := ptr[..t];
        KeptMore(was, s, pat);
        if !squeez[ptr[s]] {
          ptr[t] := ptr[s];
          t := t + 1;
          assert ptr[..t] == kept + [was[s]];
        }
        assert ptr[..t] == Kept(was[..s + 1], pat);
        s := s + 1;
      }
      assert was[..s] == was;
      ptr[t] := 0;
      len := t;
    }

    /** `tr_trans` without squeezing: `tr!`. */
    method TrBang(src: seq<byte>, repl: seq<byte>)
      requires Valid()
      modifies this`len, ptr
      ensures Valid()
      ensures repl == [] ==> Contents() == Kept(old(Contents()), src)
      ensures repl != [] ==> Contents() == Images(src, repl, old(Contents()))
    {
      if repl == [] {
        Delete(src);
        return;
      }
      hide Image;
      var trans := TransTable(src, repl);
      ghost var was := Contents();
      var s := 0;
      while s < len
        invariant 0 <= s <= len == |was|
        invariant forall i :: 0 <= i < s ==> ptr[i] == Image(src, repl, was[i])
        invariant forall i :: s <= i < len ==> ptr[i] == was[i]
        modifies ptr
      {
        assert ptr[s] == was[s] && trans[was[s]] == Image(src, repl, was[s]);
        ptr[s] := trans[ptr[s]];
        s := s + 1;
      }
      ptr[s] := 0;
    }
  }

  /** `tr_setup_table`. */
  method SetupTable(pat: seq<byte>) returns (table: array<bool>)
    ensures fresh(table) && table.Length == 256
    ensures forall c :: 0 <= c < 256 ==> (table[c] <==> Struck(pat, c))
  {
    hide Listed, NowAtEnd, Rest, Among;
    var cflag := |pat| > 1 && pat[0] == CARET;
    var tr := new List(pat, if cflag then 1 else 0);
    table := new bool[256](_ => cflag);
    ghost var all := tr.Remaining();
    ghost var k := 0;
    var c := tr.Next();
    AmongNone(all[..0]);
    while c >= 0
      invariant tr.Valid() && k <= |all|
      invariant if k < |all| then c == all[k].value && tr.Remaining() == all[k + 1..] else c == -1
      invariant forall d :: 0 <= d < 256 ==> (table[d] <==> cflag != Among(d, all[..k]))
      decreases |all| - k
    {
      AmongMore(all, k);
      assert forall d :: 0 <= d < 256 ==> (table[d] <==> cflag != Among(d, all[..k]));
      table[c] := !cflag;
      forall d | 0 <= d < 256
        ensures table[d] <==> cflag != Among(d, all[..k + 1])
      {
        assert Among(d, all[..k + 1]) <==> Among(d, all[..k]) || d == c;
      }
      k := k + 1;
      c := tr.Next();
    }
    assert all[..k] == all;
  }

  lemma AmongMore(s: seq<Emit>, k: nat)
    requires k < |s|
    ensures forall c :: Among(c, s[..k + 1]) <==> Among(c, s[..k]) || c == s[k].value
  {
    forall c
      ensures Among(c, s[..k + 1]) <==> Among(c, s[..k]) || c == s[k].value
    {
      if Among(c, s[..k]) {
        var i :| 0 <= i < k && s[..k][i].value == c;
        assert s[..k + 1][i].value == c;
      }
      assert s[..k + 1][k] == s[k];
    }
  }

  /** The table that `tr_trans` builds. */
  method TransTable(src: seq<byte>, repl: seq<byte>) returns (trans: array<byte>)
    ensures fresh(trans) && trans.Length == 256
    ensures forall c: byte :: trans[c] == Image(src, repl, c)
  {
    hide Listed, NowAtEnd, Among;
    if |src| > 2 && src[0] == CARET {
      trans := ComplementTable(src, repl);
    } else {
      trans := PairTable(src, repl);
    }
  }

  method PairTable(src: seq<byte>, repl: seq<byte>) returns (trans: array<byte>)
    ensures fresh(trans) && trans.Length == 256
    ensures var s, r, end := Listed(src, 0), Listed(repl, 0), NowAtEnd(repl, 0, 0);
      forall c: byte :: trans[c] == Paired(s, r, end, |s|, c)
  {
    hide Listed, NowAtEnd, Rest, Paired, List.Remaining, List.EndNow, List.Valid;
    var trsrc := new List(src, 0);
    var trrepl := new List(repl, 0);
    trans := new byte[256](i => if 0 <= i < 256 then i else 0);
    ghost var s, r, end := trsrc.Remaining(), trrepl.Remaining(), trrepl.EndNow();
    ghost var k := 0;
    var c := NextListed(trsrc, s, 0);
    TableStarts(trans[..], s, r, end);
    hide TableIs, Replacement;
    while c >= 0
      invariant trsrc.Valid() && trrepl.Valid() && k <= |s|
      invariant if k < |s| then c == s[k].value && trsrc.Remaining() == s[k + 1..] else c == -1
      invariant trrepl.Remaining() == (if k <= |r| then r[k..] else []) && trrepl.EndNow() == end
      invariant TableIs(trans[..], s, r, end, k)
      decreases |s| - k
    {
      var x := NextReplacement(trrepl, r, end, k);
      TableMore(trans[..], s, r, end, k, x);
      trans[c] := x;
      k := k + 1;
      c := NextListed(trsrc, s, k);
    }
    TableMeans(trans[..], s, r, end);
  }

  /** The table after the first `k` pairs. */
  ghost predicate TableIs(t: seq<byte>, s: seq<Emit>, r: seq<Emit>, end: nat, k: nat)
    requires k <= |s|
  {
    |t| == 256 && forall d: byte :: t[d] == Paired(s, r, end, k, d)
  }

  lemma TableMore(t: seq<byte>, s: seq<Emit>, r: seq<Emit>, end: nat, k: nat, x: byte)
    requires k < |s| && TableIs(t, s, r, end, k) && x == Replacement(r, end, k)
    ensures s[k].value < |t| && TableIs(t[s[k].value := x], s, r, end, k + 1)
  {
    hide Paired;
    var u: seq<byte> := t[s[k].value := x];
    forall d: byte
      ensures u[d] == Paired(s, r, end, k + 1, d)
    {
      PairedIs(s, r, end, k, d);
    }
  }

  lemma TableMeans(t: seq<byte>, s: seq<Emit>, r: seq<Emit>, end: nat)
    requires TableIs(t, s, r, end, |s|)
    ensures |t| == 256 && forall d: byte :: t[d] == Paired(s, r, end, |s|, d)
  {
  }

  lemma TableStarts(t: seq<byte>, s: seq<Emit>, r: seq<Emit>, end: nat)
    requires |t| == 256 && forall d: byte :: t[d] == d
    ensures TableIs(t, s, r, end, 0)
  {
    PairedNone(s, r, end);
  }

  /** The next character of the source list, or -1. */
  method NextListed(l: List, ghost s: seq<Emit>, ghost k: nat) returns (c: int)
    requires l.Valid() && k <= |s| && l.Remaining() == s[k..]
    modifies l
    ensures l.Valid() && if k < |s| then c == s[k].value && l.Remaining() == s[k + 1..] else c == -1
  {
    hide Listed, NowAtEnd, Rest;
    c := l.Next();
  }

  /** The next character of the replacement list, or the last one. */
  method NextReplacement(l: List, ghost r: seq<Emit>, ghost end: nat, ghost k: nat) returns (x: byte)
    requires l.Valid() && l.Remaining() == (if k <= |r| then r[k..] else []) && l.EndNow() == end
    modifies l
    ensures l.Valid() && l.Remaining() == (if k + 1 <= |r| then r[k + 1..] else []) && l.EndNow() == end
    ensures x == Replacement(r, end, k)
  {
    hide Listed, NowAtEnd, Rest;
    var c := l.Next();
    assert l.now == if k < |r| then r[k].now else end;
    if c == -1 || c == 255 { c := l.now % 256; }
    x := c;
  }

  lemma PairedNone(s: seq<Emit>, r: seq<Emit>, end: nat)
    ensures forall d: byte :: Paired(s, r, end, 0, d) == d
  {
  }

  lemma PairedIs(s: seq<Emit>, r: seq<Emit>, end: nat, k: nat, d: byte)
    requires k < |s|
    ensures Paired(s, r, end, k + 1, d) == if s[k].value == d then Replacement(r, end, k) else Paired(s, r, end, k, d)
  {
  }

  method ComplementTable(src: seq<byte>, repl: seq<byte>) returns (trans: array<byte>)
    requires |src| > 0
    ensures fresh(trans) && trans.Length == 256
    ensures var s, r, end := Listed(src, 1), Listed(repl, 0), NowAtEnd(repl, 0, 0);
      forall c: byte :: trans[c] == Complemented(s, r, end, c)
  {
    hide Listed, NowAtEnd, Rest, Among, Complemented;
    trans := MarkUnlisted(src);
    var trrepl := new List(repl, 0);
    ghost var s, r, end := Listed(src, 1), trrepl.Remaining(), trrepl.EndNow();
    var i := 0;
    while i < 256
      invariant trrepl.Valid() && 0 <= i <= 256
      invariant trrepl.Remaining() == (if Unlisted(s, i) <= |r| then r[Unlisted(s, i)..] else []) && trrepl.EndNow() == end
      invariant forall d: byte :: trans[d] == if d < i then Complemented(s, r, end, d) else if Among(d, s) then 0 else 1
    {
      ComplementedIs(s, r, end, i);
      var x := i;
      if trans[i] != 0 {
        var c := trrepl.Next();
        if c == -1 {
          x := trrepl.now % 256;
        } else {
          x := c;
        }
      }
      assert x == Complemented(s, r, end, i);
      trans[i] := x;
      i := i + 1;
    }
  }

  lemma ComplementedIs(s: seq<Emit>, r: seq<Emit>, end: nat, c: byte)
    ensures Complemented(s, r, end, c) ==
      if Among(c, s) then c else if Unlisted(s, c) < |r| then r[Unlisted(s, c)].value else end % 256
    ensures Unlisted(s, c + 1) == Unlisted(s, c) + if Among(c, s) then 0 else 1
  {
  }

  ghost function Complemented(s: seq<Emit>, r: seq<Emit>, end: nat, c: byte): byte {
    if Among(c, s) then c else if Unlisted(s, c) < |r| then r[Unlisted(s, c)].value else end % 256
  }

  /** The marks of the complemented case: 0 for the characters listed. */
  method MarkUnlisted(src: seq<byte>) returns (trans: array<byte>)
    requires |src| > 0
    ensures fresh(trans) && trans.Length == 256
    ensures forall d: byte :: trans[d] == if Among(d, Listed(src, 1)) then 0 else 1
  {
    hide Listed, NowAtEnd, Rest, Among;
    var trsrc := new List(src, 1);
    trans := new byte[256](_ => 1);
    ghost var s := trsrc.Remaining();
    ghost var k := 0;
    var c := trsrc.Next();
    AmongNone(s[..0]);
    while c >= 0
      invariant trsrc.Valid() && k <= |s|
      invariant if k < |s| then c == s[k].value && trsrc.Remaining() == s[k + 1..] else c == -1
      invariant forall d: byte :: trans[d] == if Among(d, s[..k]) then 0 else 1
      decreases |s| - k
    {
      AmongMore(s, k);
      assert forall d: byte :: trans[d] == if Among(d, s[..k]) then 0 else 1;
      trans[c] := 0;
      forall d: byte
        ensures trans[d] == if Among(d, s[..k + 1]) then 0 else 1
      {
        assert Among(d, s[..k + 1]) <==> Among(d, s[..k]) || d == c;
      }
      k := k + 1;
      c := trsrc.Next();
    }
    assert s[..k] == s;
  }

  lemma AmongNone(s: seq<Emit>)
    requires s == []
    ensures forall c :: !Among(c, s)
  {
  }
}
