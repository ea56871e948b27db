/** What byte code can do on a string, whatever the matcher tries first, and that it does no more than its tree allows. */
module RegexPath {
  import opened RegexSets
  import opened RegexTree

  /** A place in the code and a place in the string. */
  datatype Config = At(pc: nat, i: nat)

  /** The place a jump goes to. */
  function Target(code: seq<byte>, pc: nat): int
    requires pc + 2 < |code|
  {
    pc + 3 + Extract(code, pc + 1)
  }

  predicate IsJump(op: byte) {
    op == JUMP || op == FINALIZE_JUMP || op == MAYBE_FINALIZE_JUMP || op == DUMMY_FAILURE_JUMP
  }

  function Goto(pc: int, i: nat): seq<Config> {
    if pc < 0 then [] else [At(pc, i)]
  }

  predicate AtBol(s: seq<byte>, i: nat) {
    i == 0 || (i <= |s| && s[i - 1] == NEWLINE)
  }

  predicate AtEol(s: seq<byte>, i: nat) {
    i == |s| || (i < |s| && s[i] == NEWLINE)
  }

  predicate SetAccepts(code: seq<byte>, pc: nat, c: byte)
    requires pc + 1 < |code| && pc + 2 + code[pc + 1] as int <= |code|
  {
    BitOf(code[pc + 2..pc + 2 + code[pc + 1] as int], c) != (code[pc] == CHARSET_NOT)
  }

  /** The configurations that one command leads to: two for a choice, none where the match fails. */
  function Succ(code: seq<byte>, s: seq<byte>, c: Config): seq<Config> {
    var pc, i := c.pc, c.i;
    if pc >= |code| then []
    else if code[pc] == EXACTN then
      if pc + 1 < |code| && pc + 2 + code[pc + 1] as int <= |code| && i + code[pc + 1] as int <= |s|
        && s[i..i + code[pc + 1] as int] == code[pc + 2..pc + 2 + code[pc + 1] as int]
      then [At(pc + 2 + code[pc + 1] as int, i + code[pc + 1] as int)] else []
    else if code[pc] == ANYCHAR then if i < |s| && s[i] != NEWLINE then [At(pc + 1, i + 1)] else []
    else if code[pc] == CHARSET || code[pc] == CHARSET_NOT then
      if pc + 1 < |code| && pc + 4 + code[pc + 1] as int <= |code| && i < |s| && SetAccepts(code, pc, s[i])
      then [At(pc + 4 + code[pc + 1] as int, i + 1)] else []
    else if code[pc] == BEGLINE then if AtBol(s, i) then [At(pc + 1, i)] else []
    else if code[pc] == ENDLINE then if AtEol(s, i) then [At(pc + 1, i)] else []
    else if code[pc] == START_MEMORY || code[pc] == STOP_MEMORY then [At(pc + 2, i)]
    else if pc + 2 >= |code| then []
    else if code[pc] == ON_FAILURE_JUMP then [At(pc + 3, i)] + Goto(Target(code, pc), i)
    else if IsJump(code[pc]) then Goto(Target(code, pc), i)
    else []
  }

  /** One command after the other. */
  ghost predicate Path(code: seq<byte>, s: seq<byte>, p: seq<Config>) {
    p != [] && forall k :: 0 <= k < |p| - 1 ==> Linked(code, s, p, k)
  }

  ghost predicate Linked(code: seq<byte>, s: seq<byte>, p: seq<Config>, k: nat)
    requires k + 1 < |p|
  {
    p[k + 1] in Succ(code, s, p[k])
  }

  ghost predicate Reachable(code: seq<byte>, s: seq<byte>, pos: nat, c: Config) {
    exists p :: Path(code, s, p) && p[0] == At(0, pos) && p[|p| - 1] == c
  }

  lemma ReachStart(code: seq<byte>, s: seq<byte>, pos: nat)
    ensures Reachable(code, s, pos, At(0, pos))
  {
    assert Path(code, s, [At(0, pos)]);
  }

  lemma ReachStep(code: seq<byte>, s: seq<byte>, pos: nat, c: Config, c': Config)
    requires Reachable(code, s, pos, c) && c' in Succ(code, s, c)
    ensures Reachable(code, s, pos, c')
  {
    hide Succ;
    var p :| Path(code, s, p) && p[0] == At(0, pos) && p[|p| - 1] == c;
    var q := p + [c'];
    forall k | 0 <= k < |q| - 1
      ensures Linked(code, s, q, k)
    {
      if k < |p| - 1 { assert Linked(code, s, p, k); }
    }
    assert Path(code, s, q);
  }

  /** The bytes `g` stand in the code at `a`. */
  predicate Holds(code: seq<byte>, a: nat, g: seq<byte>) {
    a + |g| <= |code| && code[a..a + |g|] == g
  }

  lemma HoldsSplit(code: seq<byte>, a: nat, g: seq<byte>, h: seq<byte>)
    requires Holds(code, a, g + h)
    ensures Holds(code, a, g) && Holds(code, a + |g|, h)
  {
    var n := |g| + |h|;
    assert code[a..a + n][..|g|] == g;
    assert code[a..a + n][|g|..] == h;
  }

  lemma HoldsAt(code: seq<byte>, a: nat, g: seq<byte>, k: nat)
    requires Holds(code, a, g) && k < |g|
    ensures a + k < |code| && code[a + k] == g[k]
  {
    assert code[a..a + |g|][k] == g[k];
  }

  /** A jump in the code decodes to its command and distance. */
  lemma JumpAt(code: seq<byte>, a: nat, op: byte, dist: int)
    requires Holds(code, a, JumpCode(op, dist)) && -0x8000 <= dist < 0x8000
    ensures a + 2 < |code| && code[a] == op && Target(code, a) == a + 3 + dist
  {
    var g := JumpCode(op, dist);
    HoldsAt(code, a, g, 0);
    HoldsAt(code, a, g, 1);
    HoldsAt(code, a, g, 2);
    assert [code[a + 1], code[a + 2]] == NumberCode(dist);
    ExtractIff(code, a + 1, dist);
  }

  /** A path that ends outside a place is not at its end there. */
  ghost predicate EndsOutside(p: seq<Config>, a: nat, n: nat)
    requires p != []
  {
    p[|p| - 1].pc < a || p[|p| - 1].pc >= a + n
  }

  lemma NextOnPath(code: seq<byte>, s: seq<byte>, p: seq<Config>, from: nat, a: nat, n: nat)
    requires Path(code, s, p) && from < |p| && a <= p[from].pc < a + n && EndsOutside(p, a, n)
    ensures from + 1 < |p| && p[from + 1] in Succ(code, s, p[from])
  {
    if from + 1 < |p| { assert Linked(code, s, p, from); }
  }

  // ---- where the parts of a tree stand

  lemma GroupParts(code: seq<byte>, a: nat, n: byte, body: Re)
    requires Holds(code, a, Gen(Group(n, body)))
    ensures Holds(code, a, [START_MEMORY, n]) && Holds(code, a + 2, Gen(body))
    ensures Holds(code, a + 2 + |Gen(body)|, [STOP_MEMORY, n])
  {
    hide Holds;
    HoldsSplit(code, a, [START_MEMORY, n] + Gen(body), [STOP_MEMORY, n]);
    HoldsSplit(code, a, [START_MEMORY, n], Gen(body));
  }

  lemma AltIs(l: Re, r: Re)
    ensures Gen(Alt(l, r)) ==
      JumpCode(ON_FAILURE_JUMP, |Gen(l)| + 3) + Gen(l) + JumpCode(JUMP, JumpDistance(r)) + Gen(r)
  {
  }

  lemma AltParts(code: seq<byte>, a: nat, l: Re, r: Re)
    requires Holds(code, a, Gen(Alt(l, r)))
    ensures Holds(code, a, JumpCode(ON_FAILURE_JUMP, |Gen(l)| + 3)) && Holds(code, a + 3, Gen(l))
    ensures Holds(code, a + 3 + |Gen(l)|, JumpCode(JUMP, JumpDistance(r)))
    ensures Holds(code, a + 6 + |Gen(l)|, Gen(r))
  {
    hide Holds, JumpCode, JumpDistance, Gen;
    var x, y := JumpCode(ON_FAILURE_JUMP, |Gen(l)| + 3), JumpCode(JUMP, JumpDistance(r));
    AltIs(l, r);
    HoldsSplit(code, a, x + Gen(l) + y, Gen(r));
    HoldsSplit(code, a, x + Gen(l), y);
    HoldsSplit(code, a, x, Gen(l));
  }

  lemma OptionParts(code: seq<byte>, a: nat, r: Re, ops: seq<byte>)
    requires Holds(code, a, Gen(Rep(r, ops))) && !ManyOk(ops)
    ensures Holds(code, a, JumpCode(ON_FAILURE_JUMP, |Gen(r)|)) && Holds(code, a + 3, Gen(r))
  {
    hide Holds, JumpCode;
    HoldsSplit(code, a, JumpCode(ON_FAILURE_JUMP, |Gen(r)|), Gen(r));
  }

  lemma LoopParts(code: seq<byte>, a: nat, g: seq<byte>)
    requires Holds(code, a, LoopCode(g))
    ensures Holds(code, a, JumpCode(ON_FAILURE_JUMP, |g| + 3)) && Holds(code, a + 3, g)
    ensures Holds(code, a + 3 + |g|, JumpCode(MAYBE_FINALIZE_JUMP, -(|g| + 6)))
  {
    hide Holds, JumpCode;
    var x, y := JumpCode(ON_FAILURE_JUMP, |g| + 3), JumpCode(MAYBE_FINALIZE_JUMP, -(|g| + 6));
    HoldsSplit(code, a, x + g, y);
    HoldsSplit(code, a, x, g);
  }

  lemma PlusParts(code: seq<byte>, a: nat, r: Re, ops: seq<byte>)
    requires Holds(code, a, Gen(Rep(r, ops))) && ManyOk(ops) && !ZeroOk(ops)
    ensures Holds(code, a, JumpCode(DUMMY_FAILURE_JUMP, 3)) && Holds(code, a + 3, LoopCode(Gen(r)))
  {
    hide Holds, JumpCode, LoopCode;
    HoldsSplit(code, a, JumpCode(DUMMY_FAILURE_JUMP, 3), LoopCode(Gen(r)));
  }

  // ---- what single commands lead to

  lemma SuccChoice(code: seq<byte>, s: seq<byte>, a: nat, i: nat, dist: int)
    requires Holds(code, a, JumpCode(ON_FAILURE_JUMP, dist)) && -0x8000 <= dist < 0x8000 && a + 3 + dist >= 0
    ensures Succ(code, s, At(a, i)) == [At(a + 3, i), At(a + 3 + dist, i)]
  {
    JumpAt(code, a, ON_FAILURE_JUMP, dist);
  }

  lemma SuccJump(code: seq<byte>, s: seq<byte>, a: nat, i: nat, op: byte, dist: int)
    requires Holds(code, a, JumpCode(op, dist)) && IsJump(op) && -0x8000 <= dist < 0x8000 && a + 3 + dist >= 0
    ensures Succ(code, s, At(a, i)) == [At(a + 3 + dist, i)]
  {
    JumpAt(code, a, op, dist);
  }

  lemma SuccMemory(code: seq<byte>, s: seq<byte>, a: nat, i: nat, op: byte, n: byte)
    requires Holds(code, a, [op, n]) && (op == START_MEMORY || op == STOP_MEMORY)
    ensures Succ(code, s, At(a, i)) == [At(a + 2, i)]
  {
    HoldsAt(code, a, [op, n], 0);
  }

  lemma SuccRun(code: seq<byte>, s: seq<byte>, a: nat, i: nat, ls: seq<Lit>)
    requires Holds(code, a, Gen(Run(ls))) && Sized(Run(ls))
    ensures Succ(code, s, At(a, i)) ==
      if i + |ls| <= |s| && s[i..i + |ls|] == Chars(ls) then [At(a + 2 + |ls|, i + |ls|)] else []
  {
    hide Chars;
    var g := [EXACTN, |ls| % 256] + Chars(ls);
    assert Gen(Run(ls)) == g;
    HoldsAt(code, a, g, 0);
    HoldsAt(code, a, g, 1);
    HoldsSplit(code, a, [EXACTN, |ls| % 256], Chars(ls));
  }

  lemma SuccSet(code: seq<byte>, s: seq<byte>, a: nat, i: nat, neg: bool, items: seq<SetItem>, bits: seq<byte>)
    requires Holds(code, a, Gen(Set(neg, items, bits))) && Sized(Set(neg, items, bits))
    ensures Succ(code, s, At(a, i)) ==
      if i < |s| && InItems(items, s[i]) != neg then [At(a + 4 + |bits|, i + 1)] else []
  {
    hide BitOf, InItems;
    var g := [if neg then CHARSET_NOT else CHARSET, |bits| % 256];
    assert Gen(Set(neg, items, bits)) == g + bits + [0, 0];
    HoldsSplit(code, a, g + bits, [0, 0]);
    HoldsSplit(code, a, g, bits);
    HoldsAt(code, a, g, 0);
    HoldsAt(code, a, g, 1);
    if i < |s| { assert BitOf(bits, s[i]) <==> InItems(items, s[i]); }
  }

  lemma SuccSingle(code: seq<byte>, s: seq<byte>, a: nat, i: nat, re: Re)
    requires Holds(code, a, Gen(re)) && (re.Any? || re.Bol? || re.Eol?)
    ensures re.Any? ==> Succ(code, s, At(a, i)) == if i < |s| && s[i] != NEWLINE then [At(a + 1, i + 1)] else []
    ensures re.Bol? ==> Succ(code, s, At(a, i)) == if AtBol(s, i) then [At(a + 1, i)] else []
    ensures re.Eol? ==> Succ(code, s, At(a, i)) == if AtEol(s, i) then [At(a + 1, i)] else []
  {
    HoldsAt(code, a, Gen(re), 0);
  }

  // ---- soundness

  /** The code is short enough for the distances of its jumps. */
  predicate Short(re: Re) {
    |Gen(re)| < 0x8000
  }

  /** The jumps behind alternatives lead from one to the next and out at the end, without moving in the string. */
  lemma {:induction false} JumpsOut(l: Re, r: Re, code: seq<byte>, a: nat, s: seq<byte>, p: seq<Config>, from: nat) returns (k: nat)
    requires Holds(code, a, Gen(Alt(l, r))) && Short(Alt(l, r)) && Path(code, s, p)
    requires from < |p| && p[from].pc == a + 3 + |Gen(l)| && EndsOutside(p, a, |Gen(Alt(l, r))|)
    ensures from <= k < |p| && p[k] == At(a + |Gen(Alt(l, r))|, p[from].i)
    decreases r
  {
    hide Holds, JumpCode, Succ, Path;
    AltParts(code, a, l, r);
    var m := a + 3 + |Gen(l)|;
    NextOnPath(code, s, p, from, a, |Gen(Alt(l, r))|);
    AltLength(l, r);
    SuccJump(code, s, m, p[from].i, JUMP, JumpDistance(r));
    k := from + 1;
    if r.Alt? {
      AltLength(r.first, r.second);
      k := JumpsOut(r.first, r.second, code, m + 3, s, p, from + 1);
    }
  }

  lemma AltLength(l: Re, r: Re)
    ensures |Gen(Alt(l, r))| == 6 + |Gen(l)| + |Gen(r)|
    ensures JumpDistance(r) <= |Gen(r)|
    ensures r.Alt? ==> JumpDistance(r) == 3 + |Gen(r.first)|
    ensures !r.Alt? ==> JumpDistance(r) == |Gen(r)|
  {
  }

  /** A single command matches what its node matches. */
  lemma LeafThrough(re: Re, code: seq<byte>, a: nat, s: seq<byte>, p: seq<Config>, from: nat) returns (k: nat)
    requires re.Run? || re.Any? || re.Set? || re.Bol? || re.Eol?
    requires Holds(code, a, Gen(re)) && Sized(re) && Path(code, s, p)
    requires from < |p| && p[from].pc == a && EndsOutside(p, a, |Gen(re)|)
    ensures from < k < |p| && p[k].pc == a + |Gen(re)| && Matches(re, s, p[from].i, p[k].i)
  {
    hide Holds, Succ, Path, Chars, InItems, BitOf;
    var i := p[from].i;
    NextOnPath(code, s, p, from, a, |Gen(re)|);
    k := from + 1;
    match re
    case Run(ls) => SuccRun(code, s, a, i, ls);
    case Set(neg, items, bits) => SuccSet(code, s, a, i, neg, items, bits);
    case _ => SuccSingle(code, s, a, i, re);
  }

  /**
   * A path that starts at the code of a tree and ends elsewhere comes out at the end of that code, and has then
   * matched the tree.
   */
  lemma {:induction false} Through(re: Re, code: seq<byte>, a: nat, s: seq<byte>, p: seq<Config>, from: nat) returns (k: nat)
    requires Holds(code, a, Gen(re)) && Sized(re) && Short(re) && Path(code, s, p)
    requires from < |p| && p[from].pc == a && EndsOutside(p, a, |Gen(re)|)
    ensures from <= k < |p| && p[k].pc == a + |Gen(re)| && Matches(re, s, p[from].i, p[k].i)
    decreases re, |p| - from, 0
  {
    hide Holds, Succ, Path, JumpCode, LoopCode, ManyOk, ZeroOk;
    match re
    case Empty =>
      k := from;
    case Cat(l, r) =>
      HoldsSplit(code, a, Gen(l), Gen(r));
      var m := Through(l, code, a, s, p, from);
      k := Through(r, code, a + |Gen(l)|, s, p, m);
      MatchesCat(l, r, s, p[from].i, p[m].i, p[k].i);
    case Group(n, body) =>
      k := GroupThrough(n, body, code, a, s, p, from);
    case Alt(l, r) =>
      k := AltThrough(l, r, code, a, s, p, from);
    case Rep(r, ops) =>
      k := RepThrough(r, ops, code, a, s, p, from);
    case _ =>
      k := LeafThrough(re, code, a, s, p, from);
  }

  lemma MatchesCat(l: Re, r: Re, s: seq<byte>, i: nat, k: nat, j: nat)
    requires Matches(l, s, i, k) && Matches(r, s, k, j)
    ensures Matches(Cat(l, r), s, i, j)
  {
  }

  lemma {:induction false} GroupThrough(n: byte, body: Re, code: seq<byte>, a: nat, s: seq<byte>, p: seq<Config>, from: nat)
    returns (k: nat)
    requires Holds(code, a, Gen(Group(n, body))) && Sized(body) && Short(Group(n, body)) && Path(code, s, p)
    requires from < |p| && p[from].pc == a && EndsOutside(p, a, |Gen(Group(n, body))|)
    ensures from <= k < |p| && p[k].pc == a + |Gen(Group(n, body))| && Matches(body, s, p[from].i, p[k].i)
    decreases body, |p| - from, 2
  {
    hide Holds, Succ, Path, Matches;
    var len := |Gen(Group(n, body))|;
    GroupParts(code, a, n, body);
    NextOnPath(code, s, p, from, a, len);
    SuccMemory(code, s, a, p[from].i, START_MEMORY, n);
    var m := Through(body, code, a + 2, s, p, from + 1);
    NextOnPath(code, s, p, m, a, len);
    SuccMemory(code, s, a + 2 + |Gen(body)|, p[m].i, STOP_MEMORY, n);
    k := m + 1;
  }

  lemma {:induction false} AltThrough(l: Re, r: Re, code: seq<byte>, a: nat, s: seq<byte>, p: seq<Config>, from: nat)
    returns (k: nat)
    requires Holds(code, a, Gen(Alt(l, r))) && Sized(l) && Sized(r) && Short(Alt(l, r)) && Path(code, s, p)
    requires from < |p| && p[from].pc == a && EndsOutside(p, a, |Gen(Alt(l, r))|)
    ensures from <= k < |p| && p[k].pc == a + |Gen(Alt(l, r))|
    ensures Matches(l, s, p[from].i, p[k].i) || Matches(r, s, p[from].i, p[k].i)
    decreases Alt(l, r), 0, 0
  {
    hide Holds, Succ, Path, Matches, JumpCode, Gen;
    AltLength(l, r);
    AltParts(code, a, l, r);
    NextOnPath(code, s, p, from, a, |Gen(Alt(l, r))|);
    SuccChoice(code, s, a, p[from].i, |Gen(l)| + 3);
    if p[from + 1].pc == a + 3 {
      var m := Through(l, code, a + 3, s, p, from + 1);
      k := JumpsOut(l, r, code, a, s, p, m);
    } else {
      k := Through(r, code, a + 6 + |Gen(l)|, s, p, from + 1);
    }
  }

  lemma {:induction false} RepThrough(r: Re, ops: seq<byte>, code: seq<byte>, a: nat, s: seq<byte>, p: seq<Config>, from: nat)
    returns (k: nat)
    requires Holds(code, a, Gen(Rep(r, ops))) && Sized(r) && Short(Rep(r, ops)) && Path(code, s, p)
    requires from < |p| && p[from].pc == a && EndsOutside(p, a, |Gen(Rep(r, ops))|)
    ensures from <= k < |p| && p[k].pc == a + |Gen(Rep(r, ops))| && Matches(Rep(r, ops), s, p[from].i, p[k].i)
    decreases r, |p| - from, 3
  {
    hide Holds, Succ, Path, JumpCode, Gen, Times, ManyOk, ZeroOk;
    RepLength(r, ops);
    var i := p[from].i;
    if !ManyOk(ops) {
      OptionParts(code, a, r, ops);
      NextOnPath(code, s, p, from, a, |Gen(Rep(r, ops))|);
      SuccChoice(code, s, a, i, |Gen(r)|);
      k := from + 1;
      if p[k].pc == a + 3 {
        k := Through(r, code, a + 3, s, p, k);
      }
    } else if ZeroOk(ops) {
      LoopIs(r, ops);
      var n;
      k, n := LoopThrough(r, code, a, s, p, from);
    } else {
      var n;
      k, n := PlusThrough(r, ops, code, a, s, p, from);
    }
  }

  lemma RepLength(r: Re, ops: seq<byte>)
    ensures |Gen(Rep(r, ops))| == |Gen(r)| + if !ManyOk(ops) then 3 else if ZeroOk(ops) then 6 else 9
    ensures |LoopCode(Gen(r))| == |Gen(r)| + 6
  {
  }

  lemma LoopIs(r: Re, ops: seq<byte>)
    requires ManyOk(ops) && ZeroOk(ops)
    ensures Gen(Rep(r, ops)) == LoopCode(Gen(r))
  {
  }

  /** A path through a loop, from the choice at its start. */
  lemma {:induction false} LoopThrough(r: Re, code: seq<byte>, a: nat, s: seq<byte>, p: seq<Config>, from: nat)
    returns (k: nat, n: nat)
    requires Holds(code, a, LoopCode(Gen(r))) && Sized(r) && |Gen(r)| + 6 < 0x8000 && Path(code, s, p)
    requires from < |p| && p[from].pc == a && EndsOutside(p, a, |Gen(r)| + 6)
    ensures from <= k < |p| && p[k].pc == a + |Gen(r)| + 6 && Times(r, s, p[from].i, p[k].i, n)
    decreases r, |p| - from, 1
  {
    hide Holds, Succ, Path, JumpCode, Gen, Matches;
    var i, g := p[from].i, Gen(r);
    LoopParts(code, a, g);
    NextOnPath(code, s, p, from, a, |g| + 6);
    SuccChoice(code, s, a, i, |g| + 3);
    if p[from + 1].pc == a + 3 {
      var m := Through(r, code, a + 3, s, p, from + 1);
      NextOnPath(code, s, p, m, a, |g| + 6);
      SuccJump(code, s, a + 3 + |g|, p[m].i, MAYBE_FINALIZE_JUMP, -(|g| + 6));
      k, n := LoopThrough(r, code, a, s, p, m + 1);
      n := n + 1;
    } else {
      k, n := from + 1, 0;
    }
  }

  /** A path through the code of `+`: the first time into the body directly. */
  lemma {:induction false} PlusThrough(r: Re, ops: seq<byte>, code: seq<byte>, a: nat, s: seq<byte>, p: seq<Config>, from: nat)
    returns (k: nat, n: nat)
    requires Holds(code, a, Gen(Rep(r, ops))) && Sized(r) && Short(Rep(r, ops)) && Path(code, s, p)
    requires ManyOk(ops) && !ZeroOk(ops)
    requires from < |p| && p[from].pc == a && EndsOutside(p, a, |Gen(Rep(r, ops))|)
    ensures from <= k < |p| && p[k].pc == a + |Gen(Rep(r, ops))| && n > 0 && Times(r, s, p[from].i, p[k].i, n)
    decreases r, |p| - from, 2
  {
    hide Holds, Succ, Path, JumpCode, LoopCode, Gen, Matches, ManyOk, ZeroOk;
    var i, g := p[from].i, Gen(r);
    RepLength(r, ops);
    PlusParts(code, a, r, ops);
    LoopParts(code, a + 3, g);
    NextOnPath(code, s, p, from, a, |g| + 9);
    SuccJump(code, s, a, i, DUMMY_FAILURE_JUMP, 3);
    var m := Through(r, code, a + 6, s, p, from + 1);
    NextOnPath(code, s, p, m, a, |g| + 9);
    SuccJump(code, s, a + 6 + |g|, p[m].i, MAYBE_FINALIZE_JUMP, -(|g| + 6));
    k, n := LoopThrough(r, code, a + 3, s, p, m + 1);
    n := n + 1;
  }

  /** Whatever the code of a tree reaches at its end, the tree matches. */
  lemma Soundness(re: Re, s: seq<byte>, pos: nat, j: nat)
    requires Sized(re) && Short(re) && Reachable(Gen(re), s, pos, At(|Gen(re)|, j))
    ensures Matches(re, s, pos, j)
  {
    hide Succ, Matches;
    var code := Gen(re);
    var p :| Path(code, s, p) && p[0] == At(0, pos) && p[|p| - 1] == At(|code|, j);
    assert code[0..0 + |code|] == code;
    var k := Through(re, code, 0, s, p, 0);
    if k < |p| - 1 {
      assert Linked(code, s, p, k);
      NothingBehind(code, s, p[k]);
    }
  }

  lemma NothingBehind(code: seq<byte>, s: seq<byte>, c: Config)
    requires c.pc >= |code|
    ensures Succ(code, s, c) == []
  {
  }

  // ---- how deep the stack of failure points must be

  /**
   * The number of loops around the command at an offset in the code of a tree, each of which has a failure point on
   * the stack there; -1 where no command starts.
   */
  function Depth(re: Re, o: int): int
    decreases re, 0
  {
    if o < 0 || o >= |Gen(re)| then -1
    else
      match re
      case Group(_, body) => if o == 0 || o == 2 + |Gen(body)| then 0 else Depth(body, o - 2)
      case Rep(r, ops) =>
        if !ManyOk(ops) then if o == 0 then 0 else Depth(r, o - 3)
        else if ZeroOk(ops) then LoopDepth(r, o)
        else if o == 0 then 0
        else LoopDepth(r, o - 3)
      case Cat(l, r) => if o < |Gen(l)| then Depth(l, o) else Depth(r, o - |Gen(l)|)
      case Alt(l, r) =>
        if o == 0 || o == 3 + |Gen(l)| then 0
        else if o < 3 + |Gen(l)| then Depth(l, o - 3)
        else Depth(r, o - 6 - |Gen(l)|)
      case _ => if o == 0 then 0 else -1
  }

  function LoopDepth(r: Re, o: int): int
    decreases r, 1
  {
    if o == 0 then 0
    else if o == 3 + |Gen(r)| then 1
    else if Depth(r, o - 3) >= 0 then 1 + Depth(r, o - 3)
    else -1
  }

  /** The depth at the end of the code is that at its start. */
  function DepthTo(re: Re, o: int): int {
    if o == |Gen(re)| then 0 else Depth(re, o)
  }
}
