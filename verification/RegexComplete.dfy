/** Byte code can do all that its tree allows, and what the matcher must not lose on its way through the choices. */
module RegexComplete {
  import opened RegexSets
  import opened RegexTree
  import opened RegexPath
  import opened RegexFlow

  // ---- from one configuration to another

  ghost predicate Leads(code: seq<byte>, s: seq<byte>, c: Config, e: Config) {
    exists p :: Path(code, s, p) && p[0] == c && p[|p| - 1] == e
  }

  lemma LeadsSelf(code: seq<byte>, s: seq<byte>, c: Config)
    ensures Leads(code, s, c, c)
  {
    assert Path(code, s, [c]);
  }

  lemma LeadsStep(code: seq<byte>, s: seq<byte>, c: Config, c': Config, e: Config)
    requires c' in Succ(code, s, c) && Leads(code, s, c', e)
    ensures Leads(code, s, c, e)
  {
    hide Succ;
    var p :| Path(code, s, p) && p[0] == c' && p[|p| - 1] == e;
    var q := [c] + p;
    forall k | 0 <= k < |q| - 1
      ensures Linked(code, s, q, k)
    {
      if k > 0 { assert Linked(code, s, p, k - 1); }
    }
    assert Path(code, s, q);
  }

  lemma LeadsOn(code: seq<byte>, s: seq<byte>, c: Config, m: Config, e: Config)
    requires Leads(code, s, c, m) && Leads(code, s, m, e)
    ensures Leads(code, s, c, e)
  {
    hide Succ;
    var p :| Path(code, s, p) && p[0] == c && p[|p| - 1] == m;
    var q :| Path(code, s, q) && q[0] == m && q[|q| - 1] == e;
    var r := p + q[1..];
    forall k | 0 <= k < |r| - 1
      ensures Linked(code, s, r, k)
    {
      if k < |p| - 1 {
        assert Linked(code, s, p, k);
      } else {
        assert Linked(code, s, q, k - (|p| - 1));
        assert r[k] == q[k - (|p| - 1)];
      }
    }
    assert Path(code, s, r);
  }

  /** A configuration leads on through one that its command leads to. */
  lemma LeadsFirst(code: seq<byte>, s: seq<byte>, c: Config, e: Config) returns (c': Config)
    requires Leads(code, s, c, e) && c != e
    ensures c' in Succ(code, s, c) && Leads(code, s, c', e)
  {
    hide Succ;
    var p :| Path(code, s, p) && p[0] == c && p[|p| - 1] == e;
    assert Linked(code, s, p, 0);
    c' := p[1];
    var q := p[1..];
    forall k | 0 <= k < |q| - 1
      ensures Linked(code, s, q, k)
    {
      assert Linked(code, s, p, k + 1);
    }
    assert Path(code, s, q);
  }

  /** Nothing follows the end of the code. */
  lemma EndsThere(code: seq<byte>, s: seq<byte>, i: nat, j: nat)
    requires Leads(code, s, At(|code|, i), At(|code|, j))
    ensures i == j
  {
    hide Leads, Succ;
    if i != j {
      var c := LeadsFirst(code, s, At(|code|, i), At(|code|, j));
      NothingBehind(code, s, At(|code|, i));
    }
  }

  // ---- completeness of the code

  /** The jumps behind alternatives lead out at the end. */
  lemma {:induction false} JumpsLeadOut(l: Re, r: Re, code: seq<byte>, a: nat, s: seq<byte>, i: nat)
    requires Holds(code, a, Gen(Alt(l, r))) && Short(Alt(l, r))
    ensures Leads(code, s, At(a + 3 + |Gen(l)|, i), At(a + |Gen(Alt(l, r))|, i))
    decreases r
  {
    hide Holds, JumpCode, Succ, Leads, Gen;
    AltParts(code, a, l, r);
    AltLength(l, r);
    var m := a + 3 + |Gen(l)|;
    var e := At(a + |Gen(Alt(l, r))|, i);
    SuccJump(code, s, m, i, JUMP, JumpDistance(r));
    if r.Alt? {
      AltLength(r.first, r.second);
      JumpsLeadOut(r.first, r.second, code, m + 3, s, i);
    } else {
      LeadsSelf(code, s, e);
    }
    LeadsStep(code, s, At(m, i), At(m + 3 + JumpDistance(r), i), e);
  }

  lemma LeafLeads(re: Re, code: seq<byte>, a: nat, s: seq<byte>, i: nat, j: nat)
    requires re.Run? || re.Any? || re.Set? || re.Bol? || re.Eol?
    requires Holds(code, a, Gen(re)) && Sized(re) && Matches(re, s, i, j)
    ensures Leads(code, s, At(a, i), At(a + |Gen(re)|, j))
  {
    hide Holds, Succ, Leads, Chars, InItems, BitOf;
    var e := At(a + |Gen(re)|, j);
    match re {
      case Run(ls) => SuccRun(code, s, a, i, ls);
      case Set(neg, items, bits) => SuccSet(code, s, a, i, neg, items, bits);
      case _ => SuccSingle(code, s, a, i, re);
    }
    LeadsSelf(code, s, e);
    LeadsStep(code, s, At(a, i), e, e);
  }

  lemma EmptyLeads(code: seq<byte>, a: nat, s: seq<byte>, i: nat)
    ensures Leads(code, s, At(a, i), At(a + |Gen(Empty)|, i))
  {
    LeadsSelf(code, s, At(a, i));
  }

  /** Whatever a tree matches, its code leads through. */
  lemma {:induction false} Completes(re: Re, code: seq<byte>, a: nat, s: seq<byte>, i: nat, j: nat)
    requires Holds(code, a, Gen(re)) && Sized(re) && Short(re) && Matches(re, s, i, j)
    ensures Leads(code, s, At(a, i), At(a + |Gen(re)|, j))
    decreases re, 1, 0
  {
    hide Holds, Succ, Leads, Gen, Short, Times, ManyOk, ZeroOk, Chars, InItems, BitOf;
    match re
    case Empty =>
      EmptyLeads(code, a, s, i);
    case Cat(l, r) =>
      CatCompletes(l, r, code, a, s, i, j);
    case Group(n, body) =>
      GroupCompletes(n, body, code, a, s, i, j);
    case Alt(l, r) =>
      AltCompletes(l, r, code, a, s, i, j);
    case Rep(r, ops) =>
      RepCompletes(r, ops, code, a, s, i, j);
    case _ =>
      LeafLeads(re, code, a, s, i, j);
  }

  lemma CatIs(l: Re, r: Re)
    ensures Gen(Cat(l, r)) == Gen(l) + Gen(r)
  {
  }

  lemma ShortParts(l: Re, r: Re)
    requires Short(Cat(l, r))
    ensures Short(l) && Short(r)
  {
    CatIs(l, r);
  }

  lemma {:induction false} CatCompletes(l: Re, r: Re, code: seq<byte>, a: nat, s: seq<byte>, i: nat, j: nat)
    requires Holds(code, a, Gen(Cat(l, r))) && Sized(l) && Sized(r) && Short(Cat(l, r)) && Matches(Cat(l, r), s, i, j)
    ensures Leads(code, s, At(a, i), At(a + |Gen(Cat(l, r))|, j))
    decreases Cat(l, r), 0, 0
  {
    hide Holds, Succ, Leads, Sized, Gen, Short;
    CatIs(l, r);
    ShortParts(l, r);
    HoldsSplit(code, a, Gen(l), Gen(r));
    var k: nat :| Matches(l, s, i, k) && Matches(r, s, k, j);
    Completes(l, code, a, s, i, k);
    Completes(r, code, a + |Gen(l)|, s, k, j);
    LeadsOn(code, s, At(a, i), At(a + |Gen(l)|, k), At(a + |Gen(l)| + |Gen(r)|, j));
  }

  lemma {:induction false} GroupCompletes(n: byte, body: Re, code: seq<byte>, a: nat, s: seq<byte>, i: nat, j: nat)
    requires Holds(code, a, Gen(Group(n, body))) && Sized(body) && Short(Group(n, body)) && Matches(body, s, i, j)
    ensures Leads(code, s, At(a, i), At(a + |Gen(Group(n, body))|, j))
    decreases body, 2, 0
  {
    hide Holds, Succ, Leads, Matches;
    GroupParts(code, a, n, body);
    var m, e := At(a + 2 + |Gen(body)|, j), At(a + 4 + |Gen(body)|, j);
    SuccMemory(code, s, a, i, START_MEMORY, n);
    SuccMemory(code, s, m.pc, j, STOP_MEMORY, n);
    Completes(body, code, a + 2, s, i, j);
    LeadsSelf(code, s, e);
    LeadsStep(code, s, m, e, e);
    LeadsOn(code, s, At(a + 2, i), m, e);
    LeadsStep(code, s, At(a, i), At(a + 2, i), e);
  }

  lemma {:induction false} AltCompletes(l: Re, r: Re, code: seq<byte>, a: nat, s: seq<byte>, i: nat, j: nat)
    requires Holds(code, a, Gen(Alt(l, r))) && Sized(l) && Sized(r) && Short(Alt(l, r))
    requires Matches(l, s, i, j) || Matches(r, s, i, j)
    ensures Leads(code, s, At(a, i), At(a + |Gen(Alt(l, r))|, j))
    decreases Alt(l, r), 0, 0
  {
    hide Holds, Succ, Leads, Matches, JumpCode, Gen;
    AltParts(code, a, l, r);
    AltLength(l, r);
    var e := At(a + |Gen(Alt(l, r))|, j);
    SuccChoice(code, s, a, i, |Gen(l)| + 3);
    if Matches(l, s, i, j) {
      Completes(l, code, a + 3, s, i, j);
      JumpsLeadOut(l, r, code, a, s, j);
      LeadsOn(code, s, At(a + 3, i), At(a + 3 + |Gen(l)|, j), e);
      LeadsStep(code, s, At(a, i), At(a + 3, i), e);
    } else {
      Completes(r, code, a + 6 + |Gen(l)|, s, i, j);
      LeadsStep(code, s, At(a, i), At(a + 6 + |Gen(l)|, i), e);
    }
  }

  lemma {:induction false} RepCompletes(r: Re, ops: seq<byte>, code: seq<byte>, a: nat, s: seq<byte>, i: nat, j: nat)
    requires Holds(code, a, Gen(Rep(r, ops))) && Sized(r) && Short(Rep(r, ops)) && Matches(Rep(r, ops), s, i, j)
    ensures Leads(code, s, At(a, i), At(a + |Gen(Rep(r, ops))|, j))
    decreases r, 4, 0
  {
    hide Holds, Succ, Leads, JumpCode, Gen, Times, ManyOk, ZeroOk;
    RepLength(r, ops);
    var e := At(a + |Gen(Rep(r, ops))|, j);
    if !ManyOk(ops) {
      OptionParts(code, a, r, ops);
      SuccChoice(code, s, a, i, |Gen(r)|);
      if i == j {
        LeadsSelf(code, s, e);
        LeadsStep(code, s, At(a, i), e, e);
      } else {
        Completes(r, code, a + 3, s, i, j);
        LeadsStep(code, s, At(a, i), At(a + 3, i), e);
      }
    } else {
      var n: nat :| Times(r, s, i, j, n) && (n > 0 || ZeroOk(ops));
      if ZeroOk(ops) {
        LoopIs(r, ops);
        LoopCompletes(r, code, a, s, i, j, n);
      } else {
        PlusCompletes(r, ops, code, a, s, i, j, n);
      }
    }
  }

  /** Any number of turns of a loop. */
  lemma {:induction false} LoopCompletes(r: Re, code: seq<byte>, a: nat, s: seq<byte>, i: nat, j: nat, n: nat)
    requires Holds(code, a, LoopCode(Gen(r))) && Sized(r) && |Gen(r)| + 6 < 0x8000 && Times(r, s, i, j, n)
    ensures Leads(code, s, At(a, i), At(a + |Gen(r)| + 6, j))
    decreases r, 2, n
  {
    hide Holds, Succ, Leads, JumpCode, Gen, Matches;
    var g := Gen(r);
    var e := At(a + |g| + 6, j);
    LoopParts(code, a, g);
    SuccChoice(code, s, a, i, |g| + 3);
    if n == 0 {
      LeadsSelf(code, s, e);
      LeadsStep(code, s, At(a, i), e, e);
    } else {
      var k: nat :| Matches(r, s, i, k) && Times(r, s, k, j, n - 1);
      Completes(r, code, a + 3, s, i, k);
      SuccJump(code, s, a + 3 + |g|, k, MAYBE_FINALIZE_JUMP, -(|g| + 6));
      LoopCompletes(r, code, a, s, k, j, n - 1);
      LeadsStep(code, s, At(a + 3 + |g|, k), At(a, k), e);
      LeadsOn(code, s, At(a + 3, i), At(a + 3 + |g|, k), e);
      LeadsStep(code, s, At(a, i), At(a + 3, i), e);
    }
  }

  /** The loop of `+`, entered behind its choice. */
  lemma {:induction false} PlusCompletes(r: Re, ops: seq<byte>, code: seq<byte>, a: nat, s: seq<byte>, i: nat, j: nat, n: nat)
    requires Holds(code, a, Gen(Rep(r, ops))) && Sized(r) && Short(Rep(r, ops)) && ManyOk(ops) && !ZeroOk(ops)
    requires Times(r, s, i, j, n) && n > 0
    ensures Leads(code, s, At(a, i), At(a + |Gen(Rep(r, ops))|, j))
    decreases r, 3, 0
  {
    hide Holds, Succ, Leads, JumpCode, LoopCode, Gen, Matches, ManyOk, ZeroOk;
    var g := Gen(r);
    RepLength(r, ops);
    PlusParts(code, a, r, ops);
    LoopParts(code, a + 3, g);
    var e := At(a + |g| + 9, j);
    var k: nat :| Matches(r, s, i, k) && Times(r, s, k, j, n - 1);
    SuccJump(code, s, a, i, DUMMY_FAILURE_JUMP, 3);
    Completes(r, code, a + 6, s, i, k);
    SuccJump(code, s, a + 6 + |g|, k, MAYBE_FINALIZE_JUMP, -(|g| + 6));
    LoopCompletes(r, code, a + 3, s, k, j, n - 1);
    LeadsStep(code, s, At(a + 6 + |g|, k), At(a + 3, k), e);
    LeadsOn(code, s, At(a + 6, i), At(a + 6 + |g|, k), e);
    LeadsStep(code, s, At(a, i), At(a + 6, i), e);
  }

  lemma HoldsItself(code: seq<byte>)
    ensures Holds(code, 0, code)
  {
    assert code[0..0 + |code|] == code;
  }

  /** The code of a tree reaches its end exactly where the tree matches. */
  lemma ReachesIffMatches(re: Re, s: seq<byte>, pos: nat, j: nat)
    requires Sized(re) && Short(re)
    ensures Reachable(Gen(re), s, pos, At(|Gen(re)|, j)) <==> Matches(re, s, pos, j)
  {
    hide Succ, Matches, Sized, Gen, Path;
    var code := Gen(re);
    if Matches(re, s, pos, j) {
      HoldsItself(code);
      Completes(re, code, 0, s, pos, j);
    }
    if Reachable(code, s, pos, At(|code|, j)) {
      Soundness(re, s, pos, j);
    }
  }

  // ---- patterns without loops

  predicate Loopless(re: Re) {
    match re
    case Group(_, body) => Loopless(body)
    case Rep(r, ops) => !ManyOk(ops) && Loopless(r)
    case Cat(l, r) => Loopless(l) && Loopless(r)
    case Alt(l, r) => Loopless(l) && Loopless(r)
    case _ => true
  }

  /** No match goes past the end of the string. */
  lemma {:induction false} EndsInside(re: Re, s: seq<byte>, i: nat, j: nat)
    requires Matches(re, s, i, j) && i <= |s|
    ensures j <= |s|
    decreases re, 0
  {
    match re
    case Group(_, body) => EndsInside(body, s, i, j);
    case Rep(r, ops) =>
      if ManyOk(ops) {
        var n: nat :| Times(r, s, i, j, n) && (n > 0 || ZeroOk(ops));
        TimesInside(r, s, i, j, n);
      } else if i != j {
        EndsInside(r, s, i, j);
      }
    case Cat(l, r) =>
      var k: nat :| Matches(l, s, i, k) && Matches(r, s, k, j);
      EndsInside(l, s, i, k);
      EndsInside(r, s, k, j);
    case Alt(l, r) =>
      if Matches(l, s, i, j) { EndsInside(l, s, i, j); } else { EndsInside(r, s, i, j); }
    case _ =>
  }

  lemma {:induction false} TimesInside(r: Re, s: seq<byte>, i: nat, j: nat, n: nat)
    requires Times(r, s, i, j, n) && i <= |s|
    ensures j <= |s|
    decreases r, n + 1
  {
    if n > 0 {
      var k: nat :| Matches(r, s, i, k) && Times(r, s, k, j, n - 1);
      EndsInside(r, s, i, k);
      TimesInside(r, s, k, j, n - 1);
    }
  }

  /** The loops' commands do not occur in the code of a pattern without loops. */
  lemma {:induction false} LooplessCode(re: Re, o: nat)
    requires Loopless(re) && o < |Gen(re)| && Depth(re, o) >= 0
    ensures Gen(re)[o] != DUMMY_FAILURE_JUMP && Gen(re)[o] != MAYBE_FINALIZE_JUMP && Gen(re)[o] != FINALIZE_JUMP
    decreases re, 1
  {
    hide Gen, Depth, ManyOk, ZeroOk;
    match re
    case Group(n, body) =>
      GroupByte(n, body, o);
      if 2 <= o < 2 + |Gen(body)| { LooplessCode(body, o - 2); }
    case Rep(r, ops) =>
      OptionByte(r, ops, o);
      if o > 0 { LooplessCode(r, o - 3); }
    case Cat(l, r) =>
      CatIs(l, r);
      CatDepth(l, r, o);
      if o < |Gen(l)| { LooplessCode(l, o); } else { LooplessCode(r, o - |Gen(l)|); }
    case Alt(l, r) =>
      LooplessAlt(l, r, o);
    case _ =>
      LeafByte(re, o);
  }

  lemma {:induction false} LooplessAlt(l: Re, r: Re, o: nat)
    requires Loopless(l) && Loopless(r) && o < |Gen(Alt(l, r))| && Depth(Alt(l, r), o) >= 0
    ensures var c := Gen(Alt(l, r))[o]; c != DUMMY_FAILURE_JUMP && c != MAYBE_FINALIZE_JUMP && c != FINALIZE_JUMP
    decreases Alt(l, r), 0
  {
    hide Gen, Depth, Loopless, JumpDistance;
    AltIs(l, r);
    AltDepth(l, r, o);
    var g := |Gen(l)|;
    if 0 < o < 3 + g {
      BoundsOf(l, o - 3);
      AltFirst(l, r, o);
      LooplessCode(l, o - 3);
    } else if o > 3 + g {
      BoundsOf(r, o - 6 - g);
      AltSecond(l, r, o);
      LooplessCode(r, o - 6 - g);
    }
  }

  lemma AltFirst(l: Re, r: Re, o: nat)
    requires 3 <= o < 3 + |Gen(l)|
    ensures o < |Gen(Alt(l, r))| && Gen(Alt(l, r))[o] == Gen(l)[o - 3]
  {
    AltIs(l, r);
    hide Gen;
  }

  lemma AltSecond(l: Re, r: Re, o: nat)
    requires 6 + |Gen(l)| <= o < 6 + |Gen(l)| + |Gen(r)|
    ensures o < |Gen(Alt(l, r))| && Gen(Alt(l, r))[o] == Gen(r)[o - 6 - |Gen(l)|]
  {
    AltIs(l, r);
    hide Gen;
  }

  lemma BoundsOf(re: Re, o: int)
    requires Depth(re, o) >= 0
    ensures 0 <= o < |Gen(re)|
  {
    if o < 0 || o >= |Gen(re)| { OutOfRange(re, o); }
  }

  lemma GroupIs(n: byte, body: Re)
    ensures Gen(Group(n, body)) == [START_MEMORY, n] + Gen(body) + [STOP_MEMORY, n]
  {
  }

  lemma OptionCode(r: Re, ops: seq<byte>)
    requires !ManyOk(ops)
    ensures Gen(Rep(r, ops)) == JumpCode(ON_FAILURE_JUMP, |Gen(r)|) + Gen(r)
  {
  }

  lemma GroupByte(n: byte, body: Re, o: nat)
    requires o < |Gen(Group(n, body))| && Depth(Group(n, body), o) >= 0
    ensures o == 0 ==> Gen(Group(n, body))[o] == START_MEMORY
    ensures o == 2 + |Gen(body)| ==> Gen(Group(n, body))[o] == STOP_MEMORY
    ensures o == 0 || o == 2 + |Gen(body)|
      || (2 <= o < 2 + |Gen(body)| && Gen(Group(n, body))[o] == Gen(body)[o - 2] && Depth(body, o - 2) >= 0)
  {
    hide Gen, Depth;
    GroupIs(n, body);
    GroupDepth(n, body, o);
    if o != 0 && o != 2 + |Gen(body)| { BoundsOf(body, o - 2); }
  }

  lemma OptionByte(r: Re, ops: seq<byte>, o: nat)
    requires !ManyOk(ops) && o < |Gen(Rep(r, ops))| && Depth(Rep(r, ops), o) >= 0
    ensures o == 0 ==> Gen(Rep(r, ops))[o] == ON_FAILURE_JUMP
    ensures o > 0 ==> 3 <= o < 3 + |Gen(r)| && Gen(Rep(r, ops))[o] == Gen(r)[o - 3] && Depth(r, o - 3) >= 0
  {
    hide Gen, Depth;
    OptionCode(r, ops);
    RepDepth(r, ops, o);
    if o > 0 { BoundsOf(r, o - 3); }
  }

  lemma LeafByte(re: Re, o: nat)
    requires re.Empty? || re.Run? || re.Any? || re.Set? || re.Bol? || re.Eol?
    requires o < |Gen(re)| && Depth(re, o) >= 0
    ensures Gen(re)[o] in {EXACTN, ANYCHAR, CHARSET, CHARSET_NOT, BEGLINE, ENDLINE}
  {
  }

  // ---- the ends in the order in which the matcher comes to them

  /**
   * Where code without loops ends up from a configuration, in the order of its choices: the place in the string where a
   * match ends, or -1 where the match fails.
   */
  function Leaves(code: seq<byte>, s: seq<byte>, c: Config): (ls: seq<int>)
    decreases if c.pc < |code| then |code| - c.pc else 0
  {
    if c.pc >= |code| then [c.i]
    else
      var n := Succ(code, s, c);
      if |n| == 0 then [-1]
      else if |n| == 1 then if n[0].pc > c.pc then Leaves(code, s, n[0]) else []
      else (if n[0].pc > c.pc then Leaves(code, s, n[0]) else []) + if n[1].pc > c.pc then Leaves(code, s, n[1]) else []
  }

  /** The largest, or -1. */
  function Largest(ls: seq<int>): (m: int)
    ensures m >= -1 && (m == -1 || m in ls) && forall k :: 0 <= k < |ls| ==> ls[k] <= m
  {
    if ls == [] then -1
    else
      var m := Largest(ls[..|ls| - 1]);
      assert forall k :: 0 <= k < |ls| - 1 ==> ls[..|ls| - 1][k] == ls[k];
      if ls[|ls| - 1] > m then ls[|ls| - 1] else m
  }

  /**
   * The end that the matcher returns, or -1: the end of the string if it gets there; else the longest of all but the
   * last; and the last only if there is no other.
   */
  function Pick(ls: seq<int>, end: int): int
    requires ls != []
  {
    if end in ls then end
    else if Largest(ls[..|ls| - 1]) >= 0 then Largest(ls[..|ls| - 1])
    else ls[|ls| - 1]
  }

  /** How far a place in the code is from its end; the end of a loop counts a little more than the place it leads to. */
  function ToEnd(code: seq<byte>, pc: nat): nat {
    if pc >= |code| then 0
    else if code[pc] == MAYBE_FINALIZE_JUMP && pc + 2 < |code| && 0 <= Target(code, pc) < |code| then
      |code| - Target(code, pc) + 1
    else |code| - pc
  }

  /** A measure that every command brings down when all loops are over single characters. */
  function Rank(code: seq<byte>, s: seq<byte>, c: Config): nat {
    (if c.i <= |s| then |s| - c.i else 0) * (|code| + 5) + ToEnd(code, c.pc)
  }

  ghost predicate GoesDown(code: seq<byte>, s: seq<byte>, c: Config) {
    forall k :: 0 <= k < |Succ(code, s, c)| ==> Rank(code, s, Succ(code, s, c)[k]) < Rank(code, s, c)
  }

  /**
   * How many commands are taken in all from a configuration, the end of the code counting as one, as long as they bring
   * the rank down.
   */
  function Work(code: seq<byte>, s: seq<byte>, c: Config): (n: nat)
    ensures n > 0
    decreases Rank(code, s, c)
  {
    if c.pc >= |code| then 1
    else
      var n := Succ(code, s, c);
      1 + (if |n| > 0 && Rank(code, s, n[0]) < Rank(code, s, c) then Work(code, s, n[0]) else 0)
        + if |n| > 1 && Rank(code, s, n[1]) < Rank(code, s, c) then Work(code, s, n[1]) else 0
  }
}
