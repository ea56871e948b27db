/** Where the commands of byte code lead, and how deep the stack of failure points is there. */
module RegexFlow {
  import opened RegexSets
  import opened RegexTree
  import opened RegexPath

  /** All groups have numbers below `m`. */
  predicate GroupsBelow(re: Re, m: nat) {
    match re
    case Group(n, body) => n < m && GroupsBelow(body, m)
    case Rep(r, _) => GroupsBelow(r, m)
    case Cat(l, r) => GroupsBelow(l, m) && GroupsBelow(r, m)
    case Alt(l, r) => GroupsBelow(l, m) && GroupsBelow(r, m)
    case _ => true
  }

  /** A command starts at offset `o`, or the code ends there, and no more than `d` failure points are needed. */
  predicate Below(re: Re, o: int, d: int) {
    0 <= o <= |Gen(re)| && 0 <= DepthTo(re, o) <= d
  }

  /** No command starts between `o` and `e`. */
  predicate Solid(re: Re, o: int, e: int) {
    forall x :: o < x < e ==> Depth(re, x) < 0
  }

  /** The operands and the destinations of the command at offset `o` of a tree whose code stands at `a`. */
  predicate FlowOk(re: Re, m: nat, code: seq<byte>, a: nat, o: nat)
    requires o < |Gen(re)| && a + |Gen(re)| <= |code|
  {
    var pc, d, n := a + o, Depth(re, o), |Gen(re)|;
    if code[pc] == EXACTN then
      o + 1 < n && code[pc + 1] > 0 && Below(re, o + 2 + code[pc + 1] as int, d) && Solid(re, o, o + 2 + code[pc + 1] as int)
    else if code[pc] == ANYCHAR || code[pc] == BEGLINE || code[pc] == ENDLINE then Below(re, o + 1, d)
    else if code[pc] == CHARSET || code[pc] == CHARSET_NOT then
      && o + 1 < n && code[pc + 1] <= 32 && Below(re, o + 4 + code[pc + 1] as int, d)
      && Solid(re, o, o + 4 + code[pc + 1] as int)
      && code[pc + 2 + code[pc + 1] as int] == 0 && code[pc + 3 + code[pc + 1] as int] == 0
    else if code[pc] == START_MEMORY || code[pc] == STOP_MEMORY then
      Below(re, o + 2, d) && Solid(re, o, o + 2) && code[pc + 1] < m
    else
      && o + 3 <= n && Solid(re, o, o + 3)
      && if code[pc] == ON_FAILURE_JUMP then
           Below(re, o + 3, d + 1) && Below(re, Target(code, pc) - a, d) && Target(code, pc) - a >= o + 3
         else if code[pc] == JUMP then Below(re, Target(code, pc) - a, d) && Target(code, pc) - a >= o + 3
         else if code[pc] == DUMMY_FAILURE_JUMP then
           && Below(re, Target(code, pc) - a, d + 1) && Target(code, pc) == pc + 6
           && Below(re, o + 3, d) && o + 3 < n && code[pc + 3] == ON_FAILURE_JUMP
         else
           && code[pc] == MAYBE_FINALIZE_JUMP && Below(re, Target(code, pc) - a, d - 1)
           && Target(code, pc) - a + 3 <= o && code[Target(code, pc)] == ON_FAILURE_JUMP
           && Target(code, Target(code, pc)) == pc + 3
  }

  lemma CatDepth(l: Re, r: Re, o: nat)
    requires o < |Gen(l)| + |Gen(r)|
    ensures |Gen(Cat(l, r))| == |Gen(l)| + |Gen(r)|
    ensures Depth(Cat(l, r), o) == if o < |Gen(l)| then Depth(l, o) else Depth(r, o - |Gen(l)|)
  {
  }

  lemma {:induction false} DepthStart(re: Re)
    ensures DepthTo(re, 0) == 0
  {
    match re
    case Cat(l, r) =>
      DepthStart(l);
      DepthStart(r);
      assert re == Cat(l, r);
      if |Gen(l)| + |Gen(r)| > 0 { CatDepth(l, r, 0); }
    case Rep(r, ops) => RepDepth(r, ops, 0);
    case Alt(l, r) => AltDepth(l, r, 0);
    case Empty =>
    case _ => assert |Gen(re)| > 0 && Depth(re, 0) == 0;
  }

  lemma RepDepth(r: Re, ops: seq<byte>, o: nat)
    requires o < |Gen(Rep(r, ops))|
    ensures Depth(Rep(r, ops), o) ==
      if !ManyOk(ops) then if o == 0 then 0 else Depth(r, o - 3)
      else if ZeroOk(ops) then LoopDepth(r, o)
      else if o == 0 then 0
      else LoopDepth(r, o - 3)
    ensures |Gen(Rep(r, ops))| > 0
  {
    RepLength(r, ops);
  }

  lemma AltDepth(l: Re, r: Re, o: nat)
    requires o < |Gen(l)| + 6 + |Gen(r)|
    ensures |Gen(Alt(l, r))| == |Gen(l)| + 6 + |Gen(r)|
    ensures Depth(Alt(l, r), o) ==
      if o == 0 || o == 3 + |Gen(l)| then 0
      else if o < 3 + |Gen(l)| then Depth(l, o - 3)
      else Depth(r, o - 6 - |Gen(l)|)
  {
    AltLength(l, r);
  }

  /** The depths of a part within the whole: the part stands at `x`, inside `c` loops more. */
  ghost predicate Embeds(inner: Re, outer: Re, x: nat, c: nat) {
    && x + |Gen(inner)| <= |Gen(outer)|
    && forall y :: 0 <= y <= |Gen(inner)| ==>
         DepthTo(outer, x + y) == if DepthTo(inner, y) >= 0 then c + DepthTo(inner, y) else -1
  }

  lemma LiftBelow(inner: Re, outer: Re, x: nat, c: nat, o: int, d: int)
    requires Embeds(inner, outer, x, c) && Below(inner, o, d)
    ensures Below(outer, x + o, c + d)
  {
    hide DepthTo, Gen;
    assert DepthTo(outer, x + o) == c + DepthTo(inner, o);
  }

  lemma LiftSolid(inner: Re, outer: Re, x: nat, c: nat, o: nat, e: int)
    requires Embeds(inner, outer, x, c) && Solid(inner, o, e) && e <= |Gen(inner)|
    ensures Solid(outer, x + o, x + e)
  {
    hide Depth, Gen;
    forall z | x + o < z < x + e
      ensures Depth(outer, z) < 0
    {
      assert DepthTo(outer, x + (z - x)) == if DepthTo(inner, z - x) >= 0 then c + DepthTo(inner, z - x) else -1;
      assert Depth(inner, z - x) < 0;
    }
  }

  lemma LiftDepth(inner: Re, outer: Re, x: nat, c: nat, o: nat)
    requires Embeds(inner, outer, x, c) && o < |Gen(inner)| && Depth(inner, o) >= 0
    ensures x + o < |Gen(outer)| && Depth(outer, x + o) == c + Depth(inner, o)
  {
    hide Depth, Gen;
    assert DepthTo(outer, x + o) == if DepthTo(inner, o) >= 0 then c + DepthTo(inner, o) else -1;
  }

  /** What holds of a command in a part holds in the whole. */
  lemma Lift(inner: Re, outer: Re, m: nat, code: seq<byte>, a: nat, x: nat, c: nat, o: nat)
    requires Embeds(inner, outer, x, c) && o < |Gen(inner)| && a + |Gen(outer)| <= |code|
    requires Depth(inner, o) >= 0 && FlowOk(inner, m, code, a + x, o)
    ensures FlowOk(outer, m, code, a, x + o)
  {
    hide Depth, Gen, Below, Solid, Embeds, DepthTo, Target;
    EmbedsBound(inner, outer, x, c);
    LiftDepth(inner, outer, x, c, o);
    var pc, d := a + x + o, Depth(inner, o);
    var op := code[pc];
    if op == EXACTN {
      var e := o + 2 + code[pc + 1] as int;
      BelowBound(inner, e, d);
      LiftBelow(inner, outer, x, c, e, d);
      LiftSolid(inner, outer, x, c, o, e);
    } else if op == ANYCHAR || op == BEGLINE || op == ENDLINE {
      LiftBelow(inner, outer, x, c, o + 1, d);
    } else if op == CHARSET || op == CHARSET_NOT {
      var e := o + 4 + code[pc + 1] as int;
      BelowBound(inner, e, d);
      LiftBelow(inner, outer, x, c, e, d);
      LiftSolid(inner, outer, x, c, o, e);
    } else if op == START_MEMORY || op == STOP_MEMORY {
      BelowBound(inner, o + 2, d);
      LiftBelow(inner, outer, x, c, o + 2, d);
      LiftSolid(inner, outer, x, c, o, o + 2);
    } else {
      LiftJump(inner, outer, m, code, a, x, c, o);
    }
  }

  lemma BelowBound(re: Re, o: int, d: int)
    requires Below(re, o, d)
    ensures 0 <= o <= |Gen(re)|
  {
  }

  lemma EmbedsBound(inner: Re, outer: Re, x: nat, c: nat)
    requires Embeds(inner, outer, x, c)
    ensures x + |Gen(inner)| <= |Gen(outer)|
  {
  }

  lemma LiftJump(inner: Re, outer: Re, m: nat, code: seq<byte>, a: nat, x: nat, c: nat, o: nat)
    requires Embeds(inner, outer, x, c) && o < |Gen(inner)| && a + |Gen(outer)| <= |code|
    requires Depth(inner, o) >= 0 && Depth(outer, x + o) == c + Depth(inner, o) && FlowOk(inner, m, code, a + x, o)
    requires x + o < |Gen(outer)|
    requires code[a + x + o] !in {EXACTN, ANYCHAR, BEGLINE, ENDLINE, CHARSET, CHARSET_NOT, START_MEMORY, STOP_MEMORY}
    ensures FlowOk(outer, m, code, a, x + o)
  {
    hide Depth, Gen, Below, Solid, Embeds, DepthTo, Extract;
    var pc, d := a + x + o, Depth(inner, o);
    var op := code[pc];
    EmbedsBound(inner, outer, x, c);
    LiftSolid(inner, outer, x, c, o, o + 3);
    var t := Target(code, pc) - (a + x);
    if op == ON_FAILURE_JUMP {
      LiftBelow(inner, outer, x, c, o + 3, d + 1);
      LiftBelow(inner, outer, x, c, t, d);
    } else if op == JUMP {
      LiftBelow(inner, outer, x, c, t, d);
    } else if op == DUMMY_FAILURE_JUMP {
      LiftBelow(inner, outer, x, c, t, d + 1);
      LiftBelow(inner, outer, x, c, o + 3, d);
    } else {
      LiftBelow(inner, outer, x, c, t, d - 1);
    }
  }

  // ---- the parts of each tree within it

  lemma OutOfRange(re: Re, o: int)
    requires o < 0 || o >= |Gen(re)|
    ensures Depth(re, o) == -1
  {
  }

  lemma EmbedsLeft(l: Re, r: Re)
    ensures Embeds(l, Cat(l, r), 0, 0)
  {
    hide Depth, Gen;
    CatLength(l, r);
    DepthStart(r);
    forall y | 0 <= y <= |Gen(l)|
      ensures DepthTo(Cat(l, r), 0 + y) == if DepthTo(l, y) >= 0 then 0 + DepthTo(l, y) else -1
    {
      if y < |Gen(l)| + |Gen(r)| { CatDepth(l, r, y); }
      DepthBounds(l, y);
    }
  }

  lemma CatLength(l: Re, r: Re)
    ensures |Gen(Cat(l, r))| == |Gen(l)| + |Gen(r)|
  {
  }

  lemma {:induction false} DepthBounds(re: Re, o: int)
    ensures Depth(re, o) >= -1
  {
    if 0 <= o < |Gen(re)| {
      match re
      case Group(_, body) => DepthBounds(body, o - 2);
      case Rep(r, ops) =>
        DepthBounds(r, o - 3);
        DepthBounds(r, o - 6);
      case Cat(l, r) =>
        DepthBounds(l, o);
        DepthBounds(r, o - |Gen(l)|);
      case Alt(l, r) =>
        DepthBounds(l, o - 3);
        DepthBounds(r, o - 6 - |Gen(l)|);
      case _ =>
    }
  }

  lemma EmbedsRight(l: Re, r: Re)
    ensures Embeds(r, Cat(l, r), |Gen(l)|, 0)
  {
    hide Depth, Gen;
    CatLength(l, r);
    forall y | 0 <= y <= |Gen(r)|
      ensures DepthTo(Cat(l, r), |Gen(l)| + y) == if DepthTo(r, y) >= 0 then 0 + DepthTo(r, y) else -1
    {
      if y < |Gen(r)| { CatDepth(l, r, |Gen(l)| + y); }
      DepthBounds(r, y);
    }
  }

  lemma EmbedsGroup(n: byte, body: Re)
    ensures Embeds(body, Group(n, body), 2, 0)
    ensures |Gen(Group(n, body))| == |Gen(body)| + 4
  {
    var g := Group(n, body);
    assert |Gen(g)| == |Gen(body)| + 4;
    forall y | 0 <= y <= |Gen(body)|
      ensures DepthTo(g, 2 + y) == if DepthTo(body, y) >= 0 then 0 + DepthTo(body, y) else -1
    {
      DepthBounds(body, y);
    }
  }

  lemma EmbedsOption(r: Re, ops: seq<byte>)
    requires !ManyOk(ops)
    ensures Embeds(r, Rep(r, ops), 3, 0)
  {
    RepLength(r, ops);
    forall y | 0 <= y <= |Gen(r)|
      ensures DepthTo(Rep(r, ops), 3 + y) == if DepthTo(r, y) >= 0 then 0 + DepthTo(r, y) else -1
    {
      DepthBounds(r, y);
    }
  }

  /** The body of a loop; `z` is where the loop itself starts. */
  lemma EmbedsLoop(r: Re, ops: seq<byte>, z: nat)
    requires ManyOk(ops) && z == if ZeroOk(ops) then 0 else 3
    ensures Embeds(r, Rep(r, ops), z + 3, 1)
  {
    hide ManyOk, ZeroOk, Depth, Gen;
    RepLength(r, ops);
    forall y | 0 <= y <= |Gen(r)|
      ensures DepthTo(Rep(r, ops), z + 3 + y) == if DepthTo(r, y) >= 0 then 1 + DepthTo(r, y) else -1
    {
      RepDepth(r, ops, z + 3 + y);
      DepthBounds(r, y);
      OutOfRange(r, |Gen(r)|);
    }
  }

  lemma EmbedsFirst(l: Re, r: Re)
    ensures Embeds(l, Alt(l, r), 3, 0)
  {
    hide Depth, Gen;
    AltLength(l, r);
    forall y | 0 <= y <= |Gen(l)|
      ensures DepthTo(Alt(l, r), 3 + y) == if DepthTo(l, y) >= 0 then 0 + DepthTo(l, y) else -1
    {
      AltDepth(l, r, 3 + y);
      DepthBounds(l, y);
    }
  }

  lemma EmbedsSecond(l: Re, r: Re)
    ensures Embeds(r, Alt(l, r), 6 + |Gen(l)|, 0)
  {
    hide Depth, Gen;
    AltLength(l, r);
    forall y | 0 <= y <= |Gen(r)|
      ensures DepthTo(Alt(l, r), 6 + |Gen(l)| + y) == if DepthTo(r, y) >= 0 then 0 + DepthTo(r, y) else -1
    {
      if y < |Gen(r)| { AltDepth(l, r, 6 + |Gen(l)| + y); }
      DepthBounds(r, y);
    }
  }

  // ---- every command of the code of a tree

  lemma LeafFlow(re: Re, m: nat, code: seq<byte>, a: nat)
    requires re.Run? || re.Any? || re.Set? || re.Bol? || re.Eol?
    requires Holds(code, a, Gen(re)) && Sized(re)
    ensures |Gen(re)| > 0 && FlowOk(re, m, code, a, 0)
  {
    hide Holds, BitOf, InItems, Target;
    var g := Gen(re);
    HoldsLength(code, a, g);
    HoldsAt(code, a, g, 0);
    if re.Run? {
      HoldsAt(code, a, g, 1);
      RunBelow(re);
    } else if re.Set? {
      SetFlow(re, m, code, a);
    } else {
      assert Below(re, 1, 0);
    }
  }

  lemma RunBelow(re: Re)
    requires re.Run? && Sized(re)
    ensures |Gen(re)| == 2 + |re.lits| && Below(re, 2 + |re.lits|, 0) && Depth(re, 0) == 0 && Solid(re, 0, 2 + |re.lits|)
  {
  }

  lemma SetFlow(re: Re, m: nat, code: seq<byte>, a: nat)
    requires re.Set? && Holds(code, a, Gen(re)) && Sized(re)
    ensures |Gen(re)| > 0 && a + |Gen(re)| <= |code| && FlowOk(re, m, code, a, 0)
  {
    hide Holds, BitOf, InItems, Target;
    var g, n := Gen(re), |re.bits|;
    HoldsLength(code, a, g);
    HoldsAt(code, a, g, 0);
    HoldsAt(code, a, g, 1);
    HoldsAt(code, a, g, 2 + n);
    HoldsAt(code, a, g, 3 + n);
    assert g[2 + n] == 0 && g[3 + n] == 0;
    assert Depth(re, 0) == 0 && Below(re, 4 + n, 0) && Solid(re, 0, 4 + n);
  }

  lemma HoldsLength(code: seq<byte>, a: nat, g: seq<byte>)
    requires Holds(code, a, g)
    ensures a + |g| <= |code|
  {
  }

  lemma GroupFlow(n: byte, body: Re, m: nat, code: seq<byte>, a: nat)
    requires Holds(code, a, Gen(Group(n, body))) && n < m
    ensures |Gen(Group(n, body))| == |Gen(body)| + 4
    ensures FlowOk(Group(n, body), m, code, a, 0) && FlowOk(Group(n, body), m, code, a, 2 + |Gen(body)|)
  {
    hide Holds, Target, Gen, Depth;
    var re := Group(n, body);
    EmbedsGroup(n, body);
    GroupDepth(n, body, 0);
    GroupDepth(n, body, 1);
    GroupDepth(n, body, 2 + |Gen(body)|);
    GroupDepth(n, body, 3 + |Gen(body)|);
    HoldsLength(code, a, Gen(re));
    GroupParts(code, a, n, body);
    HoldsAt(code, a, [START_MEMORY, n], 0);
    HoldsAt(code, a, [START_MEMORY, n], 1);
    HoldsAt(code, a + 2 + |Gen(body)|, [STOP_MEMORY, n], 0);
    HoldsAt(code, a + 2 + |Gen(body)|, [STOP_MEMORY, n], 1);
    DepthStart(body);
    EmbeddedAt(body, re, 2, 0, 0);
    OutOfRange(body, -1);
    OutOfRange(body, |Gen(body)| + 1);
    assert Solid(re, 0, 2) && Solid(re, 2 + |Gen(body)|, 4 + |Gen(body)|);
  }

  lemma EmbeddedAt(inner: Re, outer: Re, x: nat, c: nat, y: nat)
    requires Embeds(inner, outer, x, c) && y <= |Gen(inner)|
    ensures x + y <= |Gen(outer)| && DepthTo(outer, x + y) == if DepthTo(inner, y) >= 0 then c + DepthTo(inner, y) else -1
  {
  }

  lemma AltFlow(l: Re, r: Re, m: nat, code: seq<byte>, a: nat)
    requires Holds(code, a, Gen(Alt(l, r))) && Short(Alt(l, r))
    ensures |Gen(Alt(l, r))| == |Gen(l)| + 6 + |Gen(r)|
    ensures FlowOk(Alt(l, r), m, code, a, 0) && FlowOk(Alt(l, r), m, code, a, 3 + |Gen(l)|)
  {
    hide Holds, Target, Gen, Depth, JumpCode;
    var re, x := Alt(l, r), 3 + |Gen(l)|;
    AltLength(l, r);
    HoldsLength(code, a, Gen(re));
    AltParts(code, a, l, r);
    JumpAt(code, a, ON_FAILURE_JUMP, |Gen(l)| + 3);
    JumpAt(code, a + x, JUMP, JumpDistance(r));
    EmbedsFirst(l, r);
    DepthStart(l);
    EmbeddedAt(l, re, 3, 0, 0);
    EmbedsSecond(l, r);
    DepthStart(r);
    EmbeddedAt(r, re, 6 + |Gen(l)|, 0, 0);
    NextJump(r);
    EmbeddedAt(r, re, 6 + |Gen(l)|, 0, JumpDistance(r));
    AltSolid(l, r);
    AltDepth(l, r, 0);
    AltDepth(l, r, x);
  }

  /** The distance leads to the jump of the next alternative, or to the end. */
  lemma NextJump(r: Re)
    ensures JumpDistance(r) <= |Gen(r)| && DepthTo(r, JumpDistance(r)) == 0
  {
    if r.Alt? {
      AltLength(r.first, r.second);
      AltDepth(r.first, r.second, 3 + |Gen(r.first)|);
    }
  }

  lemma AltSolid(l: Re, r: Re)
    ensures Solid(Alt(l, r), 0, 3) && Solid(Alt(l, r), 3 + |Gen(l)|, 6 + |Gen(l)|)
  {
    hide Depth, Gen;
    AltDepth(l, r, 1);
    AltDepth(l, r, 2);
    AltDepth(l, r, 4 + |Gen(l)|);
    AltDepth(l, r, 5 + |Gen(l)|);
    OutOfRange(l, -2);
    OutOfRange(l, -1);
    OutOfRange(r, -2);
    OutOfRange(r, -1);
  }

  lemma OptionFlow(r: Re, ops: seq<byte>, m: nat, code: seq<byte>, a: nat)
    requires Holds(code, a, Gen(Rep(r, ops))) && Short(Rep(r, ops)) && !ManyOk(ops)
    ensures |Gen(Rep(r, ops))| == |Gen(r)| + 3 && FlowOk(Rep(r, ops), m, code, a, 0)
  {
    hide Holds, Target, Gen, Depth, JumpCode, ManyOk;
    var re := Rep(r, ops);
    RepLength(r, ops);
    HoldsLength(code, a, Gen(re));
    OptionParts(code, a, r, ops);
    JumpAt(code, a, ON_FAILURE_JUMP, |Gen(r)|);
    EmbedsOption(r, ops);
    DepthStart(r);
    EmbeddedAt(r, re, 3, 0, 0);
    EmbeddedAt(r, re, 3, 0, |Gen(r)|);
    RepDepth(r, ops, 0);
    RepDepth(r, ops, 1);
    RepDepth(r, ops, 2);
    OutOfRange(r, -2);
    OutOfRange(r, -1);
  }

  lemma LoopFlow(r: Re, ops: seq<byte>, m: nat, code: seq<byte>, a: nat, z: nat)
    requires Holds(code, a + z, LoopCode(Gen(r))) && Short(Rep(r, ops)) && ManyOk(ops) && z == if ZeroOk(ops) then 0 else 3
    requires a + |Gen(Rep(r, ops))| <= |code|
    ensures |Gen(Rep(r, ops))| == z + |Gen(r)| + 6
    ensures FlowOk(Rep(r, ops), m, code, a, z) && FlowOk(Rep(r, ops), m, code, a, z + 3 + |Gen(r)|)
  {
    hide Holds, Target, Gen, Depth, JumpCode, ManyOk, ZeroOk, LoopCode;
    var re, n := Rep(r, ops), |Gen(r)|;
    RepLength(r, ops);
    LoopParts(code, a + z, Gen(r));
    JumpAt(code, a + z, ON_FAILURE_JUMP, n + 3);
    JumpAt(code, a + z + 3 + n, MAYBE_FINALIZE_JUMP, -(n + 6));
    EmbedsLoop(r, ops, z);
    DepthStart(r);
    EmbeddedAt(r, re, z + 3, 1, 0);
    RepDepth(r, ops, z);
    RepDepth(r, ops, z + 3 + n);
    LoopSolid(r, ops, z);
  }

  lemma LoopSolid(r: Re, ops: seq<byte>, z: nat)
    requires ManyOk(ops) && z == if ZeroOk(ops) then 0 else 3
    ensures Solid(Rep(r, ops), z, z + 3) && Solid(Rep(r, ops), z + 3 + |Gen(r)|, z + 6 + |Gen(r)|)
  {
    hide Gen, ManyOk, ZeroOk, Depth;
    var n := |Gen(r)|;
    RepLength(r, ops);
    RepDepth(r, ops, z + 1);
    RepDepth(r, ops, z + 2);
    RepDepth(r, ops, z + 4 + n);
    RepDepth(r, ops, z + 5 + n);
    OutOfRange(r, -2);
    OutOfRange(r, -1);
    OutOfRange(r, n + 1);
    OutOfRange(r, n + 2);
  }

  lemma PlusFlow(r: Re, ops: seq<byte>, m: nat, code: seq<byte>, a: nat)
    requires Holds(code, a, Gen(Rep(r, ops))) && Short(Rep(r, ops)) && ManyOk(ops) && !ZeroOk(ops)
    ensures |Gen(Rep(r, ops))| == |Gen(r)| + 9 && FlowOk(Rep(r, ops), m, code, a, 0)
  {
    hide Holds, Target, Gen, Depth, JumpCode, ManyOk, ZeroOk, LoopCode;
    var re := Rep(r, ops);
    RepLength(r, ops);
    HoldsLength(code, a, Gen(re));
    PlusParts(code, a, r, ops);
    JumpAt(code, a, DUMMY_FAILURE_JUMP, 3);
    EmbedsLoop(r, ops, 3);
    DepthStart(r);
    EmbeddedAt(r, re, 6, 1, 0);
    LoopParts(code, a + 3, Gen(r));
    JumpAt(code, a + 3, ON_FAILURE_JUMP, |Gen(r)| + 3);
    RepDepth(r, ops, 3);
    RepDepth(r, ops, 0);
    RepDepth(r, ops, 1);
    RepDepth(r, ops, 2);
    OutOfRange(r, -5);
    OutOfRange(r, -4);
  }

  /** Every command of the code of a tree leads where it should. */
  lemma {:induction false} FlowHolds(re: Re, m: nat, code: seq<byte>, a: nat, o: nat)
    requires Holds(code, a, Gen(re)) && Sized(re) && Short(re) && GroupsBelow(re, m)
    requires Depth(re, o) >= 0
    ensures o < |Gen(re)| && a + |Gen(re)| <= |code| && FlowOk(re, m, code, a, o)
    decreases re, 0
  {
    hide Holds, Gen, Depth, FlowOk, ManyOk, ZeroOk, JumpCode, LoopCode;
    InRange(re, o);
    HoldsLength(code, a, Gen(re));
    match re
    case Empty => EmptyCode();
    case Cat(l, r) =>
      CatParts(code, a, l, r);
      CatDepth(l, r, o);
      if o < |Gen(l)| {
        FlowHolds(l, m, code, a, o);
        EmbedsLeft(l, r);
        Lift(l, re, m, code, a, 0, 0, o);
      } else {
        FlowHolds(r, m, code, a + |Gen(l)|, o - |Gen(l)|);
        EmbedsRight(l, r);
        Lift(r, re, m, code, a, |Gen(l)|, 0, o - |Gen(l)|);
      }
    case Group(n, body) =>
      GroupFlow(n, body, m, code, a);
      GroupDepth(n, body, o);
      if o != 0 && o != 2 + |Gen(body)| {
        GroupParts(code, a, n, body);
        InRange(body, o - 2);
        FlowHolds(body, m, code, a + 2, o - 2);
        EmbedsGroup(n, body);
        Lift(body, re, m, code, a, 2, 0, o - 2);
      }
    case Alt(l, r) =>
      AltFlow(l, r, m, code, a);
      AltDepth(l, r, o);
      AltParts(code, a, l, r);
      if o != 0 && o < 3 + |Gen(l)| {
        InRange(l, o - 3);
        FlowHolds(l, m, code, a + 3, o - 3);
        EmbedsFirst(l, r);
        Lift(l, re, m, code, a, 3, 0, o - 3);
      } else if o > 3 + |Gen(l)| {
        InRange(r, o - 6 - |Gen(l)|);
        FlowHolds(r, m, code, a + 6 + |Gen(l)|, o - 6 - |Gen(l)|);
        EmbedsSecond(l, r);
        Lift(r, re, m, code, a, 6 + |Gen(l)|, 0, o - 6 - |Gen(l)|);
      }
    case Rep(r, ops) =>
      RepFlow(r, ops, m, code, a, o);
    case _ =>
      LeafFlow(re, m, code, a);
      LeafDepth(re, o);
  }

  lemma {:induction false} RepFlow(r: Re, ops: seq<byte>, m: nat, code: seq<byte>, a: nat, o: nat)
    requires var re := Rep(r, ops); Holds(code, a, Gen(re)) && Sized(re) && Short(re) && GroupsBelow(re, m)
    requires Depth(Rep(r, ops), o) >= 0 && o < |Gen(Rep(r, ops))| && a + |Gen(Rep(r, ops))| <= |code|
    ensures FlowOk(Rep(r, ops), m, code, a, o)
    decreases r, 1
  {
    hide Holds, Gen, Depth, FlowOk, ManyOk, ZeroOk, JumpCode, LoopCode;
    var re := Rep(r, ops);
    RepDepth(r, ops, o);
    RepLength(r, ops);
    if !ManyOk(ops) {
      OptionFlow(r, ops, m, code, a);
      if o > 0 {
        OptionParts(code, a, r, ops);
        InRange(r, o - 3);
        FlowHolds(r, m, code, a + 3, o - 3);
        EmbedsOption(r, ops);
        Lift(r, re, m, code, a, 3, 0, o - 3);
      }
    } else {
      var z := if ZeroOk(ops) then 0 else 3;
      if ZeroOk(ops) {
        LoopIs(r, ops);
      } else {
        PlusFlow(r, ops, m, code, a);
        PlusParts(code, a, r, ops);
      }
      LoopFlow(r, ops, m, code, a, z);
      if !(o == 0 && z == 3) && o != z && o != z + 3 + |Gen(r)| {
        LoopParts(code, a + z, Gen(r));
        InRange(r, o - z - 3);
        FlowHolds(r, m, code, a + z + 3, o - z - 3);
        EmbedsLoop(r, ops, z);
        Lift(r, re, m, code, a, z + 3, 1, o - z - 3);
      }
    }
  }

  lemma InRange(re: Re, o: int)
    requires Depth(re, o) >= 0
    ensures 0 <= o < |Gen(re)|
  {
  }

  lemma EmptyCode()
    ensures Gen(Empty) == []
  {
  }

  lemma CatParts(code: seq<byte>, a: nat, l: Re, r: Re)
    requires Holds(code, a, Gen(Cat(l, r)))
    ensures Holds(code, a, Gen(l)) && Holds(code, a + |Gen(l)|, Gen(r)) && |Gen(Cat(l, r))| == |Gen(l)| + |Gen(r)|
  {
    HoldsSplit(code, a, Gen(l), Gen(r));
  }

  lemma GroupDepth(n: byte, body: Re, o: nat)
    requires o < |Gen(body)| + 4
    ensures Depth(Group(n, body), o) == if o == 0 || o == 2 + |Gen(body)| then 0 else Depth(body, o - 2)
  {
    EmbedsGroup(n, body);
  }

  lemma LeafDepth(re: Re, o: nat)
    requires (re.Run? || re.Any? || re.Set? || re.Bol? || re.Eol?) && Depth(re, o) >= 0
    ensures o == 0
  {
  }
}
