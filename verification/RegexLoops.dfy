/** Loops over single characters, and what the matcher may drop when one of their turns is over. */
module RegexLoops {
  import opened RegexSets
  import opened RegexTree
  import opened RegexPath
  import opened RegexFlow
  import opened RegexComplete

  /** A pattern that takes one character with one command. */
  predicate OneChar(re: Re) {
    re.Any? || re.Set? || (re.Run? && |re.lits| == 1)
  }

  /** All loops are over single characters. */
  predicate SimpleLoops(re: Re) {
    match re
    case Group(_, body) => SimpleLoops(body)
    case Rep(r, ops) => if ManyOk(ops) then OneChar(r) else SimpleLoops(r)
    case Cat(l, r) => SimpleLoops(l) && SimpleLoops(r)
    case Alt(l, r) => SimpleLoops(l) && SimpleLoops(r)
    case _ => true
  }

  lemma {:induction false} LooplessIsSimple(re: Re)
    requires Loopless(re)
    ensures SimpleLoops(re)
  {
    match re
    case Group(_, body) => LooplessIsSimple(body);
    case Rep(r, _) => LooplessIsSimple(r);
    case Cat(l, r) =>
      LooplessIsSimple(l);
      LooplessIsSimple(r);
    case Alt(l, r) =>
      LooplessIsSimple(l);
      LooplessIsSimple(r);
    case _ =>
  }

  // ---- where the loops are

  /** The loop over `r` stands in the code at `t`. */
  ghost predicate LoopAt(code: seq<byte>, t: nat, r: Re) {
    OneChar(r) && Sized(r) && |Gen(r)| + 6 < 0x8000 && Holds(code, t, LoopCode(Gen(r)))
  }

  /** A command inside a loop is the body of a loop over a single character, or the end of that loop. */
  lemma {:induction false} LoopOf(re: Re, code: seq<byte>, a: nat, o: nat) returns (t: nat, r: Re)
    requires Holds(code, a, Gen(re)) && Sized(re) && Short(re) && SimpleLoops(re) && Depth(re, o) > 0
    ensures LoopAt(code, t, r) && t >= a && (a + o == t + 3 || a + o == t + 3 + |Gen(r)|)
    ensures Depth(re, t - a) == 0 && Depth(re, t - a + 3) == 1
    decreases re, 1
  {
    hide Holds, Gen, Depth, ManyOk, ZeroOk, JumpCode, LoopCode, LoopAt;
    InRange(re, o);
    match re
    case Cat(l, r2) => t, r := LoopInCat(l, r2, code, a, o);
    case Group(n, body) =>
      EmbedsGroup(n, body);
      GroupDepth(n, body, o);
      GroupParts(code, a, n, body);
      InRange(body, o - 2);
      t, r := LoopOf(body, code, a + 2, o - 2);
      LoopWithin(body, re, 2, t - a - 2);
    case Alt(l, r2) => t, r := LoopInAlt(l, r2, code, a, o);
    case Rep(r2, ops) =>
      RepDepth(r2, ops, o);
      RepLength(r2, ops);
      if !ManyOk(ops) {
        OptionParts(code, a, r2, ops);
        InRange(r2, o - 3);
        t, r := LoopOf(r2, code, a + 3, o - 3);
        EmbedsOption(r2, ops);
        LoopWithin(r2, re, 3, t - a - 3);
      } else {
        t, r := a + (if ZeroOk(ops) then 0 else 3), r2;
        ThisLoop(r, ops, code, a, o);
      }
    case _ =>
      LeafFlat(re, o);
      assert false;
  }

  lemma {:induction false} LoopInCat(l: Re, r2: Re, code: seq<byte>, a: nat, o: nat) returns (t: nat, r: Re)
    requires var re := Cat(l, r2);
      Holds(code, a, Gen(re)) && Sized(re) && Short(re) && SimpleLoops(re) && Depth(re, o) > 0 && o < |Gen(re)|
    ensures LoopAt(code, t, r) && t >= a && (a + o == t + 3 || a + o == t + 3 + |Gen(r)|)
    ensures Depth(Cat(l, r2), t - a) == 0 && Depth(Cat(l, r2), t - a + 3) == 1
    decreases Cat(l, r2), 0
  {
    hide Holds, Gen, Depth, LoopAt, Embeds;
    CatParts(code, a, l, r2);
    CatLength(l, r2);
    CatDepth(l, r2, o);
    if o < |Gen(l)| {
      t, r := LoopOf(l, code, a, o);
      EmbedsLeft(l, r2);
      LoopWithin(l, Cat(l, r2), 0, t - a);
    } else {
      t, r := LoopOf(r2, code, a + |Gen(l)|, o - |Gen(l)|);
      EmbedsRight(l, r2);
      LoopWithin(r2, Cat(l, r2), |Gen(l)|, t - a - |Gen(l)|);
    }
  }

  lemma {:induction false} LoopInAlt(l: Re, r2: Re, code: seq<byte>, a: nat, o: nat) returns (t: nat, r: Re)
    requires var re := Alt(l, r2);
      Holds(code, a, Gen(re)) && Sized(re) && Short(re) && SimpleLoops(re) && Depth(re, o) > 0 && o < |Gen(re)|
    ensures LoopAt(code, t, r) && t >= a && (a + o == t + 3 || a + o == t + 3 + |Gen(r)|)
    ensures Depth(Alt(l, r2), t - a) == 0 && Depth(Alt(l, r2), t - a + 3) == 1
    decreases Alt(l, r2), 0
  {
    hide Holds, Gen, Depth, LoopAt, Embeds, JumpCode;
    AltLength(l, r2);
    AltDepth(l, r2, o);
    AltParts(code, a, l, r2);
    if o < 3 + |Gen(l)| {
      InRange(l, o - 3);
      t, r := LoopOf(l, code, a + 3, o - 3);
      EmbedsFirst(l, r2);
      LoopWithin(l, Alt(l, r2), 3, t - a - 3);
    } else {
      InRange(r2, o - 6 - |Gen(l)|);
      t, r := LoopOf(r2, code, a + 6 + |Gen(l)|, o - 6 - |Gen(l)|);
      EmbedsSecond(l, r2);
      LoopWithin(r2, Alt(l, r2), 6 + |Gen(l)|, t - a - 6 - |Gen(l)|);
    }
  }

  lemma LoopWithin(inner: Re, outer: Re, x: nat, o: nat)
    requires Embeds(inner, outer, x, 0) && Depth(inner, o) == 0 && Depth(inner, o + 3) == 1
    ensures Depth(outer, x + o) == 0 && Depth(outer, x + o + 3) == 1
  {
    hide Depth, Gen, Embeds;
    InRange(inner, o);
    InRange(inner, o + 3);
    LiftDepth(inner, outer, x, 0, o);
    LiftDepth(inner, outer, x, 0, o + 3);
  }

  lemma ThisLoop(r: Re, ops: seq<byte>, code: seq<byte>, a: nat, o: nat)
    requires var re := Rep(r, ops); Holds(code, a, Gen(re)) && Sized(re) && Short(re) && Depth(re, o) > 0
    requires ManyOk(ops) && OneChar(r)
    ensures var z := if ZeroOk(ops) then 0 else 3;
      && LoopAt(code, a + z, r) && (o == z + 3 || o == z + 3 + |Gen(r)|)
      && Depth(Rep(r, ops), z) == 0 && Depth(Rep(r, ops), z + 3) == 1
  {
    hide Holds, Gen, Depth, ManyOk, ZeroOk, JumpCode, LoopCode;
    var z := if ZeroOk(ops) then 0 else 3;
    RepLength(r, ops);
    InRange(Rep(r, ops), o);
    RepDepth(r, ops, o);
    RepDepth(r, ops, z);
    RepDepth(r, ops, z + 3);
    DepthStart(r);
    OneCharDepth(r, o - z - 3);
    OneCharDepth(r, 0);
    if ZeroOk(ops) { LoopIs(r, ops); } else { PlusParts(code, a, r, ops); }
  }

  lemma OneCharDepth(r: Re, o: int)
    requires OneChar(r)
    ensures Depth(r, o) == if o == 0 then 0 else -1
    ensures |Gen(r)| > 0
  {
  }

  lemma LeafFlat(re: Re, o: int)
    requires re.Empty? || re.Run? || re.Any? || re.Set? || re.Bol? || re.Eol?
    ensures Depth(re, o) <= 0
  {
  }

  lemma {:induction false} SimpleDepth(re: Re, o: int)
    requires SimpleLoops(re)
    ensures Depth(re, o) <= 1
  {
    hide Gen, ManyOk, ZeroOk, Depth;
    if 0 <= o < |Gen(re)| {
      match re
      case Group(n, body) =>
        EmbedsGroup(n, body);
        GroupDepth(n, body, o);
        SimpleDepth(body, o - 2);
      case Rep(r, ops) =>
        RepDepth(r, ops, o);
        if ManyOk(ops) {
          OneCharDepth(r, o - 3);
          OneCharDepth(r, o - 6);
        } else {
          SimpleDepth(r, o - 3);
        }
      case Cat(l, r) =>
        CatLength(l, r);
        CatDepth(l, r, o);
        SimpleDepth(l, o);
        SimpleDepth(r, o - |Gen(l)|);
      case Alt(l, r) =>
        AltLength(l, r);
        AltDepth(l, r, o);
        SimpleDepth(l, o - 3);
        SimpleDepth(r, o - 6 - |Gen(l)|);
      case _ =>
        LeafFlat(re, o);
    } else {
      OutOfRange(re, o);
    }
  }

  // ---- what follows a loop

  predicate IsMemory(b: byte) {
    b == STOP_MEMORY || b == START_MEMORY
  }

  /** Behind the commands that open and close groups. */
  function SkipMemory(code: seq<byte>, x: nat): (y: nat)
    ensures x <= |code| ==> y <= |code|
    ensures y >= x
    decreases |code| - x
  {
    if x + 1 < |code| && IsMemory(code[x]) then SkipMemory(code, x + 2) else x
  }

  /** The command at `o` may begin with the character `c`: for sure it does not otherwise. */
  predicate Begins(code: seq<byte>, o: nat, c: byte) {
    if o + 2 < |code| && code[o] == EXACTN then code[o + 2] == c
    else if o + 1 < |code| && (code[o] == CHARSET || code[o] == CHARSET_NOT) && o + 2 + code[o + 1] as int <= |code| then
      SetAccepts(code, o, c)
    else true
  }

  /**
   * The test of `maybe_finalize_jump` for the loop that ends at `o`: the code ends behind the loop, or goes on with a
   * character or the end of a line that its body cannot begin with.
   */
  predicate SafeExit(code: seq<byte>, o: nat) {
    && o + 2 < |code| && Target(code, o) >= 0
    && var x := SkipMemory(code, o + 3);
      || x == |code|
      || (x < |code| && code[x] == ENDLINE && !Begins(code, Target(code, o) + 3, NEWLINE))
      || (x + 2 < |code| && code[x] == EXACTN && code[x + 1] > 0 && !Begins(code, Target(code, o) + 3, code[x + 2]))
  }

  /** Groups are opened and closed without moving in the string. */
  lemma {:induction false} Skips(code: seq<byte>, s: seq<byte>, x: nat, i: nat, e: Config)
    ensures Leads(code, s, At(x, i), At(SkipMemory(code, x), i))
    ensures e.pc == |code| && Leads(code, s, At(x, i), e) ==> Leads(code, s, At(SkipMemory(code, x), i), e)
    decreases |code| - x
  {
    hide Leads;
    if x + 1 < |code| && IsMemory(code[x]) {
      assert Succ(code, s, At(x, i)) == [At(x + 2, i)];
      Skips(code, s, x + 2, i, e);
      LeadsStep(code, s, At(x, i), At(x + 2, i), At(SkipMemory(code, x), i));
      if e.pc == |code| && Leads(code, s, At(x, i), e) {
        var c := LeadsFirst(code, s, At(x, i), e);
      }
    } else {
      LeadsSelf(code, s, At(x, i));
    }
  }

  /** The body of a loop begins with what it takes, and then the loop ends. */
  lemma BodyTakes(code: seq<byte>, t: nat, r: Re, s: seq<byte>, i: nat, c: Config)
    requires LoopAt(code, t, r) && c in Succ(code, s, At(t + 3, i))
    ensures c == At(t + 3 + |Gen(r)|, i + 1) && i < |s| && Begins(code, t + 3, s[i])
  {
    hide Holds, JumpCode, SetAccepts;
    LoopParts(code, t, Gen(r));
    HoldsAt(code, t + 3, Gen(r), 0);
    if r.Run? {
      HoldsAt(code, t + 3, Gen(r), 1);
      HoldsAt(code, t + 3, Gen(r), 2);
      RunTakes(code, t + 3, s, i, c);
    } else if r.Set? {
      HoldsAt(code, t + 3, Gen(r), 1);
      SetTakes(code, t + 3, s, i, c);
    } else {
      AnyTakes(code, t + 3, s, i, c);
    }
  }

  lemma RunTakes(code: seq<byte>, o: nat, s: seq<byte>, i: nat, c: Config)
    requires o + 2 < |code| && code[o] == EXACTN && code[o + 1] == 1 && c in Succ(code, s, At(o, i))
    ensures c == At(o + 3, i + 1) && i < |s| && Begins(code, o, s[i])
  {
    assert s[i..i + 1][0] == code[o + 2..o + 3][0];
  }

  lemma SetTakes(code: seq<byte>, o: nat, s: seq<byte>, i: nat, c: Config)
    requires o + 1 < |code| && (code[o] == CHARSET || code[o] == CHARSET_NOT) && c in Succ(code, s, At(o, i))
    ensures c == At(o + 4 + code[o + 1] as int, i + 1) && i < |s| && Begins(code, o, s[i])
  {
    hide SetAccepts;
  }

  lemma AnyTakes(code: seq<byte>, o: nat, s: seq<byte>, i: nat, c: Config)
    requires o < |code| && code[o] == ANYCHAR && c in Succ(code, s, At(o, i))
    ensures c == At(o + 1, i + 1) && i < |s| && Begins(code, o, s[i])
  {
  }

  /** The two jumps of a loop. */
  lemma LoopJumps(code: seq<byte>, t: nat, r: Re)
    requires LoopAt(code, t, r)
    ensures var e := t + 3 + |Gen(r)|;
      && e + 2 < |code|
      && code[t] == ON_FAILURE_JUMP && Target(code, t) == e + 3 && code[e] == MAYBE_FINALIZE_JUMP && Target(code, e) == t
    ensures code[t + 3] in {EXACTN, ANYCHAR, CHARSET, CHARSET_NOT}
  {
    hide Holds, JumpCode, Target;
    LoopParts(code, t, Gen(r));
    JumpAt(code, t, ON_FAILURE_JUMP, |Gen(r)| + 3);
    JumpAt(code, t + 3 + |Gen(r)|, MAYBE_FINALIZE_JUMP, -(|Gen(r)| + 6));
    HoldsAt(code, t + 3, Gen(r), 0);
  }

  /**
   * A loop over a single character has made one more turn, and its end is safe. The way out before that turn leads
   * nowhere, or to the end of the code, and then the way out after the turn leads there too, and further.
   */
  lemma TurnIsOver(code: seq<byte>, t: nat, r: Re, s: seq<byte>, i: nat, j: nat)
    requires LoopAt(code, t, r) && SafeExit(code, t + 3 + |Gen(r)|)
    requires i < |s| && Begins(code, t + 3, s[i])
    requires Leads(code, s, At(t + 6 + |Gen(r)|, i), At(|code|, j))
    ensures j == i && Leads(code, s, At(t, i + 1), At(|code|, i + 1))
  {
    hide Leads, Target, Extract, Begins, LoopAt;
    LoopJumps(code, t, r);
    var x := t + 6 + |Gen(r)|;
    var y := SkipMemory(code, x);
    Skips(code, s, x, i, At(|code|, j));
    if y == |code| {
      EndsThere(code, s, i, j);
      Skips(code, s, x, i + 1, At(|code|, i + 1));
      assert At(x, i + 1) in Succ(code, s, At(t, i + 1)) by {
        assert Succ(code, s, At(t, i + 1)) == [At(t + 3, i + 1)] + [At(x, i + 1)];
      }
      LeadsStep(code, s, At(t, i + 1), At(x, i + 1), At(|code|, i + 1));
    } else {
      var c := LeadsFirst(code, s, At(y, i), At(|code|, j));
      NotBegun(code, s, y, i);
      assert false;
    }
  }

  lemma NotBegun(code: seq<byte>, s: seq<byte>, y: nat, i: nat)
    requires i < |s| && y < |code|
    requires (code[y] == ENDLINE && s[i] != NEWLINE)
      || (y + 2 < |code| && code[y] == EXACTN && code[y + 1] > 0 && s[i] != code[y + 2])
    ensures Succ(code, s, At(y, i)) == []
  {
    if code[y] == EXACTN {
      var n := code[y + 1] as int;
      if y + 2 + n <= |code| && i + n <= |s| {
        assert s[i..i + n][0] == s[i] && code[y + 2..y + 2 + n][0] == code[y + 2];
      }
    }
  }
}
