/** `re_match` of regex.c: the backtracking matcher, its failure stack, and its rewriting of the code. */
module RegexVm {
  import opened Arith
  import opened RegexSets
  import opened RegexTree
  import opened RegexPath
  import opened RegexFlow
  import opened RegexComplete
  import opened RegexLoops
  import opened RegexMachine

  /** How a call ends: at a position of the string, without a match, with a full stack, or out of steps. */
  datatype Result = Matched(length: int) | NoMatch | Overflow | OutOfSteps

  /** A place that the matcher may go on from when there are `k` failure points. */
  ghost predicate PlaceOk(re: Re, s: seq<byte>, pos: nat, k: nat, pc: nat, d: nat) {
    && pc <= |Gen(re)| && 0 <= DepthTo(re, pc) <= k
    && pos <= d <= |s| && Reachable(Gen(re), s, pos, At(pc, d))
  }

  ghost predicate StackOk(re: Re, s: seq<byte>, pos: nat, stack: seq<Failure>) {
    forall k :: 0 <= k < |stack| && stack[k].Point? ==> PlaceOk(re, s, pos, k, stack[k].pc, stack[k].d)
  }

  lemma StackPush(re: Re, s: seq<byte>, pos: nat, stack: seq<Failure>, f: Failure)
    requires StackOk(re, s, pos, stack) && (f.Point? ==> PlaceOk(re, s, pos, |stack|, f.pc, f.d))
    ensures StackOk(re, s, pos, stack + [f])
  {
    hide PlaceOk;
  }

  lemma StackPop(re: Re, s: seq<byte>, pos: nat, stack: seq<Failure>)
    requires StackOk(re, s, pos, stack) && stack != []
    ensures StackOk(re, s, pos, stack[..|stack| - 1])
    ensures var f := stack[|stack| - 1]; f.Point? ==> PlaceOk(re, s, pos, |stack| - 1, f.pc, f.d)
  {
    hide PlaceOk;
  }

  /** The code as the matcher left it: loop ends may have been rewritten to one of two other jumps, one if that is safe. */
  ghost predicate Alike(buf: seq<byte>, re: Re) {
    && |buf| == |Gen(re)|
    && forall x :: 0 <= x < |buf| ==>
         buf[x] == Gen(re)[x]
         || (Depth(re, x) >= 0 && Gen(re)[x] == MAYBE_FINALIZE_JUMP
             && (buf[x] == JUMP || (buf[x] == FINALIZE_JUMP && SafeExit(Gen(re), x))))
  }

  /** Operands are never rewritten, nor are commands other than loop ends. */
  lemma SameByte(buf: seq<byte>, re: Re, x: nat)
    requires Alike(buf, re) && x < |buf| && (Depth(re, x) < 0 || Gen(re)[x] != MAYBE_FINALIZE_JUMP)
    ensures buf[x] == Gen(re)[x]
  {
  }

  lemma AlikeItself(re: Re)
    ensures Alike(Gen(re), re)
  {
  }

  lemma RewriteLoopEnd(buf: seq<byte>, re: Re, x: nat, op: byte)
    requires Alike(buf, re) && x < |buf| && Depth(re, x) >= 0 && Gen(re)[x] == MAYBE_FINALIZE_JUMP
    requires op == JUMP || (op == FINALIZE_JUMP && SafeExit(Gen(re), x))
    ensures Alike(buf[x := op], re)
  {
  }

  /** What a tree must be for its code to be run: its numbers fit. */
  ghost predicate Runnable(re: Re, regs: nat) {
    Sized(re) && Short(re) && GroupsBelow(re, regs)
  }

  lemma Flow(re: Re, regs: nat, pc: nat)
    requires Runnable(re, regs) && pc < |Gen(re)| && DepthTo(re, pc) >= 0
    ensures FlowOk(re, regs, Gen(re), 0, pc) && Depth(re, pc) == DepthTo(re, pc)
  {
    assert Gen(re)[0..0 + |Gen(re)|] == Gen(re);
    FlowHolds(re, regs, Gen(re), 0, pc);
  }

  /** A step that the code allows leads to a place that is all right. */
  lemma Advance(re: Re, s: seq<byte>, pos: nat, k: nat, pc: nat, d: nat, c: Config, k': nat)
    requires PlaceOk(re, s, pos, k, pc, d) && c in Succ(Gen(re), s, At(pc, d)) && Below(re, c.pc, k')
    ensures PlaceOk(re, s, pos, k', c.pc, c.i)
  {
    hide Succ, Reachable, Gen, DepthTo;
    Forward(Gen(re), s, At(pc, d), c);
    ReachStep(Gen(re), s, pos, At(pc, d), c);
  }

  /** Commands move forward in the string, and not past its end. */
  lemma Forward(code: seq<byte>, s: seq<byte>, c: Config, c': Config)
    requires c' in Succ(code, s, c) && c.i <= |s|
    ensures c.i <= c'.i <= |s|
  {
  }

  /** How many words the failure points take. */
  function Items(stack: seq<Failure>): nat {
    if stack == [] then 0 else Items(stack[..|stack| - 1]) + 3 * |stack[|stack| - 1].regs| + 3
  }

  lemma ItemsPush(stack: seq<Failure>, f: Failure)
    ensures Items(stack + [f]) == Items(stack) + 3 * |f.regs| + 3
  {
    assert (stack + [f])[..|stack|] == stack;
  }

  lemma {:induction false} ItemsBound(stack: seq<Failure>, n: nat)
    requires n > 0 && forall k :: 0 <= k < |stack| ==> |stack[k].regs| < n
    ensures Items(stack) <= |stack| * (3 * n)
  {
    if stack != [] { ItemsBound(stack[..|stack| - 1], n); }
  }

  /** A stack for which there is no space has as many failure points as allowed. */
  lemma StackIsFull(stack: seq<Failure>, n: nat, last: nat, room: nat, max: nat)
    requires last < n && (forall k :: 0 <= k < |stack| ==> |stack[k].regs| < n) && room <= Items(stack) + 3 * last + 2
    requires room > max * (n * 3 + 2)
    ensures |stack| >= max
  {
    ItemsBound(stack, n);
    var w := n * 3;
    assert (|stack| + 1) * w == |stack| * w + w;
    if |stack| < max {
      MulMono(|stack| + 1, max, w);
      MulMono(w, w + 2, max);
    }
  }

  /** Some failure point leads to `e`. */
  ghost predicate Saved(code: seq<byte>, s: seq<byte>, stack: seq<Failure>, e: Config) {
    exists k :: 0 <= k < |stack| && LeadsFrom(code, s, stack[k], e)
  }

  ghost predicate LeadsFrom(code: seq<byte>, s: seq<byte>, f: Failure, e: Config) {
    f.Point? && Leads(code, s, At(f.pc, f.d), e)
  }

  predicate Is(code: seq<byte>, pc: nat, op: byte) {
    pc < |code| && code[pc] == op
  }

  /** The end of a loop whose latest failure point may go. */
  ghost predicate TurnOver(code: seq<byte>, s: seq<byte>, c: Config, st0: seq<Failure>, c': Config, st: seq<Failure>) {
    && Is(code, c.pc, MAYBE_FINALIZE_JUMP) && SafeExit(code, c.pc)
    && Succ(code, s, c) == [c'] && c'.pc < c.pc && st0 != [] && st == st0[..|st0| - 1]
  }

  /** The matcher took the command at `c` as the code says: on to all that it leads to, or back from where it leads nowhere. */
  ghost predicate Moved(code: seq<byte>, s: seq<byte>, c: Config, st0: seq<Failure>, v: Verdict, c': Config, st: seq<Failure>) {
    match v
    case Go =>
      || (st == st0 && Succ(code, s, c) == [c'] && !Is(code, c.pc, DUMMY_FAILURE_JUMP))
      || (|st| == |st0| + 1 && st[..|st0|] == st0 && st[|st0|].Dummy? && Succ(code, s, c) == [c']
          && Is(code, c.pc, DUMMY_FAILURE_JUMP))
      || (|st| == |st0| + 1 && st[..|st0|] == st0 && st[|st0|].Point?
          && Succ(code, s, c) == [c', At(st[|st0|].pc, st[|st0|].d)])
      || TurnOver(code, s, c, st0, c', st)
    case Fail => st == st0 && Succ(code, s, c) == []
    case Full => true
  }

  /** Nothing that could be reached before such a step is out of reach after it, unless a turn of a loop is over. */
  lemma MovedKeeps(code: seq<byte>, s: seq<byte>, c: Config, st0: seq<Failure>, v: Verdict, c': Config, st: seq<Failure>,
      e: Config)
    requires Moved(code, s, c, st0, v, c', st) && v != Full && c != e
    requires Leads(code, s, c, e) || Saved(code, s, st0, e)
    ensures (v == Go && Leads(code, s, c', e)) || Saved(code, s, st, e)
      || (v == Go && TurnOver(code, s, c, st0, c', st) && LeadsFrom(code, s, st0[|st0| - 1], e))
  {
    hide Succ, Leads, SafeExit;
    if Saved(code, s, st0, e) {
      var k :| 0 <= k < |st0| && LeadsFrom(code, s, st0[k], e);
      if k < |st| { assert st[k] == st0[k]; }
    } else {
      var m := LeadsFirst(code, s, c, e);
      if m != c' {
        assert LeadsFrom(code, s, st[|st0|], e);
      }
    }
  }

  /** What a failure point stands for when all loops are over single characters: a place outside of loops. */
  ghost predicate Flat(re: Re, stack: seq<Failure>) {
    forall k :: 0 <= k < |stack| && stack[k].Point? ==> DepthTo(re, stack[k].pc) == 0
  }

  /**
   * In the loop over a single character at `t`, before or behind the character: the latest failure point is a dummy, or
   * the way out from before the character.
   */
  ghost predicate InTurn(code: seq<byte>, s: seq<byte>, t: nat, r: Re, c: Config, f: Failure) {
    && LoopAt(code, t, r)
    && (c.pc == t + 3 || c.pc == t + 3 + |Gen(r)|)
    && (f.Point? ==>
          && f.pc == t + 6 + |Gen(r)|
          && if c.pc == t + 3 then f.d == c.i else f.d + 1 == c.i && f.d < |s| && Begins(code, t + 3, s[f.d]))
  }

  ghost predicate Turning(code: seq<byte>, s: seq<byte>, c: Config, f: Failure) {
    exists t, r :: InTurn(code, s, t, r, c, f)
  }

  /** Where the matcher is in loops over single characters. */
  ghost predicate Tracked(re: Re, s: seq<byte>, c: Config, stack: seq<Failure>) {
    && Flat(re, stack)
    && (DepthTo(re, c.pc) > 0 ==> stack != [] && Turning(Gen(re), s, c, stack[|stack| - 1]))
  }

  lemma TrackedStart(re: Re, s: seq<byte>, pos: nat)
    ensures Tracked(re, s, At(0, pos), [])
  {
    hide DepthTo;
    DepthStart(re);
  }

  lemma TrackedFlat(re: Re, s: seq<byte>, c: Config, stack: seq<Failure>)
    requires Tracked(re, s, c, stack)
    ensures Flat(re, stack)
  {
    hide DepthTo, Flat;
  }

  lemma TrackedStep(re: Re, regs: nat, s: seq<byte>, c: Config, st0: seq<Failure>, c': Config, st: seq<Failure>)
    requires Runnable(re, regs) && SimpleLoops(re) && c.pc < |Gen(re)| && DepthTo(re, c.pc) >= 0
    requires Tracked(re, s, c, st0) && Moved(Gen(re), s, c, st0, Go, c', st)
    ensures Tracked(re, s, c', st)
  {
    hide Gen, DepthTo, Moved, InTurn, Flat, Runnable, SimpleLoops;
    if DepthTo(re, c.pc) > 0 {
      var t, r :| InTurn(Gen(re), s, t, r, c, st0[|st0| - 1]);
      TrackedInside(re, regs, s, c, st0, c', st, t, r);
    } else {
      TrackedOutside(re, regs, s, c, st0, c', st);
    }
  }

  /** Only choices lead to two places. */
  lemma OneWay(code: seq<byte>, s: seq<byte>, c: Config)
    ensures |Succ(code, s, c)| > 1 ==> Is(code, c.pc, ON_FAILURE_JUMP)
    ensures c.pc + 2 < |code| && IsJump(code[c.pc]) && Target(code, c.pc) >= 0 ==>
      Succ(code, s, c) == [At(Target(code, c.pc), c.i)]
    ensures c.pc + 2 < |code| && code[c.pc] == ON_FAILURE_JUMP && Target(code, c.pc) >= 0 ==>
      Succ(code, s, c) == [At(c.pc + 3, c.i), At(Target(code, c.pc), c.i)]
  {
  }

  lemma TrackedInside(re: Re, regs: nat, s: seq<byte>, c: Config, st0: seq<Failure>, c': Config, st: seq<Failure>, t: nat,
      r: Re)
    requires Runnable(re, regs) && SimpleLoops(re) && c.pc < |Gen(re)| && DepthTo(re, c.pc) >= 0
    requires st0 != [] && InTurn(Gen(re), s, t, r, c, st0[|st0| - 1]) && Flat(re, st0)
    requires Moved(Gen(re), s, c, st0, Go, c', st)
    ensures Tracked(re, s, c', st)
  {
    hide Gen, Depth, DepthTo, Target, Succ, Runnable, SimpleLoops, SafeExit, LoopAt, Begins;
    var code := Gen(re);
    LoopJumps(code, t, r);
    OneWay(code, s, c);
    if c.pc == t + 3 {
      BodyTakes(code, t, r, s, c.i, c');
      assert InTurn(code, s, t, r, c', st[|st| - 1]);
    } else {
      LoopEndFlat(re, regs, c.pc);
      assert c' == At(t, c.i);
    }
  }

  /** The end of a loop over a single character leads out of it. */
  lemma LoopEndFlat(re: Re, regs: nat, o: nat)
    requires Runnable(re, regs) && SimpleLoops(re) && o < |Gen(re)| && DepthTo(re, o) >= 0
    requires Gen(re)[o] == MAYBE_FINALIZE_JUMP
    ensures o + 2 < |Gen(re)| && Target(Gen(re), o) >= 0 && DepthTo(re, Target(Gen(re), o)) == 0 && DepthTo(re, o) == 1
  {
    hide Gen, Depth, DepthTo, Target, SimpleLoops, Runnable, Solid;
    Flow(re, regs, o);
    SimpleDepth(re, o);
  }

  lemma TrackedOutside(re: Re, regs: nat, s: seq<byte>, c: Config, st0: seq<Failure>, c': Config, st: seq<Failure>)
    requires Runnable(re, regs) && SimpleLoops(re) && c.pc < |Gen(re)| && DepthTo(re, c.pc) == 0
    requires Flat(re, st0) && Moved(Gen(re), s, c, st0, Go, c', st)
    ensures Tracked(re, s, c', st)
  {
    hide Gen, Depth, DepthTo, Target, Succ, Runnable, SimpleLoops, SafeExit, InTurn;
    var code := Gen(re);
    OneWay(code, s, c);
    if TurnOver(code, s, c, st0, c', st) {
      LoopEndFlat(re, regs, c.pc);
    } else if |st| == |st0| {
      StaysOut(re, regs, s, c, c');
    } else if st[|st0|].Dummy? {
      if DepthTo(re, c'.pc) > 0 { IntoLoop(re, regs, s, c', st[|st0|]); }
    } else {
      ChoiceFlat(re, regs, s, c, c', st[|st0|]);
    }
  }

  /** Other commands outside of loops lead to places outside of loops. */
  lemma StaysOut(re: Re, regs: nat, s: seq<byte>, c: Config, c': Config)
    requires Runnable(re, regs) && c.pc < |Gen(re)| && DepthTo(re, c.pc) == 0
    requires Succ(Gen(re), s, c) == [c'] && !Is(Gen(re), c.pc, DUMMY_FAILURE_JUMP)
    ensures DepthTo(re, c'.pc) == 0
  {
    hide Gen, Depth, DepthTo, Extract, SetAccepts, Runnable, Solid;
    Flow(re, regs, c.pc);
  }

  lemma IntoLoop(re: Re, regs: nat, s: seq<byte>, c: Config, f: Failure)
    requires Runnable(re, regs) && SimpleLoops(re) && DepthTo(re, c.pc) > 0 && f.Dummy?
    ensures Turning(Gen(re), s, c, f)
  {
    hide Gen, Depth, SimpleLoops, LoopAt, Begins, DepthTo;
    DepthOf(re, c.pc);
    HoldsItself(Gen(re));
    var t, r := LoopOf(re, Gen(re), 0, c.pc);
    assert InTurn(Gen(re), s, t, r, c, f);
  }

  /** A choice outside of loops: the other way is outside too, and if this one leads into a loop, it leads out of that. */
  lemma ChoiceFlat(re: Re, regs: nat, s: seq<byte>, c: Config, c': Config, f: Failure)
    requires Runnable(re, regs) && SimpleLoops(re) && c.pc < |Gen(re)| && DepthTo(re, c.pc) == 0
    requires f.Point? && Succ(Gen(re), s, c) == [c', At(f.pc, f.d)]
    ensures DepthTo(re, f.pc) == 0
    ensures DepthTo(re, c'.pc) > 0 ==> Turning(Gen(re), s, c', f)
  {
    hide Gen, Depth, SimpleLoops, LoopAt, Begins, Succ, Target, Solid, DepthTo;
    var code := Gen(re);
    OneWay(code, s, c);
    Flow(re, regs, c.pc);
    assert c' == At(c.pc + 3, c.i) && f.pc == Target(code, c.pc) && f.d == c.i;
    if DepthTo(re, c'.pc) > 0 {
      HoldsItself(code);
      DepthOf(re, c'.pc);
      var t, r := LoopOf(re, code, 0, c'.pc);
      LoopJumps(code, t, r);
      ChoiceIsLoop(re, regs, c.pc, t, r);
      assert InTurn(code, s, t, r, c', f);
    }
  }

  lemma DepthOf(re: Re, o: int)
    requires DepthTo(re, o) > 0
    ensures Depth(re, o) == DepthTo(re, o)
  {
  }

  /** The choice in front of a loop body is that of the loop. */
  lemma ChoiceIsLoop(re: Re, regs: nat, o: nat, t: nat, r: Re)
    requires Runnable(re, regs) && o < |Gen(re)| && Gen(re)[o] == ON_FAILURE_JUMP && Depth(re, o) >= 0
    requires LoopAt(Gen(re), t, r) && Depth(re, t) >= 0 && Depth(re, t + 3) >= 0
    requires o + 3 == t + 3 || o + 3 == t + 3 + |Gen(r)|
    ensures o == t
  {
    hide Depth, Gen, Target, Runnable, Below;
    LoopJumps(Gen(re), t, r);
    InRange(re, t);
    InRange(re, t + 3);
    DepthToIs(re, t);
    DepthToIs(re, t + 3);
    Flow(re, regs, t);
    Flow(re, regs, t + 3);
    BodySize(Gen(re), t, r);
  }

  /** When all loops are over single characters, every command brings the rank down. */
  lemma SimpleGoesDown(re: Re, regs: nat, s: seq<byte>, c: Config)
    requires Runnable(re, regs) && SimpleLoops(re) && c.pc < |Gen(re)| && DepthTo(re, c.pc) >= 0 && c.i <= |s|
    ensures GoesDown(Gen(re), s, c)
  {
    hide Gen, Depth, DepthTo, Runnable, SimpleLoops, Succ, Rank, LoopAt, Target;
    var code, n := Gen(re), Succ(Gen(re), s, c);
    forall k | 0 <= k < |n|
      ensures Rank(code, s, n[k]) < Rank(code, s, c)
    {
      assert n[k] in n;
      Forward(code, s, c, n[k]);
      if DepthTo(re, c.pc) > 0 {
        LoopGoesDown(re, regs, s, c, n[k]);
      } else {
        LeadsForward(re, regs, s, c, n[k]);
        RankForward(code, s, c, n[k]);
      }
    }
  }

  lemma LoopGoesDown(re: Re, regs: nat, s: seq<byte>, c: Config, c': Config)
    requires Runnable(re, regs) && SimpleLoops(re) && c.pc < |Gen(re)| && DepthTo(re, c.pc) > 0 && c.i <= |s|
    requires c' in Succ(Gen(re), s, c)
    ensures Rank(Gen(re), s, c') < Rank(Gen(re), s, c)
  {
    hide Gen, Depth, DepthTo, SimpleLoops, Succ, LoopAt, Target, Begins;
    var code := Gen(re);
    DepthOf(re, c.pc);
    HoldsItself(code);
    var t, r := LoopOf(re, code, 0, c.pc);
    LoopJumps(code, t, r);
    OneWay(code, s, c);
    if c.pc == t + 3 {
      BodyTakes(code, t, r, s, c.i, c');
      assert (|s| - c.i) * (|code| + 5) == (|s| - c'.i) * (|code| + 5) + (|code| + 5);
    }
  }

  /** A command outside of loops leads forward, and not to the end of a loop. */
  lemma LeadsForward(re: Re, regs: nat, s: seq<byte>, c: Config, c': Config)
    requires Runnable(re, regs) && SimpleLoops(re) && c.pc < |Gen(re)| && DepthTo(re, c.pc) == 0
    requires c' in Succ(Gen(re), s, c)
    ensures Gen(re)[c.pc] != MAYBE_FINALIZE_JUMP && c'.pc > c.pc
    ensures c'.pc < |Gen(re)| ==> Gen(re)[c'.pc] != MAYBE_FINALIZE_JUMP
  {
    hide Gen, Depth, DepthTo, SimpleLoops, LoopAt, Runnable;
    var code := Gen(re);
    FlatGoes(re, regs, s, c, c');
    hide Succ, Target;
    if c'.pc < |code| {
      if DepthTo(re, c'.pc) == 0 {
        NoLoopEnd(re, regs, c'.pc);
      } else {
        DepthOf(re, c'.pc);
        StillFits(re, regs);
        HoldsItself(code);
        var t, r := LoopOf(re, code, 0, c'.pc);
        LoopJumps(code, t, r);
        ChoiceIsLoop(re, regs, c'.pc - 3, t, r);
      }
    }
  }

  lemma StillFits(re: Re, regs: nat)
    requires Runnable(re, regs)
    ensures Sized(re) && Short(re)
  {
  }

  lemma NoLoopEnd(re: Re, regs: nat, o: nat)
    requires Runnable(re, regs) && o < |Gen(re)| && DepthTo(re, o) == 0
    ensures Gen(re)[o] != MAYBE_FINALIZE_JUMP
  {
    hide Gen, Depth, DepthTo, Runnable, Solid, Target;
    Flow(re, regs, o);
  }

  /** A command outside of loops leads forward; into a loop only behind its choice. */
  lemma FlatGoes(re: Re, regs: nat, s: seq<byte>, c: Config, c': Config)
    requires Runnable(re, regs) && c.pc < |Gen(re)| && DepthTo(re, c.pc) == 0 && c' in Succ(Gen(re), s, c)
    ensures Gen(re)[c.pc] != MAYBE_FINALIZE_JUMP && c.pc < c'.pc <= |Gen(re)| && DepthTo(re, c'.pc) >= 0
    ensures DepthTo(re, c'.pc) > 0 ==>
      c'.pc >= 3 && Gen(re)[c'.pc - 3] == ON_FAILURE_JUMP && Depth(re, c'.pc - 3) >= 0
  {
    hide Gen, Depth, DepthTo, Target, SetAccepts, Runnable, Solid;
    Flow(re, regs, c.pc);
    var op := Gen(re)[c.pc];
    if IsJump(op) || op == ON_FAILURE_JUMP {
      JumpsForward(re, regs, s, c, c');
    }
  }

  lemma JumpsForward(re: Re, regs: nat, s: seq<byte>, c: Config, c': Config)
    requires c.pc < |Gen(re)| && DepthTo(re, c.pc) == 0 == Depth(re, c.pc) && c' in Succ(Gen(re), s, c)
    requires FlowOk(re, regs, Gen(re), 0, c.pc) && (IsJump(Gen(re)[c.pc]) || Gen(re)[c.pc] == ON_FAILURE_JUMP)
    ensures Gen(re)[c.pc] != MAYBE_FINALIZE_JUMP && c.pc < c'.pc <= |Gen(re)| && DepthTo(re, c'.pc) >= 0
    ensures DepthTo(re, c'.pc) > 0 ==>
      c'.pc >= 3 && Gen(re)[c'.pc - 3] == ON_FAILURE_JUMP && Depth(re, c'.pc - 3) >= 0
  {
    hide Gen, Depth, DepthTo, Extract, SetAccepts, Solid;
    if Gen(re)[c.pc] == DUMMY_FAILURE_JUMP { DepthToIs(re, c.pc + 3); }
  }

  lemma RankForward(code: seq<byte>, s: seq<byte>, c: Config, c': Config)
    requires c.pc < |code| && code[c.pc] != MAYBE_FINALIZE_JUMP && c'.pc > c.pc && c.i <= c'.i <= |s|
    requires c'.pc < |code| ==> code[c'.pc] != MAYBE_FINALIZE_JUMP
    ensures Rank(code, s, c') < Rank(code, s, c)
  {
    MulMono(|s| - c'.i, |s| - c.i, |code| + 5);
  }

  lemma DepthToIs(re: Re, o: nat)
    requires o < |Gen(re)|
    ensures DepthTo(re, o) == Depth(re, o)
  {
    hide Gen, Depth;
  }

  lemma BodySize(code: seq<byte>, t: nat, r: Re)
    requires LoopAt(code, t, r)
    ensures t + 4 < |code|
    ensures code[t + 3] == ANYCHAR ==> |Gen(r)| == 1
    ensures code[t + 3] == EXACTN ==> |Gen(r)| == 2 + code[t + 4] as int
    ensures code[t + 3] == CHARSET || code[t + 3] == CHARSET_NOT ==> |Gen(r)| == 4 + code[t + 4] as int
  {
    hide BitOf, JumpCode;
    LoopParts(code, t, Gen(r));
    HoldsAt(code, t + 3, Gen(r), 0);
    if !r.Any? { HoldsAt(code, t + 3, Gen(r), 1); } else { LoopJumps(code, t, r); }
  }

  /** A failure point of the stack is outside of loops. */
  lemma TrackedBack(re: Re, s: seq<byte>, c: Config, st0: seq<Failure>, n: nat)
    requires Flat(re, st0) && n < |st0| && st0[n].Point? && c.pc == st0[n].pc
    ensures Tracked(re, s, c, st0[..n])
  {
    hide DepthTo, Gen;
  }

  /** Where a turn of a loop is over, the failure point that goes leads to no end that is not in reach without it. */
  lemma TurnLosesNothing(re: Re, regs: nat, s: seq<byte>, c: Config, st0: seq<Failure>, c': Config, st: seq<Failure>)
    requires Runnable(re, regs) && SimpleLoops(re) && c.pc < |Gen(re)| && DepthTo(re, c.pc) >= 0
    requires Tracked(re, s, c, st0) && TurnOver(Gen(re), s, c, st0, c', st)
    ensures NothingLost(Gen(re), s, st0[|st0| - 1], c')
  {
    hide Gen, DepthTo, Succ, Leads, Runnable, SimpleLoops, SafeExit, LoopAt, Begins, Flat, Target;
    var code, f := Gen(re), st0[|st0| - 1];
    LoopEndFlat(re, regs, c.pc);
    var t, r :| InTurn(code, s, t, r, c, f);
    LoopJumps(code, t, r);
    OneWay(code, s, c);
    forall j: nat | LeadsFrom(code, s, f, At(|code|, j))
      ensures Leads(code, s, c', At(|code|, j + 1))
    {
      TurnIsOver(code, t, r, s, f.d, j);
    }
  }

  /** An end no shorter than `j` is still to be found. */
  ghost predicate Ahead(code: seq<byte>, s: seq<byte>, live: bool, c: Config, stack: seq<Failure>, j: nat) {
    exists k: nat :: k >= j && IsAhead(code, s, live, c, stack, k)
  }

  ghost predicate IsAhead(code: seq<byte>, s: seq<byte>, live: bool, c: Config, stack: seq<Failure>, k: nat) {
    (live && Leads(code, s, c, At(|code|, k))) || Saved(code, s, stack, At(|code|, k))
  }

  /** For every end that the code reaches, the best one or one still to be found is no shorter. */
  ghost predicate Pending(code: seq<byte>, s: seq<byte>, pos: nat, best: int, live: bool, c: Config, stack: seq<Failure>) {
    forall j: nat :: Reachable(code, s, pos, At(|code|, j)) ==> j <= best || Ahead(code, s, live, c, stack, j)
  }

  lemma PendingStart(code: seq<byte>, s: seq<byte>, pos: nat)
    ensures Pending(code, s, pos, -1, true, At(0, pos), [])
  {
    hide Path;
    forall j: nat | Reachable(code, s, pos, At(|code|, j))
      ensures Ahead(code, s, true, At(0, pos), [], j)
    {
      assert IsAhead(code, s, true, At(0, pos), [], j);
    }
  }

  /** One step, when all loops are over single characters. */
  lemma TrackedOn(re: Re, regs: nat, s: seq<byte>, c: Config, st0: seq<Failure>, v: Verdict, c': Config, st: seq<Failure>)
    requires Runnable(re, regs) && SimpleLoops(re) && c.pc < |Gen(re)| && DepthTo(re, c.pc) >= 0
    requires Tracked(re, s, c, st0) && v != Full && Moved(Gen(re), s, c, st0, v, c', st)
    ensures v == Go ==> Tracked(re, s, c', st)
    ensures v == Go && TurnOver(Gen(re), s, c, st0, c', st) ==> NothingLost(Gen(re), s, st0[|st0| - 1], c')
    ensures Flat(re, st)
  {
    hide Gen, DepthTo, Runnable, SimpleLoops, Succ, NothingLost, Flat, SafeExit, Turning;
    if v == Go {
      TrackedStep(re, regs, s, c, st0, c', st);
      if TurnOver(Gen(re), s, c, st0, c', st) { TurnLosesNothing(re, regs, s, c, st0, c', st); }
    }
  }

  /** Instead of an end that the failure point leads to there is a longer one. */
  ghost predicate NothingLost(code: seq<byte>, s: seq<byte>, f: Failure, c: Config) {
    forall j: nat :: LeadsFrom(code, s, f, At(|code|, j)) ==> Leads(code, s, c, At(|code|, j + 1))
  }

  /** Nothing gets out of sight when points that go lose nothing. */
  lemma PendingStep(code: seq<byte>, s: seq<byte>, pos: nat, best: int, c: Config, st0: seq<Failure>, v: Verdict,
      c': Config, st: seq<Failure>)
    requires Pending(code, s, pos, best, true, c, st0) && c.pc < |code|
    requires Moved(code, s, c, st0, v, c', st) && v != Full
    requires v == Go && TurnOver(code, s, c, st0, c', st) ==> NothingLost(code, s, st0[|st0| - 1], c')
    ensures Pending(code, s, pos, best, v == Go, c', st)
  {
    hide Reachable, Leads, Saved, Moved, TurnOver;
    forall j: nat | Reachable(code, s, pos, At(|code|, j)) && j > best
      ensures Ahead(code, s, v == Go, c', st, j)
    {
      assert Ahead(code, s, true, c, st0, j);
      var k: nat :| k >= j && IsAhead(code, s, true, c, st0, k);
      MovedKeeps(code, s, c, st0, v, c', st, At(|code|, k));
      assert IsAhead(code, s, v == Go, c', st, k) || IsAhead(code, s, v == Go, c', st, k + 1);
    }
  }

  /** On from the latest failure point that is no dummy. */
  lemma PendingBack(code: seq<byte>, s: seq<byte>, pos: nat, best: int, c: Config, st0: seq<Failure>, c': Config,
      st: seq<Failure>)
    requires Pending(code, s, pos, best, false, c, st0) && |st| < |st0| && st == st0[..|st|]
    requires st0[|st|].Point? && c' == At(st0[|st|].pc, st0[|st|].d)
    requires forall k :: |st| < k < |st0| ==> st0[k].Dummy?
    ensures Pending(code, s, pos, best, true, c', st)
  {
    hide Reachable, Leads;
    forall j: nat | Reachable(code, s, pos, At(|code|, j)) && j > best
      ensures Ahead(code, s, true, c', st, j)
    {
      assert Ahead(code, s, false, c, st0, j);
      var i: nat :| i >= j && IsAhead(code, s, false, c, st0, i);
      var e := At(|code|, i);
      var k :| 0 <= k < |st0| && LeadsFrom(code, s, st0[k], e);
      if k < |st| { assert LeadsFrom(code, s, st[k], e); }
      assert IsAhead(code, s, true, c', st, i);
    }
  }

  lemma PendingNone(code: seq<byte>, s: seq<byte>, pos: nat, best: int, c: Config, st0: seq<Failure>)
    requires Pending(code, s, pos, best, false, c, st0) && forall k :: 0 <= k < |st0| ==> st0[k].Dummy?
    ensures forall j: nat :: Reachable(code, s, pos, At(|code|, j)) ==> j <= best
  {
    hide Reachable, Leads;
    forall j: nat | Reachable(code, s, pos, At(|code|, j))
      ensures j <= best
    {
      assert !Ahead(code, s, false, c, st0, j);
    }
  }

  /** At the end of the code: what is found here is found. */
  lemma PendingEnd(code: seq<byte>, s: seq<byte>, pos: nat, best: int, at: nat, st0: seq<Failure>)
    requires Pending(code, s, pos, best, true, At(|code|, at), st0)
    ensures Pending(code, s, pos, if at > best then at else best, false, At(|code|, at), st0)
    ensures st0 == [] ==> forall j: nat :: Reachable(code, s, pos, At(|code|, j)) ==> j <= best || j <= at
  {
    hide Reachable, Leads;
    var c := At(|code|, at);
    forall j: nat | Reachable(code, s, pos, At(|code|, j)) && j > best && j > at
      ensures Ahead(code, s, false, c, st0, j) && st0 != []
    {
      assert Ahead(code, s, true, c, st0, j);
      var k: nat :| k >= j && IsAhead(code, s, true, c, st0, k);
      if Leads(code, s, c, At(|code|, k)) { EndsThere(code, s, at, k); }
      assert IsAhead(code, s, false, c, st0, k);
    }
  }

  // ---- the order of the search in code without loops

  /** What the failure points will come to, the latest first. */
  ghost function Rest(code: seq<byte>, s: seq<byte>, stack: seq<Failure>): seq<int> {
    if stack == [] then []
    else
      var f := stack[|stack| - 1];
      (if f.Point? then Leaves(code, s, At(f.pc, f.d)) else []) + Rest(code, s, stack[..|stack| - 1])
  }

  /** What was come to, what the matcher will come to, and what the failure points will come to is all there is. */
  ghost predicate Visits(code: seq<byte>, s: seq<byte>, all: seq<int>, seen: seq<int>, live: bool, c: Config,
    stack: seq<Failure>)
  {
    && all == seen + (if live then Leaves(code, s, c) else []) + Rest(code, s, stack)
    && forall k :: 0 <= k < |stack| ==> stack[k].Point?
  }

  ghost predicate GoesForward(code: seq<byte>, s: seq<byte>, c: Config) {
    forall k :: 0 <= k < |Succ(code, s, c)| ==> Succ(code, s, c)[k].pc > c.pc
  }

  lemma VisitsStep(code: seq<byte>, s: seq<byte>, all: seq<int>, seen: seq<int>, c: Config, st0: seq<Failure>, v: Verdict,
      c': Config, st: seq<Failure>)
    requires Visits(code, s, all, seen, true, c, st0) && c.pc < |code| && GoesForward(code, s, c)
    requires Moved(code, s, c, st0, v, c', st) && v != Full
    requires v == Go && |st| > |st0| ==> st[|st| - 1].Point?
    ensures Visits(code, s, all, if v == Go then seen else seen + [-1], v == Go, c', st)
  {
    hide Succ, Leaves, GoesForward, Visits, TurnOver;
    NoTurn(code, s, c, st0, c', st);
    LeavesStep(code, s, c);
    if v == Go && |st| > |st0| {
      VisitsChoice(code, s, all, seen, c, st0, c', st);
    } else {
      VisitsOn(code, s, all, seen, c, st0, c');
      if v == Fail { VisitsFail(code, s, all, seen, c, st0, c'); }
    }
  }

  lemma NoTurn(code: seq<byte>, s: seq<byte>, c: Config, st0: seq<Failure>, c': Config, st: seq<Failure>)
    requires GoesForward(code, s, c)
    ensures !TurnOver(code, s, c, st0, c', st)
  {
    hide Succ, SafeExit;
    var n := Succ(code, s, c);
    assert n == [c'] ==> n[0] == c';
  }

  lemma VisitsOn(code: seq<byte>, s: seq<byte>, all: seq<int>, seen: seq<int>, c: Config, st: seq<Failure>, c': Config)
    requires Visits(code, s, all, seen, true, c, st)
    ensures Leaves(code, s, c) == Leaves(code, s, c') ==> Visits(code, s, all, seen, true, c', st)
  {
    hide Leaves, Rest;
  }

  lemma VisitsFail(code: seq<byte>, s: seq<byte>, all: seq<int>, seen: seq<int>, c: Config, st: seq<Failure>, c': Config)
    requires Visits(code, s, all, seen, true, c, st) && Leaves(code, s, c) == [-1]
    ensures Visits(code, s, all, seen + [-1], false, c', st)
  {
    hide Leaves, Rest;
  }

  lemma VisitsChoice(code: seq<byte>, s: seq<byte>, all: seq<int>, seen: seq<int>, c: Config, st0: seq<Failure>, c': Config,
      st: seq<Failure>)
    requires Visits(code, s, all, seen, true, c, st0)
    requires |st| == |st0| + 1 && st[..|st0|] == st0 && st[|st0|].Point?
    requires Leaves(code, s, c) == Leaves(code, s, c') + Leaves(code, s, At(st[|st0|].pc, st[|st0|].d))
    ensures Visits(code, s, all, seen, true, c', st)
  {
    hide Leaves;
    assert st[..|st| - 1] == st0;
    forall k | 0 <= k < |st|
      ensures st[k].Point?
    {
      if k < |st0| { assert st[k] == st0[k]; }
    }
  }

  lemma LeavesStep(code: seq<byte>, s: seq<byte>, c: Config)
    requires c.pc < |code| && GoesForward(code, s, c)
    ensures Succ(code, s, c) == [] ==> Leaves(code, s, c) == [-1]
    ensures forall m :: Succ(code, s, c) == [m] ==> Leaves(code, s, c) == Leaves(code, s, m)
    ensures forall m, m' :: Succ(code, s, c) == [m, m'] ==> Leaves(code, s, c) == Leaves(code, s, m) + Leaves(code, s, m')
  {
    hide Succ;
    var n := Succ(code, s, c);
    if |n| > 0 { assert n[0].pc > c.pc; }
    if |n| > 1 { assert n[1].pc > c.pc; }
  }

  lemma VisitsStart(code: seq<byte>, s: seq<byte>, pos: nat)
    ensures Visits(code, s, Leaves(code, s, At(0, pos)), [], true, At(0, pos), [])
    ensures Largest([]) == -1
  {
    hide Leaves;
    var ls := Leaves(code, s, At(0, pos));
    assert ls == [] + ls + [];
  }

  lemma NoPointLeft(code: seq<byte>, s: seq<byte>, all: seq<int>, seen: seq<int>, c: Config, st0: seq<Failure>)
    requires Visits(code, s, all, seen, false, c, st0) && forall k :: 0 <= k < |st0| ==> st0[k].Dummy?
    ensures st0 == []
  {
    hide Leaves;
  }

  lemma VisitsBack(code: seq<byte>, s: seq<byte>, all: seq<int>, seen: seq<int>, c: Config, st0: seq<Failure>, c': Config,
      st: seq<Failure>)
    requires Visits(code, s, all, seen, false, c, st0) && |st| < |st0| && st == st0[..|st|]
    requires st0[|st|].Point? && c' == At(st0[|st|].pc, st0[|st|].d)
    requires forall k :: |st| < k < |st0| ==> st0[k].Dummy?
    ensures Visits(code, s, all, seen, true, c', st)
  {
    hide Leaves;
    assert |st0| == |st| + 1;
    assert st == st0[..|st0| - 1];
  }

  lemma VisitsEnd(code: seq<byte>, s: seq<byte>, all: seq<int>, seen: seq<int>, at: nat, st0: seq<Failure>)
    requires Visits(code, s, all, seen, true, At(|code|, at), st0)
    ensures Visits(code, s, all, seen + [at], false, At(|code|, at), st0)
  {
    assert Leaves(code, s, At(|code|, at)) == [at];
  }

  /** The commands still to be taken from the failure points. */
  ghost function RestWork(code: seq<byte>, s: seq<byte>, stack: seq<Failure>): nat {
    if stack == [] then 0
    else
      var f := stack[|stack| - 1];
      (if f.Point? then Work(code, s, At(f.pc, f.d)) else 0) + RestWork(code, s, stack[..|stack| - 1])
  }

  lemma WorkStep(code: seq<byte>, s: seq<byte>, c: Config, st0: seq<Failure>, v: Verdict, c': Config, st: seq<Failure>)
    requires Moved(code, s, c, st0, v, c', st) && v != Full && c.pc < |code| && GoesDown(code, s, c)
    ensures Work(code, s, c) + RestWork(code, s, st0)
      >= 1 + (if v == Go then Work(code, s, c') else 0) + RestWork(code, s, st)
  {
    hide Succ, Work, SafeExit;
    WorkUnfolds(code, s, c);
    if v == Go && |st| > |st0| {
      assert st[..|st| - 1] == st0;
    }
  }

  lemma WorkUnfolds(code: seq<byte>, s: seq<byte>, c: Config)
    requires c.pc < |code| && GoesDown(code, s, c)
    ensures forall m :: Succ(code, s, c) == [m] ==> Work(code, s, c) == 1 + Work(code, s, m)
    ensures forall m, m' :: Succ(code, s, c) == [m, m'] ==> Work(code, s, c) == 1 + Work(code, s, m) + Work(code, s, m')
  {
    hide Succ, Rank;
    var n := Succ(code, s, c);
    if |n| > 0 { assert Rank(code, s, n[0]) < Rank(code, s, c); }
    if |n| > 1 { assert Rank(code, s, n[1]) < Rank(code, s, c); }
  }

  lemma {:induction false} WorkBack(code: seq<byte>, s: seq<byte>, st0: seq<Failure>, n: nat)
    requires n < |st0| && st0[n].Point?
    ensures RestWork(code, s, st0) >= Work(code, s, At(st0[n].pc, st0[n].d)) + RestWork(code, s, st0[..n])
    decreases |st0|
  {
    hide Work;
    if n < |st0| - 1 {
      WorkBack(code, s, st0[..|st0| - 1], n);
      assert st0[..|st0| - 1][..n] == st0[..n];
    }
  }

  lemma LargestMore(ls: seq<int>, x: int)
    requires x >= -1
    ensures Largest(ls + [x]) == if x > Largest(ls) then x else Largest(ls)
  {
    assert (ls + [x])[..|ls|] == ls;
  }

  /** The end of the string is chosen when it is come to. */
  lemma PickEnd(code: seq<byte>, s: seq<byte>, all: seq<int>, seen: seq<int>, c: Config, st0: seq<Failure>)
    requires Visits(code, s, all, seen, false, c, st0) && |s| in seen
    ensures all != [] && Pick(all, |s|) == |s|
  {
    var k :| 0 <= k < |seen| && seen[k] == |s|;
    assert all[k] == seen[k];
  }

  /** Where no failure point is left, what was come to last gives way to what was noted before. */
  lemma PickLast(code: seq<byte>, s: seq<byte>, all: seq<int>, seen: seq<int>, x: int, c: Config)
    requires Visits(code, s, all, seen + [x], false, c, []) && |s| !in seen && x != |s|
    ensures all != [] && Pick(all, |s|) == if Largest(seen) >= 0 then Largest(seen) else x
  {
    assert all == seen + [x];
    assert all[..|all| - 1] == seen;
    assert |s| !in all;
  }

  /** What a call answers when `k` is chosen. */
  predicate Answers(r: Result, k: int, pos: int) {
    r == if k >= 0 then Matched(k - pos) else NoMatch
  }

  /**
   * The search is on course: nothing was lost unless a loop was cut; without loops the ends `seen` are those that come
   * first, and the best of them is noted; and with enough steps there are enough left.
   */
  ghost predicate OnCourse(code: seq<byte>, s: seq<byte>, pos: nat, cut: bool, loopless: bool, enough: bool, seen: seq<int>,
    best: int, live: bool, c: Config, stack: seq<Failure>, left: int)
  {
    && (cut || Pending(code, s, pos, best, live, c, stack))
    && (loopless ==>
      && !cut && Visits(code, s, Leaves(code, s, At(0, pos)), seen, live, c, stack)
      && best == Largest(seen) && |s| !in seen)
    && (enough ==> !cut && left >= (if live then Work(code, s, c) else 0) + RestWork(code, s, stack))
  }

  lemma CourseStart(code: seq<byte>, s: seq<byte>, pos: nat, loopless: bool, simple: bool, steps: nat)
    ensures OnCourse(code, s, pos, false, loopless, simple && steps >= Work(code, s, At(0, pos)), [], -1, true, At(0, pos),
      [], steps)
  {
    hide Pending, Visits, Leaves, Work;
    PendingStart(code, s, pos);
    VisitsStart(code, s, pos);
  }

  lemma CourseStep(code: seq<byte>, s: seq<byte>, pos: nat, cut0: bool, cut: bool, loopless: bool, enough: bool,
      seen: seq<int>, best: int, c: Config, st0: seq<Failure>, v: Verdict, c': Config, st: seq<Failure>, left: int)
    requires OnCourse(code, s, pos, cut0, loopless, enough, seen, best, true, c, st0, left)
    requires v != Full && c.pc < |code| && (loopless ==> GoesForward(code, s, c)) && (enough ==> GoesDown(code, s, c))
    requires (cut0 ==> cut) && (cut && !cut0 ==> !loopless && !enough) && (!cut ==> Moved(code, s, c, st0, v, c', st))
    requires !cut && v == Go && TurnOver(code, s, c, st0, c', st) ==> NothingLost(code, s, st0[|st0| - 1], c')
    requires loopless && v == Go && |st| > |st0| ==> st[|st| - 1].Point?
    ensures OnCourse(code, s, pos, cut, loopless, enough, if v == Go then seen else seen + [-1], best, v == Go, c', st, left - 1)
  {
    hide Pending, Visits, Leaves, Work, RestWork, Moved, GoesForward, Largest, NothingLost, TurnOver;
    if !cut { PendingStep(code, s, pos, best, c, st0, v, c', st); }
    if loopless {
      VisitsStep(code, s, Leaves(code, s, At(0, pos)), seen, c, st0, v, c', st);
      LargestMore(seen, -1);
    }
    if enough { WorkStep(code, s, c, st0, v, c', st); }
  }

  lemma CourseBack(code: seq<byte>, s: seq<byte>, pos: nat, cut: bool, loopless: bool, enough: bool, seen: seq<int>,
      best: int, c: Config, st0: seq<Failure>, c': Config, st: seq<Failure>, left: int)
    requires OnCourse(code, s, pos, cut, loopless, enough, seen, best, false, c, st0, left)
    requires |st| < |st0| && st == st0[..|st|] && st0[|st|].Point? && c' == At(st0[|st|].pc, st0[|st|].d)
    requires forall k :: |st| < k < |st0| ==> st0[k].Dummy?
    ensures OnCourse(code, s, pos, cut, loopless, enough, seen, best, true, c', st, left)
  {
    hide Pending, Visits, Leaves, Work, RestWork, Largest;
    if !cut { PendingBack(code, s, pos, best, c, st0, c', st); }
    if loopless {
      VisitsBack(code, s, Leaves(code, s, At(0, pos)), seen, c, st0, c', st);
    }
    if enough { WorkBack(code, s, st0, |st|); }
  }

  /** An end is noted, if it is better. */
  lemma CourseEnd(code: seq<byte>, s: seq<byte>, pos: nat, cut: bool, loopless: bool, enough: bool, seen: seq<int>,
      best: int, at: nat, st0: seq<Failure>, left: int)
    requires OnCourse(code, s, pos, cut, loopless, enough, seen, best, true, At(|code|, at), st0, left) && at != |s|
    ensures OnCourse(code, s, pos, cut, loopless, enough, seen + [at], if at > best then at else best, false, At(|code|, at),
      st0, left - 1)
  {
    hide Pending, Visits, Leaves, RestWork, Largest;
    if !cut { PendingEnd(code, s, pos, best, at, st0); }
    if loopless {
      VisitsEnd(code, s, Leaves(code, s, At(0, pos)), seen, at, st0);
      LargestMore(seen, at);
    }
  }

  /** The end of the string is the answer. */
  lemma CourseAtEnd(code: seq<byte>, s: seq<byte>, pos: nat, cut: bool, loopless: bool, enough: bool, seen: seq<int>,
      best: int, st0: seq<Failure>, left: int)
    requires OnCourse(code, s, pos, cut, loopless, enough, seen, best, true, At(|code|, |s|), st0, left)
    ensures loopless ==> var all := Leaves(code, s, At(0, pos)); all != [] && Pick(all, |s|) == |s|
  {
    hide Pending, Visits, Leaves, RestWork, Largest, Pick;
    if loopless {
      var all := Leaves(code, s, At(0, pos));
      VisitsEnd(code, s, all, seen, |s|, st0);
      assert (seen + [|s|])[|seen|] == |s|;
      PickEnd(code, s, all, seen + [|s|], At(|code|, |s|), st0);
    }
  }

  /** The last end gives way to what was noted. */
  lemma CourseLast(code: seq<byte>, s: seq<byte>, pos: nat, cut: bool, loopless: bool, enough: bool, seen: seq<int>,
      best: int, at: nat, left: int)
    requires OnCourse(code, s, pos, cut, loopless, enough, seen, best, true, At(|code|, at), [], left) && at != |s|
    ensures cut || forall j: nat :: Reachable(code, s, pos, At(|code|, j)) ==> j <= best || j <= at
    ensures loopless ==>
      var all := Leaves(code, s, At(0, pos)); all != [] && Pick(all, |s|) == if best >= 0 then best else at
  {
    hide Pending, Visits, Leaves, RestWork, Largest, Pick, Reachable;
    if !cut { PendingEnd(code, s, pos, best, at, []); }
    if loopless {
      var all := Leaves(code, s, At(0, pos));
      VisitsEnd(code, s, all, seen, at, []);
      PickLast(code, s, all, seen, at, At(|code|, at));
    }
  }

  /** Nothing is left to be tried. */
  lemma CourseDone(code: seq<byte>, s: seq<byte>, pos: nat, cut: bool, loopless: bool, enough: bool, seen: seq<int>,
      best: int, c: Config, st0: seq<Failure>, left: int)
    requires OnCourse(code, s, pos, cut, loopless, enough, seen, best, false, c, st0, left)
    requires forall k :: 0 <= k < |st0| ==> st0[k].Dummy?
    requires seen != [] && (seen[|seen| - 1] == -1 || st0 != [])
    ensures cut || forall j: nat :: Reachable(code, s, pos, At(|code|, j)) ==> j <= best
    ensures loopless ==>
      var all := Leaves(code, s, At(0, pos)); all != [] && Pick(all, |s|) == if best >= 0 then best else -1
  {
    hide Pending, Visits, Leaves, RestWork, Largest, Pick, Reachable;
    if !cut { PendingNone(code, s, pos, best, c, st0); }
    if loopless {
      var all, n := Leaves(code, s, At(0, pos)), |seen| - 1;
      NoPointLeft(code, s, all, seen, c, st0);
      assert seen == seen[..n] + [-1];
      LargestMore(seen[..n], -1);
      assert |s| !in seen[..n] by {
        assert forall k :: 0 <= k < n ==> seen[..n][k] in seen;
      }
      PickLast(code, s, all, seen[..n], -1, c);
    }
  }

  lemma CourseSteps(code: seq<byte>, s: seq<byte>, pos: nat, cut: bool, loopless: bool, enough: bool, seen: seq<int>,
      best: int, c: Config, st0: seq<Failure>)
    requires OnCourse(code, s, pos, cut, loopless, enough, seen, best, true, c, st0, 0)
    ensures !enough
  {
    hide Pending, Visits, Leaves, RestWork, Largest;
  }

  const NFAILURES := 80

  class Matcher {
    ghost const re: Re
    const s: seq<byte>
    const pos: nat
    const used: nat
    const numRegs: nat
    /** `re_max_failures`. */
    const maxFailures: nat
    const buf: array<byte>
    var p: nat
    var d: nat
    var regstart: seq<int>
    var regend: seq<int>
    var active: seq<bool>
    var matched: seq<bool>
    var stack: seq<Failure>
    /** `stackp - stackb` and `stacke - stackb`. */
    var items: nat
    var room: nat
    var bestSet: bool
    var best: nat
    /** A loop was left by force, or its failure point was taken off. */
    ghost var cut: bool

    ghost predicate CodeOk()
      reads buf
    {
      && used <= buf.Length && Runnable(re, numRegs)
      && Alike(buf[..used], re)
    }

    ghost predicate RegsOk()
      reads this`regstart, this`regend, this`active, this`matched
    {
      numRegs >= 1 && |regstart| == numRegs && |regend| == numRegs && |active| == numRegs && |matched| == numRegs
    }

    /** `MAX_NUM_FAILURE_ITEMS`. */
    function MaxItems(): nat {
      numRegs * 3 + 2
    }

    /** The failure points are all right, and fit the space for them. */
    ghost predicate StacksOk()
      reads this`stack, this`items, this`room
    {
      && StackOk(re, s, pos, stack)
      && items == Items(stack) <= room && room >= MaxItems() * NFAILURES
      && forall k :: 0 <= k < |stack| ==> |stack[k].regs| < numRegs
    }

    ghost predicate BestOk()
      reads this`bestSet, this`best
    {
      bestSet ==> PlaceOk(re, s, pos, 0, |Gen(re)|, best)
    }

    ghost predicate Inv()
      reads this, buf
    {
      && CodeOk() && RegsOk() && StacksOk() && BestOk()
      && used == |Gen(re)| <= buf.Length
    }

    /** The matcher stands at a place that the code reaches, with failure points for all loops around it. */
    ghost predicate Here()
      reads this`p, this`d, this`stack
    {
      PlaceOk(re, s, pos, |stack|, p, d)
    }

    ghost function View(): Machine
      reads this`p, this`d, this`regstart, this`regend, this`active, this`matched, this`stack
    {
      Machine(p, d, regstart, regend, active, matched, stack)
    }

    /** The beginning of `re_match` on the code of a tree, as compiled or as earlier calls left it. */
    constructor (ghost re: Re, s: seq<byte>, pos: nat, buf: array<byte>, used: nat, numRegs: nat, maxFailures: nat)
      requires used == |Gen(re)| <= buf.Length && Alike(buf[..used], re) && Runnable(re, numRegs)
      requires numRegs >= 1 && pos <= |s|
      ensures Inv() && Here()
      ensures this.re == re && this.s == s && this.pos == pos && this.buf == buf && this.used == used
      ensures p == 0 && d == pos && stack == [] && !bestSet && !cut && this.maxFailures == maxFailures
      ensures regstart == regend == seq(numRegs, _ => -1) && active == matched == seq(numRegs, _ => false)
      ensures Fresh(View(), pos)
    {
      this.re, this.s, this.pos, this.buf := re, s, pos, buf;
      this.used, this.numRegs, this.maxFailures := used, numRegs, maxFailures;
      p, d := 0, pos;
      regstart, regend := seq(numRegs, _ => -1), seq(numRegs, _ => -1);
      active, matched := seq(numRegs, _ => false), seq(numRegs, _ => false);
      stack, items, room := [], 0, (numRegs * 3 + 2) * NFAILURES;
      bestSet, best := false, 0;
      cut := false;
      new;
      DepthStart(re);
      ReachStart(Gen(re), s, pos);
      FreshIs(View(), numRegs, pos);
    }

    /** The byte at `x`; what lies behind the allocated buffer reads as 0 here. */
    function Peek(x: nat): byte
      reads buf
    {
      if x < buf.Length then buf[x] else 0
    }

    /** The last register that is set, or 0. */
    method LastUsed() returns (last: nat)
      requires RegsOk()
      ensures last == LastSet(regstart, numRegs - 1)
    {
      last := numRegs - 1;
      while last > 0 && regstart[last] == -1
        invariant 0 <= last < numRegs
        invariant LastSet(regstart, numRegs - 1) == LastSet(regstart, last)
      {
        last := last - 1;
      }
    }

    /** `PUSH_FAILURE_POINT`: true when the stack may not grow any more. */
    method Push(dummy: bool, pc: nat, at: nat) returns (full: bool)
      requires RegsOk() && StacksOk() && (!dummy ==> PlaceOk(re, s, pos, |stack|, pc, at))
      modifies this`stack, this`items, this`room
      ensures RegsOk() && StacksOk()
      ensures full ==> stack == old(stack) && |stack| >= maxFailures
      ensures Whole(View())
      ensures !full ==> stack == old(stack) + [if dummy then Dummy(old(SavedRegs(View()))) else Point(pc, at, old(SavedRegs(View())))]
    {
      hide PlaceOk, StackOk, Items;
      var last := LastUsed();
      full := MakeRoom(last);
      if full { return; }
      var starts, ends := regstart, regend;
      var regs := seq(last, i requires 0 <= i < last => (starts[i + 1], ends[i + 1]));
      assert regs == SavedRegs(View());
      var f := if dummy then Dummy(regs) else Point(pc, at, regs);
      StackPush(re, s, pos, stack, f);
      ItemsPush(stack, f);
      stack := stack + [f];
      items := items + last * 3 + 3;
    }

    /** The test of `PUSH_FAILURE_POINT`, and the larger stack. */
    method MakeRoom(last: nat) returns (full: bool)
      requires StacksOk() && last < numRegs
      modifies this`room
      ensures StacksOk() && (full ==> |stack| >= maxFailures) && (!full ==> items + last * 3 + 3 <= room)
    {
      hide StackOk, Items;
      if room - items <= last * 3 + 2 {
        if room > maxFailures * MaxItems() {
          StackIsFull(stack, numRegs, last, room, maxFailures);
          return true;
        }
        room := 2 * room;
      }
      full := false;
    }

    /** `POP_FAILURE_POINT`: there is one. */
    method Pop()
      requires StacksOk() && stack != []
      modifies this`stack, this`items
      ensures StacksOk() && stack == old(stack)[..|old(stack)| - 1]
    {
      hide PlaceOk, StackOk;
      StackPop(re, s, pos, stack);
      items := items - 3 - 3 * |stack[|stack| - 1].regs|;
      stack := stack[..|stack| - 1];
    }

    lemma SameMachine(a: Machine, b: Machine)
      requires a.p == b.p && a.d == b.d && a.stack == b.stack
      requires |a.starts| == |b.starts| == |a.ends| == |b.ends| == |a.active| == |b.active| == |a.matched| == |b.matched|
      requires forall k :: 0 <= k < |a.starts| ==>
        a.starts[k] == b.starts[k] && a.ends[k] == b.ends[k] && a.active[k] == b.active[k] && a.matched[k] == b.matched[k]
      ensures a == b
    {
    }

    /** What `fail` does: on from the latest failure point that is no dummy. False when there is none. */
    method Backtrack() returns (ok: bool)
      requires RegsOk() && StacksOk()
      modifies this`stack, this`items, this`p, this`d, this`regstart, this`regend, this`active, this`matched
      ensures RegsOk() && StacksOk()
      ensures ok ==> Here()
      ensures !ok ==> stack == [] && forall k :: 0 <= k < |old(stack)| ==> old(stack)[k].Dummy?
      ensures ok ==> |stack| < |old(stack)| && stack == old(stack)[..|stack|]
      ensures ok ==> old(stack)[|stack|].Point? && old(stack)[|stack|].pc == p && old(stack)[|stack|].d == d
      ensures ok ==> forall k :: |stack| < k < |old(stack)| ==> old(stack)[k].Dummy?
      ensures ok ==> Fell(old(View()), View())
      ensures !ok ==> Latest(old(stack)) < 0
    {
      hide PlaceOk, StackOk, Latest;
      ghost var m := View();
      while stack != []
        invariant RegsOk() && StacksOk()
        invariant View() == m.(stack := stack) && Latest(m.stack) == Latest(stack)
        invariant |stack| <= |old(stack)| && stack == old(stack)[..|stack|]
        invariant forall k :: |stack| <= k < |old(stack)| ==> old(stack)[k].Dummy?
        decreases |stack|
      {
        var f := stack[|stack| - 1];
        LatestIs(stack);
        StackPop(re, s, pos, stack);
        Pop();
        if f.Point? {
          p, d := f.pc, f.d;
          Intact();
          Restore(f);
          return true;
        }
      }
      LatestIs(stack);
      ok := false;
    }

    /**
     * Restores the saved registers and clears the others. The stack holds the address of each `reg_info`, not a copy,
     * so those of the saved registers stay as they are.
     */
    method Restore(f: Failure)
      requires RegsOk() && f.Point? && |f.regs| < numRegs && p == f.pc && d == f.d && Whole(View())
      modifies this`regstart, this`regend, this`active, this`matched
      ensures RegsOk() && View() == Restored(old(View()), f)
    {
      ghost var m := View();
      RestoreRegisters(f.regs);
      SameMachine(View(), Restored(m, f));
    }

    method RestoreRegisters(regs: seq<(int, int)>)
      requires RegsOk() && |regs| < numRegs
      modifies this`regstart, this`regend, this`active, this`matched
      ensures RegsOk()
      ensures forall k :: 1 <= k <= |regs| ==> regstart[k] == regs[k - 1].0 && regend[k] == regs[k - 1].1
      ensures forall k :: |regs| < k < numRegs ==> regstart[k] == -1 && regend[k] == -1 && !active[k] && !matched[k]
      ensures regstart[0] == old(regstart[0]) && regend[0] == old(regend[0])
      ensures forall k :: 0 <= k <= |regs| ==> active[k] == old(active[k]) && matched[k] == old(matched[k])
    {
      var this_reg := numRegs - 1;
      while this_reg > |regs|
        invariant RegsOk() && |regs| <= this_reg < numRegs
        invariant regstart[0] == old(regstart[0]) && regend[0] == old(regend[0])
        invariant forall k :: 0 <= k <= |regs| ==> active[k] == old(active[k]) && matched[k] == old(matched[k])
        invariant forall k :: this_reg < k < numRegs ==> regstart[k] == -1 && regend[k] == -1 && !active[k] && !matched[k]
      {
        regend := regend[this_reg := -1];
        regstart := regstart[this_reg := -1];
        active := active[this_reg := false];
        matched := matched[this_reg := false];
        this_reg := this_reg - 1;
      }
      ghost var a0, m0 := active, matched;
      while this_reg > 0
        invariant RegsOk() && 0 <= this_reg <= |regs| && active == a0 && matched == m0
        invariant regstart[0] == old(regstart[0]) && regend[0] == old(regend[0])
        invariant forall k :: |regs| < k < numRegs ==> regstart[k] == -1 && regend[k] == -1 && !active[k] && !matched[k]
        invariant forall k :: this_reg < k <= |regs| ==> regstart[k] == regs[k - 1].0 && regend[k] == regs[k - 1].1
      {
        regend := regend[this_reg := regs[this_reg - 1].1];
        regstart := regstart[this_reg := regs[this_reg - 1].0];
        this_reg := this_reg - 1;
      }
    }

    /** `SET_REGS_MATCHED`. */
    method SetRegsMatched()
      requires RegsOk()
      modifies this`matched
      ensures RegsOk() && matched == active
    {
      var i := 0;
      while i < numRegs
        invariant RegsOk() && 0 <= i <= numRegs
        invariant forall k :: 0 <= k < i ==> matched[k] == active[k]
      {
        matched := matched[i := active[i]];
        i := i + 1;
      }
    }

    // ---- commands

    /** The command at `pc` had one way on and was taken, or had none and failed. */
    ghost predicate Takes(pc: nat, at: nat, v: Verdict)
      reads this`p, this`d
    {
      match v
      case Go => Succ(Gen(re), s, At(pc, at)) == [At(p, d)]
      case Fail => Succ(Gen(re), s, At(pc, at)) == []
      case Full => false
    }

    lemma Intact()
      requires RegsOk() && StacksOk()
      ensures Whole(View())
    {
      hide StackOk, Items;
    }

    /** The command at the place is the compiled one, or a loop end rewritten. */
    lemma Command()
      requires CodeOk() && used == |Gen(re)| <= buf.Length && Here() && p < used
      ensures FlowOk(re, numRegs, Gen(re), 0, p) && Depth(re, p) == DepthTo(re, p) && 0 <= Depth(re, p) <= |stack|
      ensures buf[p] == Gen(re)[p] || (Gen(re)[p] == MAYBE_FINALIZE_JUMP && (buf[p] == JUMP || buf[p] == FINALIZE_JUMP))
      ensures buf[p] == FINALIZE_JUMP ==> Gen(re)[p] == MAYBE_FINALIZE_JUMP && SafeExit(Gen(re), p)
    {
      hide FlowOk, Gen, Depth, Reachable, SafeExit;
      NoFinalize(p);
      Flow(re, numRegs, p);
      assert buf[..used][p] == buf[p];
    }

    /** The compiler makes no `finalize_jump`. */
    lemma NoFinalize(x: nat)
      requires Runnable(re, numRegs) && x < |Gen(re)| && DepthTo(re, x) >= 0
      ensures Gen(re)[x] != FINALIZE_JUMP
    {
      hide Gen, Depth, DepthTo, Runnable, Below, Solid, Target;
      Flow(re, numRegs, x);
    }

    /** Operands are the compiled ones. */
    lemma Operand(o: nat, x: nat, e: int)
      requires CodeOk() && used == |Gen(re)| <= buf.Length && Solid(re, o, e) && o < x < e <= used
      ensures buf[x] == Gen(re)[x]
    {
      hide Gen, Depth;
      SameByte(buf[..used], re, x);
      assert buf[..used][x] == buf[x];
    }

    lemma AdvanceTo(c: Config)
      requires Here() && c in Succ(Gen(re), s, At(p, d)) && Below(re, c.pc, |stack|)
      ensures PlaceOk(re, s, pos, |stack|, c.pc, c.i)
    {
      Advance(re, s, pos, |stack|, p, d, c, |stack|);
    }

    lemma BelowMore(o: int, k: int, k': int)
      requires Below(re, o, k) && k <= k'
      ensures Below(re, o, k')
    {
    }

    /** `anychar`. */
    method DoAnychar() returns (v: Verdict)
      requires Inv() && Here() && p < used && buf[p] == ANYCHAR
      modifies this`p, this`d, this`matched
      ensures Inv() && (v == Go ==> Here()) && Takes(old(p), old(d), v)
      ensures Did(Gen(re), s, old(View()), v, View())
    {
      hide CodeOk, StacksOk, BestOk, Depth, Gen, PlaceOk, Below;
      Intact();
      Command();
      CharHere();
      if d == |s| { return Fail; }
      if s[d] == NEWLINE { return Fail; }
      BelowMore(p + 1, Depth(re, p), |stack|);
      AdvanceTo(At(p + 1, d + 1));
      SetRegsMatched();
      p, d := p + 1, d + 1;
      v := Go;
    }

    lemma CharHere()
      requires Here()
      ensures pos <= d <= |s|
    {
    }

    /** `begline`. */
    method DoBegline() returns (v: Verdict)
      requires Inv() && Here() && p < used && buf[p] == BEGLINE
      modifies this`p
      ensures Inv() && (v == Go ==> Here()) && Takes(old(p), old(d), v)
      ensures Did(Gen(re), s, old(View()), v, View())
    {
      hide CodeOk, StacksOk, BestOk, Depth, Gen, PlaceOk, Below;
      Intact();
      Command();
      CharHere();
      if |s| == 0 || d == 0 || s[d - 1] == NEWLINE {
        BelowMore(p + 1, Depth(re, p), |stack|);
        AdvanceTo(At(p + 1, d));
        p := p + 1;
        v := Go;
      } else {
        v := Fail;
      }
    }

    /** `endline`. */
    method DoEndline() returns (v: Verdict)
      requires Inv() && Here() && p < used && buf[p] == ENDLINE
      modifies this`p
      ensures Inv() && (v == Go ==> Here()) && Takes(old(p), old(d), v)
      ensures Did(Gen(re), s, old(View()), v, View())
    {
      hide CodeOk, StacksOk, BestOk, Depth, Gen, PlaceOk, Below;
      Intact();
      Command();
      CharHere();
      if d == |s| || s[d] == NEWLINE {
        BelowMore(p + 1, Depth(re, p), |stack|);
        AdvanceTo(At(p + 1, d));
        p := p + 1;
        v := Go;
      } else {
        v := Fail;
      }
    }

    /** `exactn`, without a translate table; all its characters have 7 bits. */
    method DoExactn() returns (v: Verdict)
      requires Inv() && Here() && p < used && buf[p] == EXACTN
      modifies this`p, this`d, this`matched
      ensures Inv() && (v == Go ==> Here()) && Takes(old(p), old(d), v)
      ensures Did(Gen(re), s, old(View()), v, View())
    {
      hide CodeOk, StacksOk, BestOk, Depth, Gen, PlaceOk, Below, Solid;
      Intact();
      Command();
      CharHere();
      RunOperands();
      var q, e, mcnt := p + 2, d, buf[p + 1];
      ghost var n := mcnt;
      ghost var g := Gen(re)[p + 2..p + 2 + n as int];
      while true
        invariant 0 < mcnt <= n && q == p + 2 + (n - mcnt) && e == d + (n - mcnt) && e <= |s|
        invariant s[d..e] == g[..e - d]
        modifies {}
        decreases mcnt
      {
        if e == |s| { return Fail; }
        if s[e] != buf[q] { return Fail; }
        assert g[e - d] == Gen(re)[q] == s[e];
        OneMore(s, d, e, g);
        e, q := e + 1, q + 1;
        mcnt := mcnt - 1;
        if mcnt == 0 { break; }
      }
      assert g[..n] == g;
      AdvanceTo(At(p + 2 + n, d + n));
      SetRegsMatched();
      p, d := q, e;
      v := Go;
    }

    lemma OneMore(s: seq<byte>, from: nat, e: nat, g: seq<byte>)
      requires from <= e < |s| && e - from < |g| && s[from..e] == g[..e - from] && s[e] == g[e - from]
      ensures s[from..e + 1] == g[..e + 1 - from]
    {
      assert s[from..e + 1] == s[from..e] + [s[e]];
      assert g[..e + 1 - from] == g[..e - from] + [g[e - from]];
    }

    lemma RunOperands()
      requires CodeOk() && used == |Gen(re)| <= buf.Length && Here() && p < used && Gen(re)[p] == EXACTN
      requires FlowOk(re, numRegs, Gen(re), 0, p) && 0 <= Depth(re, p) <= |stack|
      ensures p + 1 < used && buf[p + 1] == Gen(re)[p + 1] > 0 && p + 2 + buf[p + 1] as int <= used
      ensures forall x :: p < x < p + 2 + buf[p + 1] as int ==> buf[x] == Gen(re)[x]
      ensures Below(re, p + 2 + buf[p + 1] as int, |stack|)
    {
      hide CodeOk, Depth, Gen, Solid, PlaceOk;
      var e := p + 2 + Gen(re)[p + 1] as int;
      BelowBound(re, e, Depth(re, p));
      forall x | p < x < e
        ensures buf[x] == Gen(re)[x]
      {
        Operand(p, x, e);
      }
      BelowMore(e, Depth(re, p), |stack|);
    }

    /** `charset` and `charset_not`, for characters of 7 bits. */
    method DoCharset() returns (v: Verdict)
      requires Inv() && Here() && p < used && (buf[p] == CHARSET || buf[p] == CHARSET_NOT)
      modifies this`p, this`d, this`matched
      ensures Inv() && (v == Go ==> Here()) && Takes(old(p), old(d), v)
      ensures Did(Gen(re), s, old(View()), v, View())
    {
      hide CodeOk, StacksOk, BestOk, Depth, Gen, PlaceOk, Below, Solid, SetAccepts;
      Intact();
      Command();
      CharHere();
      SetOperands(p, |stack|);
      if d == |s| { return Fail; }
      var accepts, size := SetTakes(s[d]);
      if !accepts { return Fail; }
      AdvanceTo(At(p + size, d + 1));
      SetRegsMatched();
      p, d := p + size, d + 1;
      v := Go;
    }

    /** Whether the set at the place takes a character, and how long the command is. */
    method SetTakes(c: byte) returns (accepts: bool, size: nat)
      requires Inv() && Here() && p < used && (buf[p] == CHARSET || buf[p] == CHARSET_NOT)
      ensures p + 1 < used && p + size <= used && size == 4 + buf[p + 1] as int
      ensures accepts == Begins(Gen(re), p, c)
    {
      hide CodeOk, StacksOk, BestOk, Depth, Gen, PlaceOk, Below, Solid, BitOf, IsSet, Single, WideRanges;
      Command();
      SetOperands(p, |stack|);
      var set_ := buf[p + 1..used];
      SetIsSet(p, set_);
      var found := IsInList(c, set_);
      SetDecides(p, set_, c, found);
      var not_ := found != 0;
      if buf[p] == CHARSET_NOT { not_ := !not_; }
      accepts, size := not_, 1 + 1 + buf[p + 1] as int + 2 + Number(set_, buf[p + 1] as int + 1) as int * 4;
    }

    lemma SetOperands(x: nat, k: nat)
      requires CodeOk() && used == |Gen(re)| <= buf.Length && x < used
      requires Gen(re)[x] == CHARSET || Gen(re)[x] == CHARSET_NOT
      requires FlowOk(re, numRegs, Gen(re), 0, x) && 0 <= Depth(re, x) <= k
      ensures x + 1 < used && buf[x + 1] == Gen(re)[x + 1] <= 32 && x + 4 + buf[x + 1] as int <= used
      ensures Below(re, x + 4 + buf[x + 1] as int, k)
      ensures var n := buf[x + 1] as int;
        buf[x + 2 + n] == 0 && buf[x + 3 + n] == 0 && buf[x + 2..x + 2 + n] == Gen(re)[x + 2..x + 2 + n]
    {
      hide CodeOk, Depth, Gen, Solid;
      var e := x + 4 + Gen(re)[x + 1] as int;
      BelowBound(re, e, Depth(re, x));
      forall y | x < y < e
        ensures buf[y] == Gen(re)[y]
      {
        Operand(x, y, e);
      }
      BelowMore(e, Depth(re, x), k);
    }

    lemma SetIsSet(x: nat, b: seq<byte>)
      requires used <= buf.Length && x + 1 < used && b == buf[x + 1..used] && buf[x + 1] <= 32
      requires x + 4 + buf[x + 1] as int <= used
      requires var n := buf[x + 1] as int; buf[x + 2 + n] == 0 && buf[x + 3 + n] == 0
      ensures IsSet(b) && WideRanges(b) == [] && Number(b, buf[x + 1] as int + 1) == 0
    {
      var n := buf[x + 1] as int;
      assert b[0] == n && b[n + 1] == buf[x + 2 + n] && b[n + 2] == buf[x + 3 + n];
    }

    /** The search in a set of single-byte characters is a look at the bitmap. */
    lemma SetDecides(p: nat, b: seq<byte>, c: byte, found: int)
      requires used == |Gen(re)| <= buf.Length && p + 1 < used && b == buf[p + 1..used] && IsSet(b) && WideRanges(b) == []
      requires p + 4 + buf[p + 1] as int <= used && buf[p + 1] == Gen(re)[p + 1]
      requires buf[p + 2..p + 2 + buf[p + 1] as int] == Gen(re)[p + 2..p + 2 + buf[p + 1] as int]
      requires found == if Single(b, c) then 1 else 0
      ensures found != 0 <==> BitOf(Gen(re)[p + 2..p + 2 + Gen(re)[p + 1] as int], c)
    {
      hide HasBit, Gen, WideRanges, Ordered;
      var n := buf[p + 1] as int;
      assert b[0] == n;
      if c as int / 8 < n {
        var k := c as int / 8;
        assert b[1 + k] == buf[p + 2 + k] == buf[p + 2..p + 2 + n][k];
      }
    }

    /** `start_memory`. */
    method DoStartMemory() returns (v: Verdict)
      requires Inv() && Here() && p < used && buf[p] == START_MEMORY
      modifies this`p, this`regstart, this`active, this`matched
      ensures Inv() && Here() && v == Go && Takes(old(p), old(d), v)
      ensures Did(Gen(re), s, old(View()), v, View())
    {
      hide CodeOk, StacksOk, BestOk, Depth, Gen, PlaceOk, Below, Solid;
      Intact();
      Command();
      MemoryOperand();
      regstart := regstart[buf[p + 1] as int := d];
      active := active[buf[p + 1] as int := true];
      matched := matched[buf[p + 1] as int := false];
      AdvanceTo(At(p + 2, d));
      p := p + 2;
      v := Go;
    }

    lemma MemoryOperand()
      requires CodeOk() && used == |Gen(re)| <= buf.Length && Here() && p < used
      requires Gen(re)[p] == START_MEMORY || Gen(re)[p] == STOP_MEMORY
      requires FlowOk(re, numRegs, Gen(re), 0, p) && 0 <= Depth(re, p) <= |stack|
      ensures p + 1 < used && buf[p + 1] == Gen(re)[p + 1] && buf[p + 1] as int < numRegs && Below(re, p + 2, |stack|)
    {
      hide CodeOk, Depth, Gen, Solid, PlaceOk;
      BelowBound(re, p + 2, Depth(re, p));
      Operand(p, p + 1, p + 2);
      BelowMore(p + 2, Depth(re, p), |stack|);
    }

    /** A place that holds a jump, and where the jump goes. */
    lemma JumpOperands(x: nat)
      requires CodeOk() && used == |Gen(re)| <= buf.Length && x < used && FlowOk(re, numRegs, Gen(re), 0, x)
      requires Gen(re)[x] == ON_FAILURE_JUMP || IsJump(Gen(re)[x])
      ensures x + 2 < used && Extract(buf[..], x + 1) == Extract(Gen(re), x + 1)
    {
      hide CodeOk, Depth, Gen, Below, Solid;
      Operand(x, x + 1, x + 3);
      Operand(x, x + 2, x + 3);
    }

    /** `stop_memory`, with the exit that it forces from a loop whose body has matched nothing. */
    method DoStopMemory() returns (v: Verdict)
      requires Inv() && Here() && p < used && buf[p] == STOP_MEMORY
      modifies this`p, this`regend, this`active, this`stack, this`items, this`room, this`cut
      ensures Inv() && (v == Go ==> Here())
      ensures v == Go ==> Takes(old(p), old(d), v) && stack == old(stack) && cut == old(cut)
      ensures v == Fail ==> cut
      ensures (old(cut) ==> cut) && (cut && !old(cut) ==> !SimpleLoops(re))
      ensures v != Full ==> Did(Gen(re), s, old(View()), v, View())
      ensures v == Full ==> |old(stack)| >= maxFailures && Pushes(Gen(re), old(p))
    {
      hide CodeOk, StacksOk, BestOk, Depth, Gen, PlaceOk, Below, Solid, SafeExit, SimpleLoops;
      Intact();
      Command();
      MemoryOperand();
      var r := buf[p + 1] as int;
      AdvanceTo(At(p + 2, d));
      var forced, out := Leaving(r);
      regend := regend[r := d];
      active := active[r := false];
      if forced {
        cut := true;
        var full := Push(false, out, d);
        return if full then Full else Fail;
      }
      p := p + 2;
      v := Go;
    }

    /** Whether a loop that ends behind this group is to be left by force, and where to. */
    method Leaving(r: nat) returns (forced: bool, out: nat)
      requires Inv() && Here() && p < used && buf[p] == STOP_MEMORY && Whole(View()) && r < |regstart|
      ensures forced <==> Forced(Gen(re), View(), r)
      ensures forced ==> !SimpleLoops(re) && PlaceOk(re, s, pos, |stack|, out, d) && out == WayOut(Gen(re), View(), r)
    {
      hide CodeOk, StacksOk, BestOk, RegsOk, Depth, Gen, PlaceOk, Below, Solid, SafeExit, SimpleLoops, Extract;
      Command();
      MemoryOperand();
      AdvanceTo(At(p + 2, d));
      hide FlowOk;
      var p2 := p + 2;
      forced, out := false, 0;
      if p >= 2 { SameCommand(p - 2); }
      if (!matched[r] || (p >= 2 && buf[p - 2] == START_MEMORY)) && p2 != used {
        JumpFits(|stack|, p2, d);
        SameCommand(p2);
        if buf[p2] == FINALIZE_JUMP || buf[p2] == MAYBE_FINALIZE_JUMP || buf[p2] == JUMP || buf[p2] == DUMMY_FAILURE_JUMP {
          var mcnt := Extract(buf[..], p2 + 1);
          if mcnt < 0 {
            BackwardJump(|stack|, p2, d);
            var t := p2 + 3 + mcnt;
            SameCommand(t);
            if buf[t] == ON_FAILURE_JUMP {
              ForcedExit(|stack|, t, d);
              GroupInLoop(|stack|, p2, d);
              forced, out := true, t + 3 + Extract(buf[..], t + 1);
            }
          }
        }
      }
    }

    lemma PlaceBound(k: nat, pc: nat, at: nat)
      requires PlaceOk(re, s, pos, k, pc, at) && used == |Gen(re)|
      ensures pc <= used && DepthTo(re, pc) >= 0
    {
    }

    /** A jump at a place has its distance behind it. */
    lemma JumpFits(k: nat, x: nat, at: nat)
      requires CodeOk() && used == |Gen(re)| <= buf.Length && x < used && PlaceOk(re, s, pos, k, x, at)
      ensures FlowOk(re, numRegs, Gen(re), 0, x) && 0 <= Depth(re, x) <= k
      ensures buf[x] == Gen(re)[x] || Gen(re)[x] == MAYBE_FINALIZE_JUMP
      ensures IsJump(buf[x]) || buf[x] == ON_FAILURE_JUMP ==>
        x + 2 < used && Extract(buf[..], x + 1) == Extract(Gen(re), x + 1)
    {
      hide FlowOk, Gen, Depth, Reachable;
      Flow(re, numRegs, x);
      assert buf[..used][x] == buf[x];
      if IsJump(buf[x]) || buf[x] == ON_FAILURE_JUMP { JumpOperands(x); }
    }

    /** A jump backwards leads to a place that needs no more failure points. */
    lemma BackwardJump(k: nat, x: nat, at: nat)
      requires CodeOk() && used == |Gen(re)| <= buf.Length && x + 2 < used && PlaceOk(re, s, pos, k, x, at) && IsJump(buf[x])
      requires FlowOk(re, numRegs, Gen(re), 0, x) && 0 <= Depth(re, x) <= k
      requires buf[x] == Gen(re)[x] || Gen(re)[x] == MAYBE_FINALIZE_JUMP
      requires Extract(buf[..], x + 1) == Extract(Gen(re), x + 1) < 0
      ensures 0 <= Target(Gen(re), x) < used && PlaceOk(re, s, pos, k, Target(Gen(re), x), at)
    {
      hide CodeOk, Gen, Depth, Reachable, Below, Solid, PlaceOk, Extract;
      var t := Target(Gen(re), x);
      var d0 := Depth(re, x);
      assert Below(re, t, d0) || Below(re, t, d0 - 1);
      if Below(re, t, d0) { BelowBound(re, t, d0); BelowMore(t, d0, k); }
      else { BelowBound(re, t, d0 - 1); BelowMore(t, d0 - 1, k); }
      Advance(re, s, pos, k, x, at, At(t, at), k);
    }

    /** Where a jump backwards follows the end of a group, there is a loop over the group. */
    lemma GroupInLoop(k: nat, x: nat, at: nat)
      requires CodeOk() && used == |Gen(re)| <= buf.Length && x + 2 < used && PlaceOk(re, s, pos, k, x, at) && IsJump(buf[x])
      requires FlowOk(re, numRegs, Gen(re), 0, x) && 0 <= Depth(re, x) <= k
      requires buf[x] == Gen(re)[x] || Gen(re)[x] == MAYBE_FINALIZE_JUMP
      requires Extract(buf[..], x + 1) == Extract(Gen(re), x + 1) < 0
      requires x >= 2 && Gen(re)[x - 2] == STOP_MEMORY && FlowOk(re, numRegs, Gen(re), 0, x - 2) && Depth(re, x - 2) >= 0
      ensures !SimpleLoops(re)
    {
      hide CodeOk, Gen, Reachable, Solid, PlaceOk, Extract, Depth, SimpleLoops, DepthTo;
      assert Below(re, Target(Gen(re), x), Depth(re, x) - 1);
      DepthToIs(re, x);
      if SimpleLoops(re) {
        StillRunnable();
        HoldsItself(Gen(re));
        var t, r := LoopOf(re, Gen(re), 0, x - 2);
        LoopJumps(Gen(re), t, r);
      }
    }

    lemma StillRunnable()
      requires CodeOk()
      ensures Runnable(re, numRegs)
    {
    }

    /** From the choice at the start of a loop the way out is open. */
    lemma ForcedExit(k: nat, t: nat, at: nat)
      requires CodeOk() && used == |Gen(re)| <= buf.Length && t < used && PlaceOk(re, s, pos, k, t, at) && buf[t] == ON_FAILURE_JUMP
      ensures t + 2 < used && t + 3 + Extract(buf[..], t + 1) == Target(Gen(re), t) >= 0
      ensures PlaceOk(re, s, pos, k, t + 3 + Extract(buf[..], t + 1), at)
    {
      hide CodeOk, Gen, Depth, Reachable, Below, Solid, PlaceOk, Extract;
      JumpFits(k, t, at);
      var e := Target(Gen(re), t);
      OnFailureIs(t);
      BelowBound(re, e, Depth(re, t));
      BelowMore(e, Depth(re, t), k);
      Advance(re, s, pos, k, t, at, At(e, at), k);
    }

    lemma OnFailureIs(t: nat)
      requires CodeOk() && used == |Gen(re)| <= buf.Length && t < used && buf[t] == ON_FAILURE_JUMP
      ensures Gen(re)[t] == ON_FAILURE_JUMP
    {
      assert buf[..used][t] == buf[t];
    }

    /** `on_failure_jump`. */
    method DoOnFailureJump() returns (v: Verdict)
      requires Inv() && Here() && p < used && buf[p] == ON_FAILURE_JUMP
      modifies this`p, this`stack, this`items, this`room
      ensures Inv() && (v == Go ==> Here()) && v != Fail
      ensures v == Go ==>
        && |stack| == |old(stack)| + 1 && stack[..|old(stack)|] == old(stack) && stack[|old(stack)|].Point?
        && Succ(Gen(re), s, At(old(p), old(d))) == [At(p, d), At(stack[|old(stack)|].pc, stack[|old(stack)|].d)]
      ensures v != Full ==> Did(Gen(re), s, old(View()), v, View())
      ensures v == Full ==> |old(stack)| >= maxFailures && Pushes(Gen(re), old(p))
    {
      hide CodeOk, StacksOk, BestOk, Depth, Gen, PlaceOk, Below, Solid, Extract;
      Intact();
      Command();
      JumpFits(|stack|, p, d);
      ForcedExit(|stack|, p, d);
      ChoiceGoesOn(|stack|, p, d);
      var mcnt := Extract(buf[..], p + 1);
      var full := Push(false, p + 3 + mcnt, d);
      if full { return Full; }
      p := p + 3;
      v := Go;
    }

    lemma ChoiceGoesOn(k: nat, x: nat, at: nat)
      requires used == |Gen(re)| && x + 2 < used && PlaceOk(re, s, pos, k, x, at) && Gen(re)[x] == ON_FAILURE_JUMP
      requires FlowOk(re, numRegs, Gen(re), 0, x) && 0 <= Depth(re, x) <= k
      ensures PlaceOk(re, s, pos, k + 1, x + 3, at)
    {
      hide Gen, Depth, Reachable, Below, Solid, PlaceOk, Extract;
      BelowMore(x + 3, Depth(re, x) + 1, k + 1);
      Advance(re, s, pos, k, x, at, At(x + 3, at), k + 1);
    }

    /** Where a jump leads, by what the command does to the failure points. */
    lemma JumpGoes(k: nat, x: nat, at: nat)
      requires used == |Gen(re)| && x + 2 < used && PlaceOk(re, s, pos, k, x, at) && IsJump(Gen(re)[x])
      requires FlowOk(re, numRegs, Gen(re), 0, x) && 0 <= Depth(re, x) <= k
      ensures Target(Gen(re), x) >= 0
      ensures Gen(re)[x] == JUMP ==> PlaceOk(re, s, pos, k, Target(Gen(re), x), at)
      ensures Gen(re)[x] == DUMMY_FAILURE_JUMP ==> PlaceOk(re, s, pos, k + 1, Target(Gen(re), x), at)
      ensures Gen(re)[x] == MAYBE_FINALIZE_JUMP ==>
        k > 0 && PlaceOk(re, s, pos, k - 1, Target(Gen(re), x), at) && PlaceOk(re, s, pos, k, Target(Gen(re), x), at)
      ensures Gen(re)[x] != FINALIZE_JUMP
    {
      hide Gen, Depth, Reachable, Below, Solid, PlaceOk, Extract;
      var t, d0 := Target(Gen(re), x), Depth(re, x);
      if Gen(re)[x] == JUMP {
        BelowBound(re, t, d0);
        BelowMore(t, d0, k);
        Advance(re, s, pos, k, x, at, At(t, at), k);
      } else if Gen(re)[x] == DUMMY_FAILURE_JUMP {
        BelowMore(t, d0 + 1, k + 1);
        Advance(re, s, pos, k, x, at, At(t, at), k + 1);
      } else {
        BelowDepth(t, d0 - 1);
        BelowMore(t, d0 - 1, k - 1);
        BelowMore(t, d0 - 1, k);
        Advance(re, s, pos, k, x, at, At(t, at), k - 1);
        Advance(re, s, pos, k, x, at, At(t, at), k);
      }
    }

    lemma BelowDepth(o: int, k: int)
      requires Below(re, o, k)
      ensures 0 <= o <= |Gen(re)| && k >= 0
    {
    }

    /** `jump`: also what a loop end was rewritten to. */
    method DoJump() returns (v: Verdict)
      requires Inv() && Here() && p < used && buf[p] == JUMP
      modifies this`p
      ensures Inv() && Here() && v == Go && Takes(old(p), old(d), v)
      ensures Did(Gen(re), s, old(View()), v, View())
    {
      hide CodeOk, StacksOk, BestOk, Depth, Gen, PlaceOk, Below, Solid, Extract;
      Intact();
      Command();
      JumpFits(|stack|, p, d);
      JumpGoes(|stack|, p, d);
      p := p + 3 + Extract(buf[..], p + 1);
      v := Go;
    }

    /** `finalize_jump`: takes off the failure point of the loop, which is there. */
    method DoFinalizeJump() returns (v: Verdict)
      requires Inv() && Here() && p < used && buf[p] == FINALIZE_JUMP
      modifies this`p, this`stack, this`items, this`cut
      ensures Inv() && Here() && v == Go && Takes(old(p), old(d), v)
      ensures |old(stack)| > 0 && TurnOver(Gen(re), s, At(old(p), old(d)), old(stack), At(p, d), stack)
      ensures Did(Gen(re), s, old(View()), v, View())
      ensures cut <==> old(cut) || !SimpleLoops(re)
    {
      hide CodeOk, StacksOk, BestOk, Depth, Gen, PlaceOk, Below, Solid, Extract, SafeExit, SimpleLoops;
      Intact();
      Command();
      JumpFits(|stack|, p, d);
      JumpGoes(|stack|, p, d);
      cut := cut || !SimpleLoops(re);
      Pop();
      p := p + 3 + Extract(buf[..], p + 1);
      v := Go;
    }

    /** `dummy_failure_jump`. */
    method DoDummyFailureJump() returns (v: Verdict)
      requires Inv() && Here() && p < used && buf[p] == DUMMY_FAILURE_JUMP
      modifies this`p, this`stack, this`items, this`room
      ensures Inv() && (v == Go ==> Here()) && v != Fail
      ensures v == Go ==>
        && |stack| == |old(stack)| + 1 && stack[..|old(stack)|] == old(stack) && stack[|old(stack)|].Dummy?
        && Takes(old(p), old(d), v)
      ensures !Loopless(re)
      ensures v != Full ==> Did(Gen(re), s, old(View()), v, View())
      ensures v == Full ==> |old(stack)| >= maxFailures && Pushes(Gen(re), old(p))
    {
      hide CodeOk, StacksOk, BestOk, Depth, Gen, PlaceOk, Below, Solid, Extract;
      Intact();
      Command();
      JumpFits(|stack|, p, d);
      JumpGoes(|stack|, p, d);
      if Loopless(re) { LooplessCode(re, p); }
      var full := Push(true, 0, 0);
      if full { return Full; }
      p := p + 3 + Extract(buf[..], p + 1);
      v := Go;
    }

    /** The loop that ends here starts before, with a choice and a command behind that. */
    lemma LoopStart()
      requires CodeOk() && used == |Gen(re)| <= buf.Length && Here() && p < used && buf[p] == MAYBE_FINALIZE_JUMP
      ensures p + 2 < used && 0 <= p + 3 + Extract(buf[..], p + 1) <= p - 3
      ensures Gen(re)[p] == MAYBE_FINALIZE_JUMP && p + 3 + Extract(buf[..], p + 1) == Target(Gen(re), p)
      ensures FlowOk(re, numRegs, Gen(re), 0, p + 6 + Extract(buf[..], p + 1))
      ensures Depth(re, p + 6 + Extract(buf[..], p + 1)) >= 0
      ensures p + 3 <= used && DepthTo(re, p + 3) >= 0
    {
      hide CodeOk, Depth, Gen, PlaceOk, Solid, Extract, FlowOk, DepthTo;
      Command();
      JumpFits(|stack|, p, d);
      LoopStartAt(p);
    }

    lemma LoopStartAt(x: nat)
      requires CodeOk() && used == |Gen(re)| <= buf.Length && x + 2 < used
      requires FlowOk(re, numRegs, Gen(re), 0, x) && Gen(re)[x] == MAYBE_FINALIZE_JUMP
      ensures 0 <= Target(Gen(re), x) <= x - 3
      ensures FlowOk(re, numRegs, Gen(re), 0, Target(Gen(re), x) + 3) && Depth(re, Target(Gen(re), x) + 3) >= 0
      ensures x + 3 <= |Gen(re)| && DepthTo(re, x + 3) >= 0
    {
      hide Depth, Gen, Solid, Extract, Target;
      var t := Target(Gen(re), x);
      assert Below(re, t, Depth(re, x) - 1) && t + 3 <= x;
      Flow(re, numRegs, t);
      assert Below(re, t + 3, Depth(re, t) + 1) && Below(re, x + 3, Depth(re, t));
      Flow(re, numRegs, t + 3);
    }

    /**
     * The test of `maybe_finalize_jump`: what follows the loop cannot match what the loop begins with. The search reads
     * on behind the code, where it may meet what looks like the end of a group.
     */
    method MayFinalize() returns (final: bool)
      requires CodeOk() && used == |Gen(re)| <= buf.Length && Here() && p < used && buf[p] == MAYBE_FINALIZE_JUMP
      ensures final ==> SafeExit(Gen(re), p)
      ensures SafeExit(Gen(re), p) ==> final || (used < buf.Length && IsMemory(buf[used]))
    {
      hide CodeOk, Depth, Gen, PlaceOk, Below, Solid, Extract, FlowOk, SkipMemory, Begins, DepthTo;
      LoopStart();
      var mcnt := Extract(buf[..], p + 1);
      var p2 := Following();
      if p2 == used { return true; }
      final := false;
      if Peek(p2) == EXACTN || Peek(p2) == ENDLINE {
        if p2 < used { NextCommand(p2); }
        var c := if Peek(p2) == ENDLINE then NEWLINE else Peek(p2 + 2);
        var may := MayBegin(p + 6 + mcnt, c);
        final := !may;
      } else if p2 < used {
        SameCommand(p2);
      }
    }

    /** The place behind the commands that close and open groups. */
    method Following() returns (p2: nat)
      requires CodeOk() && used == |Gen(re)| <= buf.Length && Here() && p < used && buf[p] == MAYBE_FINALIZE_JUMP
      ensures var x := SkipMemory(Gen(re), p + 3);
        if p2 <= used then p2 == x && DepthTo(re, p2) >= 0 else x == used && used < buf.Length && IsMemory(buf[used])
    {
      hide CodeOk, Depth, Gen, PlaceOk, Below, Solid, Extract, FlowOk, DepthTo;
      LoopStart();
      p2 := p + 3;
      while p2 + 1 != used && IsMemory(Peek(p2))
        invariant p2 >= p + 3
        invariant if p2 <= used then SkipMemory(Gen(re), p2) == SkipMemory(Gen(re), p + 3) && DepthTo(re, p2) >= 0
          else SkipMemory(Gen(re), p + 3) == used && used < buf.Length && IsMemory(buf[used])
        decreases buf.Length - p2
      {
        if p2 < used {
          SameCommand(p2);
          PastMemory(p2);
        }
        p2 := p2 + 2;
      }
      if p2 < used { SameCommand(p2); }
    }

    /** What is not a loop end is as compiled. */
    lemma SameCommand(x: nat)
      requires CodeOk() && used == |Gen(re)| <= buf.Length && x < used
      ensures buf[x] == Gen(re)[x] || (Gen(re)[x] == MAYBE_FINALIZE_JUMP && (buf[x] == JUMP || buf[x] == FINALIZE_JUMP))
    {
      hide Gen, Depth, SafeExit;
      assert buf[..used][x] == buf[x];
    }

    lemma PastMemory(x: nat)
      requires CodeOk() && x < |Gen(re)| && DepthTo(re, x) >= 0 && IsMemory(Gen(re)[x])
      ensures x + 2 <= |Gen(re)| && DepthTo(re, x + 2) >= 0
    {
      hide Gen, Depth, DepthTo, Solid;
      Flow(re, numRegs, x);
    }

    /** The command behind a loop. */
    lemma NextCommand(x: nat)
      requires CodeOk() && used == |Gen(re)| <= buf.Length && x < used && DepthTo(re, x) >= 0
      requires buf[x] == EXACTN || buf[x] == ENDLINE
      ensures Gen(re)[x] == buf[x]
      ensures buf[x] == EXACTN ==> x + 2 < used && Gen(re)[x + 1] > 0 && Gen(re)[x + 2] == buf[x + 2]
    {
      hide Gen, Depth, DepthTo, CodeOk, FlowOk;
      SameCommand(x);
      if buf[x] == EXACTN {
        StillRunnable();
        Flow(re, numRegs, x);
        RunStart(x);
      }
    }

    lemma RunStart(x: nat)
      requires CodeOk() && used == |Gen(re)| <= buf.Length && x < used && Gen(re)[x] == EXACTN
      requires FlowOk(re, numRegs, Gen(re), 0, x) && Depth(re, x) >= 0
      ensures x + 2 < used && Gen(re)[x + 1] > 0 && Gen(re)[x + 2] == buf[x + 2]
    {
      hide Gen, Depth, CodeOk, Solid;
      BelowBound(re, x + 2 + Gen(re)[x + 1] as int, Depth(re, x));
      Operand(x, x + 2, x + 2 + Gen(re)[x + 1] as int);
    }

    /** Whether the command at `x` may begin with a character. */
    method MayBegin(x: nat, c: byte) returns (may: bool)
      requires CodeOk() && used == |Gen(re)| <= buf.Length && x < used
      requires FlowOk(re, numRegs, Gen(re), 0, x) && Depth(re, x) >= 0
      ensures may == Begins(Gen(re), x, c)
    {
      hide CodeOk, Depth, Gen, Below, Solid, FlowOk, IsSet, WideRanges, BitOf, RegexSets.Single;
      SameCommand(x);
      may := true;
      if Peek(x) == EXACTN {
        RunStart(x);
        may := Peek(x + 2) == c;
      } else if Peek(x) == CHARSET || Peek(x) == CHARSET_NOT {
        SetOperands(x, Depth(re, x));
        var set_ := buf[x + 1..used];
        SetIsSet(x, set_);
        var found := IsInList(c, set_);
        SetDecides(x, set_, c, found);
        may := (found != 0) != (Peek(x) == CHARSET_NOT);
      }
    }

    /** `maybe_finalize_jump`: rewrites itself, then does what it became. */
    method DoMaybeFinalizeJump() returns (v: Verdict)
      requires Inv() && Here() && p < used && buf[p] == MAYBE_FINALIZE_JUMP
      modifies this`p, this`stack, this`items, this`cut, buf
      ensures Inv() && Here() && v == Go && Takes(old(p), old(d), v)
      ensures Did(Gen(re), s, old(View()), v, View())
      ensures (stack == old(stack) && cut == old(cut))
        || (TurnOver(Gen(re), s, At(old(p), old(d)), old(stack), At(p, d), stack) && (cut <==> old(cut) || !SimpleLoops(re)))
    {
      hide StacksOk, BestOk, Depth, Gen, PlaceOk, Below, Solid, Extract, FlowOk, Alike, SafeExit, SimpleLoops;
      Command();
      var final := MayFinalize();
      Rewrite(if final then FINALIZE_JUMP else JUMP);
      if final {
        v := DoFinalizeJump();
      } else {
        v := DoJump();
      }
    }

    method Rewrite(op: byte)
      requires CodeOk() && used == |Gen(re)| <= buf.Length && p < used && (op == JUMP || op == FINALIZE_JUMP)
      requires Gen(re)[p] == MAYBE_FINALIZE_JUMP && Depth(re, p) >= 0 && (op == FINALIZE_JUMP ==> SafeExit(Gen(re), p))
      modifies buf
      ensures CodeOk() && buf[p] == op
    {
      hide Depth, Gen, Alike, Runnable, SafeExit;
      ghost var b := buf[..used];
      RewriteLoopEnd(b, re, p, op);
      buf[p] := op;
      assert buf[..used] == b[p := op];
    }

    /** One turn of the loop of `re_match` inside the code. */
    method Step() returns (v: Verdict)
      requires Inv() && Here() && p < used
      modifies this`p, this`d, this`regstart, this`regend, this`active, this`matched, this`stack, this`items, this`room
      modifies this`cut, buf
      ensures Inv() && (v == Go ==> Here())
      ensures (old(cut) ==> cut) && (cut && !old(cut) ==> !SimpleLoops(re))
      ensures v == Go && |stack| < |old(stack)| && !SimpleLoops(re) ==> cut
      ensures !cut ==> Moved(Gen(re), s, At(old(p), old(d)), old(stack), v, At(p, d), stack)
      ensures Loopless(re) && v == Go && |stack| > |old(stack)| ==> stack[|stack| - 1].Point?
      ensures v != Full ==> Did(Gen(re), s, old(View()), v, View())
      ensures v == Full ==> |old(stack)| >= maxFailures && Pushes(Gen(re), old(p))
    {
      hide CodeOk, StacksOk, BestOk, RegsOk, PlaceOk, Gen, Depth, Below, Solid, SafeExit, SimpleLoops;
      Command();
      match buf[p]
      case 1 => v := DoExactn();
      case 2 => v := DoBegline();
      case 3 => v := DoEndline();
      case 4 => v := DoJump();
      case 5 => v := DoOnFailureJump();
      case 6 => v := DoFinalizeJump();
      case 7 => v := DoMaybeFinalizeJump();
      case 8 => v := DoDummyFailureJump();
      case 12 => v := DoAnychar();
      case 13 => v := DoCharset();
      case 14 => v := DoCharset();
      case 15 => v := DoStartMemory();
      case 16 => v := DoStopMemory();
      case _ =>
        Command();
        assert false;
    }

    /** The best end so far, or -1. */
    ghost function Best(): int
      reads this`bestSet, this`best
    {
      if bestSet then best else -1
    }

    lemma MatchesReach()
      requires CodeOk()
      ensures forall j: nat :: Matches(re, s, pos, j) ==> Reachable(Gen(re), s, pos, At(|Gen(re)|, j))
    {
      hide Matches, Reachable, Gen, Sized;
      forall j: nat | Matches(re, s, pos, j)
        ensures Reachable(Gen(re), s, pos, At(|Gen(re)|, j))
      {
        ReachesIffMatches(re, s, pos, j);
      }
    }

    lemma NoneLonger()
      requires pos <= |s|
      ensures forall j: nat :: Matches(re, s, pos, j) ==> j <= |s|
    {
      hide Matches;
      forall j: nat | Matches(re, s, pos, j)
        ensures j <= |s|
      {
        EndsInside(re, s, pos, j);
      }
    }

    /** Notes a match that is better than those so far. */
    method Record()
      requires Inv() && Here() && p == used
      modifies this`bestSet, this`best
      ensures Inv() && Here() && bestSet && best == if !old(bestSet) || d > old(best) then d else old(best)
    {
      hide CodeOk, StacksOk, RegsOk, PlaceOk, Gen;
      AtEnd();
      if !bestSet || d > best {
        bestSet, best := true, d;
      }
    }

    /** The end of the code with no failure points left: the best match if one was noted, else the one found here. */
    method Last() returns (at: nat, ghost passed: int)
      requires Inv() && Here() && p == used
      ensures at == if bestSet then best else d
      ensures pos <= at <= |s| && Matches(re, s, pos, at)
      ensures passed == if bestSet && d > best then d else -1
      ensures passed >= 0 ==> Matches(re, s, pos, passed)
    {
      hide StacksOk, RegsOk, PlaceOk, Gen, Matches;
      AtEnd();
      at, passed := d, -1;
      DoneIsMatch(d);
      if bestSet {
        if d > best { passed := d; }
        at := best;
        DoneIsMatch(best);
      }
    }

    /** In code without loops every command leads forward. */
    lemma LooplessForward()
      requires CodeOk() && used == |Gen(re)| <= buf.Length && Here() && p < used && Loopless(re)
      ensures GoesForward(Gen(re), s, At(p, d))
    {
      hide Gen, Reachable, Depth, Loopless, Solid, Below, Extract, SetAccepts;
      Command();
      LooplessCode(re, p);
    }

    /** The search is on course, and keeps track of loops over single characters. */
    ghost predicate Going(enough: bool, seen: seq<int>, live: bool, left: int)
      reads this`cut, this`p, this`d, this`stack, this`bestSet, this`best
    {
      && (enough ==> SimpleLoops(re))
      && (SimpleLoops(re) ==> !cut && Flat(re, stack) && (live ==> Tracked(re, s, At(p, d), stack)))
      && OnCourse(Gen(re), s, pos, cut, Loopless(re), enough, seen, Best(), live, At(p, d), stack, left)
    }

    lemma GoingStarts(steps: nat)
      requires p == 0 && d == pos && stack == [] && !bestSet && !cut
      ensures Going(SimpleLoops(re) && steps >= Work(Gen(re), s, At(0, pos)), [], true, steps)
    {
      hide OnCourse, Work, Gen, Loopless, SimpleLoops, Tracked;
      TrackedStart(re, s, pos);
      CourseStart(Gen(re), s, pos, Loopless(re), SimpleLoops(re), steps);
    }

    /** One turn inside the code. */
    method Inside(ghost enough: bool, ghost seen: seq<int>, ghost left: int) returns (v: Verdict, ghost seen': seq<int>)
      requires Inv() && Here() && p < used && Going(enough, seen, true, left)
      modifies this`p, this`d, this`regstart, this`regend, this`active, this`matched, this`stack, this`items, this`room
      modifies this`cut, buf
      ensures Inv() && (v == Go ==> Here()) && (v == Full ==> |old(stack)| >= maxFailures && Pushes(Gen(re), old(p)))
      ensures v != Full ==> Did(Gen(re), s, old(View()), v, View()) && Going(enough, seen', v == Go, left - 1)
      ensures SimpleLoops(re) ==> !cut
      ensures v == Fail ==> seen' != [] && seen'[|seen'| - 1] == -1
    {
      hide OnCourse, CodeOk, StacksOk, RegsOk, BestOk, Gen, Reachable, Loopless, Moved, GoesForward, SimpleLoops, Tracked,
        NothingLost, Flat, Runnable, SafeExit, Succ, Did, Depth;
      ghost var cut0, b0, c0, st0 := cut, Best(), At(p, d), stack;
      if Loopless(re) {
        LooplessForward();
        LooplessIsSimple(re);
      }
      if SimpleLoops(re) {
        CharHere();
        PlaceBound(|stack|, p, d);
        StillRunnable();
        SimpleGoesDown(re, numRegs, s, At(p, d));
      }
      v := Step();
      seen' := seen;
      if v == Full { return; }
      if SimpleLoops(re) { Follow(c0, st0, v); }
      CourseStep(Gen(re), s, pos, cut0, cut, Loopless(re), enough, seen, b0, c0, st0, v, At(p, d), stack, left);
      if v == Fail { seen' := seen + [-1]; }
    }

    /** The end of the code is reached, not the end of the string, and there are failure points. */
    method Note(ghost enough: bool, ghost seen: seq<int>, ghost left: int)
      requires Inv() && Here() && p == used && d != |s| && Going(enough, seen, true, left)
      modifies this`bestSet, this`best
      ensures Inv() && Going(enough, seen + [d], false, left - 1)
      ensures Best() == if old(Best()) < d then d else old(Best())
    {
      hide OnCourse, CodeOk, StacksOk, RegsOk, Gen, Loopless, SimpleLoops, Tracked, Flat;
      CourseEnd(Gen(re), s, pos, cut, Loopless(re), enough, seen, Best(), d, stack, left);
      Record();
    }

    /** When nothing is left to be tried: no end is better than the best one, which is the one to choose. */
    ghost predicate Settled()
      reads this`cut, this`bestSet, this`best
    {
      && (cut || forall j: nat :: Reachable(Gen(re), s, pos, At(|Gen(re)|, j)) ==> j <= Best())
      && (Loopless(re) ==> var all := Leaves(Gen(re), s, At(0, pos)); all != [] && Pick(all, |s|) == Best())
    }

    /** On from a failure point, if there is one. */
    method Retreat(ghost enough: bool, ghost seen: seq<int>, ghost left: int) returns (ok: bool)
      requires Inv() && Going(enough, seen, false, left) && seen != [] && (seen[|seen| - 1] == -1 || stack != [])
      modifies this`stack, this`items, this`p, this`d, this`regstart, this`regend, this`active, this`matched
      ensures Inv() && (ok ==> Here() && Going(enough, seen, true, left) && Fell(old(View()), View()))
      ensures !ok ==> Settled() && Latest(old(stack)) < 0
    {
      hide OnCourse, CodeOk, StacksOk, RegsOk, BestOk, PlaceOk, Gen, Loopless, SimpleLoops, Tracked, Flat, Fell, Leaves, Pick,
        Reachable;
      ghost var c1, st1 := At(p, d), stack;
      ok := Backtrack();
      if ok {
        if SimpleLoops(re) {
          TrackedBack(re, s, At(p, d), st1, |stack|);
          TrackedFlat(re, s, At(p, d), stack);
        }
        CourseBack(Gen(re), s, pos, cut, Loopless(re), enough, seen, Best(), c1, st1, At(p, d), stack, left);
      } else {
        CourseDone(Gen(re), s, pos, cut, Loopless(re), enough, seen, Best(), c1, st1, left);
      }
    }

    /** What an answer means. */
    ghost predicate Right(r: Result, passed: int)
      reads this`cut
    {
      && (r.Matched? ==> 0 <= r.length <= |s| - pos && Matches(re, s, pos, pos + r.length))
      && (r.Matched? && !cut ==> forall j: nat :: Matches(re, s, pos, j) ==> j <= pos + r.length || j <= passed)
      && (passed >= 0 ==> r.Matched? && passed > pos + r.length && Matches(re, s, pos, passed))
      && (r.NoMatch? && !cut ==> forall j: nat :: !Matches(re, s, pos, j))
      && (Loopless(re) && (r.Matched? || r.NoMatch?) ==>
           var all := Leaves(Gen(re), s, At(0, pos)); all != [] && Answers(r, Pick(all, |s|), pos))
    }

    /** The answer at the end of the code when it is that of the string, or no failure point is left. */
    method AnswerHere(ghost enough: bool, ghost seen: seq<int>, ghost left: int) returns (r: Result, ghost passed: int)
      requires Inv() && Here() && p == used && (d == |s| || stack == []) && Going(enough, seen, true, left)
      ensures r == Done(if d == |s| || Best() == -1 then d else Best()) && Right(r, passed)
    {
      hide OnCourse, CodeOk, StacksOk, RegsOk, BestOk, PlaceOk, Gen, Matches, Reachable, Loopless, Leaves, Pick, SimpleLoops,
        Tracked, Flat;
      passed := -1;
      CharHere();
      MatchesReach();
      if d == |s| {
        CourseAtEnd(Gen(re), s, pos, cut, Loopless(re), enough, seen, Best(), stack, left);
        NoneLonger();
        AtEndMatch();
        r := Done(d);
      } else {
        CourseLast(Gen(re), s, pos, cut, Loopless(re), enough, seen, Best(), d, left);
        var at;
        at, passed := Last();
        r := Done(at);
      }
    }

    /** The answer when nothing is left to be tried. */
    method AnswerBest() returns (r: Result)
      requires Inv() && Settled()
      ensures Right(r, -1) && r == if Best() == -1 then NoMatch else Done(Best())
    {
      hide CodeOk, StacksOk, RegsOk, PlaceOk, Gen, Matches, Reachable, Loopless, Leaves, Pick;
      MatchesReach();
      if bestSet {
        BestIsMatch();
        return Done(best);
      }
      r := NoMatch;
    }

    /**
     * `re_match`. Whatever length it returns, the tree that the code was compiled from matches that part of the string;
     * the code is left with loop ends rewritten, and runs on. Unless a loop was cut, which happens only to loops over
     * groups, it fails only when nothing matches, and no match is longer than the one returned or the one found last: that
     * one, `passed`, may give way to a shorter one found before. Without loops, the answer is `Pick`'s. Without loops over
     * groups, as many steps as there are commands to be taken are enough. In `run` the variables change as each command
     * says; the answer is the end of that run, and the matcher gives up only with as many failure points as are allowed.
     */
    method Match(steps: nat) returns (r: Result, ghost passed: int, ghost run: seq<Machine>)
      requires Inv() && Here() && p == 0 && d == pos && stack == [] && !bestSet && !cut
      modifies this, buf
      ensures Inv()
      ensures r.Matched? ==> 0 <= r.length <= |s| - pos && Matches(re, s, pos, pos + r.length)
      ensures r.Matched? && !cut ==> forall j: nat :: Matches(re, s, pos, j) ==> j <= pos + r.length || j <= passed
      ensures passed >= 0 ==> r.Matched? && passed > pos + r.length && Matches(re, s, pos, passed)
      ensures r.NoMatch? && !cut ==> forall j: nat :: !Matches(re, s, pos, j)
      ensures SimpleLoops(re) ==> !cut
      ensures Loopless(re) && (r.Matched? || r.NoMatch?) ==>
        var all := Leaves(Gen(re), s, At(0, pos)); all != [] && Answers(r, Pick(all, |s|), pos)
      ensures Trace(Gen(re), s, run) && run != [] && run[0] == old(View())
      ensures r.Matched? ==> EndsWith(Gen(re), s, run, pos + r.length)
      ensures r.NoMatch? ==> EndsWith(Gen(re), s, run, -1)
      ensures r.Overflow? ==> |run[|run| - 1].stack| >= maxFailures && Pushes(Gen(re), run[|run| - 1].p)
      ensures r.OutOfSteps? ==> |run| == steps + 1
      ensures SimpleLoops(re) && steps >= Work(Gen(re), s, At(0, pos)) ==> !r.OutOfSteps?
    {
      hide Going, Settled, Work, CodeOk, StacksOk, RegsOk, BestOk, PlaceOk, Gen, Matches, Loopless, Leaves, Pick, SimpleLoops,
        Trace, EndsWith, Reachable, Answers;
      r, passed, run := Loop(steps);
    }

    /** The loop of `re_match`. */
    method Loop(steps: nat) returns (r: Result, ghost passed: int, ghost run: seq<Machine>)
      requires Inv() && Here() && p == 0 && d == pos && stack == [] && !bestSet && !cut
      modifies this, buf
      ensures Inv() && Right(r, passed) && (SimpleLoops(re) ==> !cut)
      ensures Trace(Gen(re), s, run) && run != [] && run[0] == old(View())
      ensures r.Matched? ==> EndsWith(Gen(re), s, run, pos + r.length)
      ensures r.NoMatch? ==> EndsWith(Gen(re), s, run, -1)
      ensures r.Overflow? ==> |run[|run| - 1].stack| >= maxFailures && Pushes(Gen(re), run[|run| - 1].p)
      ensures r.OutOfSteps? ==> |run| == steps + 1
      ensures SimpleLoops(re) && steps >= Work(Gen(re), s, At(0, pos)) ==> !r.OutOfSteps?
    {
      hide Going, Settled, Work, CodeOk, StacksOk, RegsOk, BestOk, PlaceOk, Gen, Matches, Loopless, Leaves, Pick, SimpleLoops,
        Did, Fell, Trace, EndsWith, RunSoFar, Whole, IsBest, Latest, Reachable, Alike, Runnable, Depth, Right;
      passed := -1;
      ghost var code := Gen(re);
      ghost var enough, seen: seq<int> := SimpleLoops(re) && steps >= Work(code, s, At(0, pos)), [];
      GoingStarts(steps);
      run := [View()];
      ghost var start := View();
      RunStarts(code, s, start);
      var left := steps;
      while left > 0
        invariant Inv() && Here() && passed == -1 && (SimpleLoops(re) ==> !cut) && Going(enough, seen, true, left)
        invariant RunSoFar(code, s, run, start, View(), Best()) && |run| == steps - left + 1
        decreases left
      {
        left := left - 1;
        var v := Fail;
        ghost var now, best0 := View(), Best();
        RunIs(code, s, run, start, now, best0);
        if p == used {
          if d == |s| || stack == [] {
            r, passed := AnswerHere(enough, seen, left + 1);
            RunEnds(code, s, run, start, now, best0, pos + r.length);
            return;
          }
          Note(enough, seen, left + 1);
          seen := seen + [d];
        } else {
          PlaceBound(|stack|, p, d);
          v, seen := Inside(enough, seen, left + 1);
          if v == Full {
            RightOther(Overflow);
            return Overflow, passed, run;
          }
        }
        if v == Fail {
          ghost var fallen := View();
          var ok := Retreat(enough, seen, left);
          if !ok {
            RunFails(code, s, run, start, now, best0, Best(), fallen);
            r := AnswerBest();
            return;
          }
          RunFalls(code, s, run, start, now, best0, Best(), fallen, View());
        } else {
          RunGoes(code, s, run, start, now, best0, View());
        }
        run := run + [View()];
      }
      EnoughLeft(enough, seen);
      RunIs(code, s, run, start, View(), Best());
      r := OutOfSteps;
      RightOther(r);
    }

    lemma RightOther(r: Result)
      requires r.Overflow? || r.OutOfSteps?
      ensures Right(r, -1)
    {
    }

    lemma EnoughLeft(enough: bool, seen: seq<int>)
      requires Going(enough, seen, true, 0)
      ensures !enough
    {
      hide OnCourse, SimpleLoops, Tracked, Flat, Gen;
      CourseSteps(Gen(re), s, pos, cut, Loopless(re), enough, seen, Best(), At(p, d), stack);
    }

    /** The step that led from `c` to the place keeps track of loops. */
    lemma Follow(c: Config, st0: seq<Failure>, v: Verdict)
      requires CodeOk() && used == |Gen(re)| && SimpleLoops(re) && c.pc < used && DepthTo(re, c.pc) >= 0
      requires Tracked(re, s, c, st0) && v != Full && Moved(Gen(re), s, c, st0, v, At(p, d), stack)
      ensures v == Go ==> Tracked(re, s, At(p, d), stack)
      ensures v == Go && TurnOver(Gen(re), s, c, st0, At(p, d), stack) ==> NothingLost(Gen(re), s, st0[|st0| - 1], At(p, d))
      ensures Flat(re, stack)
    {
      hide Gen, DepthTo, SimpleLoops, Tracked, Moved, TurnOver, NothingLost, Flat, Alike, Runnable;
      TrackedOn(re, numRegs, s, c, st0, v, At(p, d), stack);
    }

    lemma AtEndMatch()
      requires Inv() && Here() && p == used
      ensures pos <= d <= |s| && Matches(re, s, pos, d)
    {
      hide StacksOk, RegsOk, BestOk, PlaceOk, Gen, Matches;
      AtEnd();
      DoneIsMatch(d);
    }

    lemma BestIsMatch()
      requires Inv() && bestSet
      ensures pos <= best <= |s| && Matches(re, s, pos, best)
    {
      hide StacksOk, RegsOk, PlaceOk, Gen, Matches;
      DoneIsMatch(best);
    }

    /** The code can be run again. */
    lemma StillAlike()
      requires Inv()
      ensures used <= buf.Length && Alike(buf[..used], re)
    {
    }

    lemma AtEnd()
      requires Here() && used == |Gen(re)| && p == used
      ensures PlaceOk(re, s, pos, 0, |Gen(re)|, d)
    {
    }

    /** The length of a match that ends at `at`. */
    function Done(at: nat): Result {
      Matched(at - pos)
    }

    lemma DoneIsMatch(at: nat)
      requires PlaceOk(re, s, pos, 0, |Gen(re)|, at) && CodeOk()
      ensures pos <= at <= |s| && Matches(re, s, pos, at)
    {
      Soundness(re, s, pos, at);
    }
  }
}
