/**
 * A match that is lost: in a loop over a group the matcher leaves the loop by force when the group took nothing, and
 * judges that by flags that it does not put back when it goes back to a failure point.
 */
module RegexLoss {
  import opened RegexSets
  import opened RegexTree
  import opened RegexPath
  import opened RegexFlow
  import opened RegexComplete
  import opened RegexLoops
  import opened RegexMachine
  import opened RegexVm
  import opened RegexSyntax

  function Char(c: byte): Re {
    Run([Lit(c, false)])
  }

  /** A sequence of one. */
  function Alone(r: Re): Re {
    Cat(Empty, r)
  }

  /** `a?|b` */
  const BODY := Alt(Alone(Rep(Char(97), [QUERY])), Alone(Char(98)))

  /** `(a?|b)*c` */
  const PATTERN := Cat(Alone(Rep(Group(1, BODY), [STAR])), Char(99))

  /** `bbc` */
  const TEXT: seq<byte> := [98, 98, 99]

  const CODE: seq<byte> := [
    ON_FAILURE_JUMP, 22, 0, START_MEMORY, 1, ON_FAILURE_JUMP, 9, 0, ON_FAILURE_JUMP, 3, 0, EXACTN, 1, 97, JUMP, 3, 0,
    EXACTN, 1, 98, STOP_MEMORY, 1, MAYBE_FINALIZE_JUMP, 231, 255, EXACTN, 1, 99]

  lemma CharSpells(c: byte, next: int)
    requires 96 <= c < 100
    ensures Show(Char(c)) == [c] && Proper(Char(c), next)
  {
    var ls := [Lit(c, false)];
    assert ls[..0] == [] && ShowLits(ls) == ShowLits([]) + ShowLit(ls[0]);
    assert ProperLits(ls[..0], c as int);
  }

  lemma AloneSpells(r: Re, next: int)
    ensures Show(Alone(r)) == Show(r) && Gen(Alone(r)) == Gen(r)
    ensures !r.Empty? && !r.Cat? && !r.Alt? && !r.Bol? && Proper(r, next) ==> Proper(Alone(r), next)
  {
    assert Show(Empty) == [] && Gen(Empty) == [];
  }

  lemma PatternIs()
    ensures Show(PATTERN) == [OPEN, 97, QUERY, BAR, 98, CLOSE, STAR, 99] && Proper(PATTERN, -1)
  {
    hide Show, Proper, Gen;
    CharSpells(97, QUERY);
    CharSpells(98, CLOSE);
    CharSpells(99, -1);
    RepSpells(Char(97), QUERY, BAR);
    AloneSpells(Rep(Char(97), [QUERY]), BAR);
    AloneSpells(Char(98), CLOSE);
    BodySpells();
    RepSpells(Group(1, BODY), STAR, 99);
    AloneSpells(Rep(Group(1, BODY), [STAR]), 99);
    CatSpells(Alone(Rep(Group(1, BODY), [STAR])), Char(99), -1);
  }

  lemma RepSpells(r: Re, op: byte, next: int)
    requires (r.Run? || r.Group?) && IsOp(op as int) && !IsOp(next)
    ensures Show(Rep(r, [op])) == Show(r) + [op] && (Proper(r, op as int) ==> Proper(Rep(r, [op]), next))
  {
  }

  lemma CatSpells(l: Re, r: Re, next: int)
    requires l.Cat? && r.Run?
    ensures Show(Cat(l, r)) == Show(l) + Show(r)
    ensures Proper(l, First(Show(r), next)) && Proper(r, next) ==> Proper(Cat(l, r), next)
  {
  }

  lemma BodySpells()
    requires Proper(Alone(Rep(Char(97), [QUERY])), BAR) && Proper(Alone(Char(98)), CLOSE)
    ensures Show(Group(1, BODY)) ==
      [OPEN] + (Show(Alone(Rep(Char(97), [QUERY]))) + [BAR] + Show(Alone(Char(98)))) + [CLOSE]
    ensures Proper(Group(1, BODY), STAR)
  {
  }

  lemma JumpIs(op: byte, n: nat)
    requires n < 256
    ensures JumpCode(op, n) == [op, n, 0]
  {
  }

  const OPTION: seq<byte> := [ON_FAILURE_JUMP, 3, 0, EXACTN, 1, 97]
  const GROUP: seq<byte> := [START_MEMORY, 1, ON_FAILURE_JUMP, 9, 0] + OPTION + [JUMP, 3, 0, EXACTN, 1, 98, STOP_MEMORY, 1]

  lemma CharIs(c: byte)
    ensures Gen(Char(c)) == [EXACTN, 1, c]
  {
  }

  lemma OptionIs()
    ensures Gen(Rep(Char(97), [QUERY])) == OPTION
  {
    hide JumpCode;
    assert !ManyOk([QUERY]);
    CharIs(97);
    JumpIs(ON_FAILURE_JUMP, 3);
  }

  lemma GroupIsGroup()
    ensures Gen(Group(1, BODY)) == GROUP
  {
    hide JumpCode, Gen;
    OptionIs();
    CharIs(98);
    AloneSpells(Rep(Char(97), [QUERY]), 0);
    AloneSpells(Char(98), 0);
    AltIs(Alone(Rep(Char(97), [QUERY])), Alone(Char(98)));
    GroupIs(1, BODY);
    JumpIs(ON_FAILURE_JUMP, 9);
    JumpIs(JUMP, 3);
  }

  lemma LoopIsLoop()
    ensures Gen(Rep(Group(1, BODY), [STAR])) == [ON_FAILURE_JUMP, 22, 0] + GROUP + [MAYBE_FINALIZE_JUMP, 231, 255]
  {
    hide JumpCode, Gen;
    assert ManyOk([STAR]) by { assert [STAR][0] != QUERY; }
    assert ZeroOk([STAR]) by { assert [STAR][0] != PLUS; }
    GroupIsGroup();
    LoopIs(Group(1, BODY), [STAR]);
    JumpIs(ON_FAILURE_JUMP, 22);
    BackIs();
  }

  lemma CodeIs()
    ensures Gen(PATTERN) == CODE
  {
    hide JumpCode, Gen;
    LoopIsLoop();
    CharIs(99);
    assert Gen(PATTERN) == Gen(Rep(Group(1, BODY), [STAR])) + Gen(Char(99)) by {
      AloneSpells(Rep(Group(1, BODY), [STAR]), 0);
      CatIs(Alone(Rep(Group(1, BODY), [STAR])), Char(99));
    }
    Flattened();
  }

  lemma Flattened()
    ensures CODE == [ON_FAILURE_JUMP, 22, 0] + GROUP + [MAYBE_FINALIZE_JUMP, 231, 255] + [EXACTN, 1, 99]
  {
  }

  lemma BackIs()
    ensures JumpCode(MAYBE_FINALIZE_JUMP, -25) == [MAYBE_FINALIZE_JUMP, 231, 255]
  {
  }

  // ---- the only run of the matcher

  const OUT := Point(25, 0, [])
  const OTHER := Point(17, 0, [(0, -1)])
  const SKIP := Point(14, 0, [(0, -1)])
  const NO := [false, false]
  const NONE := [-1, -1]

  const S0 := Machine(0, 0, NONE, NONE, NO, NO, [])
  const S1 := Machine(3, 0, NONE, NONE, NO, NO, [OUT])
  const S2 := Machine(5, 0, [-1, 0], NONE, [false, true], NO, [OUT])
  const S3 := Machine(8, 0, [-1, 0], NONE, [false, true], NO, [OUT, OTHER])
  const S4 := Machine(11, 0, [-1, 0], NONE, [false, true], NO, [OUT, OTHER, SKIP])
  const S5 := Machine(14, 0, [-1, 0], NONE, [false, true], NO, [OUT, OTHER])
  const S6 := Machine(20, 0, [-1, 0], NONE, [false, true], NO, [OUT, OTHER])
  const S7 := Machine(25, 0, [-1, 0], [-1, 0], NO, NO, [OUT, OTHER])
  const S8 := Machine(17, 0, [-1, 0], NONE, NO, NO, [OUT])
  const S9 := Machine(20, 1, [-1, 0], NONE, NO, NO, [OUT])
  const S10 := Machine(25, 1, [-1, 0], [-1, 1], NO, NO, [OUT])
  const S11 := Machine(25, 0, NONE, NONE, NO, NO, [])

  const STATES: seq<Machine> := [S0, S1, S2, S3, S4, S5, S6, S7, S8, S9, S10, S11]

  /** Where a failure leads to when the latest failure point is no dummy. */
  lemma Falls(m: Machine, m': Machine)
    requires Whole(m) && |m.starts| == 2 && m.stack != [] && m.stack[|m.stack| - 1].Point?
    requires var f := m.stack[|m.stack| - 1];
      m' == Machine(f.pc, f.d, [m.starts[0], if f.regs == [] then -1 else f.regs[0].0],
        [m.ends[0], if f.regs == [] then -1 else f.regs[0].1],
        [m.active[0], f.regs != [] && m.active[1]], [m.matched[0], f.regs != [] && m.matched[1]],
        m.stack[..|m.stack| - 1])
    ensures forall b :: Fell(m, b) <==> b == m'
  {
  }

  lemma Turn0(m: Machine)
    requires Turn(CODE, TEXT, S0, m)
    ensures m == S1
  {
    assert Succ(CODE, TEXT, At(0, 0)) == [At(3, 0), At(25, 0)];
    assert SavedRegs(S0) == [];
  }

  lemma Turn1(m: Machine)
    requires Turn(CODE, TEXT, S1, m)
    ensures m == S2
  {
  }

  lemma Turn2(m: Machine)
    requires Turn(CODE, TEXT, S2, m)
    ensures m == S3
  {
    assert Succ(CODE, TEXT, At(5, 0)) == [At(8, 0), At(17, 0)];
    assert SavedRegs(S2) == [(0, -1)];
  }

  lemma Turn4(m: Machine)
    requires Turn(CODE, TEXT, S4, m)
    ensures m == S5
  {
    assert Succ(CODE, TEXT, At(11, 0)) == [] by { assert TEXT[0..1][0] != CODE[13..14][0]; }
    Falls(S4, S5);
    var f :| Did(CODE, TEXT, S4, Fail, f) && Fell(f, m);
  }

  /** At the end of the group, when its flag says that it took nothing. */
  lemma LeavesLoop(m: Machine)
    requires Whole(m) && |m.starts| == 2 && m.p == 20 && !m.matched[1]
    ensures Forced(CODE, m, 1) && WayOut(CODE, m, 1) == 25
  {
  }

  lemma Turn6(m: Machine)
    requires Turn(CODE, TEXT, S6, m)
    ensures m == S7
  {
    hide Forced, WayOut, Fell;
    LeavesLoop(S6);
    var f :| Did(CODE, TEXT, S6, Fail, f) && Fell(f, m);
    Falls(f, S7);
  }

  lemma Turn3(m: Machine)
    requires Turn(CODE, TEXT, S3, m)
    ensures m == S4
  {
    assert Succ(CODE, TEXT, At(8, 0)) == [At(11, 0), At(14, 0)];
    assert SavedRegs(S3) == [(0, -1)];
  }

  lemma Turn5(m: Machine)
    requires Turn(CODE, TEXT, S5, m)
    ensures m == S6
  {
    assert Succ(CODE, TEXT, At(14, 0)) == [At(20, 0)];
  }

  lemma Turn7(m: Machine)
    requires Turn(CODE, TEXT, S7, m)
    ensures m == S8
  {
    assert Succ(CODE, TEXT, At(25, 0)) == [] by { assert TEXT[0..1][0] != CODE[27..28][0]; }
    Falls(S7, S8);
    var f :| Did(CODE, TEXT, S7, Fail, f) && Fell(f, m);
  }

  lemma Turn8(m: Machine)
    requires Turn(CODE, TEXT, S8, m)
    ensures m == S9
  {
    assert Succ(CODE, TEXT, At(17, 0)) == [At(20, 1)] by { assert TEXT[0..1] == CODE[19..20]; }
  }

  /** The group took a character, and its flag says that it did not. */
  lemma Turn9(m: Machine)
    requires Turn(CODE, TEXT, S9, m)
    ensures m == S10
  {
    hide Forced, WayOut, Fell;
    LeavesLoop(S9);
    var f :| Did(CODE, TEXT, S9, Fail, f) && Fell(f, m);
    Falls(f, S10);
  }

  lemma Turn10(m: Machine)
    requires Turn(CODE, TEXT, S10, m)
    ensures m == S11
  {
    assert Succ(CODE, TEXT, At(25, 1)) == [] by { assert TEXT[1..2][0] != CODE[27..28][0]; }
    Falls(S10, S11);
    var f :| Did(CODE, TEXT, S10, Fail, f) && Fell(f, m);
  }

  lemma Turn11(m: Machine)
    ensures !Turn(CODE, TEXT, S11, m)
  {
    assert Succ(CODE, TEXT, At(25, 0)) == [] by { assert TEXT[0..1][0] != CODE[27..28][0]; }
  }

  lemma NextState(k: nat, m: Machine)
    requires k < |STATES| && Turn(CODE, TEXT, STATES[k], m)
    ensures k + 1 < |STATES| && m == STATES[k + 1]
  {
    hide Turn;
    match k
    case 0 => Turn0(m);
    case 1 => Turn1(m);
    case 2 => Turn2(m);
    case 3 => Turn3(m);
    case 4 => Turn4(m);
    case 5 => Turn5(m);
    case 6 => Turn6(m);
    case 7 => Turn7(m);
    case 8 => Turn8(m);
    case 9 => Turn9(m);
    case 10 => Turn10(m);
    case _ => Turn11(m);
  }

  lemma {:induction false} OnlyRun(run: seq<Machine>, k: nat)
    requires Trace(CODE, TEXT, run) && run[0] == STATES[0] && k < |run|
    ensures k < |STATES| && run[k] == STATES[k]
  {
    hide Turn;
    if k > 0 {
      OnlyRun(run, k - 1);
      assert TurnAt(CODE, TEXT, run, k - 1);
      NextState(k - 1, run[k]);
    }
  }

  lemma RunBounds(run: seq<Machine>)
    requires Trace(CODE, TEXT, run) && run[0] == STATES[0]
    ensures |run| <= 12 && (forall at :: EndsWith(CODE, TEXT, run, at) ==> at < 0) && |run[|run| - 1].stack| <= 3
  {
    hide Turn, EndsWith;
    OnlyRun(run, |run| - 1);
    forall k | 0 <= k < |run|
      ensures run[k].p != |CODE|
    {
      OnlyRun(run, k);
      StateBounds(k);
    }
    StateBounds(|run| - 1);
    forall at | EndsWith(CODE, TEXT, run, at)
      ensures at < 0
    {
      NoEnd(run, at);
    }
  }

  lemma NoEnd(run: seq<Machine>, at: int)
    requires EndsWith(CODE, TEXT, run, at) && forall k :: 0 <= k < |run| ==> run[k].p != |CODE|
    ensures at < 0
  {
    hide EndsWith;
    if at >= 0 { EndsSomewhere(CODE, TEXT, run, at); }
  }

  lemma StateBounds(k: nat)
    requires k < |STATES|
    ensures STATES[k].p < |CODE| && |STATES[k].stack| <= 3
  {
  }

  lemma AloneFits(r: Re, m: nat)
    ensures Sized(Alone(r)) == Sized(r) && GroupsBelow(Alone(r), m) == GroupsBelow(r, m)
  {
  }

  lemma PatternFits()
    ensures Runnable(PATTERN, 2)
  {
    hide Gen;
    CodeIs();
    CharIs(97);
    GroupIsGroup();
    assert forall c: byte :: c < 128 ==> Sized(Char(c)) && GroupsBelow(Char(c), 2);
    assert Sized(Alone(Rep(Char(97), [QUERY]))) && Sized(Alone(Char(98))) && Sized(BODY) && Sized(Group(1, BODY)) && Sized(Rep(Group(1, BODY), [STAR]));
    assert GroupsBelow(Alone(Rep(Char(97), [QUERY])), 2) && GroupsBelow(Alone(Char(98)), 2) && GroupsBelow(BODY, 2);
    AloneFits(Rep(Group(1, BODY), [STAR]), 2);
  }

  /** The pattern `(a?|b)*c` matches all of `bbc`, and the matcher finds no match there. */
  method MatchIsLost() returns (r: Result)
    ensures r == NoMatch && Matches(PATTERN, TEXT, 0, 3)
    ensures Show(PATTERN) == [OPEN, 97, QUERY, BAR, 98, CLOSE, STAR, 99] && Proper(PATTERN, -1)
  {
    hide Gen, Matches, Turn, Trace, EndsWith, Runnable, Alike, Show, Proper;
    PatternIs();
    CodeIs();
    TextMatches();
    PatternFits();
    AlikeItself(PATTERN);
    var code := CODE;
    var buf := new byte[28](i requires 0 <= i < 28 => code[i]);
    assert buf[..28] == CODE;
    var m := new Matcher(PATTERN, TEXT, 0, buf, 28, 2, 100);
    ghost var start := m.View();
    assert start == STATES[0];
    ghost var passed, run;
    r, passed, run := m.Match(20);
    RunBounds(run);
  }

  lemma AloneMatches(r: Re, s: seq<byte>, i: nat, j: nat)
    requires Matches(r, s, i, j)
    ensures Matches(Alone(r), s, i, j)
  {
    assert Matches(Empty, s, i, i);
  }

  lemma GroupMatches(i: nat)
    requires i < 2
    ensures Matches(Group(1, BODY), TEXT, i, i + 1)
  {
    assert TEXT[i..i + 1] == [98];
    assert Matches(Char(98), TEXT, i, i + 1);
    AloneMatches(Char(98), TEXT, i, i + 1);
    assert Matches(BODY, TEXT, i, i + 1);
  }

  lemma LoopMatches()
    ensures Matches(Rep(Group(1, BODY), [STAR]), TEXT, 0, 2)
  {
    var g := Group(1, BODY);
    assert ManyOk([STAR]) by { assert [STAR][0] != QUERY; }
    assert ZeroOk([STAR]) by { assert [STAR][0] != PLUS; }
    GroupMatches(0);
    GroupMatches(1);
    hide Matches;
    assert Times(g, TEXT, 2, 2, 0);
    assert Times(g, TEXT, 1, 2, 1);
    assert Times(g, TEXT, 0, 2, 2);
    StarMatches(g, TEXT, 0, 2, 2);
  }

  lemma StarMatches(r: Re, s: seq<byte>, i: nat, j: nat, n: nat)
    requires Times(r, s, i, j, n) && ManyOk([STAR]) && ZeroOk([STAR])
    ensures Matches(Rep(r, [STAR]), s, i, j)
  {
  }

  lemma TextMatches()
    ensures Matches(PATTERN, TEXT, 0, 3)
  {
    LoopMatches();
    AloneMatches(Rep(Group(1, BODY), [STAR]), TEXT, 0, 2);
    assert TEXT[2..3] == [99];
    assert Matches(Char(99), TEXT, 2, 3);
  }
}
