/** Compiling a pattern and matching with it. */
module Regex {
  import opened RegexSets
  import opened RegexTree
  import opened RegexPath
  import opened RegexFlow
  import opened RegexComplete
  import opened RegexLoops
  import opened RegexMachine
  import opened RegexEnds
  import opened RegexSyntax
  import opened RegexScan
  import opened RegexAccept
  import opened RegexCompile
  import opened RegexVm

  /** What comes of a pattern and a string; code of 32768 bytes or more is not run here. */
  datatype Answer = Rejected(outcome: Outcome) | TooLong | Answered(result: Result)

  /**
   * A pattern is refused as `Scan` says, so none that a proper tree with groups within the limits spells, unless it
   * is long. Whatever length the matcher returns, that part of the string is in the language
   * of the pattern. For a pattern whose loops are over single characters a failure means that no match begins at this
   * place, and no match is longer than the one returned or the one that was passed over. For a pattern without loops
   * there is a longer match than the one returned exactly when the pattern and the string are such that one is passed
   * over.
   */
  method CompileAndMatch(pattern: seq<byte>, s: seq<byte>, pos: nat, maxFailures: nat, steps: nat)
    returns (a: Answer, ghost re: Re, ghost passed: int, ghost run: seq<Machine>)
    requires pos <= |s|
    ensures a.Rejected? ==>
      a.outcome == Scan(pattern, 0, false, 0, 1) || (a.outcome == TooBig && 12 * |pattern| + 40 >= MAX_BUFFER)
    ensures !a.Rejected? ==> Scan(pattern, 0, false, 0, 1) == Good && Takes(re, pattern)
    ensures (exists r :: Takes(r, pattern)) && 12 * |pattern| + 40 < MAX_BUFFER ==> !a.Rejected?
    ensures a.Rejected? && a.outcome != TooBig && a.outcome != TooDeep ==>
      forall r :: !(Show(r) == pattern && Proper(r, -1))
    ensures !a.Rejected? ==> (a.TooLong? <==> |Gen(re)| >= 0x8000)
    ensures a.Answered? ==> AnswerRun(re, s, pos, run, a.result)
    ensures a.Answered? && a.result.Overflow? ==> run != [] && |run[|run| - 1].stack| >= maxFailures
    ensures a.Answered? && a.result.OutOfSteps? ==> |run| == steps + 1
    ensures a.Answered? && a.result.Matched? ==>
      0 <= a.result.length <= |s| - pos && Matches(re, s, pos, pos + a.result.length)
    ensures a.Answered? && SimpleLoops(re) && a.result.NoMatch? ==> forall j: nat :: !Matches(re, s, pos, j)
    ensures a.Answered? && SimpleLoops(re) && a.result.Matched? ==>
      forall j: nat :: Matches(re, s, pos, j) ==> j <= pos + a.result.length || j <= passed
    ensures passed >= 0 ==>
      a.Answered? && a.result.Matched? && passed > pos + a.result.length && Matches(re, s, pos, passed)
    ensures a.Answered? && Loopless(re) && a.result.Matched? ==>
      (PassedOver(re, s, pos) <==> exists j: nat :: Matches(re, s, pos, j) && j > pos + a.result.length)
    ensures a.Answered? && Loopless(re) && (a.result.Matched? || a.result.NoMatch?) ==>
      Ends(re, s, pos) != [] && Answers(a.result, Pick(Ends(re, s, pos), |s|), pos)
    ensures a.Answered? && SimpleLoops(re) && steps >= Work(Gen(re), s, At(0, pos)) ==> !a.result.OutOfSteps?
  {
    hide *;
    passed, run := -1, [];
    var compiler := new Compiler(pattern);
    var e;
    ghost var at;
    e, re, at := compiler.Compile();
    TreesDecide(pattern);
    if e != Good { return Rejected(e), re, passed, run; }
    var buf, used := compiler.Result();
    if used >= 0x8000 { return TooLong, re, passed, run; }
    Fits(re, compiler.regnum);
    AlikeItself(re);
    var m := new Matcher(re, s, pos, buf, used, compiler.regnum, maxFailures);
    var r;
    r, passed, run := m.Match(steps);
    AnswerRuns(re, s, pos, run, r);
    a := Answered(r);
    if Loopless(re) {
      RunnableParts(re, compiler.regnum);
      LeavesAreEnds(re, s, pos);
      if r.Matched? { LongerIff(re, s, pos, r); }
    }
  }

  ghost predicate AnswerRun(re: Re, s: seq<byte>, pos: nat, run: seq<Machine>, r: Result) {
    && (r.Matched? ==> RunTo(Gen(re), s, pos, run, pos + r.length))
    && (r.NoMatch? ==> RunTo(Gen(re), s, pos, run, -1))
  }

  lemma AnswerRuns(re: Re, s: seq<byte>, pos: nat, run: seq<Machine>, r: Result)
    requires Trace(Gen(re), s, run) && run != [] && Fresh(run[0], pos)
    requires r.Matched? ==> EndsWith(Gen(re), s, run, pos + r.length)
    requires r.NoMatch? ==> EndsWith(Gen(re), s, run, -1)
    ensures AnswerRun(re, s, pos, run, r)
  {
    hide Trace, Fresh, EndsWith, Gen;
  }

  lemma RunnableParts(re: Re, regs: nat)
    requires Runnable(re, regs)
    ensures Sized(re) && Short(re)
  {
  }

  /** There is a longer match than the answer exactly when one is passed over. */
  lemma LongerIff(re: Re, s: seq<byte>, pos: nat, r: Result)
    requires Loopless(re) && pos <= |s| && r.Matched? && r.length >= 0
    requires Ends(re, s, pos) != [] && Answers(r, Pick(Ends(re, s, pos), |s|), pos)
    ensures PassedOver(re, s, pos) <==> exists j: nat :: Matches(re, s, pos, j) && j > pos + r.length
  {
    hide Ends, Loopless, Matches, PassedOver, Largest;
    var es := Ends(re, s, pos);
    var k := Pick(es, |s|);
    LongestIff(re, s, pos);
    PickIn(es, |s|);
    if j: nat :| Matches(re, s, pos, j) && j > pos + r.length {
      EndsAreMatches(re, s, pos, j);
    }
    if PassedOver(re, s, pos) {
      var m := Largest(es);
      EndsAreMatches(re, s, pos, m);
      assert Matches(re, s, pos, m) && m > pos + r.length;
    }
  }

  lemma PickIn(es: seq<int>, end: int)
    requires es != []
    ensures Pick(es, end) <= Largest(es)
    ensures Largest(es) >= Pick(es, end) >= 0 ==> Largest(es) in es
  {
    hide Largest;
    LargestOf(es);
  }

  lemma Fits(re: Re, regs: nat)
    requires Sized(re) && GroupsBelow(re, regs) && |Gen(re)| < 0x8000
    ensures Runnable(re, regs)
  {
  }

  /** A second match, at another place or in another string, with the code that the first one rewrote. */
  method MatchTwice(ghost re: Re, buf: array<byte>, used: nat, regs: nat, s1: seq<byte>, pos1: nat, s2: seq<byte>, pos2: nat,
      maxFailures: nat, steps: nat)
    returns (r1: Result, r2: Result, ghost run1: seq<Machine>, ghost run2: seq<Machine>)
    requires used == |Gen(re)| <= buf.Length && Alike(buf[..used], re) && Runnable(re, regs) && regs >= 1
    requires pos1 <= |s1| && pos2 <= |s2|
    modifies buf
    ensures Alike(buf[..used], re)
    ensures AnswerRun(re, s1, pos1, run1, r1) && AnswerRun(re, s2, pos2, run2, r2)
    ensures r1.Matched? ==> 0 <= r1.length <= |s1| - pos1 && Matches(re, s1, pos1, pos1 + r1.length)
    ensures r2.Matched? ==> 0 <= r2.length <= |s2| - pos2 && Matches(re, s2, pos2, pos2 + r2.length)
    ensures SimpleLoops(re) && r1.NoMatch? ==> forall j: nat :: !Matches(re, s1, pos1, j)
    ensures SimpleLoops(re) && r2.NoMatch? ==> forall j: nat :: !Matches(re, s2, pos2, j)
  {
    hide *;
    var m1 := new Matcher(re, s1, pos1, buf, used, regs, maxFailures);
    ghost var passed;
    r1, passed, run1 := m1.Match(steps);
    AnswerRuns(re, s1, pos1, run1, r1);
    m1.StillAlike();
    var m2 := new Matcher(re, s2, pos2, buf, used, regs, maxFailures);
    r2, passed, run2 := m2.Match(steps);
    AnswerRuns(re, s2, pos2, run2, r2);
    m2.StillAlike();
  }
}
