/** What the registers and the failure stack of `re_match` are after each command, and the runs that these make. */
module RegexMachine {
  import opened RegexSets
  import opened RegexTree
  import opened RegexPath
  import opened RegexLoops

  /** A failure point: the registers that were saved, and where to go on. A dummy is only there to be popped. */
  datatype Failure = Dummy(regs: seq<(int, int)>) | Point(pc: nat, d: nat, regs: seq<(int, int)>)

  /** What a command does to the loop: go on, fail, or give up because the stack is full. */
  datatype Verdict = Go | Fail | Full

  /** The variables of `re_match`. */
  datatype Machine = Machine(
    p: nat, d: nat, starts: seq<int>, ends: seq<int>, active: seq<bool>, matched: seq<bool>, stack: seq<Failure>)

  predicate Whole(m: Machine) {
    0 < |m.starts| == |m.ends| == |m.active| == |m.matched|
    && forall k :: 0 <= k < |m.stack| ==> |m.stack[k].regs| < |m.starts|
  }

  /** The last register up to `k` that is set, or 0. */
  function LastSet(starts: seq<int>, k: nat): (n: nat)
    requires k < |starts|
    ensures n <= k && (n > 0 ==> starts[n] != -1) && forall i :: n < i <= k ==> starts[i] == -1
  {
    if k == 0 || starts[k] != -1 then k else LastSet(starts, k - 1)
  }

  /** The registers that a failure point saves. */
  function SavedRegs(m: Machine): (regs: seq<(int, int)>)
    requires Whole(m)
    ensures |regs| < |m.starts|
  {
    seq(LastSet(m.starts, |m.starts| - 1), k requires 0 <= k < LastSet(m.starts, |m.starts| - 1) =>
      (m.starts[k + 1], m.ends[k + 1]))
  }

  function Opened(m: Machine, r: nat): Machine
    requires Whole(m) && r < |m.starts|
  {
    m.(starts := m.starts[r := m.d], active := m.active[r := true], matched := m.matched[r := false])
  }

  function Closed(m: Machine, r: nat): Machine
    requires Whole(m) && r < |m.starts|
  {
    m.(ends := m.ends[r := m.d], active := m.active[r := false])
  }

  /**
   * At the end of a group that took no character, or has no command: the loop over the group, if there is one, is left
   * by force.
   */
  predicate Forced(code: seq<byte>, m: Machine, r: nat)
    requires Whole(m) && r < |m.starts|
  {
    && (!m.matched[r] || (2 <= m.p <= |code| && code[m.p - 2] == START_MEMORY))
    && m.p + 4 < |code| && IsJump(code[m.p + 2]) && Extract(code, m.p + 3) < 0
    && var t := Target(code, m.p + 2); t >= 0 && t + 2 < |code| && code[t] == ON_FAILURE_JUMP && Target(code, t) >= 0
  }

  /** The way out of the loop. */
  function WayOut(code: seq<byte>, m: Machine, r: nat): nat
    requires Whole(m) && r < |m.starts| && Forced(code, m, r)
  {
    Target(code, Target(code, m.p + 2))
  }

  /** The command at `p` may push a failure point. */
  predicate Pushes(code: seq<byte>, p: nat) {
    p < |code| && (code[p] == ON_FAILURE_JUMP || code[p] == DUMMY_FAILURE_JUMP || code[p] == STOP_MEMORY)
  }

  predicate TakesOne(op: byte) {
    op == EXACTN || op == ANYCHAR || op == CHARSET || op == CHARSET_NOT
  }

  /** One command, when the stack does not get full. */
  predicate Did(code: seq<byte>, s: seq<byte>, m: Machine, v: Verdict, m': Machine) {
    && Whole(m) && m.p < |code|
    && var op, next := code[m.p], Succ(code, s, At(m.p, m.d));
      if op == START_MEMORY then
        m.p + 1 < |code| && code[m.p + 1] as int < |m.starts|
        && v == Go && m' == Opened(m, code[m.p + 1] as int).(p := m.p + 2)
      else if op == STOP_MEMORY then
        m.p + 1 < |code| && code[m.p + 1] as int < |m.starts|
        && var r := code[m.p + 1] as int;
          if Forced(code, m, r) then
            v == Fail
            && m' == Closed(m, r).(stack := m.stack + [Point(WayOut(code, m, r), m.d, SavedRegs(Closed(m, r)))])
          else v == Go && m' == Closed(m, r).(p := m.p + 2)
      else if op == ON_FAILURE_JUMP then
        v == Go && |next| == 2 && m' == m.(p := next[0].pc, stack := m.stack + [Point(next[1].pc, m.d, SavedRegs(m))])
      else if op == DUMMY_FAILURE_JUMP then
        v == Go && |next| == 1 && m' == m.(p := next[0].pc, stack := m.stack + [Dummy(SavedRegs(m))])
      else if op == MAYBE_FINALIZE_JUMP then
        v == Go && |next| == 1
        && (m' == m.(p := next[0].pc)
            || (m.stack != [] && SafeExit(code, m.p) && m' == m.(p := next[0].pc, stack := m.stack[..|m.stack| - 1])))
      else if v == Go then
        |next| == 1
        && m' == m.(p := next[0].pc, d := next[0].i, matched := if TakesOne(op) then m.active else m.matched)
      else v == Fail && next == [] && m' == m
  }

  /** The registers that were saved come back, the others are cleared; the flags of those saved stay as they are. */
  function Restored(m: Machine, f: Failure): Machine
    requires Whole(m) && f.Point? && |f.regs| < |m.starts|
  {
    var n, k := |m.starts|, |f.regs|;
    m.(p := f.pc, d := f.d,
      starts := seq(n, i requires 0 <= i < n => if i == 0 then m.starts[0] else if i <= k then f.regs[i - 1].0 else -1),
      ends := seq(n, i requires 0 <= i < n => if i == 0 then m.ends[0] else if i <= k then f.regs[i - 1].1 else -1),
      active := seq(n, i requires 0 <= i < n => i <= k && m.active[i]),
      matched := seq(n, i requires 0 <= i < n => i <= k && m.matched[i]))
  }

  /** The place of the latest failure point that is no dummy, or -1. */
  function Latest(stack: seq<Failure>): (k: int)
    ensures -1 <= k < |stack| && (k >= 0 ==> stack[k].Point?)
  {
    if stack == [] then -1
    else if stack[|stack| - 1].Point? then |stack| - 1
    else Latest(stack[..|stack| - 1])
  }

  lemma LatestIs(stack: seq<Failure>)
    ensures Latest(stack) ==
      if stack == [] then -1
      else if stack[|stack| - 1].Point? then |stack| - 1
      else Latest(stack[..|stack| - 1])
  {
  }

  /** Back to the latest failure point. */
  predicate Fell(m: Machine, m': Machine) {
    && Whole(m) && Latest(m.stack) >= 0
    && var k := Latest(m.stack); m' == Restored(m, m.stack[k]).(stack := m.stack[..k])
  }

  /** From one command to the next, past a failure if there is one. */
  ghost predicate Turn(code: seq<byte>, s: seq<byte>, m: Machine, m': Machine) {
    if m.p == |code| then Fell(m, m')
    else Did(code, s, m, Go, m') || exists f :: Did(code, s, m, Fail, f) && Fell(f, m')
  }

  ghost predicate Trace(code: seq<byte>, s: seq<byte>, run: seq<Machine>) {
    run != [] && forall k :: 0 <= k < |run| - 1 ==> TurnAt(code, s, run, k)
  }

  ghost predicate TurnAt(code: seq<byte>, s: seq<byte>, run: seq<Machine>, k: nat)
    requires k + 1 < |run|
  {
    Turn(code, s, run[k], run[k + 1])
  }

  lemma TraceMore(code: seq<byte>, s: seq<byte>, run: seq<Machine>, m: Machine)
    requires Trace(code, s, run) && Turn(code, s, run[|run| - 1], m)
    ensures Trace(code, s, run + [m])
  {
    hide Turn;
    forall k | 0 <= k < |run|
      ensures TurnAt(code, s, run + [m], k)
    {
      if k < |run| - 1 { assert TurnAt(code, s, run, k); }
    }
  }

  /** A command that goes on. */
  lemma TraceGo(code: seq<byte>, s: seq<byte>, run: seq<Machine>, m: Machine)
    requires Trace(code, s, run) && Did(code, s, run[|run| - 1], Go, m)
    ensures Trace(code, s, run + [m])
  {
    hide Did;
    DidInside(code, s, run[|run| - 1], m);
    TraceMore(code, s, run, m);
  }

  lemma DidInside(code: seq<byte>, s: seq<byte>, m: Machine, m': Machine)
    requires Did(code, s, m, Go, m')
    ensures m.p < |code|
  {
  }

  /** A failure, or the end of the code, and back to a failure point. */
  lemma TraceBack(code: seq<byte>, s: seq<byte>, run: seq<Machine>, f: Machine, m: Machine)
    requires Trace(code, s, run) && Fell(f, m)
    requires if run[|run| - 1].p == |code| then f == run[|run| - 1] else Did(code, s, run[|run| - 1], Fail, f)
    ensures Trace(code, s, run + [m])
  {
    hide Did, Trace, Fell;
    TraceMore(code, s, run, m);
  }

  /** The farthest end of the code in a part of the run, or -1. */
  ghost predicate IsBest(code: seq<byte>, ms: seq<Machine>, best: int) {
    && (best == -1 || exists k :: 0 <= k < |ms| && ms[k].p == |code| && ms[k].d == best)
    && forall k :: 0 <= k < |ms| && ms[k].p == |code| ==> ms[k].d <= best
  }

  /** There is no way on: the command fails, or the code is at its end, and no failure point is left. */
  ghost predicate NothingLeft(code: seq<byte>, s: seq<byte>, m: Machine) {
    if m.p == |code| then Latest(m.stack) < 0 else exists f :: Did(code, s, m, Fail, f) && Latest(f.stack) < 0
  }

  /**
   * Where a match ends after a run: at the end of the string, once that is reached; or, when there is no way on, at the
   * farthest end of the run, if there was one. With an empty stack the end reached last counts only if it is the first.
   */
  ghost predicate EndsWith(code: seq<byte>, s: seq<byte>, run: seq<Machine>, at: int) {
    && run != []
    && var last, before := run[|run| - 1], run[..|run| - 1];
      if last.p == |code| && last.d == |s| then at == |s|
      else if last.p == |code| && last.stack == [] then
        if IsBest(code, before, -1) then at == last.d else IsBest(code, before, at)
      else NothingLeft(code, s, last) && IsBest(code, run, at)
  }

  /** The matcher at its start: no register is set. */
  predicate Fresh(m: Machine, pos: nat) {
    && m.p == 0 && m.d == pos && m.stack == []
    && (forall k :: 0 <= k < |m.starts| ==> m.starts[k] == -1) && (forall k :: 0 <= k < |m.ends| ==> m.ends[k] == -1)
    && (forall k :: 0 <= k < |m.active| ==> !m.active[k]) && (forall k :: 0 <= k < |m.matched| ==> !m.matched[k])
  }

  lemma FreshIs(m: Machine, n: nat, pos: nat)
    requires m.p == 0 && m.d == pos && m.stack == []
    requires m.starts == m.ends == seq(n, _ => -1) && m.active == m.matched == seq(n, _ => false)
    ensures Fresh(m, pos)
  {
  }

  /** A whole run from `pos` and where it ends; at -1 without a match. */
  ghost predicate RunTo(code: seq<byte>, s: seq<byte>, pos: nat, run: seq<Machine>, at: int) {
    Trace(code, s, run) && run != [] && Fresh(run[0], pos) && EndsWith(code, s, run, at)
  }

  lemma RunToIs(code: seq<byte>, s: seq<byte>, pos: nat, run: seq<Machine>, at: int)
    requires Trace(code, s, run) && run != [] && Fresh(run[0], pos) && EndsWith(code, s, run, at)
    ensures RunTo(code, s, pos, run, at)
  {
  }

  lemma BestMore(code: seq<byte>, ms: seq<Machine>, best: int, m: Machine)
    requires IsBest(code, ms, best) && best >= -1
    ensures IsBest(code, ms + [m], if m.p == |code| && best < m.d then m.d else best)
  {
    var all := ms + [m];
    assert all[|ms|] == m;
    forall k | 0 <= k < |ms|
      ensures all[k] == ms[k]
    {
    }
  }

  /** A match ends where the code does. */
  lemma EndsSomewhere(code: seq<byte>, s: seq<byte>, run: seq<Machine>, at: int)
    requires EndsWith(code, s, run, at) && at >= 0
    ensures exists k :: 0 <= k < |run| && run[k].p == |code|
  {
    if at > -1 && run[|run| - 1].p != |code| {
      assert IsBest(code, run, at);
    }
  }

  /** Without a match the code has never come to its end, and there is no way on. */
  lemma NeverEnds(code: seq<byte>, s: seq<byte>, run: seq<Machine>)
    requires EndsWith(code, s, run, -1)
    ensures forall k :: 0 <= k < |run| ==> run[k].p != |code|
    ensures exists f :: Did(code, s, run[|run| - 1], Fail, f) && Latest(f.stack) < 0
  {
    hide Did;
  }

  /** A run of the matcher so far, with the best end that was noted. */
  ghost predicate RunSoFar(code: seq<byte>, s: seq<byte>, run: seq<Machine>, start: Machine, now: Machine, best: int) {
    && Trace(code, s, run) && run[0] == start && run[|run| - 1] == now
    && best >= -1 && IsBest(code, run[..|run| - 1], best)
  }

  lemma RunIs(code: seq<byte>, s: seq<byte>, run: seq<Machine>, start: Machine, now: Machine, best: int)
    requires RunSoFar(code, s, run, start, now, best)
    ensures Trace(code, s, run) && run != [] && run[0] == start && run[|run| - 1] == now
  {
    hide Turn;
    TraceNotEmpty(code, s, run);
  }

  lemma RunStarts(code: seq<byte>, s: seq<byte>, m: Machine)
    ensures RunSoFar(code, s, [m], m, m, -1)
  {
  }

  /** The run is over at the end of the code. */
  lemma RunEnds(code: seq<byte>, s: seq<byte>, run: seq<Machine>, start: Machine, now: Machine, best: int, at: int)
    requires RunSoFar(code, s, run, start, now, best) && now.p == |code| && (now.d == |s| || now.stack == [])
    requires at == if now.d == |s| || best == -1 then now.d else best
    ensures EndsWith(code, s, run, at)
  {
    hide Turn;
    TraceNotEmpty(code, s, run);
    OnlyBest(code, run[..|run| - 1], best, -1);
  }

  lemma OnlyBest(code: seq<byte>, ms: seq<Machine>, b: int, c: int)
    requires IsBest(code, ms, b)
    ensures IsBest(code, ms, c) ==> c == b
  {
  }

  lemma RunGoes(code: seq<byte>, s: seq<byte>, run: seq<Machine>, start: Machine, now: Machine, best: int, m: Machine)
    requires RunSoFar(code, s, run, start, now, best) && Did(code, s, now, Go, m)
    ensures RunSoFar(code, s, run + [m], start, m, best)
  {
    hide Did, Trace, IsBest;
    DidInside(code, s, now, m);
    TraceGo(code, s, run, m);
    RunBest(code, s, run, start, now, best);
    assert (run + [m])[..|run|] == run;
  }

  /** The best end once the place where the matcher is counts too. */
  lemma RunBest(code: seq<byte>, s: seq<byte>, run: seq<Machine>, start: Machine, now: Machine, best: int)
    requires RunSoFar(code, s, run, start, now, best)
    ensures run != [] && IsBest(code, run, if now.p == |code| && best < now.d then now.d else best)
  {
    hide Turn, IsBest;
    TraceNotEmpty(code, s, run);
    BestMore(code, run[..|run| - 1], best, now);
    assert run[..|run| - 1] + [now] == run;
  }

  lemma TraceNotEmpty(code: seq<byte>, s: seq<byte>, run: seq<Machine>)
    requires Trace(code, s, run)
    ensures run != []
  {
  }

  lemma RunFalls(code: seq<byte>, s: seq<byte>, run: seq<Machine>, start: Machine, now: Machine, best: int, best': int,
      f: Machine, m: Machine)
    requires RunSoFar(code, s, run, start, now, best) && Fell(f, m)
    requires best' == if now.p == |code| && best < now.d then now.d else best
    requires if now.p == |code| then f == now else Did(code, s, now, Fail, f)
    ensures RunSoFar(code, s, run + [m], start, m, best')
  {
    hide Did, Trace, Fell, IsBest;
    RunBest(code, s, run, start, now, best);
    TraceBack(code, s, run, f, m);
    assert (run + [m])[..|run|] == run;
  }

  /** The run is over where nothing is left. */
  lemma RunFails(code: seq<byte>, s: seq<byte>, run: seq<Machine>, start: Machine, now: Machine, best: int, best': int,
      f: Machine)
    requires RunSoFar(code, s, run, start, now, best) && Latest(f.stack) < 0
    requires best' == if now.p == |code| && best < now.d then now.d else best
    requires if now.p == |code| then f == now && now.d != |s| && now.stack != [] else Did(code, s, now, Fail, f)
    ensures EndsWith(code, s, run, best')
  {
    hide Did, Turn, IsBest;
    RunBest(code, s, run, start, now, best);
    RunIs(code, s, run, start, now, best);
  }
}
