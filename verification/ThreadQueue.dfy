/**
 * The Queue of lib/thread.rb as a state machine: one step per statement of `push` and `pop`, the thread switches of
 * the interpreter between them, and `Thread.stop` and `Thread#run` as in eval.c.
 */
module ThreadQueue {
  import opened Wrappers

  type Tid = nat

  /** A pushed object; nil and false end neither `until item` nor count as delivered. */
  datatype Item = Nil | Obj(id: int)

  /** The statement a thread executes next. */
  datatype Pc =
    | Idle
    | PushEnter(obj: Item)             // Thread.critical = TRUE
    | PushPut(obj: Item)               // @que.push obj
    | PushShift                        // t = @waiting.shift
    | PushLeave(t: Option<Tid>)        // Thread.critical = FALSE
    | PushRun(t: Option<Tid>)          // t.run if t
    | PopEnter(nonBlock: bool)         // Thread.critical = TRUE
    | PopAgain(nonBlock: bool)         // the same statement, reached inside the critical section
    | PopLength(nonBlock: bool)        // if @que.length == 0
    | PopRaise                         // Thread.critical = FALSE; raise
    | PopWait                          // @waiting.push Thread.current
    | PopStop                          // Thread.stop
    | PopStopped                       // suspended by Thread.stop, or resumed and back at the loop head
    | PopTake(nonBlock: bool)          // item = @que.shift
    | PopLeave(item: Item)             // Thread.critical = FALSE; item

  /** The statements executed while `Thread.critical` is set. */
  predicate Critical(pc: Pc) {
    pc.PushPut? || pc.PushShift? || pc.PushLeave? || pc.PopAgain? || pc.PopLength? || pc.PopRaise? || pc.PopWait?
    || pc.PopStop? || pc.PopTake? || pc.PopLeave?
  }

  /**
   * `que`, `waiting` and `critical` are the fields and the global flag; `cur` is the running thread and `stopped` the
   * threads whose status is THREAD_STOPPED. The rest is history: what was pushed and what was delivered (nil left
   * out), and the threads that were shifted out of `waiting` and have not looked at the queue since.
   */
  datatype State = State(
    que: seq<Item>, waiting: seq<Tid>, critical: bool,
    cur: Tid, pc: map<Tid, Pc>, stopped: set<Tid>,
    pushed: seq<Item>, popped: seq<Item>, woken: set<Tid>)

  function Solid(s: seq<Item>): seq<Item> {
    if s == [] then [] else (if s[0].Nil? then [] else [s[0]]) + Solid(s[1..])
  }

  lemma {:induction false} SolidSnoc(s: seq<Item>, x: Item)
    ensures Solid(s + [x]) == Solid(s) + Solid([x])
  {
    if s == [] {
      assert s + [x] == [x];
    } else {
      assert (s + [x])[1..] == s[1..] + [x];
      SolidSnoc(s[1..], x);
    }
  }

  lemma SolidOne(x: Item)
    ensures Solid([x]) == if x.Nil? then [] else [x]
  {
    assert [x][1..] == [];
  }

  ghost predicate Init(s: State) {
    && s.que == [] && s.waiting == [] && !s.critical && s.stopped == {} && s.woken == {}
    && s.pushed == [] && s.popped == []
    && s.cur in s.pc && forall t :: t in s.pc ==> s.pc[t] == Idle
  }

  function Goto(s: State, pc: Pc): State
    requires s.cur in s.pc
  {
    s.(pc := s.pc[s.cur := pc])
  }

  function AddSolid(s: seq<Item>, x: Item): seq<Item> {
    if x.Nil? then s else s + [x]
  }

  /** What the running thread does next; a call of `push` or `pop` starts from Idle. */
  ghost predicate Act(s: State, s': State)
    requires s.cur in s.pc
  {
    match s.pc[s.cur]
    case Idle =>
      || (exists obj :: s' == Goto(s, PushEnter(obj)))
      || (exists nb :: s' == Goto(s, PopEnter(nb)))
    case PushEnter(obj) => s' == Goto(s, PushPut(obj)).(critical := true)
    case PushPut(obj) => s' == Goto(s, PushShift).(que := s.que + [obj], pushed := AddSolid(s.pushed, obj))
    case PushShift =>
      if s.waiting == [] then s' == Goto(s, PushLeave(None))
      else s' == Goto(s, PushLeave(Some(s.waiting[0]))).(waiting := s.waiting[1..], woken := s.woken + {s.waiting[0]})
    case PushLeave(t) => s' == Goto(s, PushRun(t)).(critical := false)
    case PushRun(t) => s' == Goto(s, Idle).(stopped := if t.Some? then s.stopped - {t.value} else s.stopped)
    case PopEnter(nb) => s' == Goto(s, PopLength(nb)).(critical := true)
    case PopAgain(nb) => s' == Goto(s, PopLength(nb))
    case PopLength(nb) =>
      s' == Goto(s, if s.que != [] then PopTake(nb) else if nb then PopRaise else PopWait).(woken := s.woken - {s.cur})
    case PopRaise => s' == Goto(s, Idle).(critical := false)
    case PopWait => s' == Goto(s, PopStop).(waiting := s.waiting + [s.cur])
    case PopStop => s' == Goto(s, PopStopped).(critical := false, stopped := s.stopped + {s.cur})
    case PopStopped => s' == Goto(s, PopEnter(false))
    case PopTake(nb) =>
      s.que != [] &&
      s' == Goto(s, if s.que[0].Nil? then PopAgain(nb) else PopLeave(s.que[0]))
              .(que := s.que[1..], popped := AddSolid(s.popped, s.que[0]))
    case PopLeave(item) => s' == Goto(s, Idle).(critical := false)
  }

  /** The running thread acts, unless it is stopped; outside critical sections any runnable thread may be switched to. */
  ghost predicate Next(s: State, s': State) {
    || (s.cur in s.pc && s.cur !in s.stopped && Act(s, s'))
    || (!s.critical && exists t :: t in s.pc && t !in s.stopped && s' == s.(cur := t))
  }

  /** `u` has taken `t` out of the waiting list and is going to run it. */
  predicate WillRun(s: State, u: Tid, t: Tid) {
    u in s.pc && (s.pc[u] == PushLeave(Some(t)) || s.pc[u] == PushRun(Some(t)))
  }

  /** Only the running thread is inside a critical section, and exactly when the flag is set. */
  ghost predicate CriticalInv(s: State) {
    && s.cur in s.pc
    && (forall t :: t in s.pc && t != s.cur ==> !Critical(s.pc[t]))
    && (s.critical <==> Critical(s.pc[s.cur]))
  }

  /** Nothing is lost and nothing overtakes: delivered objects, then the queue. */
  ghost predicate OrderInv(s: State) {
    s.pushed == s.popped + Solid(s.que)
  }

  /** Who is suspended, who waits, who is being woken. */
  ghost predicate WaitInv(s: State) {
    && NoDuplicates(s.waiting)
    && (forall t :: t in s.stopped ==> t in s.pc && s.pc[t].PopStopped?)
    && (forall t :: t in s.waiting ==> t in s.pc && t !in s.woken && (t in s.stopped || (t == s.cur && s.pc[t].PopStop?)))
    && (forall t :: t in s.pc && s.pc[t].PopStop? ==> t in s.waiting)
    && (forall t :: t in s.stopped ==> t in s.waiting || t in s.woken)
    && (forall t :: t in s.woken ==> t in s.pc && (s.pc[t].PopStopped? || s.pc[t].PopEnter? || s.pc[t].PopLength?))
  }

  /** A thread that is suspended and no longer in the waiting list has a pusher on its way to run it. */
  ghost predicate WakeInv(s: State) {
    && (forall t :: t in s.woken && t in s.stopped ==> exists u :: WillRun(s, u, t))
    && (forall u, t :: WillRun(s, u, t) ==> t in s.woken && t in s.stopped)
    && (forall u, v, t :: WillRun(s, u, t) && WillRun(s, v, t) ==> u == v)
  }

  /** While someone waits, the queue holds no more than the woken poppers will look for. */
  ghost predicate CountInv(s: State)
    requires s.cur in s.pc
  {
    && (s.waiting != [] ==> |s.que| <= |s.woken| + if s.pc[s.cur].PushShift? || s.pc[s.cur].PopTake? then 1 else 0)
    && (s.pc[s.cur].PopWait? || s.pc[s.cur].PopStop? ==> s.que == [])
    && (s.pc[s.cur].PopTake? ==> s.que != [])
  }

  ghost predicate Inv(s: State) {
    CriticalInv(s) && OrderInv(s) && WaitInv(s) && WakeInv(s) && CountInv(s)
  }

  lemma InitInv(s: State)
    requires Init(s)
    ensures Inv(s)
  {
  }

  lemma CriticalStep(s: State, s': State)
    requires CriticalInv(s) && Next(s, s')
    ensures CriticalInv(s') && s'.pc.Keys == s.pc.Keys
  {
  }

  lemma OrderStep(s: State, s': State)
    requires CriticalInv(s) && OrderInv(s) && Next(s, s')
    ensures OrderInv(s')
  {
    if s.cur !in s.stopped && Act(s, s') {
      if s.pc[s.cur].PushPut? {
        OrderPut(s, s');
      } else if s.pc[s.cur].PopTake? {
        assert Solid(s.que) == AddSolid([], s.que[0]) + Solid(s.que[1..]);
      } else {
        OrderKept(s, s');
      }
    }
  }

  lemma OrderPut(s: State, s': State)
    requires s.cur in s.pc && s.pc[s.cur].PushPut? && OrderInv(s) && Act(s, s')
    ensures OrderInv(s')
  {
    SolidSnoc(s.que, s.pc[s.cur].obj);
    SolidOne(s.pc[s.cur].obj);
  }

  lemma OrderKept(s: State, s': State)
    requires s.cur in s.pc && !s.pc[s.cur].PushPut? && !s.pc[s.cur].PopTake? && Act(s, s')
    ensures s'.pushed == s.pushed && s'.popped == s.popped && s'.que == s.que
  {
  }

  lemma CountStep(s: State, s': State)
    requires CriticalInv(s) && WaitInv(s) && CountInv(s) && Next(s, s')
    ensures s'.cur in s'.pc && CountInv(s')
  {
    if s.cur !in s.stopped && Act(s, s') {
      CountAct(s, s');
    }
  }

  lemma CountAct(s: State, s': State)
    requires CriticalInv(s) && WaitInv(s) && CountInv(s) && s.cur !in s.stopped && Act(s, s')
    ensures s'.cur in s'.pc && CountInv(s')
  {
    var pc := s.pc[s.cur];
    if pc.PushShift? {
      CountShift(s, s');
    } else if pc.PopLength? {
      CountLook(s, s');
    } else {
      CountOther(s, s');
    }
  }

  lemma CountShift(s: State, s': State)
    requires CriticalInv(s) && WaitInv(s) && CountInv(s) && s.pc[s.cur].PushShift? && Act(s, s')
    ensures s'.cur in s'.pc && CountInv(s')
  {
    if s.waiting != [] {
      assert s.waiting[0] in s.waiting;
      assert |s'.woken| == |s.woken| + 1;
    }
  }

  lemma CountLook(s: State, s': State)
    requires CriticalInv(s) && CountInv(s) && s.pc[s.cur].PopLength? && Act(s, s')
    ensures s'.cur in s'.pc && CountInv(s')
  {
    if s.cur in s.woken { assert |s'.woken| == |s.woken| - 1; }
    else { assert s'.woken == s.woken; }
  }

  lemma CountOther(s: State, s': State)
    requires CriticalInv(s) && CountInv(s) && !s.pc[s.cur].PushShift? && !s.pc[s.cur].PopLength? && Act(s, s')
    ensures s'.cur in s'.pc && CountInv(s')
  {
  }

  lemma ShiftFirst(w: seq<Tid>)
    requires NoDuplicates(w) && w != []
    ensures NoDuplicates(w[1..]) && w[0] in w
    ensures forall t :: t in w[1..] <==> t in w && t != w[0]
  {
    forall t | t in w && t != w[0]
      ensures t in w[1..]
    {
      var i :| 0 <= i < |w| && w[i] == t;
      assert w[1..][i - 1] == t;
    }
  }

  lemma WaitStep(s: State, s': State)
    requires CriticalInv(s) && WaitInv(s) && WakeInv(s) && Next(s, s')
    ensures WaitInv(s')
  {
    if s.cur !in s.stopped && Act(s, s') {
      match s.pc[s.cur]
      case PushShift => WaitShift(s, s');
      case PushRun(t) => WaitRun(s, s', t);
      case PopWait => WaitEnter(s, s');
      case PopStop => WaitStop(s, s');
      case _ => WaitOther(s, s');
    } else {
      WaitSwitch(s, s');
    }
  }

  lemma WaitSwitch(s: State, s': State)
    requires CriticalInv(s) && WaitInv(s) && !s.critical && s'.cur in s.pc && s' == s.(cur := s'.cur)
    ensures WaitInv(s')
  {
  }

  lemma WaitShift(s: State, s': State)
    requires CriticalInv(s) && WaitInv(s) && s.pc[s.cur].PushShift? && Act(s, s')
    ensures WaitInv(s')
  {
    if s.waiting != [] { ShiftFirst(s.waiting); }
  }

  lemma WaitRun(s: State, s': State, x: Option<Tid>)
    requires CriticalInv(s) && WaitInv(s) && WakeInv(s) && s.pc[s.cur] == PushRun(x) && Act(s, s')
    ensures WaitInv(s')
  {
    if x.Some? { assert WillRun(s, s.cur, x.value); }
  }

  lemma WaitEnter(s: State, s': State)
    requires CriticalInv(s) && WaitInv(s) && s.pc[s.cur].PopWait? && s.cur !in s.stopped && Act(s, s')
    ensures WaitInv(s')
  {
    assert s.cur !in s.waiting;
    assert forall t :: t in s'.waiting <==> t in s.waiting || t == s.cur;
  }

  lemma WaitStop(s: State, s': State)
    requires CriticalInv(s) && WaitInv(s) && s.pc[s.cur].PopStop? && Act(s, s')
    ensures WaitInv(s')
  {
  }

  /** Steps that neither begin nor end a suspension. */
  lemma WaitOther(s: State, s': State)
    requires CriticalInv(s) && WaitInv(s) && s.cur !in s.stopped && Act(s, s')
    requires var pc := s.pc[s.cur]; !pc.PushShift? && !pc.PushRun? && !pc.PopWait? && !pc.PopStop?
    ensures WaitInv(s')
  {
    assert s'.waiting == s.waiting && s'.stopped == s.stopped && s'.woken == s.woken - (if s.pc[s.cur].PopLength? then {s.cur} else {});
    assert s.cur !in s.waiting;
    assert !s'.pc[s.cur].PopStop?;
  }

  lemma WakeStep(s: State, s': State)
    requires CriticalInv(s) && WaitInv(s) && WakeInv(s) && Next(s, s')
    ensures WakeInv(s')
  {
    CriticalStep(s, s');
    if s.cur !in s.stopped && Act(s, s') {
      match s.pc[s.cur]
      case PushShift =>
        WakeShift(s, s');
      case PushLeave(t) => WakeLeave(s, s', t);
      case PushRun(t) => WakeRun(s, s', t);
      case _ => WakeOther(s, s');
    } else {
      WakeOther(s, s');
    }
  }

  /** The step neither begins nor ends a wakeup. */
  ghost predicate KeepsWakeups(s: State, s': State)
    requires s.cur in s.pc
  {
    s.pc[s.cur].PushShift? || s.pc[s.cur].PushLeave? || s.pc[s.cur].PushRun?
    ==> s'.pc == s.pc && s'.stopped == s.stopped && s'.woken == s.woken
  }

  lemma WakeOther(s: State, s': State)
    requires CriticalInv(s) && WaitInv(s) && WakeInv(s) && Next(s, s') && KeepsWakeups(s, s')
    ensures WakeInv(s')
  {
    hide Act, Next, CriticalInv, WaitInv, WillRun, KeepsWakeups;
    forall u, t
      ensures WillRun(s', u, t) <==> WillRun(s, u, t)
    {
      SameRunner(s, s', u, t);
    }
    forall t
      ensures t in s'.woken && t in s'.stopped <==> t in s.woken && t in s.stopped
    {
      SameWoken(s, s', t);
    }
    forall t | t in s'.woken && t in s'.stopped
      ensures exists u :: WillRun(s', u, t)
    {
      var u :| WillRun(s, u, t);
      assert WillRun(s', u, t);
    }
  }

  lemma SameRunner(s: State, s': State, u: Tid, t: Tid)
    requires CriticalInv(s) && Next(s, s') && KeepsWakeups(s, s')
    ensures WillRun(s', u, t) <==> WillRun(s, u, t)
  {
  }

  lemma SameWoken(s: State, s': State, t: Tid)
    requires CriticalInv(s) && WaitInv(s) && Next(s, s') && KeepsWakeups(s, s')
    ensures t in s'.woken && t in s'.stopped <==> t in s.woken && t in s.stopped
  {
    hide WillRun;
  }

  /** Shifting a waiter out of the list: its pusher is going to run it. */
  lemma WakeShift(s: State, s': State)
    requires CriticalInv(s) && WaitInv(s) && WakeInv(s) && s.pc[s.cur].PushShift? && Act(s, s')
    ensures WakeInv(s')
  {
    forall u, t
      ensures WillRun(s', u, t) <==> WillRun(s, u, t) || (u == s.cur && s.waiting != [] && t == s.waiting[0])
    {
    }
    if s.waiting != [] { assert s.waiting[0] in s.waiting; }
    forall t | t in s'.woken && t in s'.stopped
      ensures exists u :: WillRun(s', u, t)
    {
      if t in s.woken {
        var u :| WillRun(s, u, t);
        assert WillRun(s', u, t);
      } else {
        assert WillRun(s', s.cur, t);
      }
    }
  }

  lemma WakeLeave(s: State, s': State, x: Option<Tid>)
    requires CriticalInv(s) && WaitInv(s) && WakeInv(s) && s.pc[s.cur] == PushLeave(x) && Act(s, s')
    ensures WakeInv(s')
  {
    forall u, t
      ensures WillRun(s', u, t) <==> WillRun(s, u, t)
    {
    }
    forall t | t in s'.woken && t in s'.stopped
      ensures exists u :: WillRun(s', u, t)
    {
      var u :| WillRun(s, u, t);
      assert WillRun(s', u, t);
    }
  }

  /** Running a thread: it is no longer suspended, and nobody else was going to run it. */
  lemma WakeRun(s: State, s': State, x: Option<Tid>)
    requires CriticalInv(s) && WaitInv(s) && WakeInv(s) && s.pc[s.cur] == PushRun(x) && Act(s, s')
    ensures WakeInv(s')
  {
    forall u, t
      ensures WillRun(s', u, t) <==> WillRun(s, u, t) && u != s.cur
    {
    }
    if x.Some? { assert WillRun(s, s.cur, x.value); }
    forall t | t in s'.woken && t in s'.stopped
      ensures exists u :: WillRun(s', u, t)
    {
      var u :| WillRun(s, u, t);
      assert WillRun(s', u, t);
    }
  }

  /** Every step keeps the invariant. */
  lemma StepInv(s: State, s': State)
    requires Inv(s) && Next(s, s')
    ensures Inv(s')
  {
    hide *;
    assert CriticalInv(s) && OrderInv(s) && WaitInv(s) && WakeInv(s) && CountInv(s) by { InvParts(s); }
    CriticalStep(s, s');
    OrderStep(s, s');
    WaitStep(s, s');
    WakeStep(s, s');
    CountStep(s, s');
    InvWhole(s');
  }

  lemma InvParts(s: State)
    requires Inv(s)
    ensures CriticalInv(s) && s.cur in s.pc && OrderInv(s) && WaitInv(s) && WakeInv(s) && CountInv(s)
  {
  }

  lemma InvWhole(s: State)
    requires CriticalInv(s) && s.cur in s.pc && OrderInv(s) && WaitInv(s) && WakeInv(s) && CountInv(s)
    ensures Inv(s)
  {
  }

  /** An interleaving of any number of threads. */
  ghost predicate Run(r: seq<State>) {
    r != [] && Init(r[0]) && forall i :: 0 <= i < |r| - 1 ==> Next(r[i], r[i + 1])
  }

  lemma {:induction false} RunInv(r: seq<State>, i: nat)
    requires Run(r) && i < |r|
    ensures Inv(r[i])
  {
    if i == 0 {
      InitInv(r[0]);
    } else {
      RunInv(r, i - 1);
      assert Next(r[i - 1], r[i - 1 + 1]);
      StepInv(r[i - 1], r[i]);
    }
  }

  /** In every interleaving the pushed objects are the delivered ones, in order, followed by those in the queue. */
  lemma QueueOrder(r: seq<State>, i: nat)
    requires Run(r) && i < |r|
    ensures r[i].pushed == r[i].popped + Solid(r[i].que)
  {
    RunInv(r, i);
  }

  /**
   * In every interleaving, outside critical sections: while a popper is in the waiting list, the queue is no longer
   * than the number of poppers that were shifted out and have not looked again; each of those is runnable or a
   * runnable pusher is about to run it.
   */
  lemma NoLostWakeup(r: seq<State>, i: nat)
    requires Run(r) && i < |r| && !r[i].critical && r[i].waiting != []
    ensures var s := r[i];
      && |s.que| <= |s.woken|
      && forall t :: t in s.woken ==> t in s.pc && (t !in s.stopped || exists u :: WillRun(s, u, t) && u !in s.stopped)
  {
    RunInv(r, i);
    var s := r[i];
    InvParts(s);
    forall t | t in s.woken && t in s.stopped
      ensures exists u :: WillRun(s, u, t) && u !in s.stopped
    {
      var u :| WillRun(s, u, t);
      assert u !in s.stopped;
    }
  }

  /** Every suspended thread is a popper that is in the waiting list or about to be run, and never both. */
  lemma SuspendedAccountedFor(r: seq<State>, i: nat, t: Tid)
    requires Run(r) && i < |r| && t in r[i].stopped
    ensures t in r[i].waiting <==> !exists u :: WillRun(r[i], u, t)
  {
    RunInv(r, i);
    InvParts(r[i]);
  }

  /** Not everyone is suspended as long as the queue holds something. */
  lemma NoDeadlockWithItems(r: seq<State>, i: nat)
    requires Run(r) && i < |r| && !r[i].critical && r[i].que != []
    ensures exists t :: t in r[i].pc && t !in r[i].stopped
  {
    RunInv(r, i);
    var s := r[i];
    InvParts(s);
    if s.cur in s.stopped {
      if s.waiting != [] {
        NoLostWakeup(r, i);
        assert s.woken == {} ==> |s.woken| == 0;
        var t :| t in s.woken;
        if t in s.stopped {
          var u :| WillRun(s, u, t) && u !in s.stopped;
          assert u in s.pc;
        }
      } else {
        assert s.cur in s.woken;
        var u :| WillRun(s, u, s.cur);
        assert u in s.pc && u !in s.stopped;
      }
    }
  }

  /** In a call of `pop` that may block, or may not. */
  predicate Asks(pc: Pc, nb: bool) {
    || pc == PopEnter(nb) || pc == PopAgain(nb) || pc == PopLength(nb) || pc == PopTake(nb) || pc.PopLeave?
    || (if nb then pc.PopRaise? else pc.PopWait? || pc.PopStop? || pc.PopStopped?)
  }

  lemma AsksStep(s: State, s': State, t: Tid, nb: bool)
    requires Next(s, s') && t in s.pc && Asks(s.pc[t], nb)
    ensures t in s'.pc && (Asks(s'.pc[t], nb) || s'.pc[t].Idle?)
  {
    hide Act, Asks;
    if s.cur in s.pc && Act(s, s') {
      ActMoves(s, s');
      if t == s.cur { AsksAct(s, s', nb); }
    }
  }

  /** Only the running thread moves. */
  lemma ActMoves(s: State, s': State)
    requires s.cur in s.pc && Act(s, s')
    ensures s'.cur == s.cur && s'.pc.Keys == s.pc.Keys
    ensures forall t :: t in s.pc && t != s.cur ==> s'.pc[t] == s.pc[t]
  {
  }

  lemma AsksAct(s: State, s': State, nb: bool)
    requires s.cur in s.pc && Act(s, s') && Asks(s.pc[s.cur], nb)
    ensures s.cur in s'.pc && (Asks(s'.pc[s.cur], nb) || s'.pc[s.cur].Idle?)
  {
  }

  /** A call of `pop` that may not block never waits, and one that may never raises the error, until it returns. */
  lemma {:induction false} PopKeepsItsWord(r: seq<State>, i: nat, j: nat, t: Tid, nb: bool)
    requires Run(r) && i <= j < |r| && t in r[i].pc && r[i].pc[t] == PopEnter(nb)
    requires forall k :: i <= k <= j ==> t in r[k].pc && !r[k].pc[t].Idle?
    ensures Asks(r[j].pc[t], nb)
    ensures nb ==> !r[j].pc[t].PopWait? && !r[j].pc[t].PopStop? && !r[j].pc[t].PopStopped?
    ensures !nb ==> !r[j].pc[t].PopRaise?
    decreases j
  {
    hide Next, Init;
    if i < j {
      PopKeepsItsWord(r, i, j - 1, t, nb);
      assert Next(r[j - 1], r[j - 1 + 1]);
      AsksStep(r[j - 1], r[j], t, nb);
    }
  }

  /** `t` waits and `u` behind it. */
  ghost predicate Ahead(w: seq<Tid>, t: Tid, u: Tid) {
    exists a, b :: 0 <= a < b < |w| && w[a] == t && w[b] == u
  }

  lemma AheadStep(s: State, s': State, t: Tid, u: Tid)
    requires WaitInv(s) && Next(s, s') && Ahead(s.waiting, t, u) && t in s'.waiting
    ensures Ahead(s'.waiting, t, u)
  {
    var w := s.waiting;
    var a, b :| 0 <= a < b < |w| && w[a] == t && w[b] == u;
    WaitingStep(s, s');
    if s'.waiting == w[1..] {
      NotTheFirst(w, a);
      assert s'.waiting[a - 1] == t && s'.waiting[b - 1] == u;
    } else {
      assert s'.waiting[a] == t && s'.waiting[b] == u;
    }
  }

  lemma WaitingStep(s: State, s': State)
    requires Next(s, s')
    ensures s'.waiting == s.waiting || s'.waiting == s.waiting + [s.cur] || (s.waiting != [] && s'.waiting == s.waiting[1..])
  {
  }

  lemma NotTheFirst(w: seq<Tid>, a: nat)
    requires NoDuplicates(w) && a < |w| && w[a] in w[1..]
    ensures a > 0
  {
  }

  /** Nobody is woken before a thread that has waited longer. */
  lemma {:induction false} WokenInOrder(r: seq<State>, i: nat, j: nat, t: Tid, u: Tid)
    requires Run(r) && i <= j < |r| && Ahead(r[i].waiting, t, u)
    requires forall k :: i <= k <= j ==> t in r[k].waiting
    ensures Ahead(r[j].waiting, t, u) && u in r[j].waiting
    decreases j
  {
    hide Next, Init, WaitInv;
    if i < j {
      WokenInOrder(r, i, j - 1, t, u);
      RunInv(r, j - 1);
      InvParts(r[j - 1]);
      assert Next(r[j - 1], r[j - 1 + 1]);
      AheadStep(r[j - 1], r[j], t, u);
    }
  }

  /** What `pop` returns is the object delivered last. */
  lemma ReturnsDelivered(r: seq<State>, i: nat)
    requires Run(r) && i < |r|
    ensures r[i].cur in r[i].pc
    ensures var s := r[i];
      s.pc[s.cur].PopLeave? ==> s.popped != [] && s.popped[|s.popped| - 1] == s.pc[s.cur].item && s.pc[s.cur].item.Obj?
  {
    hide Act;
    RunInv(r, i);
    InvParts(r[i]);
    if i > 0 {
      RunInv(r, i - 1);
      InvParts(r[i - 1]);
      assert Next(r[i - 1], r[i - 1 + 1]);
      DeliveredStep(r[i - 1], r[i]);
    }
  }

  lemma DeliveredStep(s: State, s': State)
    requires CriticalInv(s) && Next(s, s') && s'.cur in s'.pc
    ensures s'.pc[s'.cur].PopLeave? ==>
      s'.popped != [] && s'.popped[|s'.popped| - 1] == s'.pc[s'.cur].item && s'.pc[s'.cur].item.Obj?
  {
  }

  /** The error is raised, or a popper begins to wait, only on an empty queue. */
  lemma OnlyWhenEmpty(r: seq<State>, i: nat)
    requires Run(r) && i < |r|
    ensures r[i].cur in r[i].pc && (r[i].pc[r[i].cur].PopRaise? || r[i].pc[r[i].cur].PopWait? ==> r[i].que == [])
  {
    hide Act;
    RunInv(r, i);
    InvParts(r[i]);
    if i > 0 {
      RunInv(r, i - 1);
      InvParts(r[i - 1]);
      assert Next(r[i - 1], r[i - 1 + 1]);
      EmptyStep(r[i - 1], r[i]);
    }
  }

  lemma EmptyStep(s: State, s': State)
    requires CriticalInv(s) && Next(s, s') && s'.cur in s'.pc
    ensures s'.pc[s'.cur].PopRaise? || s'.pc[s'.cur].PopWait? ==> s'.que == []
  {
  }
}
