/**
 * The Mutex of lib/thread.rb as a state machine: one step per statement of `lock`, `try_lock` and `unlock`, with the
 * thread switches of the interpreter between them. Any thread may call any of the three at any time, and may wake up any
 * suspended thread.
 */
module ThreadMutex {
  import opened Wrappers

  type Tid = nat

  /** The statement a thread executes next. */
  datatype Pc =
    | Idle                           // in none of the methods
    | LockEnter                      // Thread.critical = TRUE
    | LockTest                       // while @locked
    | LockWait                       // @waiting.push Thread.current
    | LockStop                       // Thread.stop
    | LockStopped                    // suspended by Thread.stop, or resumed and back at the loop head
    | LockTake                       // @locked = TRUE
    | LockLeave                      // Thread.critical = FALSE
    | TryEnter                       // Thread.critical = TRUE
    | TryTest                        // unless @locked
    | TryTake                        // @locked = TRUE; result = TRUE
    | TryLeave(result: bool)         // Thread.critical = FALSE; result
    | UnlockTest                     // return unless @locked
    | UnlockEnter                    // Thread.critical = TRUE
    | UnlockGrab                     // wait = @waiting
    | UnlockClear(wait: seq<Tid>)    // @waiting = []
    | UnlockRelease(wait: seq<Tid>)  // @locked = FALSE
    | UnlockLeave(wait: seq<Tid>)    // Thread.critical = FALSE
    | UnlockRun(wait: seq<Tid>)      // for w in wait: w.run

  predicate Critical(pc: Pc) {
    pc.LockTest? || pc.LockWait? || pc.LockStop? || pc.LockTake? || pc.LockLeave? || pc.TryTest? || pc.TryTake?
    || pc.TryLeave? || pc.UnlockGrab? || pc.UnlockClear? || pc.UnlockRelease? || pc.UnlockLeave?
  }

  /** Past the test of `unlock`, until `@locked` is given back. */
  predicate Unlocking(pc: Pc) {
    pc.UnlockEnter? || pc.UnlockGrab? || pc.UnlockClear? || pc.UnlockRelease?
  }

  /** Waiting in `lock`. */
  predicate Waits(pc: Pc) {
    pc.LockWait? || pc.LockStop? || pc.LockStopped?
  }

  /**
   * The fields and the flag, the running thread, where each thread is, and who is suspended. The rest is history: the
   * threads that took `@locked` and have not themselves given it back.
   */
  datatype State = State(
    locked: bool, waiting: seq<Tid>, critical: bool,
    cur: Tid, pc: map<Tid, Pc>, stopped: set<Tid>, holders: set<Tid>)

  ghost predicate Init(s: State) {
    && !s.locked && s.waiting == [] && !s.critical && s.stopped == {} && s.holders == {}
    && s.cur in s.pc && forall t :: t in s.pc ==> s.pc[t] == Idle
  }

  function Goto(s: State, pc: Pc): State
    requires s.cur in s.pc
  {
    s.(pc := s.pc[s.cur := pc])
  }

  /** What the running thread does next. */
  ghost predicate Act(s: State, s': State)
    requires s.cur in s.pc
  {
    match s.pc[s.cur]
    case Idle => s' == Goto(s, LockEnter) || s' == Goto(s, TryEnter) || s' == Goto(s, UnlockTest)
    case LockEnter => s' == Goto(s, LockTest).(critical := true)
    case LockTest => s' == Goto(s, if s.locked then LockWait else LockTake)
    case LockWait => s' == Goto(s, LockStop).(waiting := s.waiting + [s.cur])
    case LockStop => s' == Goto(s, LockStopped).(critical := false, stopped := s.stopped + {s.cur})
    case LockStopped => s' == Goto(s, LockEnter)
    case LockTake => s' == Goto(s, LockLeave).(locked := true, holders := s.holders + {s.cur})
    case LockLeave => s' == Goto(s, Idle).(critical := false)
    case TryEnter => s' == Goto(s, TryTest).(critical := true)
    case TryTest => s' == Goto(s, if s.locked then TryLeave(false) else TryTake)
    case TryTake => s' == Goto(s, TryLeave(true)).(locked := true, holders := s.holders + {s.cur})
    case TryLeave(_) => s' == Goto(s, Idle).(critical := false)
    case UnlockTest => s' == Goto(s, if s.locked then UnlockEnter else Idle)
    case UnlockEnter => s' == Goto(s, UnlockGrab).(critical := true)
    case UnlockGrab => s' == Goto(s, UnlockClear(s.waiting))
    case UnlockClear(wait) => s' == Goto(s, UnlockRelease(wait)).(waiting := [])
    case UnlockRelease(wait) => s' == Goto(s, UnlockLeave(wait)).(locked := false, holders := s.holders - {s.cur})
    case UnlockLeave(wait) => s' == Goto(s, UnlockRun(wait)).(critical := false)
    case UnlockRun(wait) =>
      if wait == [] then s' == Goto(s, Idle)
      else s' == Goto(s, UnlockRun(wait[1..])).(stopped := s.stopped - {wait[0]})
  }

  ghost predicate Acts(s: State, s': State) {
    s.cur in s.pc && s.cur !in s.stopped && Act(s, s')
  }

  /** Outside critical sections any runnable thread may be switched to. */
  ghost predicate Switches(s: State, s': State) {
    !s.critical && s'.cur in s.pc && s'.cur !in s.stopped && s' == s.(cur := s'.cur)
  }

  /** A thread that is in none of the methods wakes up a suspended one. */
  ghost predicate Wakes(s: State, s': State) {
    && s.cur in s.pc && s.cur !in s.stopped && s.pc[s.cur].Idle?
    && s'.stopped < s.stopped && s' == s.(stopped := s'.stopped)
  }

  ghost predicate Next(s: State, s': State) {
    Acts(s, s') || Switches(s, s') || Wakes(s, s')
  }

  /** A thread passes the test of `unlock`, and does not hold the mutex. */
  ghost predicate AlienUnlock(s: State, s': State) {
    Acts(s, s') && s.pc[s.cur].UnlockTest? && s.locked && s.cur !in s.holders
  }

  /** A thread that holds the mutex is going to wait for it. */
  ghost predicate Relock(s: State, s': State) {
    Acts(s, s') && s.pc[s.cur].LockTest? && s.locked && s.cur in s.holders
  }

  /** The list of threads an unlocker has taken over and not run yet. */
  function Pending(pc: Pc): seq<Tid> {
    match pc
    case UnlockRelease(wait) => wait
    case UnlockLeave(wait) => wait
    case UnlockRun(wait) => wait
    case _ => []
  }

  predicate WillRun(s: State, u: Tid, t: Tid) {
    u in s.pc && t in Pending(s.pc[u])
  }

  ghost predicate CriticalInv(s: State) {
    && s.cur in s.pc
    && (forall t :: t in s.pc && t != s.cur ==> !Critical(s.pc[t]))
    && (s.critical <==> Critical(s.pc[s.cur]))
  }

  /** `@locked` says whether some thread holds the mutex, and never two do. */
  ghost predicate LockInv(s: State)
    requires s.cur in s.pc
  {
    && (s.locked <==> s.holders != {})
    && (forall t, u :: t in s.holders && u in s.holders ==> t == u)
    && (forall t :: t in s.pc && Unlocking(s.pc[t]) ==> t in s.holders)
    && (s.pc[s.cur].LockTake? || s.pc[s.cur].TryTake? ==> !s.locked)
    && (s.pc[s.cur].LockWait? || s.pc[s.cur].LockStop? ==> s.locked)
    && (s.waiting != [] ==> s.locked)
    && (s.pc[s.cur].UnlockRelease? ==> s.waiting == [])
    && (s.pc[s.cur].UnlockClear? ==> s.waiting == s.pc[s.cur].wait)
  }

  /** No holder waits. */
  ghost predicate HolderInv(s: State) {
    forall t :: t in s.pc && t in s.holders ==> !Waits(s.pc[t])
  }

  /** Every suspended thread is in the waiting list or in some unlocker's list. */
  ghost predicate ServedInv(s: State) {
    && s.holders <= s.pc.Keys
    && (forall t :: t in s.stopped ==> t in s.pc && s.pc[t].LockStopped?)
    && (forall t :: t in s.pc && s.pc[t].LockStop? ==> t in s.waiting)
    && (forall t :: t in s.stopped && t !in s.waiting ==> TakenOver(s, t))
  }

  /** Every suspended thread is in the waiting list or in one unlocker's list, once, and nobody else is. */
  ghost predicate WaitInv(s: State) {
    && NoDuplicates(s.waiting)
    && (forall u :: u in s.pc ==> NoDuplicates(Pending(s.pc[u])))
    && (forall t :: t in s.stopped ==> t in s.pc && s.pc[t].LockStopped?)
    && (forall t :: t in s.waiting ==> t in s.pc && (t in s.stopped || (t == s.cur && s.pc[t].LockStop?)))
    && (forall t :: t in s.pc && s.pc[t].LockStop? ==> t in s.waiting)
    && (forall t :: t in s.stopped && t !in s.waiting ==> TakenOver(s, t))
    && (forall u, t :: WillRun(s, u, t) ==> t in s.stopped && t !in s.waiting)
    && (forall u, v, t :: WillRun(s, u, t) && WillRun(s, v, t) ==> u == v)
  }

  /** What holds without an alien unlock. */
  ghost predicate Inv(s: State) {
    CriticalInv(s) && LockInv(s) && ServedInv(s)
  }

  lemma InitInv(s: State)
    requires Init(s)
    ensures Inv(s) && HolderInv(s) && WaitInv(s)
  {
  }

  /** Only the running thread moves. */
  lemma ActMoves(s: State, s': State)
    requires s.cur in s.pc && Act(s, s')
    ensures s'.cur == s.cur && s'.pc.Keys == s.pc.Keys
    ensures forall t :: t in s.pc && t != s.cur ==> s'.pc[t] == s.pc[t]
  {
  }

  /** It is inside a critical section exactly when the flag is set. */
  lemma ActFrame(s: State, s': State)
    requires CriticalInv(s) && Act(s, s')
    ensures s'.cur == s.cur && s'.pc.Keys == s.pc.Keys
    ensures forall t :: t in s.pc && t != s.cur ==> s'.pc[t] == s.pc[t]
    ensures s'.critical <==> Critical(s'.pc[s.cur])
  {
    ActMoves(s, s');
    ActCritical(s, s');
    hide Act, Critical;
  }

  lemma ActCritical(s: State, s': State)
    requires s.cur in s.pc && s.cur in s'.pc && (s.critical <==> Critical(s.pc[s.cur])) && Act(s, s')
    ensures s'.critical <==> Critical(s'.pc[s.cur])
  {
  }

  lemma CriticalStep(s: State, s': State)
    requires CriticalInv(s) && Next(s, s')
    ensures CriticalInv(s') && s'.pc.Keys == s.pc.Keys
  {
    hide Act, Critical;
    if Acts(s, s') {
      ActFrame(s, s');
    }
  }

  /** What a step does to the lock, apart from taking it and giving it back. */
  lemma ActLock(s: State, s': State)
    requires s.cur in s.pc && Act(s, s')
    requires var pc := s.pc[s.cur]; !pc.LockTake? && !pc.TryTake? && !pc.UnlockRelease?
    ensures s'.locked == s.locked && s'.holders == s.holders
  {
  }

  /** The way past the test of `unlock`. */
  lemma ActUnlocking(s: State, s': State)
    requires s.cur in s.pc && Act(s, s') && s.cur in s'.pc && Unlocking(s'.pc[s.cur])
    ensures Unlocking(s.pc[s.cur]) || (s.pc[s.cur].UnlockTest? && s.locked)
  {
  }

  lemma ActWaiting(s: State, s': State)
    requires s.cur in s.pc && Act(s, s')
    requires var pc := s.pc[s.cur]; !pc.LockTake? && !pc.TryTake? && !pc.UnlockRelease?
    ensures s'.waiting == [] || s'.waiting == s.waiting || s.pc[s.cur].LockWait?
  {
  }

  lemma ActTests(s: State, s': State)
    requires s.cur in s.pc && Act(s, s') && (s.pc[s.cur].LockWait? ==> s.locked)
    requires var pc := s.pc[s.cur]; !pc.LockTake? && !pc.TryTake? && !pc.UnlockRelease?
    ensures s'.cur in s'.pc
    ensures var pc := s'.pc[s.cur];
      && (pc.LockTake? || pc.TryTake? ==> !s.locked)
      && (pc.LockWait? || pc.LockStop? ==> s.locked)
      && (pc.UnlockRelease? ==> s'.waiting == [])
      && (pc.UnlockClear? ==> s'.waiting == pc.wait)
  {
  }

  lemma LockStep(s: State, s': State)
    requires CriticalInv(s) && LockInv(s) && Next(s, s') && !AlienUnlock(s, s')
    ensures s'.cur in s'.pc && LockInv(s')
  {
    if Acts(s, s') {
      match s.pc[s.cur]
      case LockTake => LockTaken(s, s');
      case TryTake => LockTaken(s, s');
      case UnlockRelease(wait) => LockRelease(s, s', wait);
      case _ => LockKept(s, s');
    } else {
      LockSwitch(s, s');
    }
  }

  lemma LockTaken(s: State, s': State)
    requires CriticalInv(s) && LockInv(s) && (s.pc[s.cur].LockTake? || s.pc[s.cur].TryTake?) && Act(s, s')
    ensures LockInv(s')
  {
    assert s.holders == {};
  }

  lemma LockRelease(s: State, s': State, wait: seq<Tid>)
    requires CriticalInv(s) && LockInv(s) && s.pc[s.cur] == UnlockRelease(wait) && Act(s, s')
    ensures LockInv(s')
  {
    assert s.cur in s.holders;
    assert s'.holders == {};
  }

  lemma LockSwitch(s: State, s': State)
    requires CriticalInv(s) && LockInv(s) && (Switches(s, s') || Wakes(s, s'))
    ensures LockInv(s')
  {
  }

  /** Steps that change neither `@locked` nor who holds the mutex. */
  lemma LockKept(s: State, s': State)
    requires CriticalInv(s) && LockInv(s) && Acts(s, s') && !AlienUnlock(s, s')
    requires var pc := s.pc[s.cur]; !pc.LockTake? && !pc.TryTake? && !pc.UnlockRelease?
    ensures s'.cur in s'.pc && LockInv(s')
  {
    hide Act, Critical, Unlocking;
    ActFrame(s, s');
    ActLock(s, s');
    if Unlocking(s'.pc[s.cur]) { ActUnlocking(s, s'); }
    ActWaiting(s, s');
    ActTests(s, s');
  }

  lemma HolderStep(s: State, s': State)
    requires CriticalInv(s) && LockInv(s) && HolderInv(s) && Next(s, s') && !AlienUnlock(s, s') && !Relock(s, s')
    ensures HolderInv(s')
  {
    hide LockInv;
    if Acts(s, s') {
      ActFrame(s, s');
      HolderAct(s, s');
    }
  }

  lemma HolderAct(s: State, s': State)
    requires CriticalInv(s) && LockInv(s) && HolderInv(s) && Acts(s, s') && !Relock(s, s')
    ensures forall t :: t in s'.holders && t != s.cur ==> t in s.holders
    ensures s.cur in s'.pc && (s.cur in s'.holders ==> !Waits(s'.pc[s.cur]))
  {
  }

  /** The lists of threads of a step that is an act of the running thread. */
  lemma ServedStep(s: State, s': State)
    requires CriticalInv(s) && LockInv(s) && ServedInv(s) && Next(s, s')
    ensures ServedInv(s')
  {
    hide LockInv, Critical;
    if Acts(s, s') {
      ActFrame(s, s');
      ServedHolders(s, s');
      match s.pc[s.cur]
      case LockWait =>
        ServedSame(s, s');
      case LockStop =>
        ServedSame(s, s');
      case UnlockClear(wait) => ServedClear(s, s', wait);
      case UnlockRun(wait) => ServedRun(s, s', wait);
      case _ => ServedOther(s, s');
    } else {
      SamePending(s, s');
    }
  }

  lemma ServedHolders(s: State, s': State)
    requires CriticalInv(s) && ServedInv(s) && Act(s, s')
    ensures s'.holders <= s'.pc.Keys
  {
  }

  lemma ServedSame(s: State, s': State)
    requires CriticalInv(s) && ServedInv(s) && Acts(s, s') && (s.pc[s.cur].LockWait? || s.pc[s.cur].LockStop?)
    requires s'.holders <= s'.pc.Keys
    ensures ServedInv(s')
  {
    SamePending(s, s');
    assert forall t :: t in s.waiting ==> t in s'.waiting;
  }

  lemma ServedOther(s: State, s': State)
    requires CriticalInv(s) && ServedInv(s) && Acts(s, s') && s'.holders <= s'.pc.Keys
    requires var pc := s.pc[s.cur]; !pc.LockWait? && !pc.LockStop? && !pc.UnlockClear? && !pc.UnlockRun?
    ensures ServedInv(s')
  {
    hide Act, Critical, Pending;
    ActFrame(s, s');
    ActLists(s, s');
    SamePending(s, s');
  }

  lemma ServedClear(s: State, s': State, wait: seq<Tid>)
    requires CriticalInv(s) && LockInv(s) && ServedInv(s) && s.pc[s.cur] == UnlockClear(wait) && Acts(s, s')
    requires s'.holders <= s'.pc.Keys
    ensures ServedInv(s')
  {
    forall t | t in s'.stopped
      ensures TakenOver(s', t)
    {
      if t in s.waiting {
        assert WillRun(s', s.cur, t);
      } else {
        var u :| WillRun(s, u, t);
        assert WillRun(s', u, t);
      }
    }
  }

  lemma ServedRun(s: State, s': State, wait: seq<Tid>)
    requires CriticalInv(s) && ServedInv(s) && s.pc[s.cur] == UnlockRun(wait) && Acts(s, s')
    requires s'.holders <= s'.pc.Keys
    ensures ServedInv(s')
  {
    forall t | t in s'.stopped && t !in s'.waiting
      ensures TakenOver(s', t)
    {
      var u :| WillRun(s, u, t);
      if u == s.cur { BehindFirst(wait, t); }
      assert WillRun(s', u, t);
    }
  }

  lemma BehindFirst(w: seq<Tid>, t: Tid)
    requires t in w
    ensures w != [] && (t != w[0] ==> t in w[1..])
  {
    var i :| 0 <= i < |w| && w[i] == t;
    if i > 0 { assert w[1..][i - 1] == t; }
  }

  lemma WaitStep(s: State, s': State)
    requires CriticalInv(s) && LockInv(s) && WaitInv(s) && Next(s, s') && !Wakes(s, s')
    ensures WaitInv(s')
  {
    if Acts(s, s') {
      match s.pc[s.cur]
      case LockWait => WaitEnter(s, s');
      case LockStop => WaitStop(s, s');
      case UnlockClear(wait) => WaitClear(s, s', wait);
      case UnlockRun(wait) => WaitRun(s, s', wait);
      case _ => WaitOther(s, s');
    } else {
      WaitSwitch(s, s');
    }
  }

  lemma WaitSwitch(s: State, s': State)
    requires CriticalInv(s) && WaitInv(s) && !s.critical && s'.cur in s.pc && s' == s.(cur := s'.cur)
    ensures WaitInv(s')
  {
    forall u, t
      ensures WillRun(s', u, t) <==> WillRun(s, u, t)
    {
    }
  }

  lemma WaitEnter(s: State, s': State)
    requires CriticalInv(s) && WaitInv(s) && s.pc[s.cur].LockWait? && s.cur !in s.stopped && Act(s, s')
    ensures WaitInv(s')
  {
    SamePending(s, s');
    assert s.cur !in s.waiting;
    assert forall t :: t in s'.waiting <==> t in s.waiting || t == s.cur;
  }

  lemma WaitStop(s: State, s': State)
    requires CriticalInv(s) && WaitInv(s) && s.pc[s.cur].LockStop? && Act(s, s')
    ensures WaitInv(s')
  {
    SamePending(s, s');
  }

  /** Some unlocker has taken `t` over. */
  ghost predicate TakenOver(s: State, t: Tid) {
    exists u :: WillRun(s, u, t)
  }

  /** Whoever is in the pending lists stays in them. */
  lemma SamePending(s: State, s': State)
    requires s.cur in s.pc && s'.pc.Keys == s.pc.Keys
    requires forall u :: u in s.pc ==> Pending(s'.pc[u]) == Pending(s.pc[u])
    ensures forall u, t :: WillRun(s', u, t) <==> WillRun(s, u, t)
    ensures forall t :: TakenOver(s, t) ==> TakenOver(s', t)
  {
    forall t | TakenOver(s, t)
      ensures TakenOver(s', t)
    {
      var u :| WillRun(s, u, t);
      assert WillRun(s', u, t);
    }
  }

  lemma ClearTakesOver(s: State, s': State, wait: seq<Tid>, u: Tid, t: Tid)
    requires s.cur in s.pc && LockInv(s) && s.pc[s.cur] == UnlockClear(wait) && Act(s, s')
    ensures WillRun(s', u, t) <==> WillRun(s, u, t) || (u == s.cur && t in s.waiting)
  {
  }

  /** The waiting list passes to the unlocker as a whole. */
  lemma WaitClear(s: State, s': State, wait: seq<Tid>)
    requires CriticalInv(s) && LockInv(s) && WaitInv(s) && s.pc[s.cur] == UnlockClear(wait) && Act(s, s')
    ensures WaitInv(s')
  {
    forall u, t
      ensures WillRun(s', u, t) <==> WillRun(s, u, t) || (u == s.cur && t in s.waiting)
    {
      ClearTakesOver(s, s', wait, u, t);
    }
    forall t | t in s'.stopped
      ensures TakenOver(s', t)
    {
      if t in s.waiting {
        assert WillRun(s', s.cur, t);
      } else {
        var u :| WillRun(s, u, t);
        assert WillRun(s', u, t);
      }
    }
  }

  lemma FirstOfList(w: seq<Tid>)
    requires NoDuplicates(w) && w != []
    ensures NoDuplicates(w[1..]) && w[0] in w
    ensures forall t :: t in w[1..] <==> t in w && t != w[0]
  {
    forall t | t in w && t != w[0]
      ensures t in w[1..]
    {
      var i :| 0 <= i < |w| && w[i] == t;
      assert w[1..][i - 1] == t;
    }
  }

  lemma WaitRun(s: State, s': State, wait: seq<Tid>)
    requires CriticalInv(s) && WaitInv(s) && s.pc[s.cur] == UnlockRun(wait) && s.cur !in s.stopped && Act(s, s')
    ensures WaitInv(s')
  {
    if wait == [] {
      SamePending(s, s');
    } else {
      assert NoDuplicates(Pending(s.pc[s.cur]));
      FirstOfList(wait);
      assert WillRun(s, s.cur, wait[0]);
      forall u, t
        ensures WillRun(s', u, t) <==> WillRun(s, u, t) && !(u == s.cur && t == wait[0])
      {
      }
      forall t | t in s'.stopped && t !in s'.waiting
        ensures TakenOver(s', t)
      {
        var u :| WillRun(s, u, t);
        assert WillRun(s', u, t);
      }
    }
  }

  /** What a step that neither begins nor ends a suspension does to the lists of threads. */
  lemma ActLists(s: State, s': State)
    requires CriticalInv(s) && Act(s, s')
    requires var pc := s.pc[s.cur]; !pc.LockWait? && !pc.LockStop? && !pc.UnlockClear? && !pc.UnlockRun?
    ensures s'.waiting == s.waiting && s'.stopped == s.stopped
    ensures Pending(s'.pc[s.cur]) == Pending(s.pc[s.cur]) && !s'.pc[s.cur].LockStop?
  {
  }

  lemma WaitOther(s: State, s': State)
    requires CriticalInv(s) && WaitInv(s) && s.cur !in s.stopped && Act(s, s')
    requires var pc := s.pc[s.cur]; !pc.LockWait? && !pc.LockStop? && !pc.UnlockClear? && !pc.UnlockRun?
    ensures WaitInv(s')
  {
    hide Act, Critical, Pending;
    ActFrame(s, s');
    ActLists(s, s');
    assert s.cur !in s.waiting;
    SamePending(s, s');
  }

  /** Every step but an alien unlock keeps the invariant. */
  lemma StepInv(s: State, s': State)
    requires Inv(s) && Next(s, s') && !AlienUnlock(s, s')
    ensures Inv(s')
    ensures HolderInv(s) && !Relock(s, s') ==> HolderInv(s')
    ensures WaitInv(s) && !Wakes(s, s') ==> WaitInv(s')
  {
    hide LockInv, ServedInv, HolderInv, WaitInv, Next, AlienUnlock, Relock, Wakes;
    CriticalStep(s, s');
    LockStep(s, s');
    ServedStep(s, s');
    if HolderInv(s) && !Relock(s, s') { HolderStep(s, s'); }
    if WaitInv(s) && !Wakes(s, s') { WaitStep(s, s'); }
  }

  ghost predicate Steps(r: seq<State>) {
    r != [] && forall i :: 0 <= i < |r| - 1 ==> Next(r[i], r[i + 1])
  }

  /** An interleaving of any number of threads. */
  ghost predicate Run(r: seq<State>) {
    Steps(r) && Init(r[0])
  }

  /** No thread unlocks the mutex while another one holds it. */
  ghost predicate NoAlien(r: seq<State>) {
    forall i :: 0 <= i < |r| - 1 ==> !AlienUnlock(r[i], r[i + 1])
  }

  /** No thread locks the mutex while it holds it. */
  ghost predicate NoRelock(r: seq<State>) {
    forall i :: 0 <= i < |r| - 1 ==> !Relock(r[i], r[i + 1])
  }

  /** No thread is woken up but by `unlock`. */
  ghost predicate NoWakes(r: seq<State>) {
    forall i :: 0 <= i < |r| - 1 ==> !Wakes(r[i], r[i + 1])
  }

  lemma {:induction false} RunInv(r: seq<State>, i: nat)
    requires Run(r) && NoAlien(r) && i < |r|
    ensures Inv(r[i]) && (NoRelock(r) ==> HolderInv(r[i])) && (NoWakes(r) ==> WaitInv(r[i]))
  {
    hide Inv, HolderInv, WaitInv, Next, AlienUnlock, Relock, Wakes;
    if i == 0 {
      InitInv(r[0]);
    } else {
      RunInv(r, i - 1);
      assert Next(r[i - 1], r[i - 1 + 1]) && !AlienUnlock(r[i - 1], r[i - 1 + 1]);
      assert NoRelock(r) ==> !Relock(r[i - 1], r[i - 1 + 1]);
      assert NoWakes(r) ==> !Wakes(r[i - 1], r[i - 1 + 1]);
      StepInv(r[i - 1], r[i]);
    }
  }

  /** In every interleaving without an alien unlock at most one thread holds the mutex. */
  lemma MutualExclusion(r: seq<State>, i: nat, t: Tid, u: Tid)
    requires Run(r) && NoAlien(r) && i < |r| && t in r[i].holders && u in r[i].holders
    ensures t == u && r[i].locked
  {
    RunInv(r, i);
  }

  /** Threads wait only for a locked mutex. */
  lemma WaitingImpliesLocked(r: seq<State>, i: nat)
    requires Run(r) && NoAlien(r) && i < |r| && r[i].waiting != []
    ensures r[i].locked && r[i].holders != {}
  {
    RunInv(r, i);
  }

  /**
   * If also no holder locks the mutex again, a suspended thread is in the waiting list, and then some thread that is not
   * suspended holds the mutex, or some thread that is not suspended is about to run it, whoever is woken up meanwhile.
   */
  lemma SuspendedIsServed(r: seq<State>, i: nat, t: Tid)
    requires Run(r) && NoAlien(r) && NoRelock(r) && i < |r| && t in r[i].stopped
    ensures var s := r[i];
      if t in s.waiting then exists h :: h in s.holders && h !in s.stopped
      else exists u :: WillRun(s, u, t) && u !in s.stopped
  {
    RunInv(r, i);
    var s := r[i];
    if t in s.waiting {
      var h :| h in s.holders;
      assert h !in s.stopped;
    } else {
      var u :| WillRun(s, u, t);
      assert u !in s.stopped;
    }
  }

  /**
   * If also no thread is woken up but by `unlock`, that is the list of exactly one unlocker, and each list is without
   * repetition.
   */
  lemma NoLostWaiter(r: seq<State>, i: nat, t: Tid)
    requires Run(r) && NoAlien(r) && NoRelock(r) && NoWakes(r) && i < |r| && t in r[i].stopped
    ensures var s := r[i];
      if t in s.waiting then exists h :: h in s.holders && h !in s.stopped
      else exists u :: WillRun(s, u, t) && u !in s.stopped && forall v :: WillRun(s, v, t) ==> v == u
    ensures NoDuplicates(r[i].waiting) && forall u :: u in r[i].pc ==> NoDuplicates(Pending(r[i].pc[u]))
  {
    RunInv(r, i);
    SuspendedIsServed(r, i, t);
  }

  // ---- what an alien unlock leads to

  lemma Joined(a: seq<State>, b: seq<State>)
    requires Steps(a) && Steps(b) && a[|a| - 1] == b[0]
    ensures var r := a + b[1..]; Steps(r) && r[0] == a[0] && r[|r| - 1] == b[|b| - 1]
    ensures NoAlien(a) && NoAlien(b) ==> NoAlien(a + b[1..])
    ensures NoRelock(a) && NoRelock(b) ==> NoRelock(a + b[1..])
    ensures NoWakes(a) && NoWakes(b) ==> NoWakes(a + b[1..])
  {
    hide Next, AlienUnlock, Relock, Wakes;
    var r := a + b[1..];
    forall i | 0 <= i < |r| - 1
      ensures Next(r[i], r[i + 1])
      ensures NoAlien(a) && NoAlien(b) ==> !AlienUnlock(r[i], r[i + 1])
      ensures NoRelock(a) && NoRelock(b) ==> !Relock(r[i], r[i + 1])
      ensures NoWakes(a) && NoWakes(b) ==> !Wakes(r[i], r[i + 1])
    {
      if i < |a| - 1 {
        assert r[i] == a[i] && r[i + 1] == a[i + 1];
      } else {
        assert r[i] == b[i - (|a| - 1)] && r[i + 1] == b[i + 1 - (|a| - 1)];
      }
    }
  }

  /** A run that no thread disturbs. */
  ghost predicate Calm(r: seq<State>) {
    Steps(r) && NoAlien(r) && NoRelock(r) && NoWakes(r)
  }

  lemma Together(a: seq<State>, b: seq<State>)
    requires Calm(a) && Calm(b) && a != [] && b != [] && a[|a| - 1] == b[0]
    ensures var r := a + b[1..]; Calm(r) && r[0] == a[0] && r[|r| - 1] == b[|b| - 1]
  {
    hide Steps, NoAlien, NoRelock, NoWakes;
    Joined(a, b);
  }

  /** One step. */
  lemma One(s: State, s': State) returns (r: seq<State>)
    requires Next(s, s') && !AlienUnlock(s, s') && !Relock(s, s') && !Wakes(s, s')
    ensures Calm(r) && r != [] && r[0] == s && r[|r| - 1] == s'
  {
    hide AlienUnlock, Relock, Wakes, Next;
    r := [s, s'];
  }

  /** A thread takes a mutex that is not locked. */
  lemma LockRun(s: State) returns (r: seq<State>)
    requires s.cur in s.pc && s.pc[s.cur] == Idle && s.cur !in s.stopped && !s.locked && !s.critical
    ensures Calm(r) && r != [] && r[0] == s && r[|r| - 1] == s.(locked := true, holders := s.holders + {s.cur})
  {
    var s1 := Goto(s, LockEnter);
    var s2 := Goto(s1, LockTest).(critical := true);
    var s3 := Goto(s2, LockTake);
    var s4 := Goto(s3, LockLeave).(locked := true, holders := s.holders + {s.cur});
    var s5 := Goto(s4, Idle).(critical := false);
    r := [s, s1, s2, s3, s4, s5];
    assert Acts(s, s1) && Acts(s1, s2) && Acts(s2, s3) && Acts(s3, s4) && Acts(s4, s5);
    assert s5.pc == s.pc[s.cur := Idle] == s.pc;
  }

  /** From the test of `unlock` to taking over the waiting list. */
  lemma UnlockGrabs(s: State) returns (r: seq<State>)
    requires s.cur in s.pc && s.pc[s.cur] == UnlockEnter && s.cur !in s.stopped && !s.critical
    ensures Calm(r) && r != [] && r[0] == s && r[|r| - 1] == Goto(s, UnlockClear(s.waiting)).(critical := true)
  {
    var s1 := Goto(s, UnlockGrab).(critical := true);
    var s2 := Goto(s1, UnlockClear(s.waiting));
    r := [s, s1, s2];
    assert Acts(s, s1) && Acts(s1, s2);
    assert s2.pc == s.pc[s.cur := UnlockClear(s.waiting)];
  }

  /** On to the loop of `unlock`. */
  lemma UnlockGives(s: State, w: seq<Tid>) returns (r: seq<State>)
    requires s.cur in s.pc && s.pc[s.cur] == UnlockClear(w) && s.cur !in s.stopped && s.critical
    ensures Calm(r) && r != [] && r[0] == s
    ensures r[|r| - 1] ==
      Goto(s, UnlockRun(w)).(locked := false, waiting := [], critical := false, holders := s.holders - {s.cur})
  {
    var s3 := Goto(s, UnlockRelease(w)).(waiting := []);
    var s4 := Goto(s3, UnlockLeave(w)).(locked := false, holders := s.holders - {s.cur});
    var s5 := Goto(s4, UnlockRun(w)).(critical := false);
    r := [s, s3, s4, s5];
    assert Acts(s, s3) && Acts(s3, s4) && Acts(s4, s5);
    assert s5.pc == s.pc[s.cur := UnlockRun(w)];
  }

  /** From the test of `unlock` to its loop. */
  lemma UnlockTo(s: State) returns (r: seq<State>)
    requires s.cur in s.pc && s.pc[s.cur] == UnlockEnter && s.cur !in s.stopped && !s.critical
    ensures Calm(r) && r != [] && r[0] == s
    ensures r[|r| - 1] == Goto(s, UnlockRun(s.waiting)).(locked := false, waiting := [], holders := s.holders - {s.cur})
  {
    hide Calm;
    var a := UnlockGrabs(s);
    var m := a[|a| - 1];
    var b := UnlockGives(m, s.waiting);
    Together(a, b);
    r := a + b[1..];
    assert m.pc[s.cur := UnlockRun(s.waiting)] == s.pc[s.cur := UnlockRun(s.waiting)];
  }

  /** The loop of `unlock`. */
  lemma {:induction false} UnlockLoop(s: State, w: seq<Tid>) returns (r: seq<State>)
    requires s.cur in s.pc && s.pc[s.cur] == UnlockRun(w) && s.cur !in s.stopped && !s.critical
    ensures Calm(r) && r != [] && r[0] == s && var e := r[|r| - 1]; e == Goto(s, Idle).(stopped := e.stopped) && s.cur !in e.stopped
    decreases |w|
  {
    hide Calm;
    if w == [] {
      r := One(s, Goto(s, Idle));
    } else {
      var s1 := Goto(s, UnlockRun(w[1..])).(stopped := s.stopped - {w[0]});
      var first := One(s, s1);
      var more := UnlockLoop(s1, w[1..]);
      assert s1.pc[s.cur := Idle] == s.pc[s.cur := Idle];
      r := first + more[1..];
      Together(first, more);
    }
  }

  /** After an alien unlock the stranger can lock the mutex, and holds it with the thread that held it before. */
  lemma AlienUnlockBreaks(s: State, s': State, h: Tid) returns (r: seq<State>)
    requires AlienUnlock(s, s') && !s.critical && h in s.holders
    ensures Calm(r) && r != [] && r[0] == s' && h != s.cur && {h, s.cur} <= r[|r| - 1].holders
  {
    hide Calm;
    var a := UnlockTo(s');
    var b := UnlockLoop(a[|a| - 1], s.waiting);
    var c := LockRun(b[|b| - 1]);
    Together(a, b);
    Together(a + b[1..], c);
    r := a + b[1..] + c[1..];
  }

  /** Two threads hold the mutex. */
  ghost predicate Two(s: State) {
    exists t, u :: t in s.holders && u in s.holders && t != u
  }

  /**
   * The condition is exact: after a run without an alien unlock, a step can lead to two holders, with no alien unlock
   * behind it, exactly when it is an alien unlock itself.
   */
  lemma ExclusionIff(r: seq<State>, s': State)
    requires Run(r) && NoAlien(r) && Next(r[|r| - 1], s')
    ensures AlienUnlock(r[|r| - 1], s')
      <==> exists q :: Steps(q) && q[0] == s' && NoAlien(q) && Two(q[|q| - 1])
  {
    var s := r[|r| - 1];
    RunInv(r, |r| - 1);
    if AlienUnlock(s, s') {
      var h :| h in s.holders;
      var q := AlienUnlockBreaks(s, s', h);
      assert Two(q[|q| - 1]);
    } else {
      forall q | Steps(q) && q[0] == s' && NoAlien(q)
        ensures !Two(q[|q| - 1])
      {
        Extended(r, q);
        RunInv(r + q, |r + q| - 1);
      }
    }
  }

  lemma Extended(r: seq<State>, q: seq<State>)
    requires Run(r) && NoAlien(r) && Steps(q) && NoAlien(q) && Next(r[|r| - 1], q[0]) && !AlienUnlock(r[|r| - 1], q[0])
    ensures Run(r + q) && NoAlien(r + q)
    ensures NoRelock(r) && NoRelock(q) && !Relock(r[|r| - 1], q[0]) ==> NoRelock(r + q)
  {
    hide Next, AlienUnlock, Relock, Init;
    var all := r + q;
    forall i | 0 <= i < |all| - 1
      ensures Next(all[i], all[i + 1]) && !AlienUnlock(all[i], all[i + 1])
      ensures NoRelock(r) && NoRelock(q) && !Relock(r[|r| - 1], q[0]) ==> !Relock(all[i], all[i + 1])
    {
      if i < |r| - 1 {
        assert all[i] == r[i] && all[i + 1] == r[i + 1];
      } else if i >= |r| {
        assert all[i] == q[i - |r|] && all[i + 1] == q[i + 1 - |r|];
      }
    }
  }

  // ---- what a relock leads to

  /** The only holder is suspended, and waits for the mutex. */
  ghost predicate Stuck(s: State, h: Tid) {
    s.holders == {h} && s.locked && h in s.stopped && h in s.waiting
  }

  /** A holder that locks the mutex again is suspended and waits for it. */
  lemma RelockStops(s: State, s': State) returns (r: seq<State>)
    requires Relock(s, s') && CriticalInv(s) && LockInv(s)
    ensures Calm(r) && r != [] && r[0] == s' && Stuck(r[|r| - 1], s.cur) && r[|r| - 1].pc == s.pc[s.cur := LockStopped]
  {
    var s2 := Goto(s', LockStop).(waiting := s'.waiting + [s.cur]);
    var s3 := Goto(s2, LockStopped).(critical := false, stopped := s2.stopped + {s.cur});
    r := [s', s2, s3];
    assert Acts(s', s2) && Acts(s2, s3);
    assert s.holders == {s.cur};
  }

  /** That lasts for ever, unless there is an alien unlock or the thread is woken up. */
  lemma {:induction false} StuckForEver(q: seq<State>, h: Tid, i: nat)
    requires Steps(q) && NoAlien(q) && NoWakes(q) && Inv(q[0]) && Stuck(q[0], h) && !TakenOver(q[0], h) && i < |q|
    ensures Inv(q[i]) && Stuck(q[i], h) && !TakenOver(q[i], h)
  {
    hide Inv, Next, AlienUnlock, Wakes, Stuck, TakenOver;
    if i > 0 {
      StuckForEver(q, h, i - 1);
      assert Next(q[i - 1], q[i - 1 + 1]) && !AlienUnlock(q[i - 1], q[i - 1 + 1]) && !Wakes(q[i - 1], q[i - 1 + 1]);
      StepInv(q[i - 1], q[i]);
      StuckStays(q[i - 1], q[i], h);
    }
  }

  lemma StuckStays(s: State, s': State, h: Tid)
    requires Inv(s) && Stuck(s, h) && !TakenOver(s, h) && Next(s, s') && !AlienUnlock(s, s') && !Wakes(s, s')
    ensures Stuck(s', h) && !TakenOver(s', h)
  {
    if Acts(s, s') {
      assert s.cur != h && !Unlocking(s.pc[s.cur]);
      ActFrame(s, s');
      StuckAct(s, s', h);
      forall u
        ensures !WillRun(s', u, h)
      {
        if u == s.cur { NotTaken(s, s', h); } else { assert !WillRun(s, u, h); }
      }
    } else {
      forall u
        ensures !WillRun(s', u, h)
      {
        assert !WillRun(s, u, h);
      }
    }
  }

  lemma StuckAct(s: State, s': State, h: Tid)
    requires CriticalInv(s) && LockInv(s) && Stuck(s, h) && Acts(s, s') && s.cur != h && !Unlocking(s.pc[s.cur])
    requires !WillRun(s, s.cur, h)
    ensures Stuck(s', h)
  {
    assert s'.waiting == s.waiting || s'.waiting == s.waiting + [s.cur];
  }

  lemma NotTaken(s: State, s': State, h: Tid)
    requires Acts(s, s') && !Unlocking(s.pc[s.cur]) && !WillRun(s, s.cur, h)
    ensures !WillRun(s', s.cur, h)
  {
  }

  /** Someone waits for a mutex whose holder is suspended. */
  ghost predicate Lost(s: State) {
    exists t :: t in s.stopped && t in s.waiting && forall h :: h in s.holders ==> h in s.stopped
  }

  /**
   * The condition is exact: after a run without alien unlocks and relocks, a step that is no alien unlock can lead to a
   * waiter whom nobody serves, without any of the two behind it, exactly when it is a relock.
   */
  lemma ServedIff(r: seq<State>, s': State)
    requires Run(r) && NoAlien(r) && NoRelock(r) && Next(r[|r| - 1], s') && !AlienUnlock(r[|r| - 1], s')
    ensures Relock(r[|r| - 1], s')
      <==> exists q :: Steps(q) && q[0] == s' && NoAlien(q) && NoRelock(q) && Lost(q[|q| - 1])
  {
    var s := r[|r| - 1];
    RunInv(r, |r| - 1);
    if Relock(s, s') {
      var q := RelockStops(s, s');
      assert Lost(q[|q| - 1]);
    } else {
      forall q | Steps(q) && q[0] == s' && NoAlien(q) && NoRelock(q)
        ensures !Lost(q[|q| - 1])
      {
        Extended(r, q);
        var all, n := r + q, |r + q| - 1;
        RunInv(all, n);
        forall t | t in all[n].stopped && t in all[n].waiting
          ensures exists h :: h in all[n].holders && h !in all[n].stopped
        {
          SuspendedIsServed(all, n, t);
        }
      }
    }
  }

  // ---- both happen

  lemma Switch(s: State, t: Tid) returns (r: seq<State>)
    requires !s.critical && t in s.pc && t !in s.stopped && s.cur != t
    ensures Calm(r) && r != [] && r[0] == s && r[|r| - 1] == s.(cur := t)
  {
    r := One(s, s.(cur := t));
  }

  lemma Start() returns (s: State)
    ensures Init(s) && s.cur == 0 && 1 in s.pc
  {
    s := State(false, [], false, 0, map[0 := Idle, 1 := Idle], {}, {});
  }

  /** There is a run that leads to an alien unlock: one thread takes the mutex, and another one calls `unlock`. */
  lemma AlienUnlockHappens() returns (r: seq<State>, s': State)
    ensures Run(r) && NoAlien(r) && AlienUnlock(r[|r| - 1], s')
  {
    var s := Start();
    var a := LockRun(s);
    var s1 := a[|a| - 1];
    var b := Switch(s1, 1);
    var s2 := b[|b| - 1];
    var s3 := Goto(s2, UnlockTest);
    var c := One(s2, s3);
    Together(a, b);
    Together(a + b[1..], c);
    r := a + b[1..] + c[1..];
    s' := Goto(s3, UnlockEnter);
  }

  /** There is a run that leads to a relock: a thread takes the mutex, and calls `lock` again. */
  lemma RelockHappens() returns (r: seq<State>, s': State)
    ensures Run(r) && NoAlien(r) && NoRelock(r) && Relock(r[|r| - 1], s')
  {
    var s := Start();
    var a := LockRun(s);
    var s1 := a[|a| - 1];
    var s2 := Goto(s1, LockEnter);
    var b := One(s1, s2);
    var s3 := Goto(s2, LockTest).(critical := true);
    var c := One(s2, s3);
    Together(a, b);
    Together(a + b[1..], c);
    r := a + b[1..] + c[1..];
    s' := Goto(s3, LockWait);
  }

  /**
   * The answer of `try_lock` is true exactly when the mutex was free at the test; then the caller has it, and nobody
   * came in between. Otherwise nothing has changed.
   */
  lemma TryLockAnswers(s: State, s1: State, s2: State)
    requires CriticalInv(s) && s.pc[s.cur].TryTest? && Next(s, s1) && Next(s1, s2)
    ensures s.locked ==> s1 == Goto(s, TryLeave(false)) && s2 == Goto(s, Idle).(critical := false)
    ensures !s.locked ==> s2 == Goto(s, TryLeave(true)).(locked := true, holders := s.holders + {s.cur})
  {
    hide Critical;
    TryPcs();
  }

  lemma TryPcs()
    ensures Critical(TryTest) && Critical(TryTake) && forall r :: Critical(TryLeave(r))
  {
  }
}
