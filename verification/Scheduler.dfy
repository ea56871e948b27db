/** The thread ring, the wait bits with their counters, and the scheduler of eval.c. */
module Scheduler {

  datatype Status = Runnable | Stopped | ToKill | Killed

  datatype Wait = Fd | Time | Join

  class Thread {
    var next: Thread?
    var prev: Thread?
    var status: Status
    var waitFor: set<Wait>
    var fd: int
    var delay: real
    var join: Thread?

    constructor ()
      ensures status == Runnable && waitFor == {} && next == null && prev == null && join == null
    {
      next, prev, join := null, null, null;
      status := Runnable;
      waitFor := {};
      fd := 0;
      delay := 0.0;
    }
  }

  /** DELAY_INFTY. */
  const DELAY_INFTY := 1000000000000000000000000000000.0

  /** What one call of `select` meets: the time of day, its result, and the descriptors that are ready. */
  datatype Event = Event(now: real, n: int, ready: set<int>)

  /**
   * How a call of the scheduler ends: it returns at once, or switches to another thread, or finds all threads waiting
   * for ever, or is still waiting in `select` when the recorded events end.
   */
  datatype Outcome = Returned | Switched | Deadlock | Blocked

  datatype End = Decided | StartOver | OutOfEvents

  /** `r` is a circular doubly linked list. */
  ghost predicate IsRing(r: seq<Thread>)
    reads r`next, r`prev
  {
    && r != []
    && (forall i, j :: 0 <= i < j < |r| ==> r[i] != r[j])
    && (forall i :: 0 <= i < |r| ==> r[i].next == After(r, i))
    && (forall i :: 0 <= i < |r| ==> r[i].prev == Before(r, i))
  }

  function After(r: seq<Thread>, i: nat): Thread
    requires i < |r|
  {
    if i + 1 < |r| then r[i + 1] else r[0]
  }

  function Before(r: seq<Thread>, i: nat): Thread
    requires i < |r|
  {
    if i == 0 then r[|r| - 1] else r[i - 1]
  }

  /** The same ring, started behind position `k`. */
  function RotateTo(r: seq<Thread>, k: nat): seq<Thread>
    requires k < |r|
  {
    r[k + 1..] + r[..k + 1]
  }

  /** Position `i` of the rotated ring in the original one. */
  function Origin(n: nat, k: nat, i: nat): nat
    requires k < n && i < n
  {
    if i + k + 1 < n then i + k + 1 else i + k + 1 - n
  }

  lemma RotatedAt(r: seq<Thread>, k: nat, i: nat)
    requires k < |r| && i < |r|
    ensures |RotateTo(r, k)| == |r|
    ensures RotateTo(r, k)[i] == r[Origin(|r|, k, i)]
    ensures After(RotateTo(r, k), i) == After(r, Origin(|r|, k, i))
    ensures Before(RotateTo(r, k), i) == Before(r, Origin(|r|, k, i))
  {
  }

  lemma RotatedElements(r: seq<Thread>, k: nat)
    requires k < |r|
    ensures forall t :: t in RotateTo(r, k) <==> t in r
  {
    assert r == r[..k + 1] + r[k + 1..];
  }

  lemma RotatedRing(r: seq<Thread>, k: nat)
    requires IsRing(r) && k < |r|
    ensures IsRing(RotateTo(r, k))
    ensures RotateTo(r, k)[|r| - 1] == r[k] && RotateTo(r, k)[0] == r[k].next
    ensures forall t :: t in RotateTo(r, k) <==> t in r
  {
    hide RotateTo, After, Before;
    var q := RotateTo(r, k);
    var n := |r|;
    forall i | 0 <= i < n
      ensures |q| == n && q[i] == r[Origin(n, k, i)] && After(q, i) == After(r, Origin(n, k, i))
      ensures Before(q, i) == Before(r, Origin(n, k, i))
    {
      RotatedAt(r, k, i);
    }
    RotatedElements(r, k);
    RotatedAt(r, k, 0);
    AfterIs(r, k);
  }

  lemma RotatedIn(r: seq<Thread>, k: nat)
    requires IsRing(r) && k < |r|
    ensures |RotateTo(r, k)| == |r| && IsRing(RotateTo(r, k))
    ensures RotateTo(r, k)[|r| - 1] == r[k] && RotateTo(r, k)[0] == r[k].next
    ensures forall t :: t in RotateTo(r, k) <==> t in r
    ensures forall i :: 0 <= i < |r| ==> RotateTo(r, k)[i] in r
  {
    hide IsRing, RotateTo;
    RotatedAt(r, k, 0);
    RotatedRing(r, k);
    var q := RotateTo(r, k);
    forall i | 0 <= i < |r|
      ensures q[i] in r
    {
      RotatedAt(r, k, i);
    }
  }

  lemma AfterIs(r: seq<Thread>, k: nat)
    requires k < |r|
    ensures After(r, k) == r[Origin(|r|, k, 0)]
  {
  }

  /** What each ring thread waits for. */
  ghost function WaitMap(r: seq<Thread>): map<Thread, set<Wait>>
    reads r`waitFor
  {
    map t | t in r :: t.waitFor
  }

  ghost function WaitersIn(m: map<Thread, set<Wait>>, w: Wait): set<Thread> {
    set t | t in m && w in m[t]
  }

  /** The ring threads that wait for `w`. */
  ghost function Waiters(r: seq<Thread>, w: Wait): set<Thread>
    reads r`waitFor
  {
    WaitersIn(WaitMap(r), w)
  }

  /** The counter that goes with a wait bit. */
  ghost function Count(m: map<Thread, set<Wait>>, w: Wait): nat {
    |WaitersIn(m, w)|
  }

  /** Changing what one thread waits for changes each counter by its bit. */
  lemma CountChange(m: map<Thread, set<Wait>>, th: Thread, ws: set<Wait>, w: Wait)
    requires th in m
    ensures Count(m[th := ws], w) - (if w in ws then 1 else 0) == Count(m, w) - (if w in m[th] then 1 else 0)
  {
    var a, b := WaitersIn(m, w), WaitersIn(m[th := ws], w);
    var rest := a - {th};
    assert a == if w in m[th] then rest + {th} else rest;
    assert b == if w in ws then rest + {th} else rest;
  }

  lemma CountsChange(m: map<Thread, set<Wait>>, th: Thread, ws: set<Wait>)
    requires th in m
    ensures forall w :: Count(m[th := ws], w) - (if w in ws then 1 else 0) == Count(m, w) - (if w in m[th] then 1 else 0)
  {
    forall w
      ensures Count(m[th := ws], w) - (if w in ws then 1 else 0) == Count(m, w) - (if w in m[th] then 1 else 0)
    {
      CountChange(m, th, ws, w);
    }
  }

  /** A thread that is ready to run, or to be killed, waits for nothing; nobody waits for two things. */
  ghost predicate StatusOk(t: Thread)
    reads t`status, t`waitFor, t`join
  {
    && t.status != Killed
    && (t.status != Stopped ==> t.waitFor == {})
    && (t.waitFor == {} || t.waitFor == {Fd} || t.waitFor == {Time} || t.waitFor == {Join})
    && (Join in t.waitFor ==> t.join != null)
  }

  ghost predicate StatusesOk(r: seq<Thread>)
    reads r`status, r`waitFor, r`join
  {
    forall t :: t in r ==> StatusOk(t)
  }

  datatype Looks = Looks(status: Status, waitFor: set<Wait>, join: Thread?, fd: int, delay: real)

  ghost function Look(t: Thread): Looks
    reads t`status, t`waitFor, t`join, t`fd, t`delay
  {
    Looks(t.status, t.waitFor, t.join, t.fd, t.delay)
  }

  /** What a thread waits for has come: the other thread has died, the time is reached, the descriptor is ready. */
  ghost predicate Over(b: Looks, died: bool, env: seq<Event>) {
    || (Join in b.waitFor && died)
    || (Time in b.waitFor && exists e :: e in env && b.delay <= e.now)
    || (Fd in b.waitFor && exists e :: e in env && e.n > 0 && b.fd in e.ready)
  }

  /** A thread stays as it was, or its wait is over and it can run. */
  ghost predicate Goes(b: Looks, a: Looks, died: bool, env: seq<Event>) {
    a == b || (Over(b, died, env) && a.status == Runnable && a.waitFor == {})
  }

  /** All threads of a ring are as they were before, or their waits are over; `died` wait for a thread that has died. */
  ghost predicate AllGo(before: map<Thread, Looks>, after: map<Thread, Looks>, died: set<Thread>, env: seq<Event>) {
    forall t :: t in after ==> t in before && Goes(before[t], after[t], t in died, env)
  }

  lemma GoesOn(b: Looks, m: Looks, a: Looks, died: bool, env1: seq<Event>, env2: seq<Event>, env: seq<Event>)
    requires Goes(b, m, died, env1) && Goes(m, a, false, env2)
    requires forall e :: e in env1 || e in env2 ==> e in env
    ensures Goes(b, a, died, env)
  {
  }

  /** What happens in two steps happens. */
  lemma AllGoOn(before: map<Thread, Looks>, mid: map<Thread, Looks>, after: map<Thread, Looks>, died: set<Thread>,
      env1: seq<Event>, env2: seq<Event>, env: seq<Event>)
    requires AllGo(before, mid, died, env1) && AllGo(mid, after, {}, env2)
    requires forall e :: e in env1 || e in env2 ==> e in env
    ensures AllGo(before, after, died, env)
  {
    hide Goes;
    forall t | t in after
      ensures t in before && Goes(before[t], after[t], t in died, env)
    {
      assert Goes(mid[t], after[t], t in {}, env2);
      GoesOn(before[t], mid[t], after[t], t in died, env1, env2, env);
    }
  }

  /** The same for fewer threads and more reasons. */
  lemma AllGoLess(before: map<Thread, Looks>, mid: map<Thread, Looks>, after: map<Thread, Looks>, died1: set<Thread>,
      died: set<Thread>, env: seq<Event>)
    requires AllGo(mid, after, died1, env) && died1 <= died
    requires forall t :: t in mid ==> t in before && mid[t] == before[t]
    ensures AllGo(before, after, died, env)
  {
  }

  lemma NoneGone(m: map<Thread, Looks>, died: set<Thread>, env: seq<Event>)
    ensures AllGo(m, m, died, env)
  {
  }

  /** The scheduling state of all ring threads. */
  ghost function Snapshot(r: seq<Thread>): map<Thread, Looks>
    reads r`status, r`waitFor, r`join, r`fd, r`delay
  {
    map t | t in r :: Look(t)
  }

  // ---- what a call of the scheduler does with the recorded events

  /** `t` is the first thread of `s` in the order of the ring; null if there is none. */
  ghost predicate FirstOf(order: seq<Thread>, s: set<Thread>, t: Thread?) {
    if t == null then forall i :: 0 <= i < |order| ==> order[i] !in s
    else t in s && exists i :: 0 <= i < |order| && order[i] == t && forall j :: 0 <= j < i ==> order[j] !in s
  }

  ghost predicate LastOf(order: seq<Thread>, s: set<Thread>, t: Thread?) {
    t != null && t in s && exists i :: 0 <= i < |order| && order[i] == t && forall j :: i < j < |order| ==> order[j] !in s
  }

  ghost function Awake(m: map<Thread, Looks>): set<Thread> {
    set t | t in m && m[t].status != Stopped
  }

  /** The thread sleeps and its time has come. */
  predicate Due(b: Looks, now: real) {
    Time in b.waitFor && b.delay <= now
  }

  ghost function DueSet(m: map<Thread, Looks>, now: real): set<Thread> {
    set t | t in m && Due(m[t], now)
  }

  /** The thread visited last among those that are due. */
  lemma LastDue(order: seq<Thread>, m: map<Thread, Looks>, now: real, cand: Thread?, next: Thread?, at: int)
    requires (forall t :: t in m ==> t in order) && -1 <= at < |order|
    requires if at == -1 then next == cand else next == order[at] && next in m && Due(m[next], now)
    requires forall i :: at < i < |order| ==> order[i] in m && !Due(m[order[i]], now)
    ensures var due := DueSet(m, now); if due != {} then LastOf(order, due, next) else next == cand
  {
    hide Due;
    if at == -1 {
      forall t | t in m
        ensures !Due(m[t], now)
      {
        var i :| 0 <= i < |order| && order[i] == t;
      }
      assert DueSet(m, now) == {};
    } else {
      assert next in DueSet(m, now);
    }
  }

  predicate WaitsOn(b: Looks, f: int) {
    Fd in b.waitFor && b.fd == f
  }

  /** The threads that wait for descriptor `f`. */
  ghost function WaitersOf(m: map<Thread, Looks>, f: int): set<Thread> {
    set t | t in m && WaitsOn(m[t], f)
  }

  /** The threads that wait for some ready descriptor. */
  ghost function ReadySet(m: map<Thread, Looks>, ready: set<int>): set<Thread> {
    set t | t in m && Fd in m[t].waitFor && m[t].fd in ready
  }

  /** Of those, the first one around the ring for each descriptor. */
  ghost function Served(order: seq<Thread>, m: map<Thread, Looks>, ready: set<int>): set<Thread> {
    set t | t in ReadySet(m, ready) && FirstOf(order, WaitersOf(m, m[t].fd), t)
  }

  ghost predicate Waits(m: map<Thread, Looks>, w: Wait) {
    exists t :: t in m && w in m[t].waitFor
  }

  /** Somebody sleeps until a finite time. */
  ghost predicate Sleeper(m: map<Thread, Looks>) {
    exists t :: t in m && Time in m[t].waitFor && m[t].delay < DELAY_INFTY
  }

  predicate Up(l: Looks) {
    l.status == Runnable && l.waitFor == {}
  }

  /** The threads of `s` wait no more and can run; the others are as before. */
  ghost predicate WakesJust(before: map<Thread, Looks>, after: map<Thread, Looks>, s: set<Thread>) {
    before.Keys == after.Keys && forall t :: t in after ==> if t in s then Up(after[t]) else after[t] == before[t]
  }

  /** One turn of the loop over clocks and descriptors; `cand` and `next` are the threads to run, as far as known. */
  datatype Turn = Turn(before: map<Thread, Looks>, cand: Thread?, after: map<Thread, Looks>, next: Thread?)

  /** The threads an event wakes: all whose time has come, and the first waiter of each ready descriptor. */
  ghost function Woken(order: seq<Thread>, m: map<Thread, Looks>, e: Event): set<Thread> {
    DueSet(m, e.now) + if e.n > 0 then Served(order, m, e.ready) else {}
  }

  /** `select` is called, since there are descriptors to look at or nobody can run, and is interrupted. */
  ghost predicate Interrupted(t: Turn, e: Event) {
    e.n < 0 && (Waits(t.before, Fd) || (t.cand == null && DueSet(t.before, e.now) == {}))
  }

  /**
   * A turn wakes whom the event wakes and nobody else. The last sleeper to wake is to run, before a candidate there was,
   * and that before the first thread with a ready descriptor.
   */
  ghost predicate TurnIs(order: seq<Thread>, t: Turn, e: Event) {
    && WakesJust(t.before, t.after, Woken(order, t.before, e))
    && if DueSet(t.before, e.now) != {} then LastOf(order, DueSet(t.before, e.now), t.next)
      else if t.cand != null then t.next == t.cand
      else if e.n > 0 then FirstOf(order, ReadySet(t.before, e.ready), t.next)
      else t.next == null
  }

  /** Another turn comes: `select` was interrupted, or nobody can run yet and some sleeper will. */
  ghost predicate Again(t: Turn, e: Event) {
    Interrupted(t, e) || (t.next == null && Sleeper(t.after))
  }

  /** Turn `u` goes on from `t`; after an interruption with the first thread that can run. */
  ghost predicate Follows(order: seq<Thread>, t: Turn, e: Event, u: Turn) {
    && Again(t, e) && u.before == t.after
    && if Interrupted(t, e) then FirstOf(order, Awake(t.after), u.cand) else u.cand == t.next
  }

  /** A sequence of turns, one for each event. */
  ghost predicate TurnsAre(order: seq<Thread>, m: map<Thread, Looks>, cand: Thread?, env: seq<Event>, ts: seq<Turn>) {
    && |ts| <= |env|
    && (forall k :: 0 <= k < |ts| ==> TurnIs(order, ts[k], env[k]))
    && (ts != [] ==> ts[0].before == m && ts[0].cand == cand)
    && (forall k :: 0 < k < |ts| ==> Follows(order, ts[k - 1], env[k - 1], ts[k]))
  }

  ghost function LastState(m: map<Thread, Looks>, ts: seq<Turn>): map<Thread, Looks> {
    if ts == [] then m else ts[|ts| - 1].after
  }

  ghost function LastCand(cand: Thread?, ts: seq<Turn>): Thread? {
    if ts == [] then cand else ts[|ts| - 1].next
  }

  /** Behind these turns another one is due. */
  ghost predicate MoreTurns(m: map<Thread, Looks>, env: seq<Event>, ts: seq<Turn>) {
    |ts| <= |env| && if ts == [] then Waits(m, Fd) || Waits(m, Time) else Again(ts[|ts| - 1], env[|ts| - 1])
  }

  /** First those come back who wait for a dead thread; the candidate could run before, or is the first of them. */
  ghost predicate JoinsFirst(order: seq<Thread>, before: map<Thread, Looks>, died: set<Thread>, m: map<Thread, Looks>,
      cand: Thread?)
  {
    && WakesJust(before, m, died)
    && FirstOf(order, if Awake(before) != {} then Awake(before) else died, cand)
  }

  /** The record of a call of the scheduler: state and candidate after the joins, and the turns. */
  datatype Log = Log(joined: map<Thread, Looks>, cand: Thread?, turns: seq<Turn>)

  /** What a call of the scheduler does: the joins, the turns, and whom it leaves to run. */
  ghost predicate Scheduled(order: seq<Thread>, before: map<Thread, Looks>, died: set<Thread>, env: seq<Event>,
      log: Log, after: map<Thread, Looks>, r: Outcome, now: Thread)
  {
    var m, cand, ts := log.joined, log.cand, log.turns;
    && JoinsFirst(order, before, died, m, cand)
    && TurnsAre(order, m, cand, env, ts)
    && (ts != [] ==> Waits(m, Fd) || Waits(m, Time))
    && LastState(m, ts) == after
    && (r.Blocked? <==> MoreTurns(m, env, ts))
    && (r.Blocked? ==> |ts| == |env|)
    && (r.Deadlock? ==> LastCand(cand, ts) == null && Awake(after) == {})
    && (r.Returned? || r.Switched? ==> LastCand(cand, ts) == now)
  }

  /** Whoever can run and waits for nothing stays so. */
  lemma {:induction false} UpStays(order: seq<Thread>, m: map<Thread, Looks>, cand: Thread?, env: seq<Event>, ts: seq<Turn>,
      k: nat, j: nat, t: Thread)
    requires TurnsAre(order, m, cand, env, ts) && k <= j < |ts| && t in ts[k].after && Up(ts[k].after[t])
    ensures t in ts[j].after && Up(ts[j].after[t])
    decreases j
  {
    hide LastOf, FirstOf, Again;
    if k < j {
      UpStays(order, m, cand, env, ts, k, j - 1, t);
      assert Follows(order, ts[j - 1], env[j - 1], ts[j]) && TurnIs(order, ts[j], env[j]);
    }
  }

  /**
   * Every event is heeded: who sleeps no longer than to its time, and who is the first to wait for a descriptor that it
   * tells ready, can run when the scheduler is left.
   */
  lemma EventsHeeded(order: seq<Thread>, before: map<Thread, Looks>, died: set<Thread>, env: seq<Event>, log: Log,
      after: map<Thread, Looks>, r: Outcome, now: Thread, k: nat, t: Thread)
    requires Scheduled(order, before, died, env, log, after, r, now) && k < |log.turns| && t in log.turns[k].before
    requires var b := log.turns[k].before;
      || Due(b[t], env[k].now)
      || (env[k].n > 0 && Fd in b[t].waitFor && b[t].fd in env[k].ready && FirstOf(order, WaitersOf(b, b[t].fd), t))
    ensures t in after && Up(after[t])
  {
    hide LastOf, FirstOf, Again, JoinsFirst, MoreTurns;
    var ts := log.turns;
    assert TurnIs(order, ts[k], env[k]);
    assert t in Woken(order, ts[k].before, env[k]);
    UpStays(order, log.joined, log.cand, env, ts, k, |ts| - 1, t);
  }

  /** Deadlock is found only if no thread that was waited for had died, and no event looked at ended any wait. */
  lemma DeadlockMeans(order: seq<Thread>, before: map<Thread, Looks>, died: set<Thread>, env: seq<Event>, log: Log,
      after: map<Thread, Looks>, now: Thread)
    requires Scheduled(order, before, died, env, log, after, Deadlock, now)
    ensures died * before.Keys == {}
    ensures forall k :: 0 <= k < |log.turns| ==> Woken(order, log.turns[k].before, env[k]) == {}
    ensures log.turns == [] ==> !Waits(after, Fd) && !Waits(after, Time)
    ensures !Sleeper(after)
  {
    hide LastOf, FirstOf, TurnIs, Woken;
    var ts := log.turns;
    NobodyUp(after);
    forall k | 0 <= k < |ts|
      ensures Woken(order, ts[k].before, env[k]) == {}
    {
      WokenKnown(order, ts[k], env[k]);
      forall t | t in Woken(order, ts[k].before, env[k])
        ensures false
      {
        UpStays(order, log.joined, log.cand, env, ts, k, |ts| - 1, t);
      }
    }
    forall t | t in died * before.Keys
      ensures false
    {
      if ts != [] { UpFromStart(order, log.joined, log.cand, env, ts, t); }
    }
  }

  lemma NobodyUp(m: map<Thread, Looks>)
    requires Awake(m) == {}
    ensures forall t :: t in m ==> !Up(m[t])
  {
    forall t | t in m
      ensures t !in Awake(m) && !Up(m[t])
    {
    }
  }

  lemma UpFromStart(order: seq<Thread>, m: map<Thread, Looks>, cand: Thread?, env: seq<Event>, ts: seq<Turn>, t: Thread)
    requires TurnsAre(order, m, cand, env, ts) && ts != [] && t in m && Up(m[t])
    ensures t in LastState(m, ts) && Up(LastState(m, ts)[t])
  {
    hide LastOf, FirstOf, Again;
    assert TurnIs(order, ts[0], env[0]);
    UpStays(order, m, cand, env, ts, 0, |ts| - 1, t);
  }

  lemma WokenKnown(order: seq<Thread>, t: Turn, e: Event)
    requires TurnIs(order, t, e)
    ensures forall u :: u in Woken(order, t.before, e) ==> u in t.after && Up(t.after[u])
  {
    hide LastOf, FirstOf;
  }

  /** Nobody waits for two things. */
  ghost predicate Single(m: map<Thread, Looks>) {
    forall t :: t in m ==> !(Fd in m[t].waitFor && Time in m[t].waitFor)
  }

  lemma SameReady(m: map<Thread, Looks>, m': map<Thread, Looks>, order: seq<Thread>, ready: set<int>)
    requires m.Keys == m'.Keys && forall t :: t in m ==> (Fd in m[t].waitFor <==> Fd in m'[t].waitFor)
    requires forall t :: t in m && Fd in m[t].waitFor ==> m'[t] == m[t]
    ensures ReadySet(m, ready) == ReadySet(m', ready) && Served(order, m, ready) == Served(order, m', ready)
    ensures Waits(m, Fd) <==> Waits(m', Fd)
  {
    hide FirstOf;
    forall f
      ensures WaitersOf(m, f) == WaitersOf(m', f)
    {
    }
    forall t | t in m && Fd in m[t].waitFor
      ensures Fd in m'[t].waitFor
    {
    }
  }

  /** The two passes of a turn together. */
  lemma TurnParts(order: seq<Thread>, b: map<Thread, Looks>, m: map<Thread, Looks>, a: map<Thread, Looks>, e: Event,
      cand: Thread?, mid: Thread?, next: Thread?)
    requires Single(b) && WakesJust(b, m, DueSet(b, e.now))
    requires if DueSet(b, e.now) != {} then LastOf(order, DueSet(b, e.now), mid) else mid == cand
    requires e.n <= 0 ==> a == m && next == mid
    requires e.n > 0 ==> WakesJust(m, a, Served(order, m, e.ready))
    requires e.n > 0 ==> if mid != null then next == mid else FirstOf(order, ReadySet(m, e.ready), next)
    ensures TurnIs(order, Turn(b, cand, a, next), e)
    ensures (Sleeper(a) <==> Sleeper(m)) && (Waits(b, Fd) <==> Waits(m, Fd))
  {
    hide FirstOf, Served, DueSet, ReadySet;
    DueWaits(b, m, e.now);
    SameReady(b, m, order, e.ready);
    ServedWait(order, m, e.ready);
    var served := if e.n > 0 then Served(order, m, e.ready) else {};
    SleepersStay(m, a, served);
    WakesTwice(b, m, a, DueSet(b, e.now), served);
    assert Woken(order, b, e) == DueSet(b, e.now) + served;
  }

  lemma DueWaits(b: map<Thread, Looks>, m: map<Thread, Looks>, now: real)
    requires Single(b) && WakesJust(b, m, DueSet(b, now))
    ensures Single(m) && forall t :: t in b ==> (Fd in b[t].waitFor <==> Fd in m[t].waitFor)
    ensures forall t :: t in b && Fd in b[t].waitFor ==> m[t] == b[t]
  {
  }

  lemma ServedWait(order: seq<Thread>, m: map<Thread, Looks>, ready: set<int>)
    ensures forall t :: t in Served(order, m, ready) ==> t in m && Fd in m[t].waitFor
  {
    hide FirstOf;
  }

  /** Who is served waited for a descriptor that is ready. */
  lemma ServedGo(order: seq<Thread>, before: map<Thread, Looks>, after: map<Thread, Looks>, e: Event)
    requires e.n > 0 && WakesJust(before, after, Served(order, before, e.ready))
    ensures AllGo(before, after, {}, [e])
    ensures forall t :: t in after ==> after[t] == before[t] || after[t].waitFor == {}
  {
    hide FirstOf;
    assert e in [e];
  }

  /** The first thread with a ready descriptor is the first of its descriptor. */
  lemma FdCandidate(order: seq<Thread>, before: map<Thread, Looks>, after: map<Thread, Looks>, ready: set<int>,
      cand: Thread?, next: Thread?)
    requires (forall t :: t in before ==> t in order) && WakesJust(before, after, Served(order, before, ready))
    requires if cand == null then Awake(before) == {} else cand in Awake(before)
    requires if cand != null then next == cand else FirstOf(order, ReadySet(before, ready), next)
    ensures if next == null then Awake(after) == {} else next in Awake(after)
  {
    if next == null {
      forall t | t in before
        ensures t !in Awake(after)
      {
        assert t !in Awake(before);
        var i :| 0 <= i < |order| && order[i] == t;
        assert order[i] !in ReadySet(before, ready);
      }
      assert Awake(after) == {};
    } else if cand == null {
      assert FirstOf(order, WaitersOf(before, before[next].fd), next);
    }
  }

  lemma WakesTwice(b: map<Thread, Looks>, m: map<Thread, Looks>, a: map<Thread, Looks>, s1: set<Thread>, s2: set<Thread>)
    requires WakesJust(b, m, s1) && WakesJust(m, a, s2)
    ensures WakesJust(b, a, s1 + s2)
  {
  }

  lemma SleepersStay(m: map<Thread, Looks>, a: map<Thread, Looks>, s: set<Thread>)
    requires WakesJust(m, a, s) && Single(m) && forall t :: t in s && t in m ==> Fd in m[t].waitFor
    ensures Sleeper(a) <==> Sleeper(m)
  {
    forall t | t in m && Time in m[t].waitFor
      ensures a[t] == m[t]
    {
    }
  }

  /** As long as turns are taken somebody waits for a time or a descriptor. */
  lemma {:induction false} TurnWaits(order: seq<Thread>, m: map<Thread, Looks>, cand: Thread?, env: seq<Event>,
      ts: seq<Turn>, k: nat)
    requires TurnsAre(order, m, cand, env, ts) && k < |ts| && Single(m) && (Waits(m, Fd) || Waits(m, Time))
    ensures Single(ts[k].before) && (Waits(ts[k].before, Fd) || Waits(ts[k].before, Time))
  {
    hide LastOf, FirstOf, Woken, TurnIs, Interrupted;
    if k > 0 {
      TurnWaits(order, m, cand, env, ts, k - 1);
      var t, e := ts[k - 1], env[k - 1];
      assert Follows(order, t, e, ts[k]) && TurnIs(order, t, e);
      if Interrupted(t, e) { StillWaiting(order, t, e); }
      SingleStays(order, t, e);
    }
  }

  lemma SingleStays(order: seq<Thread>, t: Turn, e: Event)
    requires TurnIs(order, t, e) && Single(t.before)
    ensures Single(t.after)
  {
    hide Woken, LastOf, FirstOf;
  }

  lemma StillWaiting(order: seq<Thread>, t: Turn, e: Event)
    requires TurnIs(order, t, e) && Interrupted(t, e) && Single(t.before) && (Waits(t.before, Fd) || Waits(t.before, Time))
    ensures Waits(t.after, Fd) || Waits(t.after, Time)
  {
    hide LastOf, FirstOf;
    assert Woken(order, t.before, e) == DueSet(t.before, e.now);
    if Waits(t.before, Fd) {
      var u :| u in t.before && Fd in t.before[u].waitFor;
      assert t.after[u] == t.before[u];
    } else {
      var u :| u in t.before && Time in t.before[u].waitFor;
      assert t.after[u] == t.before[u];
    }
  }

  /** Turns go on behind an interrupted one. */
  lemma TurnsOn(order: seq<Thread>, m: map<Thread, Looks>, cand: Thread?, env: seq<Event>, ts: seq<Turn>, cand2: Thread?,
      ts2: seq<Turn>)
    requires TurnsAre(order, m, cand, env, ts) && ts != [] && Interrupted(ts[|ts| - 1], env[|ts| - 1])
    requires TurnsAre(order, LastState(m, ts), cand2, env[|ts|..], ts2) && FirstOf(order, Awake(LastState(m, ts)), cand2)
    ensures TurnsAre(order, m, cand, env, ts + ts2)
  {
    hide TurnIs, FirstOf, Interrupted, Awake;
    var all, n := ts + ts2, |ts|;
    forall k | 0 <= k < |all|
      ensures TurnIs(order, all[k], env[k])
    {
      if k >= n { assert TurnIs(order, ts2[k - n], env[n..][k - n]); }
    }
    forall k | 0 < k < |all|
      ensures Follows(order, all[k - 1], env[k - 1], all[k])
    {
      if k > n {
        assert Follows(order, ts2[k - n - 1], env[n..][k - n - 1], ts2[k - n]);
      } else if k < n {
        assert Follows(order, ts[k - 1], env[k - 1], ts[k]);
      }
    }
  }

  /** The scheduler starts over. */
  lemma ScheduledOn(order: seq<Thread>, before: map<Thread, Looks>, died: set<Thread>, env: seq<Event>,
      m: map<Thread, Looks>, cand: Thread?, ts: seq<Turn>, log2: Log, after: map<Thread, Looks>, r: Outcome, now: Thread)
    requires JoinsFirst(order, before, died, m, cand) && TurnsAre(order, m, cand, env, ts) && ts != []
    requires Single(m) && (Waits(m, Fd) || Waits(m, Time)) && Interrupted(ts[|ts| - 1], env[|ts| - 1])
    requires Scheduled(order, LastState(m, ts), {}, env[|ts|..], log2, after, r, now)
    ensures Scheduled(order, before, died, env, Log(m, cand, ts + log2.turns), after, r, now)
  {
    hide TurnIs, FirstOf, Interrupted, Awake, Follows;
    var mid, ts2 := LastState(m, ts), log2.turns;
    SameState(mid, log2.joined);
    NoneOf(order, mid, log2.cand);
    TurnsOn(order, m, cand, env, ts, log2.cand, ts2);
    var t, e := ts[|ts| - 1], env[|ts| - 1];
    TurnWaits(order, m, cand, env, ts, |ts| - 1);
    LastTurn(order, m, cand, env, ts);
    StillWaiting(order, t, e);
    assert ts2 != [] ==> (ts + ts2)[|ts + ts2| - 1] == ts2[|ts2| - 1];
    if ts2 != [] { assert env[|ts + ts2| - 1] == env[|ts|..][|ts2| - 1]; }
    assert ts2 == [] ==> ts + ts2 == ts;
  }

  lemma FirstFound(order: seq<Thread>, s: set<Thread>, t: Thread?, at: nat)
    requires if t == null then forall i :: 0 <= i < |order| ==> order[i] !in s
      else at < |order| && order[at] == t && t in s && forall i :: 0 <= i < at ==> order[i] !in s
    ensures FirstOf(order, s, t)
  {
  }

  lemma FirstOfNone(order: seq<Thread>)
    ensures FirstOf(order, {}, null)
  {
  }

  lemma JoinsCand(order: seq<Thread>, before: map<Thread, Looks>, died: set<Thread>, m: map<Thread, Looks>,
      cand: Thread?, next: Thread?)
    requires (forall t :: t in before ==> t in order) && WakesJust(before, m, died)
    requires FirstOf(order, Awake(before), cand)
    requires if cand != null then next == cand else FirstOf(order, died, next)
    ensures JoinsFirst(order, before, died, m, next)
  {
    hide WakesJust;
    if cand == null {
      forall t | t in before
        ensures t !in Awake(before)
      {
        var i :| 0 <= i < |order| && order[i] == t;
      }
      assert Awake(before) == {};
    } else {
      assert cand in Awake(before);
    }
  }

  lemma NoTurns(order: seq<Thread>, m: map<Thread, Looks>, cand: Thread?, env: seq<Event>)
    ensures TurnsAre(order, m, cand, env, [])
  {
  }

  lemma AddTurn(order: seq<Thread>, m: map<Thread, Looks>, cand: Thread?, env: seq<Event>, ts: seq<Turn>, t: Turn)
    requires TurnsAre(order, m, cand, env, ts) && |ts| < |env| && TurnIs(order, t, env[|ts|])
    requires t.before == LastState(m, ts) && t.cand == LastCand(cand, ts)
    requires ts != [] ==> Again(ts[|ts| - 1], env[|ts| - 1]) && !Interrupted(ts[|ts| - 1], env[|ts| - 1])
    ensures TurnsAre(order, m, cand, env, ts + [t])
  {
    hide TurnIs, Interrupted, Again;
  }

  /** Without anybody waiting for a descriptor nobody is served. */
  lemma NobodyServed(order: seq<Thread>, m: map<Thread, Looks>, ready: set<int>)
    requires !Waits(m, Fd)
    ensures Served(order, m, ready) == {}
  {
    hide Served;
    ServedWait(order, m, ready);
  }

  /** Whether `select` fails depends on what is known in front of it. */
  lemma TurnFails(b: map<Thread, Looks>, cand: Thread?, a: map<Thread, Looks>, next: Thread?, m: map<Thread, Looks>,
      mid: Thread?, e: Event)
    requires Waits(b, Fd) <==> Waits(m, Fd)
    requires if DueSet(b, e.now) != {} then mid != null else mid == cand
    ensures Interrupted(Turn(b, cand, a, next), e) <==> e.n < 0 && (Waits(m, Fd) || mid == null)
  {
    hide Waits, DueSet;
  }

  /** The scheduler comes to an end. */
  lemma ScheduledOnce(order: seq<Thread>, before: map<Thread, Looks>, died: set<Thread>, env: seq<Event>, l: Log,
      after: map<Thread, Looks>, r: Outcome, now: Thread)
    requires JoinsFirst(order, before, died, l.joined, l.cand) && TurnsAre(order, l.joined, l.cand, env, l.turns)
    requires l.turns != [] ==> Waits(l.joined, Fd) || Waits(l.joined, Time)
    requires LastState(l.joined, l.turns) == after
    requires (r.Blocked? <==> MoreTurns(l.joined, env, l.turns)) && (r.Blocked? ==> |l.turns| == |env|)
    requires r.Deadlock? ==> LastCand(l.cand, l.turns) == null && Awake(after) == {}
    requires r.Returned? || r.Switched? ==> LastCand(l.cand, l.turns) == now
    ensures Scheduled(order, before, died, env, l, after, r, now)
  {
    hide JoinsFirst, TurnsAre, Waits, MoreTurns;
  }

  lemma LastTurn(order: seq<Thread>, m: map<Thread, Looks>, cand: Thread?, env: seq<Event>, ts: seq<Turn>)
    requires TurnsAre(order, m, cand, env, ts) && ts != []
    ensures TurnIs(order, ts[|ts| - 1], env[|ts| - 1])
  {
    hide TurnIs, Follows;
  }

  lemma SameState(m: map<Thread, Looks>, m': map<Thread, Looks>)
    requires WakesJust(m, m', {})
    ensures m' == m
  {
    assert forall t :: t in m ==> m'[t] == m[t];
  }

  lemma NoneOf(order: seq<Thread>, m: map<Thread, Looks>, cand: Thread?)
    requires FirstOf(order, if Awake(m) != {} then Awake(m) else {}, cand)
    ensures FirstOf(order, Awake(m), cand)
  {
  }

  // ---- what ends a wait, over any sequence of calls

  /** What a call may end waits by: the threads it is told to make ready, those whose joined thread died, and the events. */
  datatype Cause = Cause(readied: set<Thread>, died: set<Thread>, env: seq<Event>)

  /** Every wait lasts through the call, or is over, or the call made the thread ready. */
  ghost predicate Explained(before: map<Thread, Looks>, after: map<Thread, Looks>, c: Cause) {
    forall t :: t in before && t in after && before[t].waitFor != {} && t !in c.readied ==>
      Goes(before[t], after[t], t in c.died, c.env)
  }

  lemma ExplainedBy(before: map<Thread, Looks>, mid: map<Thread, Looks>, after: map<Thread, Looks>, c: Cause)
    requires AllGo(mid, after, c.died, c.env)
    requires forall t :: t in before && t in after && before[t].waitFor != {} && t !in c.readied ==> t in mid && mid[t] == before[t]
    ensures Explained(before, after, c)
  {
  }

  lemma SelfExplained(m: map<Thread, Looks>, c: Cause)
    ensures Explained(m, m, c)
  {
  }

  /** More threads may count as bereaved. */
  lemma ExplainedMore(before: map<Thread, Looks>, after: map<Thread, Looks>, c: Cause, died: set<Thread>)
    requires Explained(before, after, c) && c.died <= died
    ensures Explained(before, after, c.(died := died))
  {
  }

  /** The scheduling states after each of a sequence of calls. */
  ghost predicate History(h: seq<map<Thread, Looks>>, cs: seq<Cause>) {
    |h| == |cs| + 1 && forall k :: 0 <= k < |cs| ==> ExplainedAt(h, cs, k)
  }

  ghost predicate ExplainedAt(h: seq<map<Thread, Looks>>, cs: seq<Cause>, k: nat)
    requires k < |cs| && k + 1 < |h|
  {
    Explained(h[k], h[k + 1], cs[k])
  }

  /** Call `k` ends the wait `b` of the thread: it was told to, or what the thread waited for has come. */
  ghost predicate Ends(cs: seq<Cause>, k: nat, t: Thread, b: Looks)
    requires k < |cs|
  {
    t in cs[k].readied || Over(b, t in cs[k].died, cs[k].env)
  }

  /** A wait lasts through any calls of which none ends it. */
  lemma {:induction false} WaitLasts(h: seq<map<Thread, Looks>>, cs: seq<Cause>, i: nat, j: nat, t: Thread)
    requires History(h, cs) && i <= j < |h| && forall k :: i <= k <= j ==> t in h[k]
    requires h[i][t].waitFor != {} && forall k :: i <= k < j ==> !Ends(cs, k, t, h[i][t])
    ensures h[j][t] == h[i][t]
    decreases j
  {
    if i < j {
      WaitLasts(h, cs, i, j - 1, t);
      assert ExplainedAt(h, cs, j - 1) && !Ends(cs, j - 1, t, h[i][t]);
    }
  }

  /**
   * A thread that waits for nothing any more, as the running thread does, was told to be ready by some call in between,
   * or what it waited for has come in some call in between.
   */
  lemma BackFromWait(h: seq<map<Thread, Looks>>, cs: seq<Cause>, i: nat, j: nat, t: Thread)
    requires History(h, cs) && i <= j < |h| && forall k :: i <= k <= j ==> t in h[k]
    requires h[i][t].waitFor != {} && h[j][t].waitFor == {}
    ensures exists k :: i <= k < j && Ends(cs, k, t, h[i][t])
  {
    if forall k :: i <= k < j ==> !Ends(cs, k, t, h[i][t]) {
      WaitLasts(h, cs, i, j, t);
    }
  }

  class Threads {
    var curr: Thread
    var main: Thread
    var numFd: int
    var numTimer: int
    var numJoin: int
    /** The threads of the ring, in the order of their `next` links. */
    ghost var ring: seq<Thread>
    /** What the scheduler did when it was called last and was not left at once. */
    ghost var log: Log

    /** The counters are those of the wait bits. */
    ghost predicate Counted(m: map<Thread, set<Wait>>)
      reads this`numFd, this`numTimer, this`numJoin
    {
      numFd == Count(m, Fd) && numTimer == Count(m, Time) && numJoin == Count(m, Join)
    }

    /** Counters, links and statuses of the ring agree. */
    ghost predicate RingInv()
      reads this`ring, this`numFd, this`numTimer, this`numJoin
      reads ring`next, ring`prev, ring`status, ring`waitFor, ring`join
    {
      && IsRing(ring) && StatusesOk(ring)
      && Counted(WaitMap(ring))
    }

    /** Between scheduler calls: the running thread is in the ring and waits for nothing. */
    ghost predicate Valid()
      reads this, ring
    {
      RingInv() && curr in ring && curr.waitFor == {}
    }

    /** The first `thread_alloc`: a ring of one thread. */
    constructor ()
      ensures Valid() && fresh(curr) && main == curr && ring == [curr] && curr.status == Runnable
    {
      var th := new Thread();
      th.prev := th;
      th.next := th;
      curr := th;
      main := th;
      numFd, numTimer, numJoin := 0, 0, 0;
      ring := [th];
      new;
      assert forall w :: WaitersIn(WaitMap(ring), w) == {};
    }

    /** `thread_ready`. */
    method Ready(th: Thread)
      requires RingInv() && (th in ring || th.waitFor == {})
      modifies this`numFd, this`numTimer, this`numJoin, th`waitFor, th`status
      ensures RingInv()
      ensures th.waitFor == {} && th.status == Runnable
      ensures WaitMap(ring) == if th in ring then old(WaitMap(ring))[th := {}] else old(WaitMap(ring))
    {
      hide IsRing, Count;
      ghost var m := WaitMap(ring);
      if th in ring { CountsChange(m, th, {}); }
      if Fd in th.waitFor { numFd := numFd - 1; }
      if Time in th.waitFor { numTimer := numTimer - 1; }
      if Join in th.waitFor { numJoin := numJoin - 1; }
      th.waitFor := {};
      th.status := Runnable;
      assert WaitMap(ring) == if th in ring then m[th := {}] else m;
    }

    /** Where a thread stands in the ring. */
    ghost function Position(c: Thread): (k: nat)
      requires c in ring
      reads this`ring
      ensures k < |ring| && ring[k] == c
    {
      var k :| 0 <= k < |ring| && ring[k] == c;
      k
    }

    /** The ring in the order in which a loop from `c` visits it: `c` comes last. */
    ghost function From(c: Thread): (r: seq<Thread>)
      requires c in ring
      reads this`ring
      ensures |r| == |ring|
    {
      RotateTo(ring, Position(c))
    }

    lemma FromRing(c: Thread)
      requires RingInv() && c in ring
      ensures IsRing(From(c)) && From(c)[|ring| - 1] == c && From(c)[0] == c.next
      ensures forall t :: t in From(c) <==> t in ring
      ensures forall i :: 0 <= i < |ring| ==> From(c)[i] in ring
    {
      hide StatusesOk, Counted, IsRing, RotateTo;
      RotatedIn(ring, Position(c));
    }

    /** The step of a loop from `c`: the successor is the next thread to visit, and `c` is reached at the end only. */
    lemma NextVisited(c: Thread, th: Thread, k: nat)
      requires RingInv() && c in ring && k < |ring|
      requires th == if k == 0 then c else From(c)[k - 1]
      ensures th.next == From(c)[k] && From(c)[k] in ring
      ensures From(c)[k] == c <==> k + 1 == |ring|
    {
      FromRing(c);
    }

    /** The first thread behind `c`, around the ring, that is not stopped. */
    ghost predicate IsFirst(c: Thread, t: Thread)
      requires c in ring
      reads this`ring, ring`status
    {
      exists k :: 0 <= k < |ring| && From(c)[k] == t && t in ring && t.status != Stopped
        && forall i :: 0 <= i < k ==> From(c)[i] in ring && From(c)[i].status == Stopped
    }

    lemma FirstUnique(c: Thread, t: Thread, u: Thread)
      requires c in ring && IsFirst(c, t) && IsFirst(c, u)
      ensures t == u
    {
      hide RotateTo;
    }

    /** The loop that looks for a thread to run, starting behind `c`. */
    method FirstRunnable(c: Thread) returns (next: Thread?)
      requires RingInv() && c in ring
      ensures next == null ==> AllStopped()
      ensures next != null ==> next in ring && next.status != Stopped && IsFirst(c, next)
      ensures FirstOf(From(c), Awake(Snapshot(ring)), next)
    {
      hide IsRing, Counted, RotateTo;
      ghost var r := From(c);
      FromRing(c);
      var th := c;
      ghost var k := 0;
      while true
        invariant 0 <= k < |ring|
        invariant th == if k == 0 then c else r[k - 1]
        invariant forall i :: 0 <= i < k ==> r[i].status == Stopped
        decreases |ring| - k
      {
        NextVisited(c, th, k);
        th := th.next;
        if th.status != Stopped && th.status != Killed { return th; }
        k := k + 1;
        if th == c { break; }
      }
      next := null;
    }

    /** Ends one wait of a ring thread: the bit, the counter, the status. */
    method Wake(th: Thread, w: Wait)
      requires RingInv() && th in ring && w in th.waitFor
      modifies this`numFd, this`numTimer, this`numJoin, th`waitFor, th`status
      ensures RingInv()
      ensures th.waitFor == {} && th.status == Runnable
      ensures w == Join ==> numFd == old(numFd) && numTimer == old(numTimer)
    {
      hide IsRing, Count;
      ghost var m := WaitMap(ring);
      assert StatusOk(th);
      CountsChange(m, th, {});
      th.status := Runnable;
      assert th.waitFor == {w};
      th.waitFor := th.waitFor - {w};
      assert th.waitFor == {};
      if w == Fd {
        numFd := numFd - 1;
      } else if w == Time {
        numTimer := numTimer - 1;
      } else {
        numJoin := numJoin - 1;
      }
      assert WaitMap(ring) == m[th := {}];
    }

    ghost predicate AllStopped()
      reads this`ring, ring`status
    {
      forall t :: t in ring ==> t.status == Stopped
    }

    /** `th` waits for a thread that has died. */
    ghost predicate JoinDone(th: Thread)
      reads th, th.join
    {
      Join in th.waitFor && th.join != null && th.join.status == Killed
    }

    /** The ring threads that wait for a thread that has died. */
    ghost function Bereaved(): set<Thread>
      reads this`ring, ring, set t | t in ring && t.join != null :: t.join
    {
      set t | t in ring && JoinDone(t)
    }

    lemma AliveInRing()
      requires RingInv()
      ensures forall t :: t in ring ==> t.status != Killed
    {
      assert forall t :: t in ring ==> StatusOk(t);
    }

    /** One turn of the loop over threads that wait for the end of another. */
    method JoinStep(th: Thread, next0: Thread?, ghost before: map<Thread, Looks>, ghost done: set<Thread>)
      returns (next: Thread?)
      requires RingInv() && th in ring && JoinAhead(th, before, done)
      modifies this`numFd, this`numTimer, this`numJoin, th`waitFor, th`status, th`join
      ensures RingInv()
      ensures numFd == old(numFd) && numTimer == old(numTimer)
      ensures JoinOutcome(th, before, done)
      ensures next == if next0 == null && th in done then th else next0
      ensures forall t :: t in ring && t != th && old(JoinAhead(t, before, done)) ==> JoinAhead(t, before, done)
    {
      hide IsRing, Counted;
      next := next0;
      AliveInRing();
      assert StatusOk(th);
      if Join in th.waitFor && th.join.status == Killed {
        Wake(th, Join);
        th.join := null;
        if next == null { next := th; }
      }
    }

    /** The loop over threads that wait for the end of another. */
    method JoinPass(c: Thread, next0: Thread?) returns (next: Thread?)
      requires RingInv() && c in ring && (next0 != null ==> next0 in ring && next0.status != Stopped)
      requires next0 == null ==> AllStopped()
      modifies this`numFd, this`numTimer, this`numJoin, ring`waitFor, ring`status, ring`join
      ensures RingInv() && numFd == old(numFd) && numTimer == old(numTimer)
      ensures next != null ==> next in ring && next.status != Stopped
      ensures next0 != null ==> next == next0
      ensures next == null ==> AllStopped()
      ensures next0 == null ==> FirstOf(From(c), old(Bereaved()), next)
      ensures forall t :: t in ring && old(JoinDone(t)) ==> t.status == Runnable && t.waitFor == {}
      ensures forall t :: t in ring && !old(JoinDone(t)) ==> Look(t) == old(Look(t))
    {
      hide RingInv, From, FirstOf;
      ghost var before, done := Snapshot(ring), set t | t in ring && JoinDone(t);
      next := JoinLoop(c, next0, before, done);
      assert done == old(Bereaved());
      forall t | t in ring
        ensures JoinOutcome(t, before, done)
      {
      }
    }

    /** What the pass makes of a thread. */
    ghost predicate JoinOutcome(t: Thread, before: map<Thread, Looks>, done: set<Thread>)
      reads t
    {
      if t in done then t.status == Runnable && t.waitFor == {} else t in before && Look(t) == before[t]
    }

    /** What a thread is like before the pass reaches it. */
    ghost predicate JoinAhead(t: Thread, before: map<Thread, Looks>, done: set<Thread>)
      reads t, t.join
    {
      t in before && Look(t) == before[t] && (JoinDone(t) <==> t in done)
    }

    method JoinLoop(c: Thread, next0: Thread?, ghost before: map<Thread, Looks>, ghost done: set<Thread>)
      returns (next: Thread?)
      requires RingInv() && c in ring
      requires forall t :: t in ring ==> JoinAhead(t, before, done)
      modifies this`numFd, this`numTimer, this`numJoin, ring`waitFor, ring`status, ring`join
      ensures RingInv() && numFd == old(numFd) && numTimer == old(numTimer)
      ensures next == next0 || (next in done && next in ring)
      ensures next0 != null ==> next == next0
      ensures next == null ==> forall t :: t in ring ==> t !in done
      ensures next0 == null ==> FirstOf(From(c), done, next)
      ensures forall t :: t in ring ==> JoinOutcome(t, before, done)
    {
      hide RingInv, RotateTo, IsRing, JoinAhead, JoinOutcome;
      next := next0;
      ghost var r := From(c);
      FromRing(c);
      var th := c;
      ghost var k, at := 0, 0;
      while true
        invariant 0 <= k < |r| == |ring|
        invariant th == if k == 0 then c else r[k - 1]
        invariant RingInv() && numFd == old(numFd) && numTimer == old(numTimer)
        invariant next == next0 || (next in done && next in ring)
        invariant next0 == null && next != null ==> at < k && next == r[at] && forall i :: 0 <= i < at ==> r[i] !in done
        invariant next0 != null ==> next == next0
        invariant next == null ==> forall i :: 0 <= i < k ==> r[i] !in done
        invariant forall i :: 0 <= i < k ==> JoinOutcome(r[i], before, done)
        invariant forall i :: k <= i < |r| ==> JoinAhead(r[i], before, done)
        decreases |ring| - k
      {
        NextVisited(c, th, k);
        th := th.next;
        Distinct(r, k);
        if next == null { at := k; }
        next := JoinStep(th, next, before, done);
        k := k + 1;
        if th == c { break; }
      }
    }

    /** What the loop over sleeping threads makes of a thread. */
    ghost predicate TimerOutcome(t: Thread, before: map<Thread, Looks>, now: real)
      reads t
    {
      t in before && if Due(before[t], now) then t.status == Runnable && t.waitFor == {} else Look(t) == before[t]
    }

    ghost predicate Ahead(t: Thread, before: map<Thread, Looks>)
      reads t
    {
      t in before && Look(t) == before[t]
    }

    /** A sleeping thread that stays asleep wakes up no earlier than the noted time. */
    ghost predicate Noted(t: Thread, now: real, delay: real)
      reads t
    {
      Time in t.waitFor ==> t.delay > now && (t.delay < DELAY_INFTY ==> delay <= t.delay)
    }

    /** One turn of the loop over sleeping threads. */
    method TimerStep(th: Thread, next0: Thread?, delay0: real, now: real, ghost before: map<Thread, Looks>)
      returns (next: Thread?, delay: real)
      requires RingInv() && th in ring && Ahead(th, before) && delay0 <= DELAY_INFTY
      modifies this`numFd, this`numTimer, this`numJoin, th`waitFor, th`status, th`delay
      ensures RingInv()
      ensures TimerOutcome(th, before, now) && Noted(th, now, delay) && delay <= delay0
      ensures forall t :: t in ring && t != th && old(Noted(t, now, delay0)) ==> Noted(t, now, delay)
      ensures next == if Due(before[th], now) then th else next0
      ensures delay == delay0 || (Time in th.waitFor && th.delay == delay)
    {
      next, delay := next0, delay0;
      if Time in th.waitFor {
        if th.delay <= now {
          th.delay := 0.0;
          Wake(th, Time);
          next := th;
        } else if th.delay < delay {
          delay := th.delay;
        }
      }
    }

    /**
     * The loop over sleeping threads: those whose time has come run, the last of them next; and the earliest other
     * time, that of `who`, is noted.
     */
    method TimerPass(c: Thread, next0: Thread?, now: real) returns (next: Thread?, delay: real, ghost who: Thread?)
      requires RingInv() && c in ring
      modifies this`numFd, this`numTimer, this`numJoin, ring`waitFor, ring`status, ring`delay
      ensures RingInv()
      ensures next == next0 || (next in ring && Due(old(Snapshot(ring))[next], now))
      ensures next == null ==> forall t :: t in ring ==> !Due(old(Snapshot(ring))[t], now)
      ensures forall t :: t in ring ==> TimerOutcome(t, old(Snapshot(ring)), now) && Noted(t, now, delay)
      ensures delay == DELAY_INFTY || (who != null && who in ring && Time in who.waitFor && who.delay == delay)
      ensures delay <= DELAY_INFTY
      ensures var due := DueSet(old(Snapshot(ring)), now); if due != {} then LastOf(From(c), due, next) else next == next0
    {
      ghost var before := Snapshot(ring);
      AllAhead(before);
      ghost var at;
      next, delay, who, at := TimerLoop(c, next0, now, before);
      FromRing(c);
      LastDue(From(c), before, now, next0, next, at);
    }

    method TimerLoop(c: Thread, next0: Thread?, now: real, ghost before: map<Thread, Looks>)
      returns (next: Thread?, delay: real, ghost who: Thread?, ghost last: int)
      requires RingInv() && c in ring && forall t :: t in ring ==> t in before && Ahead(t, before)
      modifies this`numFd, this`numTimer, this`numJoin, ring`waitFor, ring`status, ring`delay
      ensures RingInv()
      ensures next == next0 || (next in ring && next in before && Due(before[next], now))
      ensures next == null ==> forall t :: t in ring && t in before ==> !Due(before[t], now)
      ensures forall t :: t in ring ==> TimerOutcome(t, before, now) && Noted(t, now, delay)
      ensures delay == DELAY_INFTY || (who != null && who in ring && Time in who.waitFor && who.delay == delay)
      ensures delay <= DELAY_INFTY && -1 <= last < |ring|
      ensures if last == -1 then next == next0 else next == From(c)[last] && next in before && Due(before[next], now)
      ensures forall i :: last < i < |ring| ==> From(c)[i] in before && !Due(before[From(c)[i]], now)
    {
      hide RingInv, RotateTo, IsRing, Look, Due, TimerOutcome, Ahead, Noted;
      next, delay, who, last := next0, DELAY_INFTY, null, -1;
      ghost var r := From(c);
      FromRing(c);
      var th := c;
      ghost var k, at := 0, 0;
      while true
        invariant 0 <= k < |r| == |ring| && delay <= DELAY_INFTY
        invariant th == if k == 0 then c else r[k - 1]
        invariant RingInv()
        invariant -1 <= last < k
        invariant if last == -1 then next == next0 else next == r[last] && next in before && Due(before[next], now)
        invariant forall i :: last < i < k ==> r[i] in before && !Due(before[r[i]], now)
        invariant forall i :: 0 <= i < k ==> TimerOutcome(r[i], before, now) && Noted(r[i], now, delay)
        invariant forall i :: k <= i < |r| ==> Ahead(r[i], before)
        invariant delay == DELAY_INFTY || (0 <= at < k && who == r[at] && Time in who.waitFor && who.delay == delay)
        decreases |ring| - k
      {
        NextVisited(c, th, k);
        th := th.next;
        Distinct(r, k);
        ghost var d := delay;
        if Due(before[th], now) { last := k; }
        next, delay := TimerStep(th, next, delay, now, before);
        if delay != d { who := th; at := k; }
        k := k + 1;
        if th == c { break; }
      }
    }

    lemma AllAhead(before: map<Thread, Looks>)
      requires before == Snapshot(ring)
      ensures forall t :: t in ring ==> Ahead(t, before)
    {
    }

    lemma Distinct(r: seq<Thread>, k: nat)
      requires IsRing(r) && k < |r|
      ensures forall i :: 0 <= i < |r| && i != k ==> r[i] != r[k]
    {
    }

    /** The thread waits for a descriptor that is ready, and no thread visited before it waits for the same one. */
    ghost predicate Chosen(r: seq<Thread>, i: nat, before: map<Thread, Looks>, ready: set<int>)
      requires i < |r| && forall j :: 0 <= j < |r| ==> r[j] in before
    {
      && Fd in before[r[i]].waitFor && before[r[i]].fd in ready
      && forall j :: 0 <= j < i ==> !(Fd in before[r[j]].waitFor && before[r[j]].fd == before[r[i]].fd)
    }

    ghost predicate FdOutcome(t: Thread, b: Looks, chosen: bool)
      reads t
    {
      if chosen then t.status == Runnable && t.waitFor == {} else Look(t) == b
    }

    /** One turn of the loop over threads that wait for a descriptor. */
    method FdStep(th: Thread, next0: Thread?, readfds0: set<int>, ghost before: map<Thread, Looks>)
      returns (next: Thread?, readfds: set<int>)
      requires RingInv() && th in ring && Ahead(th, before)
      modifies this`numFd, this`numTimer, this`numJoin, th`waitFor, th`status, th`fd
      ensures RingInv()
      ensures var b := before[th]; var chosen := Fd in b.waitFor && b.fd in readfds0;
        && FdOutcome(th, b, chosen)
        && next == (if chosen && next0 == null then th else next0)
        && readfds == if chosen then readfds0 - {b.fd} else readfds0
    {
      next, readfds := next0, readfds0;
      if Fd in th.waitFor && th.fd in readfds {
        readfds := readfds - {th.fd};
        Wake(th, Fd);
        th.fd := 0;
        if next == null { next := th; }
      }
    }

    /** The loop over threads that wait for a descriptor: the first waiter of each ready descriptor runs. */
    method FdPass(c: Thread, next0: Thread?, ready: set<int>) returns (next: Thread?)
      requires RingInv() && c in ring
      modifies this`numFd, this`numTimer, this`numJoin, ring`waitFor, ring`status, ring`fd
      ensures RingInv()
      ensures WakesJust(old(Snapshot(ring)), Snapshot(ring), Served(From(c), old(Snapshot(ring)), ready))
      ensures next0 != null ==> next == next0
      ensures next0 == null ==> FirstOf(From(c), ReadySet(old(Snapshot(ring)), ready), next)
    {
      hide RingInv, WakesJust, FirstOf, Served, ReadySet, RotateTo, Snapshot, Look, FdOutcome, Chosen, IsRing;
      ghost var before := Snapshot(ring);
      SnapshotIs();
      AllAhead(before);
      FromRing(c);
      next := FdLoop(c, next0, ready, before);
      SnapshotIs();
      FdSummary(c, before, ready);
    }

    lemma FdSummary(c: Thread, before: map<Thread, Looks>, ready: set<int>)
      requires RingInv() && c in ring && before.Keys == Snapshot(ring).Keys
      requires forall i :: 0 <= i < |ring| ==> From(c)[i] in before
      requires forall i :: 0 <= i < |ring| ==> FdOutcome(From(c)[i], before[From(c)[i]], Chosen(From(c), i, before, ready))
      ensures WakesJust(before, Snapshot(ring), Served(From(c), before, ready))
    {
      hide RingInv, RotateTo, FdOutcome, Chosen, Served, Look;
      FromRing(c);
      var r := From(c);
      forall t | t in ring
        ensures FdOutcome(t, before[t], t in Served(r, before, ready))
      {
        assert t in r;
        var i :| 0 <= i < |r| && r[i] == t;
        Distinct(r, i);
        ChosenIsServed(r, i, before, ready);
      }
      Outcomes(before, Served(r, before, ready));
    }

    lemma Outcomes(before: map<Thread, Looks>, s: set<Thread>)
      requires before.Keys == Snapshot(ring).Keys && forall t :: t in ring ==> t in before && FdOutcome(t, before[t], t in s)
      ensures WakesJust(before, Snapshot(ring), s)
    {
    }

    lemma ChosenIsServed(r: seq<Thread>, i: nat, before: map<Thread, Looks>, ready: set<int>)
      requires i < |r| && (forall j :: 0 <= j < |r| ==> r[j] in before) && forall j :: 0 <= j < |r| && j != i ==> r[j] != r[i]
      ensures r[i] in Served(r, before, ready) <==> Chosen(r, i, before, ready)
    {
    }

    method FdLoop(c: Thread, next0: Thread?, ready: set<int>, ghost before: map<Thread, Looks>)
      returns (next: Thread?)
      requires RingInv() && c in ring && forall t :: t in ring ==> Ahead(t, before)
      requires forall i :: 0 <= i < |ring| ==> From(c)[i] in before
      modifies this`numFd, this`numTimer, this`numJoin, ring`waitFor, ring`status, ring`fd
      ensures RingInv()
      ensures forall i :: 0 <= i < |ring| ==> FdOutcome(From(c)[i], before[From(c)[i]], Chosen(From(c), i, before, ready))
      ensures next0 != null ==> next == next0
      ensures next0 == null ==> FirstOf(From(c), ReadySet(before, ready), next)
    {
      hide RingInv, RotateTo, IsRing, Look, FdOutcome, Ahead, Chosen, WaitsOn, FirstOf;
      next := next0;
      ghost var r := From(c);
      FromRing(c);
      var readfds := ready;
      var th := c;
      ghost var k, at := 0, 0;
      while true
        invariant 0 <= k < |r| == |ring|
        invariant th == if k == 0 then c else r[k - 1]
        invariant RingInv()
        invariant Remaining(r, k, before, ready, readfds)
        invariant forall i :: 0 <= i < k ==> FdOutcome(r[i], before[r[i]], Chosen(r, i, before, ready))
        invariant forall i :: k <= i < |r| ==> Ahead(r[i], before)
        invariant next0 != null ==> next == next0
        invariant next == null ==> readfds == ready && forall i :: 0 <= i < k ==> r[i] !in ReadySet(before, ready)
        invariant next0 == null && next != null ==> at < k && r[at] == next && next in ReadySet(before, ready)
        invariant next0 == null && next != null ==> forall i :: 0 <= i < at ==> r[i] !in ReadySet(before, ready)
        decreases |ring| - k
      {
        NextVisited(c, th, k);
        th := th.next;
        Distinct(r, k);
        ChosenIff(r, k, before, ready, readfds);
        ghost var fds := readfds;
        if next == null { at := k; }
        assert Chosen(r, k, before, ready) && next == null ==> r[k] in ReadySet(before, ready);
        next, readfds := FdStep(th, next, readfds, before);
        RemainingStep(r, k, before, ready, fds, readfds);
        k := k + 1;
        if th == c { break; }
      }
      if next0 == null { FirstFound(r, ReadySet(before, ready), next, at); }
    }

    /** The descriptors no thread visited so far was chosen for. */
    ghost predicate Remaining(r: seq<Thread>, k: nat, before: map<Thread, Looks>, ready: set<int>, readfds: set<int>)
      requires k <= |r| && forall j :: 0 <= j < |r| ==> r[j] in before
    {
      forall f :: f in readfds <==> f in ready && !exists j :: 0 <= j < k && WaitsOn(before[r[j]], f)
    }

    lemma RemainingStep(r: seq<Thread>, k: nat, before: map<Thread, Looks>, ready: set<int>, fds: set<int>, fds': set<int>)
      requires k < |r| && (forall j :: 0 <= j < |r| ==> r[j] in before) && Remaining(r, k, before, ready, fds)
      requires fds' == if Fd in before[r[k]].waitFor && before[r[k]].fd in fds then fds - {before[r[k]].fd} else fds
      ensures Remaining(r, k + 1, before, ready, fds')
    {
      forall f
        ensures f in fds' <==> f in ready && !exists j :: 0 <= j < k + 1 && WaitsOn(before[r[j]], f)
      {
        if WaitsOn(before[r[k]], f) {
          assert f !in fds';
        } else if exists j :: 0 <= j < k + 1 && WaitsOn(before[r[j]], f) {
          var j :| 0 <= j < k + 1 && WaitsOn(before[r[j]], f);
          assert j < k;
        }
      }
    }

    lemma ChosenIff(r: seq<Thread>, k: nat, before: map<Thread, Looks>, ready: set<int>, readfds: set<int>)
      requires k < |r| && forall j :: 0 <= j < |r| ==> r[j] in before
      requires Remaining(r, k, before, ready, readfds)
      ensures Chosen(r, k, before, ready) <==> Fd in before[r[k]].waitFor && before[r[k]].fd in readfds
    {
      assert forall j :: 0 <= j < k ==>
        (WaitsOn(before[r[j]], before[r[k]].fd) <==> Fd in before[r[j]].waitFor && before[r[j]].fd == before[r[k]].fd);
    }

    /** The state in which the scheduler may be called: the running thread is in the ring, or was just taken out of it. */
    ghost predicate MaySchedule()
      reads this, ring, curr
    {
      RingInv() && (curr in ring || (curr.status == Killed && curr.prev in ring && curr.next in ring))
    }

    /** Where the scheduler begins to look: at the running thread, or at the one before it if it has left the ring. */
    ghost function Start(): (c: Thread)
      requires MaySchedule()
      reads this, ring, curr
      ensures c in ring && (curr in ring ==> c == curr)
    {
      if curr in ring then curr else curr.prev
    }

    /** The first loop of `thread_schedule`: from a killed thread back to one of the ring. */
    method StartingThread() returns (c: Thread)
      requires MaySchedule()
      ensures c in ring && (curr in ring ==> c == curr) && c == Start()
    {
      hide IsRing, Counted;
      assert forall t :: t in ring ==> StatusOk(t);
      c := curr;
      while c.status == Killed
        invariant c == curr || (c in ring && c == curr.prev)
        invariant curr in ring ==> c == curr
        decreases if c in ring then 0 else 1
      {
        c := c.prev;
      }
    }

    /** What the passes rely on and keep: the candidate can run, and without one nobody can. */
    ghost predicate CandidateOk(next: Thread?)
      reads this`ring, ring`status
    {
      (next != null ==> next in ring && next.status != Stopped) && (next == null ==> AllStopped())
    }

    /** Nobody waits for a thread that has died. */
    ghost predicate JoinsServed()
      reads this`ring, ring`waitFor, ring`join, set t | t in ring && t.join != null :: t.join`status
    {
      forall t :: t in ring && Join in t.waitFor && t.join != null ==> t.join.status != Killed
    }

    /** The test and the loop for threads that wait for the end of another. */
    method JoinTurn(c: Thread, next0: Thread?) returns (next: Thread?)
      requires RingInv() && c in ring && CandidateOk(next0)
      modifies this`numFd, this`numTimer, this`numJoin, ring`waitFor, ring`status, ring`join
      ensures RingInv() && CandidateOk(next) && JoinsServed()
      ensures numFd == old(numFd) && numTimer == old(numTimer) && (next0 != null ==> next == next0)
      ensures AllGo(old(Snapshot(ring)), Snapshot(ring), old(Bereaved()), [])
      ensures WakesJust(old(Snapshot(ring)), Snapshot(ring), old(Bereaved()))
      ensures next0 == null ==> FirstOf(From(c), old(Bereaved()), next)
    {
      hide IsRing, Counted, FirstOf;
      assert next0 != null ==> StatusOk(next0);
      next := next0;
      if numJoin != 0 {
        next := JoinPass(c, next0);
        AliveInRing();
      } else {
        NoJoiners();
        NobodyBereaved();
        FirstOfNone(From(c));
      }
    }

    method TimerTurn(c: Thread, next0: Thread?, e: Event) returns (next: Thread?, delay: real)
      requires RingInv() && c in ring && CandidateOk(next0)
      modifies this`numFd, this`numTimer, this`numJoin, ring`waitFor, ring`status, ring`delay
      ensures RingInv() && CandidateOk(next) && (old(JoinsServed()) ==> JoinsServed())
      ensures AllGo(old(Snapshot(ring)), Snapshot(ring), {}, [e])
      ensures WakesJust(old(Snapshot(ring)), Snapshot(ring), DueSet(old(Snapshot(ring)), e.now))
      ensures var due := DueSet(old(Snapshot(ring)), e.now); if due != {} then LastOf(From(c), due, next) else next == next0
      ensures delay != DELAY_INFTY <==> Sleeper(Snapshot(ring))
    {
      hide IsRing, Counted, Snapshot, AllGo, WakesJust, LastOf, DueSet, Sleeper;
      ghost var before := Snapshot(ring);
      ghost var who;
      SnapshotIs();
      next, delay, who := TimerPass(c, next0, e.now);
      SnapshotIs();
      SleeperNoted(e.now, delay, who);
      AliveInRing();
      if old(JoinsServed()) { StillServed(); }
      TimerGoes(before, e);
      TimerCandidate(before, next0, next, e.now);
    }

    lemma SleeperNoted(now: real, delay: real, who: Thread?)
      requires (forall t :: t in ring ==> Noted(t, now, delay)) && delay <= DELAY_INFTY
      requires delay == DELAY_INFTY || (who != null && who in ring && Time in who.waitFor && who.delay == delay)
      ensures delay != DELAY_INFTY <==> Sleeper(Snapshot(ring))
    {
      if delay != DELAY_INFTY { assert who in Snapshot(ring); }
    }

    lemma TimerGoes(before: map<Thread, Looks>, e: Event)
      requires before.Keys == Snapshot(ring).Keys && forall t :: t in ring ==> TimerOutcome(t, before, e.now)
      ensures AllGo(before, Snapshot(ring), {}, [e]) && WakesJust(before, Snapshot(ring), DueSet(before, e.now))
    {
      DueIsOver(before, e);
    }

    /** Whoever could run before still can, and whoever is due can too. */
    lemma TimerCandidate(before: map<Thread, Looks>, next0: Thread?, next: Thread?, now: real)
      requires forall t :: t in ring ==> t in before && TimerOutcome(t, before, now)
      requires next0 != null ==> next0 in ring && before[next0].status != Stopped
      requires next0 == null ==> forall t :: t in ring ==> before[t].status == Stopped
      requires next == next0 || (next in ring && Due(before[next], now))
      requires next == null ==> forall t :: t in ring ==> !Due(before[t], now)
      ensures CandidateOk(next)
    {
      hide Due;
      if next == null {
        forall t | t in ring
          ensures t.status == Stopped
        {
          assert TimerOutcome(t, before, now) && Look(t) == before[t];
        }
      } else {
        assert TimerOutcome(next, before, now);
      }
    }

    /** A pass after which every thread is as before or waits for nothing leaves nobody bereaved. */
    twostate lemma StillServed()
      requires ring == old(ring) && old(JoinsServed())
      requires forall t :: t in ring ==> Look(t) == old(Look(t)) || t.waitFor == {}
      requires forall t :: t in ring ==> t.status != Killed
      requires forall t :: t in ring && old(t.join) != null && old(t.join) !in ring ==> old(t.join).status == old(t.join.status)
      ensures JoinsServed()
    {
    }

    lemma DueIsOver(before: map<Thread, Looks>, e: Event)
      ensures forall t :: t in before && Due(before[t], e.now) ==> Over(before[t], false, [e])
    {
      assert e in [e];
    }

    method FdTurn(c: Thread, next0: Thread?, e: Event) returns (next: Thread?)
      requires RingInv() && c in ring && CandidateOk(next0) && e.n > 0
      modifies this`numFd, this`numTimer, this`numJoin, ring`waitFor, ring`status, ring`fd
      ensures RingInv() && CandidateOk(next) && (old(JoinsServed()) ==> JoinsServed())
      ensures AllGo(old(Snapshot(ring)), Snapshot(ring), {}, [e])
      ensures WakesJust(old(Snapshot(ring)), Snapshot(ring), Served(From(c), old(Snapshot(ring)), e.ready))
      ensures if next0 != null then next == next0 else FirstOf(From(c), ReadySet(old(Snapshot(ring)), e.ready), next)
    {
      hide IsRing, Counted, Served, WakesJust, AllGo, FirstOf, ReadySet, CandidateOk, Snapshot, Awake;
      ghost var before := Snapshot(ring);
      SnapshotIs();
      CandidateIs(next0);
      next := FdPass(c, next0, e.ready);
      SnapshotIs();
      AliveInRing();
      FromRing(c);
      ServedGo(From(c), before, Snapshot(ring), e);
      FdCandidate(From(c), before, Snapshot(ring), e.ready, next0, next);
      CandidateIs(next);
      if old(JoinsServed()) { StillServed(); }
    }

    /** The candidate in terms of the state of the threads. */
    lemma CandidateIs(next: Thread?)
      ensures CandidateOk(next) <==> if next == null then Awake(Snapshot(ring)) == {} else next in Awake(Snapshot(ring))
    {
      if next == null && CandidateOk(next) {
        assert Awake(Snapshot(ring)) == {};
      } else if next == null && Awake(Snapshot(ring)) == {} {
        forall t | t in ring
          ensures t.status == Stopped
        {
          assert t !in Awake(Snapshot(ring));
        }
      }
    }

    /** The body of the loop that looks at clocks and descriptors: both passes with the `select` between them. */
    method OneTurn(c: Thread, next0: Thread?, e: Event) returns (next: Thread?, delay: real, failed: bool)
      requires RingInv() && c in ring && CandidateOk(next0) && JoinsServed()
      modifies this`numFd, this`numTimer, this`numJoin, ring`waitFor, ring`status, ring`delay, ring`fd
      ensures RingInv() && CandidateOk(next) && JoinsServed()
      ensures AllGo(old(Snapshot(ring)), Snapshot(ring), {}, [e])
      ensures var t := Turn(old(Snapshot(ring)), next0, Snapshot(ring), next);
        TurnIs(From(c), t, e) && (failed <==> Interrupted(t, e)) && (delay != DELAY_INFTY <==> Sleeper(t.after))
    {
      hide RingInv, IsRing, CandidateOk, JoinsServed, AllGo, Snapshot, WakesJust, FirstOf, Served, Sleeper, Waits, Single,
        TurnIs, Interrupted, From, DueSet, ReadySet;
      ghost var before := Snapshot(ring);
      next, delay, failed := next0, DELAY_INFTY, false;
      NoneGone(before, {}, [e]);
      CountersTell(e.now);
      if numTimer > 0 {
        next, delay := TimerTurn(c, next, e);
      }
      ghost var mid, cand := Snapshot(ring), next;
      CountersTell(e.now);
      if numFd > 0 || next == null {
        if e.n < 0 {
          failed := true;
        } else if e.n > 0 {
          NoneGone(mid, {}, [e]);
          next := FdTurn(c, next, e);
          AllGoOn(before, mid, Snapshot(ring), {}, [e], [e], [e]);
        }
      } else {
        NobodyServed(From(c), mid, e.ready);
      }
      TurnParts(From(c), before, mid, Snapshot(ring), e, next0, cand, next);
      TurnFails(before, next0, Snapshot(ring), next, mid, cand, e);
    }

    /** The counters tell whether anybody waits; and nobody waits for two things. */
    lemma CountersTell(now: real)
      requires RingInv()
      ensures Single(Snapshot(ring))
      ensures (numFd > 0 <==> Waits(Snapshot(ring), Fd)) && (numTimer > 0 <==> Waits(Snapshot(ring), Time))
      ensures numTimer <= 0 ==> DueSet(Snapshot(ring), now) == {} && !Sleeper(Snapshot(ring))
      ensures WakesJust(Snapshot(ring), Snapshot(ring), {})
    {
      hide IsRing;
      assert forall t :: t in ring ==> StatusOk(t);
      CountTells(Fd);
      CountTells(Time);
    }

    lemma CountTells(w: Wait)
      ensures Count(WaitMap(ring), w) > 0 <==> Waits(Snapshot(ring), w)
    {
      var s := Waiters(ring, w);
      if |s| > 0 {
        var t :| t in s;
        assert t in Snapshot(ring);
      }
      if Waits(Snapshot(ring), w) {
        var t :| t in Snapshot(ring) && w in Snapshot(ring)[t].waitFor;
        assert t in s;
      }
    }

    /**
     * The part of `thread_schedule` that looks at clocks and descriptors, one recorded event per turn of its loop.
     * It ends with a decision, or to start over after an interrupted `select`, or out of events.
     */
    method AwaitEvents(c: Thread, next0: Thread?, env: seq<Event>)
      returns (next: Thread?, used: nat, end: End, ghost ts: seq<Turn>)
      requires RingInv() && c in ring && CandidateOk(next0) && JoinsServed()
      modifies this`numFd, this`numTimer, this`numJoin, ring`waitFor, ring`status, ring`delay, ring`fd
      ensures RingInv() && CandidateOk(next) && JoinsServed()
      ensures used == |ts| <= |env| && (end.Decided? || end.StartOver? ==> used > 0)
      ensures AllGo(old(Snapshot(ring)), Snapshot(ring), {}, env[..used])
      ensures TurnsAre(From(c), old(Snapshot(ring)), next0, env, ts)
      ensures LastState(old(Snapshot(ring)), ts) == Snapshot(ring) && LastCand(next0, ts) == next
      ensures end.Decided? ==> !Again(ts[used - 1], env[used - 1])
      ensures end.StartOver? ==> Interrupted(ts[used - 1], env[used - 1])
      ensures end.OutOfEvents? ==> used == |env| && (used > 0 ==> Again(ts[used - 1], env[used - 1]))
    {
      hide RingInv, IsRing, CandidateOk, JoinsServed, AllGo, Snapshot, TurnIs, TurnsAre, Interrupted, From, Sleeper;
      next, used, end, ts := next0, 0, OutOfEvents, [];
      ghost var before := Snapshot(ring);
      NoneGone(before, {}, []);
      NoTurns(From(c), before, next0, env);
      while used < |env|
        invariant used == |ts| <= |env| && end == OutOfEvents
        invariant RingInv() && CandidateOk(next) && JoinsServed()
        invariant AllGo(before, Snapshot(ring), {}, env[..used])
        invariant TurnsAre(From(c), before, next0, env, ts)
        invariant LastState(before, ts) == Snapshot(ring) && LastCand(next0, ts) == next
        invariant used > 0 ==> Again(ts[used - 1], env[used - 1]) && !Interrupted(ts[used - 1], env[used - 1])
        decreases |env| - used
      {
        var e := env[used];
        ghost var mid, cand := Snapshot(ring), next;
        var delay, failed;
        next, delay, failed := OneTurn(c, next, e);
        ghost var t := Turn(mid, cand, Snapshot(ring), next);
        AddTurn(From(c), before, next0, env, ts, t);
        used, ts := used + 1, ts + [t];
        AllGoOn(before, mid, Snapshot(ring), {}, env[..used - 1], [e], env[..used]);
        if failed {
          end := StartOver;
          return;
        }
        if !(next == null && delay != DELAY_INFTY) {
          end := Decided;
          return;
        }
      }
    }

    /** `thread_schedule`. */
    method Schedule(env: seq<Event>) returns (r: Outcome)
      requires MaySchedule()
      modifies this, ring`waitFor, ring`status, ring`join, ring`delay, ring`fd
      ensures RingInv() && ring == old(ring) && main == old(main)
      ensures r == Returned ==> curr == old(curr) && curr in ring
      ensures (r == Returned && |ring| > 1) || r == Switched ==> Valid() && curr.status != Stopped
      ensures |ring| == 1 && old(curr) in ring ==>
        r == Returned && Look(curr) == old(Look(curr)) && Snapshot(ring) == old(Snapshot(ring))
      ensures r == Deadlock ==> AllStopped()
      ensures |ring| > 1 || old(curr) !in ring ==> JoinsServed()
      ensures |ring| > 1 || old(curr) !in ring ==>
        Scheduled(old(From(Start())), old(Snapshot(ring)), old(Bereaved()), env, log, Snapshot(ring), r, curr)
      ensures AllGo(old(Snapshot(ring)), Snapshot(ring), old(Bereaved()), env)
      ensures old(numFd) == old(numTimer) == 0 && |ring| > 1 && old(curr) in ring ==>
        forall t :: t in ring && old(IsFirst(curr, t)) ==> curr == t && (r == Returned || r == Switched)
      decreases |env|
    {
      hide RingInv, IsRing, CandidateOk, JoinsServed, AllGo, Snapshot, Bereaved, IsFirst, AllStopped, Scheduled, JoinsFirst,
        TurnsAre, Interrupted, MoreTurns, From, Single, Waits, Start, LastState, LastCand, Look, FirstOf, Awake;
      LoneThread();
      ghost var before, died := Snapshot(ring), Bereaved();
      if curr == curr.next {
        NoneGone(before, died, env);
        return Returned;
      }
      var c, next, used, end;
      ghost var l;
      c, next, used, end, l := Round(env);
      ghost var mid := Snapshot(ring);
      if end.StartOver? {
        r := Schedule(env[used..]);
        ScheduledOn(From(c), before, died, env, l.joined, l.cand, l.turns, log, Snapshot(ring), r, curr);
        log := Log(l.joined, l.cand, l.turns + log.turns);
      } else {
        NoneGone(mid, {}, env[used..]);
        r := Settle(c, next, end.OutOfEvents?, before, died, env, l);
      }
      AllGoOn(before, mid, Snapshot(ring), died, env[..used], env[used..], env);
    }

    /** The way out of `thread_schedule`. */
    method Settle(c: Thread, next: Thread?, blocked: bool, ghost before: map<Thread, Looks>, ghost died: set<Thread>,
        ghost env: seq<Event>, ghost l: Log)
      returns (r: Outcome)
      requires RingInv() && CandidateOk(next) && c in ring
      requires JoinsFirst(From(c), before, died, l.joined, l.cand) && TurnsAre(From(c), l.joined, l.cand, env, l.turns)
      requires l.turns != [] ==> Waits(l.joined, Fd) || Waits(l.joined, Time)
      requires LastState(l.joined, l.turns) == Snapshot(ring) && LastCand(l.cand, l.turns) == next
      requires (blocked <==> MoreTurns(l.joined, env, l.turns)) && (blocked ==> |l.turns| == |env|)
      modifies this`curr, this`log
      ensures r == Returned || r == Switched ==> next != null && curr == next && Valid() && curr.status != Stopped
      ensures r == Returned ==> curr == old(curr)
      ensures r == Deadlock ==> curr == old(curr) && AllStopped()
      ensures (r == Blocked <==> blocked) && (r == Deadlock <==> !blocked && next == null)
      ensures Scheduled(From(c), before, died, env, log, Snapshot(ring), r, curr)
    {
      hide RingInv, CandidateOk, Snapshot, JoinsFirst, TurnsAre, MoreTurns, From, Waits, LastState, LastCand, Awake;
      log := l;
      CandidateIs(next);
      if blocked {
        r := Blocked;
      } else {
        r := Dispatch(next);
      }
      ScheduledOnce(From(c), before, died, env, l, Snapshot(ring), r, curr);
    }

    /** What the first loop found is the only thread of its kind. */
    lemma FirstOnly(c: Thread, next: Thread?)
      requires c in ring && (next == null ==> AllStopped())
      requires next != null ==> next in ring && next.status != Stopped && IsFirst(c, next)
      ensures CandidateOk(next)
      ensures forall t :: t in ring && IsFirst(c, t) ==> t == next
    {
      hide RotateTo;
      forall t | t in ring && IsFirst(c, t)
        ensures t == next
      {
        if next != null { FirstUnique(c, t, next); }
      }
    }

    /** `thread_schedule` up to its end, or up to where it starts over. */
    method Round(env: seq<Event>) returns (c: Thread, next: Thread?, used: nat, end: End, ghost l: Log)
      requires MaySchedule()
      modifies this`numFd, this`numTimer, this`numJoin
      modifies ring`waitFor, ring`status, ring`join, ring`delay, ring`fd
      ensures RingInv() && MaySchedule() && CandidateOk(next) && JoinsServed() && Bereaved() == {}
      ensures c in ring && c == Start() == old(Start())
      ensures used == |l.turns| <= |env| && (end.StartOver? ==> used > 0)
      ensures AllGo(old(Snapshot(ring)), Snapshot(ring), old(Bereaved()), env[..used])
      ensures old(numFd) == old(numTimer) == 0 && old(curr) in ring ==>
        forall t :: t in ring && old(IsFirst(curr, t)) ==> next == t && end.Decided?
      ensures JoinsFirst(From(c), old(Snapshot(ring)), old(Bereaved()), l.joined, l.cand)
      ensures TurnsAre(From(c), l.joined, l.cand, env, l.turns) && Single(l.joined)
      ensures used > 0 ==> Waits(l.joined, Fd) || Waits(l.joined, Time)
      ensures LastState(l.joined, l.turns) == Snapshot(ring) && LastCand(l.cand, l.turns) == next
      ensures end.StartOver? ==> Interrupted(l.turns[used - 1], env[used - 1])
      ensures end.OutOfEvents? <==> !end.StartOver? && MoreTurns(l.joined, env, l.turns)
      ensures end.OutOfEvents? ==> used == |env|
    {
      hide RingInv, IsRing, CandidateOk, JoinsServed, AllGo, Snapshot, Bereaved, IsFirst, AllStopped, JoinsFirst,
        TurnsAre, Interrupted, MoreTurns, From, Single, Waits, LastState, LastCand, Look, FirstOf, Awake;
      c := StartingThread();
      next := FirstRunnable(c);
      FirstOnly(c, next);
      next, used, end, l := Turns(c, next, env);
    }

    /** The parts of `thread_schedule` that may end waits. */
    method Turns(c: Thread, next0: Thread?, env: seq<Event>) returns (next: Thread?, used: nat, end: End, ghost l: Log)
      requires RingInv() && c in ring && CandidateOk(next0) && FirstOf(From(c), Awake(Snapshot(ring)), next0)
      modifies this`numFd, this`numTimer, this`numJoin
      modifies ring`waitFor, ring`status, ring`join, ring`delay, ring`fd
      ensures RingInv() && CandidateOk(next) && JoinsServed() && Bereaved() == {}
      ensures used == |l.turns| <= |env| && (end.StartOver? ==> used > 0)
      ensures AllGo(old(Snapshot(ring)), Snapshot(ring), old(Bereaved()), env[..used])
      ensures old(numFd) == old(numTimer) == 0 && next0 != null ==> next == next0 && end.Decided?
      ensures JoinsFirst(From(c), old(Snapshot(ring)), old(Bereaved()), l.joined, l.cand)
      ensures TurnsAre(From(c), l.joined, l.cand, env, l.turns) && Single(l.joined)
      ensures used > 0 ==> Waits(l.joined, Fd) || Waits(l.joined, Time)
      ensures LastState(l.joined, l.turns) == Snapshot(ring) && LastCand(l.cand, l.turns) == next
      ensures end.StartOver? ==> Interrupted(l.turns[used - 1], env[used - 1])
      ensures end.OutOfEvents? <==> !end.StartOver? && MoreTurns(l.joined, env, l.turns)
      ensures end.OutOfEvents? ==> used == |env|
    {
      hide RingInv, IsRing, CandidateOk, JoinsServed, AllGo, Snapshot, Bereaved, FirstOf, From, TurnsAre, Interrupted,
        JoinsFirst, Single, Waits, WakesJust, Awake, Again;
      ghost var before, died := Snapshot(ring), Bereaved();
      used, end := 0, Decided;
      FromRing(c);
      SnapshotIs();
      next := JoinTurn(c, next0);
      ghost var mid, cand := Snapshot(ring), next;
      JoinsCand(From(c), before, died, mid, next0, next);
      CountersTell(0.0);
      NoTurns(From(c), mid, cand, env);
      l := Log(mid, cand, []);
      if numFd > 0 || numTimer > 0 {
        ghost var ts;
        next, used, end, ts := AwaitEvents(c, next, env);
        l := Log(mid, cand, ts);
      } else {
        NoneGone(mid, {}, env[..used]);
      }
      AllGoOn(before, mid, Snapshot(ring), died, [], env[..used], env[..used]);
      NobodyBereaved();
    }

    /** The end of `thread_schedule`: no candidate, the running thread, or another one. */
    method Dispatch(next: Thread?) returns (r: Outcome)
      requires RingInv() && CandidateOk(next)
      modifies this`curr
      ensures r == Returned || r == Switched ==> next != null && curr == next && Valid() && curr.status != Stopped
      ensures r == Returned ==> curr == old(curr)
      ensures r == Deadlock ==> curr == old(curr) && AllStopped()
      ensures r != Blocked && (r == Deadlock <==> next == null)
    {
      hide IsRing, Counted;
      CandidateUse(next);
      if next == null { return Deadlock; }
      if next == curr { return Returned; }
      curr := next;
      return Switched;
    }

    lemma NobodyBereaved()
      requires JoinsServed()
      ensures Bereaved() == {}
    {
    }

    lemma NoJoiners()
      requires RingInv() && numJoin == 0
      ensures JoinsServed()
    {
      hide IsRing, StatusesOk;
      assert Waiters(ring, Join) == {};
      assert forall t :: t in ring ==> t !in Waiters(ring, Join);
    }

    lemma LoneThread()
      requires MaySchedule()
      ensures curr == curr.next <==> curr in ring && |ring| == 1
    {
      hide Counted;
      assert forall t :: t in ring ==> StatusOk(t);
      if curr in ring {
        var k := Position(curr);
        assert curr.next == After(ring, k);
      }
    }

    lemma CandidateUse(next: Thread?)
      requires RingInv() && CandidateOk(next)
      ensures next == null ==> AllStopped()
      ensures next != null ==> next in ring && next.status != Stopped && next.waitFor == {}
    {
      assert next != null ==> StatusOk(next);
    }

    /** The scheduling state when one thread has changed. */
    twostate lemma OneChanged(th: Thread)
      requires ring == old(ring) && th in ring && forall t :: t in ring && t != th ==> Look(t) == old(Look(t))
      ensures Snapshot(ring) == old(Snapshot(ring))[th := Look(th)]
    {
    }

    /** A thread outside of the ring has changed, and not between life and death. */
    twostate lemma NoneChanged(th: Thread)
      requires ring == old(ring) && th !in ring && (th.status == Killed <==> old(th.status) == Killed)
      requires forall t :: t in ring ==> Look(t) == old(Look(t))
      requires forall t :: t in ring && old(t.join) != null && old(t.join) != th ==> old(t.join).status == old(t.join.status)
      ensures Snapshot(ring) == old(Snapshot(ring)) && Bereaved() == old(Bereaved())
    {
      forall t | t in ring
        ensures JoinDone(t) == old(JoinDone(t))
      {
        assert t.join == old(t.join);
      }
    }

    /** When one thread has changed, and not between life and death, no other one is bereaved or comforted. */
    twostate lemma SameBereaved(th: Thread)
      requires ring == old(ring) && th in ring && (th.status == Killed <==> old(th.status) == Killed)
      requires forall t :: t in ring && t != th ==> Look(t) == old(Look(t))
      requires forall t :: t in ring && old(t.join) != null && old(t.join) != th ==> old(t.join).status == old(t.join.status)
      ensures JoinDone(th) == old(JoinDone(th)) ==> Bereaved() == old(Bereaved())
      ensures !JoinDone(th) ==> Bereaved() == old(Bereaved()) - {th}
    {
      forall t | t in ring && t != th
        ensures JoinDone(t) == old(JoinDone(t))
      {
        assert t.join == old(t.join);
      }
    }

    /** A thread that came back from a wait had a reason to. */
    lemma CameBack(before: map<Thread, Looks>, died: set<Thread>, env: seq<Event>, c: Thread)
      requires c in before && c in ring && c.waitFor == {} && before[c].waitFor != {}
      requires AllGo(before, Snapshot(ring), died, env)
      ensures Over(before[c], c in died, env)
    {
      assert Snapshot(ring)[c] == Look(c);
    }

    /** A thread that waits for the end of a live one goes on waiting. */
    lemma StaysWaiting(before: map<Thread, Looks>, died: set<Thread>, env: seq<Event>, c: Thread)
      requires c in before && c in ring && c !in died && (before[c].waitFor == {Join} || before[c].waitFor == {})
      requires AllGo(before, Snapshot(ring), died, env)
      ensures Look(c) == before[c]
    {
      assert Snapshot(ring)[c] == Look(c);
    }

    /** Begins a wait of the running thread: status, counter, bit. */
    method BeginWait(w: Wait)
      requires Valid() && (w == Join ==> curr.join != null)
      modifies this`numFd, this`numTimer, this`numJoin, curr`waitFor, curr`status
      ensures RingInv() && curr.waitFor == {w} && curr.status == Stopped
    {
      hide IsRing, Count;
      ghost var m := WaitMap(ring);
      CountsChange(m, curr, {w});
      curr.status := Stopped;
      if w == Fd {
        numFd := numFd + 1;
      } else if w == Time {
        numTimer := numTimer + 1;
      } else {
        numJoin := numJoin + 1;
      }
      curr.waitFor := curr.waitFor + {w};
      assert curr.waitFor == {w};
      assert WaitMap(ring) == m[curr := {w}];
    }

    /**
     * `thread_wait_fd`: it comes back to its caller at once only after the descriptor was ready; after a switch the wait
     * goes on until that, or until some call makes the thread ready.
     */
    method WaitFd(fd: int, env: seq<Event>) returns (r: Outcome)
      requires Valid()
      modifies this, ring`waitFor, ring`status, ring`join, ring`delay, ring`fd
      ensures RingInv() && ring == old(ring) && (r == Returned || r == Switched ==> Valid())
      ensures r == Deadlock ==> AllStopped()
      ensures |ring| == 1 ==> r == Returned && Snapshot(ring) == old(Snapshot(ring))
      ensures |ring| > 1 ==>
        AllGo(old(Snapshot(ring)[curr := Look(curr).(status := Stopped, waitFor := {Fd}, fd := fd)]), Snapshot(ring),
          old(Bereaved()), env)
      ensures |ring| > 1 && r == Returned ==> exists e :: e in env && e.n > 0 && fd in e.ready
      ensures |ring| > 1 ==>
        Scheduled(old(From(curr)), old(Snapshot(ring)[curr := Look(curr).(status := Stopped, waitFor := {Fd}, fd := fd)]),
          old(Bereaved()), env, log, Snapshot(ring), r, curr)
      ensures Explained(old(Snapshot(ring)), Snapshot(ring), Cause({}, old(Bereaved()), env))
    {
      hide Scheduled, Start, From, RingInv, JoinsServed, IsFirst, AllGo, Snapshot, AllStopped, Bereaved;
      AliveInRing();
      LoneThread();
      ghost var before0 := Snapshot(ring);
      SnapshotIs();
      if curr == curr.next {
        SelfExplained(before0, Cause({}, Bereaved(), env));
        return Returned;
      }
      ghost var c, died := curr, Bereaved();
      curr.fd := fd;
      BeginWait(Fd);
      OneChanged(c);
      SameBereaved(c);
      ghost var before := Snapshot(ring);
      r := Schedule(env);
      ExplainedBy(before0, before, Snapshot(ring), Cause({}, died, env));
      if r == Returned { CameBack(before, died, env, c); }
    }

    /**
     * `thread_wait_for`, with the time at which the wait ends: it comes back to its caller at once only then; after a
     * switch the wait goes on until then, or until some call makes the thread ready. A lone thread waits in `select`
     * alone.
     */
    method WaitFor(date: real, env: seq<Event>) returns (r: Outcome)
      requires Valid()
      modifies this, ring`waitFor, ring`status, ring`join, ring`delay, ring`fd
      ensures RingInv() && ring == old(ring) && (r == Returned || r == Switched ==> Valid())
      ensures r == Deadlock ==> AllStopped()
      ensures |ring| == 1 ==> r == Returned && Snapshot(ring) == old(Snapshot(ring))
      ensures |ring| > 1 ==>
        AllGo(old(Snapshot(ring)[curr := Look(curr).(status := Stopped, waitFor := {Time}, delay := date)]), Snapshot(ring),
          old(Bereaved()), env)
      ensures |ring| > 1 && r == Returned ==> exists e :: e in env && date <= e.now
      ensures |ring| > 1 ==>
        Scheduled(old(From(curr)), old(Snapshot(ring)[curr := Look(curr).(status := Stopped, waitFor := {Time}, delay := date)]),
          old(Bereaved()), env, log, Snapshot(ring), r, curr)
      ensures Explained(old(Snapshot(ring)), Snapshot(ring), Cause({}, old(Bereaved()), env))
    {
      hide Scheduled, Start, From, RingInv, JoinsServed, IsFirst, AllGo, Snapshot, AllStopped, Bereaved;
      AliveInRing();
      LoneThread();
      ghost var before0 := Snapshot(ring);
      SnapshotIs();
      if curr == curr.next {
        SelfExplained(before0, Cause({}, Bereaved(), env));
        return Returned;
      }
      ghost var c, died := curr, Bereaved();
      curr.delay := date;
      BeginWait(Time);
      OneChanged(c);
      SameBereaved(c);
      ghost var before := Snapshot(ring);
      r := Schedule(env);
      ExplainedBy(before0, before, Snapshot(ring), Cause({}, died, env));
      if r == Returned { CameBack(before, died, env, c); }
    }

    /** `thread_sleep_forever`. */
    method SleepForever(env: seq<Event>) returns (r: Outcome)
      requires Valid()
      modifies this, ring`waitFor, ring`status, ring`join, ring`delay, ring`fd
      ensures RingInv() && ring == old(ring) && (r == Returned || r == Switched ==> Valid())
      ensures r == Deadlock ==> AllStopped()
      ensures |ring| > 1 && r == Returned ==> exists e :: e in env && DELAY_INFTY <= e.now
      ensures |ring| > 1 ==>
        AllGo(old(Snapshot(ring)[curr := Look(curr).(status := Stopped, waitFor := {Time}, delay := DELAY_INFTY)]),
          Snapshot(ring), old(Bereaved()), env)
      ensures |ring| > 1 ==>
        Scheduled(old(From(curr)), old(Snapshot(ring)[curr := Look(curr).(status := Stopped, waitFor := {Time}, delay := DELAY_INFTY)]),
          old(Bereaved()), env, log, Snapshot(ring), r, curr)
      ensures Explained(old(Snapshot(ring)), Snapshot(ring), Cause({}, old(Bereaved()), env))
    {
      hide Scheduled, Start, From, RingInv, AllGo, Snapshot, AllStopped, Bereaved, Explained;
      r := WaitFor(DELAY_INFTY, env);
    }

    /**
     * `thread_join` on another thread; false when two threads would wait for each other. On a live thread it does not
     * come back to its caller at once: that waits until the other thread has died, or some call makes it ready.
     */
    method JoinThread(th: Thread, env: seq<Event>) returns (ok: bool, r: Outcome)
      requires Valid() && th != curr && (th in ring || th.status == Killed)
      modifies this, ring`waitFor, ring`status, ring`join, ring`delay, ring`fd
      ensures RingInv() && ring == old(ring) && (r == Returned || r == Switched ==> Valid())
      ensures !ok <==> old(th.status != Killed && Join in th.waitFor && th.join == curr)
      ensures !ok || old(th.status) == Killed ==>
        r == Returned && curr == old(curr) && Snapshot(ring) == old(Snapshot(ring))
      ensures ok && old(th.status) != Killed ==>
        r != Returned && old(curr).waitFor == {Join} && old(curr).join == th
        && AllGo(old(Snapshot(ring)[curr := Look(curr).(status := Stopped, waitFor := {Join}, join := th)]), Snapshot(ring),
          old(Bereaved()), env)
      ensures ok && old(th.status) != Killed ==>
        Scheduled(old(From(curr)),
          old(Snapshot(ring)[curr := Look(curr).(status := Stopped, waitFor := {Join}, join := th)]), old(Bereaved()), env, log,
          Snapshot(ring), r, curr)
      ensures r == Deadlock ==> AllStopped()
      ensures Explained(old(Snapshot(ring)), Snapshot(ring), Cause({}, old(Bereaved()), env))
    {
      hide Scheduled, Start, From, RingInv, JoinsServed, IsFirst, AllGo, Snapshot, AllStopped, Bereaved, Explained;
      ghost var before0 := Snapshot(ring);
      SnapshotIs();
      SelfExplained(before0, Cause({}, Bereaved(), env));
      ok, r := true, Returned;
      if th.status == Killed { return; }
      if Join in th.waitFor && th.join == curr {
        ok := false;
        return;
      }
      AliveInRing();
      AtLeastTwo(th);
      ghost var c, died := curr, Bereaved();
      NotBereaved(c);
      BeginJoin(th);
      OneChanged(c);
      SameBereaved(c);
      ghost var before := Snapshot(ring);
      r := Schedule(env);
      ExplainedBy(before0, before, Snapshot(ring), Cause({}, died, env));
      StaysWaiting(before, died, env, c);
    }

    method BeginJoin(th: Thread)
      requires Valid()
      modifies this`numFd, this`numTimer, this`numJoin, curr`waitFor, curr`status, curr`join
      ensures RingInv() && curr.waitFor == {Join} && curr.status == Stopped && curr.join == th
    {
      hide IsRing, Counted;
      curr.join := th;
      BeginWait(Join);
    }

    lemma NotBereaved(th: Thread)
      requires th.waitFor == {}
      ensures th !in Bereaved()
    {
    }

    lemma AtLeastTwo(th: Thread)
      requires RingInv() && curr in ring && th in ring && th != curr
      ensures |ring| > 1
    {
    }

    /** `thread_wakeup`; false on a dead thread. A thread that has left the ring waits for nothing. */
    method Wakeup(th: Thread) returns (ok: bool)
      requires Valid() && (th in ring || th.waitFor == {})
      modifies this`numFd, this`numTimer, this`numJoin, th`waitFor, th`status
      ensures Valid() && (ok <==> old(th.status) != Killed)
      ensures ok ==> th.status == Runnable && th.waitFor == {}
      ensures !ok ==> th.status == old(th.status) && th.waitFor == old(th.waitFor)
      ensures Explained(old(Snapshot(ring)), Snapshot(ring), Cause({th}, {}, []))
    {
      hide IsRing, Counted;
      if th.status == Killed { return false; }
      Ready(th);
      ok := true;
    }

    /** The scheduling state with another look of a thread, if that is in the ring. */
    ghost function With(m: map<Thread, Looks>, th: Thread, l: Looks): map<Thread, Looks>
      reads this`ring
    {
      if th in ring then m[th := l] else m
    }

    /** `thread_run`. */
    method RunThread(th: Thread, critical: bool, env: seq<Event>) returns (ok: bool, r: Outcome)
      requires Valid() && (th in ring || th.waitFor == {})
      modifies this, th`waitFor, th`status, ring`waitFor, ring`status, ring`join, ring`delay, ring`fd
      ensures RingInv() && ring == old(ring) && (r == Returned || r == Switched ==> Valid())
      ensures ok <==> old(th.status) != Killed
      ensures !ok ==> r == Returned && Snapshot(ring) == old(Snapshot(ring))
      ensures ok ==> th.status == Runnable && th.waitFor == {}
      ensures ok ==>
        AllGo(old(With(Snapshot(ring), th, Look(th).(status := Runnable, waitFor := {}))), Snapshot(ring),
          old(Bereaved()) - {th}, if critical then [] else env)
      ensures ok && !critical && |ring| > 1 ==>
        Scheduled(old(From(curr)), old(With(Snapshot(ring), th, Look(th).(status := Runnable, waitFor := {}))),
          old(Bereaved()) - {th}, env, log, Snapshot(ring), r, curr)
      ensures Explained(old(Snapshot(ring)), Snapshot(ring), Cause({th}, old(Bereaved()), if critical then [] else env))
    {
      hide Scheduled, Start, From, RingInv, JoinsServed, IsFirst, AllGo, Snapshot, AllStopped, Bereaved, Explained;
      ghost var before0, died0 := Snapshot(ring), Bereaved();
      SnapshotIs();
      SelfExplained(before0, Cause({th}, died0, if critical then [] else env));
      r := Returned;
      if th.status == Killed { return false, r; }
      AliveInRing();
      ok := Wakeup(th);
      Changed(th);
      ghost var before, died := Snapshot(ring), Bereaved();
      NoneGone(before, died, []);
      if !critical {
        r := Schedule(env);
        if th in ring { StaysWaiting(before, died, env, th); }
      }
      ExplainedBy(before0, before, Snapshot(ring), Cause({th}, died, if critical then [] else env));
      ExplainedMore(before0, Snapshot(ring), Cause({th}, died, if critical then [] else env), died0);
    }

    /** A thread that waits for nothing now has changed, and not between life and death. */
    twostate lemma Changed(th: Thread)
      requires ring == old(ring) && th.waitFor == {} && (th.status == Killed <==> old(th.status) == Killed)
      requires forall t :: t in ring && t != th ==> Look(t) == old(Look(t))
      requires forall t :: t in ring && old(t.join) != null && old(t.join) != th ==> old(t.join).status == old(t.join.status)
      ensures Snapshot(ring) == With(old(Snapshot(ring)), th, Look(th)) && Bereaved() == old(Bereaved()) - {th}
    {
      hide Snapshot, Bereaved;
      if th in ring {
        OneChanged(th);
        SameBereaved(th);
      } else {
        NoneChanged(th);
        OnlyRing(th);
      }
    }

    twostate lemma OnlyRing(th: Thread)
      requires th !in old(ring)
      ensures th !in old(Bereaved())
    {
    }

    /**
     * `thread_kill`; killing the main thread, or one that is its own successor, ends the interpreter instead. In the ring
     * that is a lone thread.
     */
    method Kill(th: Thread, env: seq<Event>) returns (exit: bool, r: Outcome)
      requires Valid() && (th in ring || th.waitFor == {})
      modifies this, th`waitFor, th`status, ring`waitFor, ring`status, ring`join, ring`delay, ring`fd
      ensures RingInv() && ring == old(ring) && (r == Returned || r == Switched ==> Valid())
      ensures exit <==> old(th.status != ToKill && th.status != Killed) && (th.next == th || th == old(main))
      ensures th in ring ==> (th.next == th <==> |ring| == 1)
      ensures exit || old(th.status == ToKill || th.status == Killed) ==>
        r == Returned && Snapshot(ring) == old(Snapshot(ring))
      ensures !exit && old(th.status != ToKill && th.status != Killed) ==>
        th.status == ToKill && th.waitFor == {}
        && AllGo(old(With(Snapshot(ring), th, Look(th).(status := ToKill, waitFor := {}))), Snapshot(ring),
          old(Bereaved()) - {th}, env)
      ensures !exit && old(th.status != ToKill && th.status != Killed) && |ring| > 1 ==>
        Scheduled(old(From(curr)), old(With(Snapshot(ring), th, Look(th).(status := ToKill, waitFor := {}))),
          old(Bereaved()) - {th}, env, log, Snapshot(ring), r, curr)
      ensures Explained(old(Snapshot(ring)), Snapshot(ring), Cause({th}, old(Bereaved()), env))
    {
      hide Scheduled, Start, From, RingInv, JoinsServed, IsFirst, AllGo, Snapshot, AllStopped, Bereaved, Explained;
      ghost var before0, died0 := Snapshot(ring), Bereaved();
      SnapshotIs();
      SelfExplained(before0, Cause({th}, died0, env));
      exit, r := false, Returned;
      if th in ring { OwnSuccessor(th); }
      if th.status == ToKill || th.status == Killed { return; }
      if th == th.next || th == main {
        exit := true;
        return;
      }
      AliveInRing();
      Doom(th);
      Changed(th);
      ghost var before, died := Snapshot(ring), Bereaved();
      r := Schedule(env);
      if th in ring { StaysWaiting(before, died, env, th); }
      ExplainedBy(before0, before, Snapshot(ring), Cause({th}, died, env));
      ExplainedMore(before0, Snapshot(ring), Cause({th}, died, env), died0);
    }

    /** `thread_ready`, then the mark for killing. */
    method Doom(th: Thread)
      requires Valid() && (th in ring || th.waitFor == {})
      modifies this`numFd, this`numTimer, this`numJoin, th`waitFor, th`status
      ensures Valid() && th.status == ToKill && th.waitFor == {}
    {
      hide IsRing, Counted;
      Ready(th);
      th.status := ToKill;
    }

    lemma OwnSuccessor(th: Thread)
      requires RingInv() && th in ring
      ensures th == th.next <==> |ring| == 1
    {
      var k := Position(th);
      assert th.next == After(ring, k);
    }

    /** `thread_stop_method`, on any thread. */
    method Stop(th: Thread, env: seq<Event>) returns (r: Outcome)
      requires Valid()
      modifies this, th`status, ring`waitFor, ring`status, ring`join, ring`delay, ring`fd
      ensures RingInv() && ring == old(ring) && (r == Returned || r == Switched ==> Valid())
      ensures r == Deadlock ==> AllStopped()
      ensures th !in ring || old(th.waitFor) == {} || |ring| == 1 ==> th.status == Stopped
      ensures th in ring ==>
        AllGo(old(Snapshot(ring)[th := Look(th).(status := Stopped)]), Snapshot(ring), old(Bereaved()), env)
      ensures th !in ring ==> AllGo(old(Snapshot(ring)), Snapshot(ring), old(Bereaved()), env)
      ensures |ring| > 1 ==>
        Scheduled(old(From(curr)), old(With(Snapshot(ring), th, Look(th).(status := Stopped))),
          old(Bereaved() - Joiners(th)), env, log, Snapshot(ring), r, curr)
      ensures Explained(old(Snapshot(ring)), Snapshot(ring), Cause({}, old(Bereaved()), env))
    {
      hide Joiners, Scheduled, Start, From, IsRing, Counted, JoinsServed, IsFirst, AllGo, Snapshot, AllStopped, Bereaved,
        Explained;
      AliveInRing();
      ghost var before0, died0 := Snapshot(ring), Bereaved();
      SnapshotIs();
      WaitersStopped();
      th.status := Stopped;
      StoppedBereaved(th);
      if th in ring { OneChanged(th); }
      ghost var before, died := Snapshot(ring), Bereaved();
      r := Schedule(env);
      AllGoLess(before, before, Snapshot(ring), died, died0, env);
      ExplainedBy(before0, before, Snapshot(ring), Cause({}, died0, env));
      if th in ring && old(th.waitFor) == {} { StaysStopped(before, died0, env, th); }
    }

    lemma WaitersStopped()
      requires RingInv()
      ensures forall t :: t in ring && t.waitFor != {} ==> t.status == Stopped
    {
      assert forall t :: t in ring ==> StatusOk(t);
    }

    twostate lemma StoppedBereaved(th: Thread)
      requires ring == old(ring) && th.status != Killed && forall t :: t in ring ==> t.waitFor == old(t.waitFor)
      requires forall t :: t in ring ==> t.join == old(t.join)
      requires forall t :: t in ring && old(t.join) != null && old(t.join) != th ==> old(t.join).status == old(t.join.status)
      ensures Bereaved() == old(Bereaved() - Joiners(th))
      ensures th !in ring ==> (forall t :: t in ring ==> Look(t) == old(Look(t))) ==> Snapshot(ring) == old(Snapshot(ring))
    {
      forall t | t in ring
        ensures JoinDone(t) <==> old(JoinDone(t)) && t !in old(Joiners(th))
      {
        assert t.join == old(t.join);
      }
    }

    lemma StaysStopped(before: map<Thread, Looks>, died: set<Thread>, env: seq<Event>, c: Thread)
      requires c in before && c in ring && before[c].waitFor == {} && AllGo(before, Snapshot(ring), died, env)
      ensures Look(c) == before[c]
    {
      assert Snapshot(ring)[c] == Look(c);
    }

    /** `thread_pass`: with nobody waiting in `select`, the first thread behind that can run is next. */
    method Pass(env: seq<Event>) returns (r: Outcome)
      requires Valid()
      modifies this, ring`waitFor, ring`status, ring`join, ring`delay, ring`fd
      ensures RingInv() && ring == old(ring) && (r == Returned || r == Switched ==> Valid())
      ensures r == Deadlock ==> AllStopped()
      ensures AllGo(old(Snapshot(ring)), Snapshot(ring), old(Bereaved()), env)
      ensures old(numFd) == old(numTimer) == 0 && |ring| > 1 ==> forall t :: t in ring && old(IsFirst(curr, t)) ==> curr == t
      ensures |ring| > 1 ==>
        Scheduled(old(From(curr)), old(Snapshot(ring)), old(Bereaved()), env, log, Snapshot(ring), r, curr)
      ensures Explained(old(Snapshot(ring)), Snapshot(ring), Cause({}, old(Bereaved()), env))
    {
      hide Scheduled, Start, From, IsRing, Counted, JoinsServed, IsFirst, AllGo, Snapshot, Explained, Bereaved;
      ghost var before, died := Snapshot(ring), Bereaved();
      r := Schedule(env);
      ExplainedBy(before, before, Snapshot(ring), Cause({}, died, env));
    }

    /** `thread_remove`: the running thread ends and leaves the ring, and whoever waited for that can run. */
    method Remove(env: seq<Event>) returns (r: Outcome)
      requires Valid() && |ring| > 1
      modifies this, ring`waitFor, ring`status, ring`join, ring`delay, ring`fd, ring`next, ring`prev
      ensures RingInv() && old(curr) !in ring && old(curr).status == Killed
      ensures |ring| == old(|ring|) - 1 && forall t :: t in ring <==> t in old(ring) && t != old(curr)
      ensures r != Returned && (r == Switched ==> Valid())
      ensures AllGo(old(Snapshot(ring)), Snapshot(ring), old(Bereaved()) + old(Joiners(curr)), env)
      ensures forall t :: t in ring && old(Join in t.waitFor && t.join == curr) ==> t.status == Runnable && t.waitFor == {}
      ensures old(curr.prev) in ring &&
        Scheduled(From(old(curr.prev)), old(Snapshot(ring)) - {old(curr)}, old(Bereaved() + Joiners(curr)), env, log,
          Snapshot(ring), r, curr)
      ensures Explained(old(Snapshot(ring)), Snapshot(ring), Cause({}, old(Bereaved() + Joiners(curr)), env))
    {
      hide Scheduled, From, Start, RingInv, IsFirst, AllGo, Snapshot, AllStopped, Bereaved, Joiners, JoinsServed, Explained;
      ghost var c, before, died := curr, Snapshot(ring), Bereaved() + Joiners(curr);
      SnapshotIs();
      ghost var k := Leave();
      ghost var mid, died1 := Snapshot(ring), Bereaved();
      r := Schedule(env);
      AllGoLess(before, mid, Snapshot(ring), died1, died, env);
      ExplainedBy(before, before, Snapshot(ring), Cause({}, died, env));
      NoJoinerLeft(before, died, env, c);
    }

    lemma SnapshotIs()
      ensures forall t :: t in ring ==> t in Snapshot(ring) && Snapshot(ring)[t] == Look(t)
      ensures forall t :: t in Snapshot(ring) ==> t in ring
    {
    }

    /** The part of `thread_remove` before the call of the scheduler. */
    method Leave() returns (ghost k: nat)
      requires Valid() && |ring| > 1
      modifies this, curr`waitFor, curr`status, ring`next, ring`prev
      ensures RingInv() && MaySchedule() && curr == old(curr) && main == old(main)
      ensures curr !in ring && curr.status == Killed
      ensures k < |old(ring)| && ring == old(ring)[..k] + old(ring)[k + 1..]
      ensures forall t :: t in ring <==> t in old(ring) && t != curr
      ensures Start() == curr.prev == old(curr.prev) && Bereaved() == old(Bereaved() + Joiners(curr))
      ensures Snapshot(ring) == old(Snapshot(ring)) - {curr}
    {
      hide RingInv, IsRing, Snapshot, Bereaved, Joiners;
      ghost var c := curr;
      AliveInRing();
      Ready(curr);
      k := Position(curr);
      ghost var r0 := ring;
      RingDistinct();
      Unlink(k);
      CutElements(r0, k);
      LeftBereaved(c);
    }

    /** Who is bereaved after a thread has died and left. */
    twostate lemma LeftBereaved(c: Thread)
      requires c in old(ring) && old(c.waitFor) == {} && c.status == Killed
      requires forall t :: t in ring <==> t in old(ring) && t != c
      requires forall t :: t in ring ==> Look(t) == old(Look(t))
      requires forall t :: t in old(ring) && old(t.join) != null && old(t.join) != c ==>
        old(t.join).status == old(t.join.status)
      ensures Bereaved() == old(Bereaved() + Joiners(c))
      ensures Snapshot(ring) == old(Snapshot(ring)) - {c}
    {
      forall t | t in ring
        ensures JoinDone(t) <==> t in old(Bereaved() + Joiners(c))
      {
        assert t.join == old(t.join);
      }
    }

    /** Nobody waits for a dead thread any more, so those who did can run. */
    lemma NoJoinerLeft(before: map<Thread, Looks>, died: set<Thread>, env: seq<Event>, c: Thread)
      requires AllGo(before, Snapshot(ring), died, env) && JoinsServed() && c.status == Killed
      ensures forall t :: t in ring && t in before && Join in before[t].waitFor && before[t].join == c ==>
        t.status == Runnable && t.waitFor == {}
    {
      forall t | t in ring && t in before && Join in before[t].waitFor && before[t].join == c
        ensures t.status == Runnable && t.waitFor == {}
      {
        assert Snapshot(ring)[t] == Look(t);
      }
    }

    /** The ring threads that wait for the end of `th`. */
    ghost function Joiners(th: Thread): set<Thread>
      reads this`ring, ring`waitFor, ring`join
    {
      set t | t in ring && Join in t.waitFor && t.join == th
    }

    /** The middle of `thread_remove`: status and links. */
    method Unlink(ghost k: nat)
      requires RingInv() && |ring| > 1 && k < |ring| && ring[k] == curr && curr.waitFor == {}
      modifies this`ring, curr`status, ring`next, ring`prev
      ensures RingInv() && MaySchedule()
      ensures curr.status == Killed && curr.prev == old(curr.prev)
      ensures ring == old(ring[..k] + ring[k + 1..])
    {
      hide Counted, IsRing;
      ghost var r := ring;
      ghost var m := WaitMap(ring);
      curr.status := Killed;
      Splice(k);
      ring := r[..k] + r[k + 1..];
      CutElements(r, k);
      WithoutThread(r, m, curr);
    }

    /** The counters stay right when a thread that waits for nothing leaves. */
    lemma WithoutThread(r: seq<Thread>, m: map<Thread, set<Wait>>, th: Thread)
      requires m == WaitMap(r) && th in r && th.waitFor == {}
      requires forall t :: t in ring <==> t in r && t != th
      requires Counted(m)
      ensures Counted(WaitMap(ring))
    {
      hide Count;
      WithoutWaiter(m, th, WaitMap(ring));
    }

    lemma RingDistinct()
      requires RingInv()
      ensures forall i, j :: 0 <= i < j < |ring| ==> ring[i] != ring[j]
    {
    }

    /** Takes the running thread out of the links. */
    method Splice(ghost k: nat)
      requires IsRing(ring) && |ring| > 1 && k < |ring| && ring[k] == curr
      modifies ring`next, ring`prev
      ensures IsRing(ring[..k] + ring[k + 1..])
      ensures (forall i, j :: 0 <= i < j < |ring| ==> ring[i] != ring[j])
      ensures curr.next in ring && curr.prev in ring && curr.next != curr && curr.prev != curr
      ensures curr.prev == old(curr.prev)
    {
      ghost var r := ring;
      UnlinkNeighbours(r, k);
      curr.prev.next := curr.next;
      curr.next.prev := curr.prev;
      assert forall i, j :: 0 <= i < j < |r| ==> r[i] != r[j];
      assert forall i :: 0 <= i < |r| ==> r[i].next == if r[i] == Before(r, k) then After(r, k) else After(r, i);
      assert forall i :: 0 <= i < |r| ==> r[i].prev == if r[i] == After(r, k) then Before(r, k) else Before(r, i);
      CutRing(r, k, r[..k] + r[k + 1..]);
    }

    lemma UnlinkNeighbours(r: seq<Thread>, k: nat)
      requires IsRing(r) && k < |r| && |r| > 1
      ensures r[k].next == After(r, k) && r[k].prev == Before(r, k)
      ensures After(r, k) in r && Before(r, k) in r && After(r, k) != r[k] && Before(r, k) != r[k]
    {
    }

    lemma CutElements(r: seq<Thread>, k: nat)
      requires k < |r| && forall i, j :: 0 <= i < j < |r| ==> r[i] != r[j]
      ensures forall t :: t in r[..k] + r[k + 1..] <==> t in r && t != r[k]
    {
      assert r == r[..k] + [r[k]] + r[k + 1..];
    }

    /** Where position `i` of the shortened ring was. */
    function CutOrigin(k: nat, i: nat): nat {
      if i < k then i else i + 1
    }

    lemma CutAt(r: seq<Thread>, k: nat, q: seq<Thread>, i: nat)
      requires k < |r| && |r| > 1 && q == r[..k] + r[k + 1..] && i < |q|
      requires forall i, j :: 0 <= i < j < |r| ==> r[i] != r[j]
      ensures |q| == |r| - 1 && q[i] == r[CutOrigin(k, i)]
      ensures After(q, i) == if q[i] == Before(r, k) then After(r, k) else After(r, CutOrigin(k, i))
      ensures Before(q, i) == if q[i] == After(r, k) then Before(r, k) else Before(r, CutOrigin(k, i))
    {
    }

    /** The links after the thread at `k` is taken out. */
    lemma CutRing(r: seq<Thread>, k: nat, q: seq<Thread>)
      requires k < |r| && |r| > 1 && q == r[..k] + r[k + 1..]
      requires forall i, j :: 0 <= i < j < |r| ==> r[i] != r[j]
      requires forall i :: 0 <= i < |r| ==> r[i].next == if r[i] == Before(r, k) then After(r, k) else After(r, i)
      requires forall i :: 0 <= i < |r| ==> r[i].prev == if r[i] == After(r, k) then Before(r, k) else Before(r, i)
      ensures IsRing(q)
    {
      hide After, Before;
      forall i | 0 <= i < |q|
        ensures q[i].next == After(q, i) && q[i].prev == Before(q, i)
      {
        CutAt(r, k, q, i);
        assert q[i] == r[CutOrigin(k, i)];
      }
    }

    /** A thread that waits for nothing can leave without a change of the counters. */
    lemma WithoutWaiter(m: map<Thread, set<Wait>>, th: Thread, m': map<Thread, set<Wait>>)
      requires th in m && m[th] == {} && m' == m - {th}
      ensures forall w :: Count(m', w) == Count(m, w)
    {
      forall w
        ensures Count(m', w) == Count(m, w)
      {
        assert WaitersIn(m', w) == WaitersIn(m, w);
      }
    }

    /** `thread_alloc` when there is a running thread: the new thread comes right behind it. */
    method Alloc() returns (th: Thread)
      requires Valid()
      modifies this`ring, ring`next, ring`prev
      ensures Valid() && fresh(th) && th.status == Runnable && th.waitFor == {}
      ensures forall t :: t in ring <==> t in old(ring) || t == th
      ensures |ring| == old(|ring|) + 1
      ensures curr.next == th && th.prev == curr && th.next == old(curr.next)
      ensures Explained(old(Snapshot(ring)), Snapshot(ring), Cause({}, {}, []))
    {
      hide Counted, IsRing, Explained, Snapshot;
      ghost var before := Snapshot(ring);
      SnapshotIs();
      th := new Thread();
      LinkIn(th);
      SameExplained(before);
    }

    /** Puts a thread that waits for nothing into the ring. */
    method LinkIn(th: Thread)
      requires Valid() && th !in ring && th.status == Runnable && th.waitFor == {}
      modifies this`ring, ring`next, ring`prev, th`next, th`prev
      ensures Valid() && |ring| == old(|ring|) + 1 && forall t :: t in ring <==> t in old(ring) || t == th
      ensures curr.next == th && th.prev == curr && th.next == old(curr.next)
    {
      hide Counted, IsRing;
      ghost var k := Position(curr);
      ghost var r := ring;
      ghost var m := WaitMap(ring);
      assert forall t :: t in r ==> StatusOk(t);
      SpliceIn(k, th);
      ring := r[..k + 1] + [th] + r[k + 1..];
      InsertElements(r, k, th);
      WithThread(r, m, th);
    }

    lemma SameExplained(before: map<Thread, Looks>)
      requires forall t :: t in ring && t in before ==> before[t] == Look(t)
      ensures Explained(before, Snapshot(ring), Cause({}, {}, []))
    {
    }

    /** The counters stay right when a thread that waits for nothing comes. */
    lemma WithThread(r: seq<Thread>, m: map<Thread, set<Wait>>, th: Thread)
      requires m == WaitMap(r) && th !in r && th.waitFor == {}
      requires forall t :: t in ring <==> t in r || t == th
      requires Counted(m)
      ensures Counted(WaitMap(ring))
    {
      hide Count;
      WithWaiter(m, th, WaitMap(ring));
    }

    /** Links a thread in behind the running one. */
    method SpliceIn(ghost k: nat, th: Thread)
      requires IsRing(ring) && k < |ring| && ring[k] == curr && th !in ring
      modifies ring`next, ring`prev, th`next, th`prev
      ensures IsRing(ring[..k + 1] + [th] + ring[k + 1..])
      ensures curr.next == th && th.prev == curr && th.next == old(curr.next)
    {
      ghost var r := ring;
      assert curr.next == After(r, k);
      th.prev := curr;
      curr.next.prev := th;
      th.next := curr.next;
      curr.next := th;
      assert forall i, j :: 0 <= i < j < |r| ==> r[i] != r[j];
      assert forall i :: 0 <= i < |r| ==> r[i].next == if i == k then th else After(r, i);
      assert forall i :: 0 <= i < |r| ==> r[i].prev == if r[i] == After(r, k) then th else Before(r, i);
      InsertRing(r, k, th, r[..k + 1] + [th] + r[k + 1..]);
    }

    lemma InsertElements(r: seq<Thread>, k: nat, th: Thread)
      requires k < |r|
      ensures forall t :: t in r[..k + 1] + [th] + r[k + 1..] <==> t in r || t == th
    {
      assert r == r[..k + 1] + r[k + 1..];
    }

    function InsertOrigin(k: nat, i: nat): nat {
      if i == 0 || i <= k then i else i - 1
    }

    lemma InsertAt(r: seq<Thread>, k: nat, th: Thread, q: seq<Thread>, i: nat)
      requires k < |r| && th !in r && q == r[..k + 1] + [th] + r[k + 1..] && i < |q|
      requires forall i, j :: 0 <= i < j < |r| ==> r[i] != r[j]
      ensures |q| == |r| + 1
      ensures i != k + 1 ==> q[i] == r[InsertOrigin(k, i)]
      ensures i != k + 1 ==> After(q, i) == if i == k then th else After(r, InsertOrigin(k, i))
      ensures i != k + 1 ==> Before(q, i) == if q[i] == After(r, k) then th else Before(r, InsertOrigin(k, i))
      ensures i == k + 1 ==> q[i] == th && After(q, i) == After(r, k) && Before(q, i) == r[k]
    {
    }

    lemma InsertDistinct(r: seq<Thread>, k: nat, th: Thread, q: seq<Thread>)
      requires k < |r| && th !in r && q == r[..k + 1] + [th] + r[k + 1..]
      requires forall i, j :: 0 <= i < j < |r| ==> r[i] != r[j]
      ensures forall i, j :: 0 <= i < j < |q| ==> q[i] != q[j]
    {
      forall i, j | 0 <= i < j < |q|
        ensures q[i] != q[j]
      {
        assert i != k + 1 ==> q[i] == r[InsertOrigin(k, i)];
        assert j != k + 1 ==> q[j] == r[InsertOrigin(k, j)];
      }
    }

    /** The links after a new thread is put in behind the one at `k`. */
    lemma InsertRing(r: seq<Thread>, k: nat, th: Thread, q: seq<Thread>)
      requires k < |r| && th !in r && q == r[..k + 1] + [th] + r[k + 1..]
      requires forall i, j :: 0 <= i < j < |r| ==> r[i] != r[j]
      requires th.next == After(r, k) && th.prev == r[k]
      requires forall i :: 0 <= i < |r| ==> r[i].next == if i == k then th else After(r, i)
      requires forall i :: 0 <= i < |r| ==> r[i].prev == if r[i] == After(r, k) then th else Before(r, i)
      ensures IsRing(q)
    {
      hide After, Before;
      InsertDistinct(r, k, th, q);
      forall i | 0 <= i < |q|
        ensures q[i].next == After(q, i) && q[i].prev == Before(q, i)
      {
        InsertAt(r, k, th, q, i);
      }
    }

    lemma WithWaiter(m: map<Thread, set<Wait>>, th: Thread, m': map<Thread, set<Wait>>)
      requires th !in m && m' == m[th := {}]
      ensures forall w :: Count(m', w) == Count(m, w)
    {
      forall w
        ensures Count(m', w) == Count(m, w)
      {
        assert WaitersIn(m', w) == WaitersIn(m, w);
      }
    }
  }
}
