/** The mark-and-sweep collector and the allocator of gc.c. */
module Collector {
  import opened Wrappers

  /** A VALUE: an immediate (fixnum, special constant, null), or a pointer, given by the number of the slot. */
  datatype Word = Immediate | Ptr(slot: nat)

  /** The node types, grouped by which of the fields u1, u2, u3 the collector follows. */
  datatype NodeKind = Follow123 | Follow13 | Follow3 | Follow12 | Follow2 | Follow1 | Follow23 | FollowNone | FollowMaybe

  /** The contents of a live slot as far as `gc_mark` looks at them. */
  datatype Body =
    | Node(kind: NodeKind, u1: Word, u2: Word, u3: Word)
    | Class(class_: Word, super: Word, mTbl: seq<Word>, ivTbl: seq<Word>)
    | IClass(class_: Word, super: Word, ivTbl: seq<Word>, mTbl: seq<Word>)
    | Array(class_: Word, elems: seq<Word>)
    | Hash(class_: Word, entries: seq<(Word, Word)>)
    | String(class_: Word, orig: Word)
    | Data(class_: Word, dmark: seq<Word>)
    | Object(class_: Word, ivTbl: seq<Word>)
    | Plain(class_: Word)
    | Match(class_: Word, str: Word)
    | Varmap(class_: Word, val: Word, next: Word)
    | Scope(class_: Word, vars: seq<Word>)
    | Struct(class_: Word, elems: seq<Word>)

  /** A slot: `live` says that the flags word is not 0, `mark` is FL_MARK, `next` the link of a free slot. */
  datatype Slot = Slot(live: bool, mark: bool, body: Body, next: Option<nat>)

  const HEAP_SLOTS := 10000
  const FREE_MIN := 512

  /** `looks_pointerp`. */
  predicate LooksPointer(w: Word, n: nat) {
    w.Ptr? && w.slot < n
  }

  function Candidates(ws: seq<Word>, n: nat): (r: seq<Word>)
    ensures forall w :: w in r <==> w in ws && LooksPointer(w, n)
  {
    if ws == [] then []
    else (if LooksPointer(ws[0], n) then [ws[0]] else []) + Candidates(ws[1..], n)
  }

  function Flatten(es: seq<(Word, Word)>): seq<Word> {
    if es == [] then [] else [es[0].0, es[0].1] + Flatten(es[1..])
  }

  /** What `gc_mark` marks by recursive calls, in order, before it returns or jumps. */
  function Recursive(b: Body, n: nat): seq<Word> {
    match b
    case Node(kind, u1, u2, u3) => (
      match kind
      case Follow123 => [u2, u1]
      case Follow13 => [u1]
      case Follow12 => [u1]
      case Follow23 => [u3]
      case FollowMaybe => Candidates([u1, u2], n)
      case _ => []
    )
    case Class(c, super, m, iv) => [c, super] + m + iv
    case IClass(c, super, iv, m) => [c, super] + iv + m
    case Array(c, elems) => [c] + elems
    case Hash(c, entries) => [c] + Flatten(entries)
    case String(c, orig) => [c]
    case Data(c, dmark) => [c] + dmark
    case Object(c, iv) => [c] + iv
    case Plain(c) => [c]
    case Match(c, str) => [c]
    case Varmap(c, val, next) => [c, val]
    case Scope(c, vars) => [c] + Candidates(vars, n)
    case Struct(c, elems) => [c] + elems
  }

  /** Where `gc_mark` goes by `goto Top` at the end. */
  function Tail(b: Body, n: nat): Option<Word> {
    match b
    case Node(kind, u1, u2, u3) => (
      match kind
      case Follow123 => Some(u3)
      case Follow13 => Some(u3)
      case Follow3 => Some(u3)
      case Follow12 => Some(u2)
      case Follow2 => Some(u2)
      case Follow1 => Some(u1)
      case Follow23 => Some(u2)
      case FollowNone => None
      case FollowMaybe => if LooksPointer(u3, n) then Some(u3) else None
    )
    case String(c, orig) => if orig.Ptr? then Some(orig) else None
    case Match(c, str) => if str.Ptr? then Some(str) else None
    case Varmap(c, val, next) => Some(next)
    case _ => None
  }

  function TailList(b: Body, n: nat): seq<Word> {
    if Tail(b, n).None? then [] else [Tail(b, n).value]
  }

  /** All references the collector follows from a slot. */
  function Kids(b: Body, n: nat): seq<Word> {
    Recursive(b, n) + TailList(b, n)
  }

  /** The fields of a node that its type gives a meaning to; in one of another type, whatever looks like a pointer. */
  predicate NodeRefers(kind: NodeKind, u1: Word, u2: Word, u3: Word, w: Word, n: nat) {
    || (kind in {Follow123, Follow13, Follow12, Follow1} && w == u1)
    || (kind in {Follow123, Follow12, Follow23, Follow2} && w == u2)
    || (kind in {Follow123, Follow13, Follow23, Follow3} && w == u3)
    || (kind == FollowMaybe && w in {u1, u2, u3} && LooksPointer(w, n))
  }

  /**
   * The slot needs what `w` points at, told field by field and in no order: the class of anything but a node, what
   * a container holds, the superclass and the tables of a class, the string or scope behind an object.
   */
  predicate Refers(b: Body, w: Word, n: nat) {
    || (b.Node? && NodeRefers(b.kind, b.u1, b.u2, b.u3, w, n))
    || (!b.Node? && w == b.class_)
    || ((b.Array? || b.Struct?) && w in b.elems)
    || (b.Hash? && exists e :: e in b.entries && w in {e.0, e.1})
    || ((b.Class? || b.IClass?) && (w == b.super || w in b.mTbl))
    || ((b.Class? || b.IClass? || b.Object?) && w in b.ivTbl)
    || (b.String? && w.Ptr? && w == b.orig)
    || (b.Match? && w.Ptr? && w == b.str)
    || (b.Data? && w in b.dmark)
    || (b.Varmap? && w in {b.val, b.next})
    || (b.Scope? && w in b.vars && LooksPointer(w, n))
  }

  lemma {:induction false} Halves(es: seq<(Word, Word)>, w: Word)
    ensures w in Flatten(es) <==> exists e :: e in es && w in {e.0, e.1}
  {
    if es != [] {
      Halves(es[1..], w);
      assert es == [es[0]] + es[1..];
      assert es[0] in es;
    }
  }

  /** The collector follows every reference of a slot, and nothing else. */
  lemma FollowsReferences(b: Body, w: Word, n: nat)
    ensures w in Kids(b, n) <==> Refers(b, w, n)
  {
    match b {
      case Hash(c, entries) => Halves(entries, w);
      case _ =>
    }
  }

  predicate LiveAt(h: seq<Slot>, w: Word) {
    w.Ptr? && w.slot < |h| && h[w.slot].live
  }

  /** A reference whose target, if it is a live slot, is marked. */
  predicate Marked(h: seq<Slot>, w: Word) {
    LiveAt(h, w) ==> h[w.slot].mark
  }

  predicate InRange(w: Word, n: nat) {
    w.Ptr? ==> w.slot < n
  }

  /** Every reference followed from a live slot is an immediate or points at a slot. */
  ghost predicate WellFormed(h: seq<Slot>) {
    forall i :: 0 <= i < |h| && h[i].live ==> forall w :: Refers(h[i].body, w, |h|) ==> InRange(w, |h|)
  }

  /** `b` is `a` with some more mark bits set on live slots. */
  ghost predicate OnlyMarks(a: seq<Slot>, b: seq<Slot>) {
    && |a| == |b|
    && (forall i :: 0 <= i < |a| ==> b[i] == a[i].(mark := b[i].mark))
    && (forall i :: 0 <= i < |a| ==> a[i].mark ==> b[i].mark)
    && (forall i :: 0 <= i < |a| ==> b[i].mark ==> a[i].mark || a[i].live)
  }

  /** What slots marked since `a` refer to is marked, or still in `pending`. */
  ghost predicate DoneExcept(a: seq<Slot>, b: seq<Slot>, pending: seq<Word>)
    requires |a| == |b|
  {
    forall i, w :: 0 <= i < |b| && b[i].mark && !a[i].mark && Refers(b[i].body, w, |b|) ==> Marked(b, w) || w in pending
  }

  /** A set of slots that nothing the collector follows leads out of. */
  ghost predicate ClosedSet(h: seq<Slot>, S: set<nat>) {
    forall i, w :: i in S && i < |h| && Refers(h[i].body, w, |h|) && LiveAt(h, w) ==> w.slot in S
  }

  ghost predicate MarksWithin(h: seq<Slot>, S: set<nat>) {
    forall i :: 0 <= i < |h| && h[i].mark ==> i in S
  }

  lemma OnlyMarksTrans(a: seq<Slot>, b: seq<Slot>, c: seq<Slot>)
    requires OnlyMarks(a, b) && OnlyMarks(b, c)
    ensures OnlyMarks(a, c)
  {
  }

  /** Finishing one pending reference. */
  lemma DoneStep(a: seq<Slot>, b: seq<Slot>, c: seq<Slot>, w0: Word, pending: seq<Word>)
    requires OnlyMarks(a, b) && OnlyMarks(b, c)
    requires DoneExcept(a, b, [w0] + pending) && DoneExcept(b, c, []) && Marked(c, w0)
    ensures DoneExcept(a, c, pending)
  {
    hide Refers;
    forall i, w | 0 <= i < |c| && c[i].mark && !a[i].mark && Refers(c[i].body, w, |c|)
      ensures Marked(c, w) || w in pending
    {
      assert c[i].body == b[i].body;
      if b[i].mark {
        assert Refers(b[i].body, w, |b|);
        assert Marked(b, w) || w == w0 || w in pending;
      } else {
        assert Marked(c, w) || w in [];
      }
    }
  }

  /** Setting one mark makes all references of the slot pending. */
  lemma DoneMark(a: seq<Slot>, b: seq<Slot>, i: nat, obj: Word, c: seq<Slot>)
    requires OnlyMarks(a, b) && DoneExcept(a, b, [obj]) && obj == Ptr(i) && i < |b| && b[i].live
    requires c == b[i := b[i].(mark := true)]
    ensures DoneExcept(a, c, Kids(b[i].body, |b|)) && OnlyMarks(a, c) && OnlyMarks(b, c)
  {
    hide Kids, Refers;
    forall j, w | 0 <= j < |c| && c[j].mark && !a[j].mark && Refers(c[j].body, w, |c|)
      ensures Marked(c, w) || w in Kids(b[i].body, |b|)
    {
      FollowsReferences(b[i].body, w, |b|);
      if j != i {
        assert Marked(b, w) || w in [obj];
      }
    }
  }

  lemma DoneNothing(a: seq<Slot>, obj: Word)
    ensures OnlyMarks(a, a) && DoneExcept(a, a, [obj])
  {
  }

  lemma DoneEnd(a: seq<Slot>, b: seq<Slot>, obj: Word)
    requires |a| == |b| && DoneExcept(a, b, [obj]) && Marked(b, obj)
    ensures DoneExcept(a, b, [])
  {
  }

  lemma KeepsShape(a: seq<Slot>, b: seq<Slot>, S: set<nat>)
    requires OnlyMarks(a, b)
    ensures WellFormed(a) ==> WellFormed(b)
    ensures ClosedSet(a, S) ==> ClosedSet(b, S)
    ensures forall w :: LiveAt(a, w) <==> LiveAt(b, w)
    ensures forall w :: Marked(a, w) ==> Marked(b, w)
  {
    if WellFormed(a) {
      forall i | 0 <= i < |b| && b[i].live
        ensures forall w :: Refers(b[i].body, w, |b|) ==> InRange(w, |b|)
      {
        assert a[i].live;
      }
    }
    if ClosedSet(a, S) {
      forall i, w | i in S && i < |b| && Refers(b[i].body, w, |b|) && LiveAt(b, w)
        ensures w.slot in S
      {
        assert Refers(a[i].body, w, |a|) && LiveAt(a, w);
      }
    }
  }

  ghost function Unmarked(h: seq<Slot>): set<nat> {
    set i | 0 <= i < |h| && !h[i].mark
  }

  lemma UnmarkedShrinks(a: seq<Slot>, b: seq<Slot>)
    requires OnlyMarks(a, b)
    ensures |a| == |b| && Unmarked(b) <= Unmarked(a)
  {
  }

  lemma MarkOne(b: seq<Slot>, i: nat, c: seq<Slot>, S: set<nat>)
    requires i < |b| && b[i].live && !b[i].mark && c == b[i := b[i].(mark := true)]
    requires ClosedSet(b, S) && MarksWithin(b, S) && i in S
    ensures MarksWithin(c, S) && Unmarked(c) < Unmarked(b)
  {
    assert i in Unmarked(b);
  }

  /** The references of a slot in the closed set: all in range, and the live ones in the set. */
  lemma KidsWithin(h: seq<Slot>, i: nat, S: set<nat>)
    requires WellFormed(h) && ClosedSet(h, S) && i < |h| && h[i].live && i in S
    ensures forall w :: Refers(h[i].body, w, |h|) ==> InRange(w, |h|) && (LiveAt(h, w) ==> w.slot in S)
  {
  }

  /** What `Mark` asks of each of a list of references. */
  ghost predicate AllWithin(h: seq<Slot>, ws: seq<Word>, S: set<nat>) {
    forall k :: 0 <= k < |ws| ==> InRange(ws[k], |h|) && (LiveAt(h, ws[k]) ==> ws[k].slot in S)
  }

  lemma AllWithinKept(a: seq<Slot>, b: seq<Slot>, ws: seq<Word>, S: set<nat>)
    requires OnlyMarks(a, b) && AllWithin(a, ws, S)
    ensures AllWithin(b, ws, S)
  {
  }

  /** A root is a reference the collector knows, or a word of the stack or registers that may be one. */
  datatype Root = Exact(w: Word) | Maybe(w: Word)

  /** The references the mark phase starts from. */
  ghost predicate IsRoot(roots: seq<Root>, w: Word, n: nat) {
    Exact(w) in roots || (Maybe(w) in roots && LooksPointer(w, n))
  }

  ghost predicate RootsInRange(roots: seq<Root>, n: nat) {
    forall w :: Exact(w) in roots ==> InRange(w, n)
  }

  /** A path of live slots from a root along followed references. */
  ghost predicate IsPath(h: seq<Slot>, roots: seq<Root>, p: seq<nat>) {
    && p != []
    && (forall k :: 0 <= k < |p| ==> LiveAt(h, Ptr(p[k])))
    && IsRoot(roots, Ptr(p[0]), |h|)
    && (forall k :: 0 <= k < |p| - 1 ==> Refers(h[p[k]].body, Ptr(p[k + 1]), |h|))
  }

  ghost predicate Reachable(h: seq<Slot>, roots: seq<Root>, i: nat) {
    exists p :: IsPath(h, roots, p) && p[|p| - 1] == i
  }

  ghost function ReachSet(h: seq<Slot>, roots: seq<Root>): set<nat> {
    set i | 0 <= i < |h| && Reachable(h, roots, i)
  }

  lemma ReachSetClosed(h: seq<Slot>, roots: seq<Root>)
    ensures ClosedSet(h, ReachSet(h, roots))
  {
    var S := ReachSet(h, roots);
    forall i, w | i in S && i < |h| && Refers(h[i].body, w, |h|) && LiveAt(h, w)
      ensures w.slot in S
    {
      var p :| IsPath(h, roots, p) && p[|p| - 1] == i;
      ExtendPath(h, roots, p, w);
    }
  }

  lemma ExtendPath(h: seq<Slot>, roots: seq<Root>, p: seq<nat>, w: Word)
    requires IsPath(h, roots, p) && LiveAt(h, w) && Refers(h[p[|p| - 1]].body, w, |h|)
    ensures Reachable(h, roots, w.slot)
  {
    hide Refers;
    var q := p + [w.slot];
    assert IsPath(h, roots, q) by {
      forall k | 0 <= k < |q| - 1
        ensures Refers(h[q[k]].body, Ptr(q[k + 1]), |h|)
      {
        if k < |p| - 1 { assert Refers(h[p[k]].body, Ptr(p[k + 1]), |h|); }
      }
    }
    assert q[|q| - 1] == w.slot;
  }

  lemma RootReachable(h: seq<Slot>, roots: seq<Root>, w: Word)
    requires IsRoot(roots, w, |h|) && LiveAt(h, w)
    ensures w.slot in ReachSet(h, roots)
  {
    assert IsPath(h, roots, [w.slot]);
    assert [w.slot][|[w.slot]| - 1] == w.slot;
  }

  ghost predicate NoMarks(h: seq<Slot>) {
    forall i :: 0 <= i < |h| ==> !h[i].mark
  }

  /** Once the roots are marked and nothing is pending, every slot on a path is marked. */
  lemma {:induction false} PathMarked(a: seq<Slot>, b: seq<Slot>, roots: seq<Root>, p: seq<nat>)
    requires NoMarks(a) && OnlyMarks(a, b) && DoneExcept(a, b, []) && IsPath(a, roots, p)
    requires forall w :: IsRoot(roots, w, |a|) ==> Marked(b, w)
    ensures b[p[|p| - 1]].mark
    decreases |p|
  {
    hide Refers;
    var k := |p| - 1;
    assert LiveAt(a, Ptr(p[k]));
    if k == 0 {
      assert Marked(b, Ptr(p[0]));
    } else {
      assert IsPath(a, roots, p[..k]);
      PathMarked(a, b, roots, p[..k]);
      assert Refers(a[p[k - 1]].body, Ptr(p[k - 1 + 1]), |a|);
      assert LiveAt(a, Ptr(p[k - 1]));
      assert Marked(b, Ptr(p[k]));
    }
  }

  /** The mark phase marks exactly what is reachable. */
  lemma MarkedIffReachable(a: seq<Slot>, b: seq<Slot>, roots: seq<Root>)
    requires NoMarks(a) && OnlyMarks(a, b) && DoneExcept(a, b, []) && MarksWithin(b, ReachSet(a, roots))
    requires forall w :: IsRoot(roots, w, |a|) ==> Marked(b, w)
    ensures forall i :: 0 <= i < |b| ==> (b[i].mark <==> Reachable(a, roots, i))
  {
    forall i | 0 <= i < |b| && Reachable(a, roots, i)
      ensures b[i].mark
    {
      var p :| IsPath(a, roots, p) && p[|p| - 1] == i;
      PathMarked(a, b, roots, p);
    }
  }

  function At(free: seq<nat>, k: nat): Option<nat> {
    if k < |free| then Some(free[k]) else None
  }

  /** The free list starting at `head` runs through the slots `free`, in this order and each once. */
  ghost predicate FreeChain(h: seq<Slot>, head: Option<nat>, free: seq<nat>) {
    && NoDuplicates(free)
    && (forall k :: 0 <= k < |free| ==> free[k] < |h| && !h[free[k]].live)
    && head == At(free, 0)
    && (forall k :: 0 <= k < |free| ==> h[free[k]].next == At(free, k + 1))
  }

  /** Putting a slot in front of the free list. */
  lemma ChainPush(h: seq<Slot>, head: Option<nat>, free: seq<nat>, p: nat, s: Slot)
    requires FreeChain(h, head, free) && p < |h| && p !in free && !s.live && s.next == head
    ensures FreeChain(h[p := s], Some(p), [p] + free)
  {
    var h', free' := h[p := s], [p] + free;
    forall k | 0 <= k < |free'|
      ensures h'[free'[k]].next == At(free', k + 1)
    {
      if k > 0 { assert free[k - 1] in free; }
    }
  }

  /** Slots off the list can change. */
  lemma ChainKept(h: seq<Slot>, head: Option<nat>, free: seq<nat>, p: nat, s: Slot)
    requires FreeChain(h, head, free) && p < |h| && p !in free
    ensures FreeChain(h[p := s], head, free)
  {
    assert forall k :: 0 <= k < |free| ==> free[k] in free;
  }

  lemma ChainLonger(h: seq<Slot>, head: Option<nat>, free: seq<nat>, more: seq<Slot>)
    requires FreeChain(h, head, free)
    ensures FreeChain(h + more, head, free)
  {
  }

  /** With more slots only more words look like pointers. */
  lemma RefersGrow(b: Body, n: nat, n': nat, w: Word)
    requires n <= n' && Refers(b, w, n')
    ensures Refers(b, w, n) || LooksPointer(w, n')
  {
  }

  lemma WellFormedGrow(h: seq<Slot>, h': seq<Slot>)
    requires WellFormed(h) && |h| <= |h'|
    requires forall i :: 0 <= i < |h'| && h'[i].live ==> i < |h| && h[i].live && h'[i].body == h[i].body
    ensures WellFormed(h')
  {
    forall i, w | 0 <= i < |h'| && h'[i].live && Refers(h'[i].body, w, |h'|)
      ensures InRange(w, |h'|)
    {
      RefersGrow(h[i].body, |h|, |h'|, w);
    }
  }

  class Gc {
    var slots: seq<Slot>
    var heapsUsed: nat
    var freelist: Option<nat>
    var dontGc: nat
    /** The slots on the free list, first to last. */
    ghost var free: seq<nat>

    ghost predicate Valid()
      reads this
    {
      && |slots| == heapsUsed * HEAP_SLOTS
      && WellFormed(slots) && NoMarks(slots)
      && FreeChain(slots, freelist, free)
    }

    /** `gc_mark`: marks what is reachable from `obj0` through unmarked slots. `S` is any closed set around it. */
    method Mark(obj0: Word, ghost S: set<nat>)
      requires WellFormed(slots) && AllWithin(slots, [obj0], S)
      requires ClosedSet(slots, S) && MarksWithin(slots, S)
      modifies this`slots
      ensures OnlyMarks(old(slots), slots) && DoneExcept(old(slots), slots, []) && Marked(slots, obj0)
      ensures MarksWithin(slots, S)
      decreases Unmarked(slots), 0
    {
      hide WellFormed, OnlyMarks, DoneExcept, ClosedSet, MarksWithin, AllWithin, Kids, Refers, Recursive, Tail, TailList,
        Unmarked;
      ghost var a := slots;
      var obj := obj0;
      DoneNothing(a, obj);
      while true
        invariant WellFormed(slots) && AllWithin(slots, [obj], S)
        invariant ClosedSet(slots, S) && MarksWithin(slots, S)
        invariant OnlyMarks(a, slots) && |a| == |slots| && DoneExcept(a, slots, [obj])
        invariant Marked(slots, obj0) || obj == obj0
        decreases Unmarked(slots)
      {
        UnmarkedShrinks(a, slots);
        ThisWithin(slots, obj, S);
        if obj.Immediate? { DoneEnd(a, slots, obj); return; }
        var i := obj.slot;
        if !slots[i].live { DoneEnd(a, slots, obj); return; }
        if slots[i].mark { DoneEnd(a, slots, obj); return; }
        ghost var b := slots;
        slots := slots[i := slots[i].(mark := true)];
        DoneMark(a, b, i, obj, slots);
        MarkOne(b, i, slots, S);
        KeepsShape(b, slots, S);
        var body := slots[i].body;
        var tail := Tail(body, |slots|);
        KidsOfSlot(slots, i, S);
        ghost var c := slots;
        MarkAll(Recursive(body, |slots|), TailList(body, |slots|), a, S);
        KeepsShape(c, slots, S);
        UnmarkedShrinks(c, slots);
        MarkedStays(c, slots, obj);
        OnlyMarksTrans(b, c, slots);
        MarkedStays(b, slots, obj0);
        TailCases(body, |slots|);
        if tail.None? { return; }
        AllWithinKept(c, slots, [tail.value], S);
        obj := tail.value;
      }
    }

    /** The loops of `gc_mark` over the elements of a slot, and over a list of roots. */
    method MarkAll(ws: seq<Word>, ghost rest: seq<Word>, ghost a: seq<Slot>, ghost S: set<nat>)
      requires WellFormed(slots) && AllWithin(slots, ws, S)
      requires ClosedSet(slots, S) && MarksWithin(slots, S)
      requires OnlyMarks(a, slots) && DoneExcept(a, slots, ws + rest)
      modifies this`slots
      ensures OnlyMarks(old(slots), slots) && OnlyMarks(a, slots) && DoneExcept(a, slots, rest)
      ensures forall w :: w in ws ==> Marked(slots, w)
      ensures MarksWithin(slots, S)
      decreases Unmarked(slots), 1
    {
      hide WellFormed, OnlyMarks, DoneExcept, ClosedSet, MarksWithin, AllWithin, Kids, Refers, Unmarked;
      ghost var s0 := slots;
      DoneNothing(s0, Immediate);
      UnmarkedShrinks(a, slots);
      var k := 0;
      assert ws[0..] + rest == ws + rest;
      while k < |ws|
        invariant 0 <= k <= |ws|
        invariant WellFormed(slots) && AllWithin(slots, ws, S)
        invariant ClosedSet(slots, S) && MarksWithin(slots, S)
        invariant OnlyMarks(s0, slots) && OnlyMarks(a, slots)
        invariant |a| == |slots| && DoneExcept(a, slots, ws[k..] + rest)
        invariant forall j :: 0 <= j < k ==> Marked(slots, ws[j])
      {
        ghost var b := slots;
        UnmarkedShrinks(s0, slots);
        UnmarkedShrinks(a, slots);
        OneWithin(slots, ws, k, S);
        Mark(ws[k], S);
        assert ws[k..] + rest == [ws[k]] + (ws[k + 1..] + rest);
        DoneStep(a, b, slots, ws[k], ws[k + 1..] + rest);
        OnlyMarksTrans(a, b, slots);
        OnlyMarksTrans(s0, b, slots);
        KeepsShape(b, slots, S);
        UnmarkedShrinks(a, slots);
        AllWithinKept(b, slots, ws, S);
        k := k + 1;
      }
      assert ws[k..] + rest == rest;
    }

    /** The part of `gc` that marks everything it starts from. */
    method MarkRoots(roots: seq<Root>)
      requires WellFormed(slots) && NoMarks(slots) && RootsInRange(roots, |slots|)
      modifies this`slots
      ensures OnlyMarks(old(slots), slots)
      ensures forall i :: 0 <= i < |slots| ==> (slots[i].mark <==> Reachable(old(slots), roots, i))
    {
      hide WellFormed, OnlyMarks, DoneExcept, ClosedSet, MarksWithin, AllWithin, Kids, Refers, Unmarked, ReachSet;
      ghost var a := slots;
      ghost var S := ReachSet(a, roots);
      ReachSetClosed(a, roots);
      DoneNothing(a, Immediate);
      NothingMarked(a, S);
      DoneEnd(a, a, Immediate);
      var k := 0;
      while k < |roots|
        invariant 0 <= k <= |roots|
        invariant |slots| == |a| && WellFormed(slots)
        invariant ClosedSet(slots, S) && MarksWithin(slots, S)
        invariant OnlyMarks(a, slots) && DoneExcept(a, slots, [])
        invariant forall j :: 0 <= j < k && (roots[j].Exact? || LooksPointer(roots[j].w, |a|)) ==> Marked(slots, roots[j].w)
      {
        ghost var b := slots;
        var w := roots[k].w;
        UnmarkedShrinks(a, slots);
        if roots[k].Exact? || LooksPointer(w, |slots|) {
          RootWithin(a, b, roots, k);
          Mark(w, S);
          DoneMore(a, b, slots);
          OnlyMarksTrans(a, b, slots);
          KeepsShape(b, slots, S);
          UnmarkedShrinks(b, slots);
        }
        k := k + 1;
      }
      AllRootsMarked(roots, slots, |a|);
      MarkedIffReachable(a, slots, roots);
    }

    /** `add_heap`: a new heap of slots, all put on the free list. */
    method AddHeap()
      requires |slots| == heapsUsed * HEAP_SLOTS && FreeChain(slots, freelist, free)
      modifies this`slots, this`heapsUsed, this`freelist, this`free
      ensures |slots| == heapsUsed * HEAP_SLOTS && |slots| == old(|slots|) + HEAP_SLOTS
      ensures slots[..old(|slots|)] == old(slots)
      ensures forall i :: old(|slots|) <= i < |slots| ==> !slots[i].live && !slots[i].mark
      ensures FreeChain(slots, freelist, free) && free != []
      ensures forall i :: i in free <==> i in old(free) || old(|slots|) <= i < |slots|
    {
      hide FreeChain;
      var p := |slots|;
      ghost var n, free0 := p, free;
      ghost var before := slots;
      ChainInRange(slots, freelist, free);
      // the words of a fresh heap are unspecified; each slot is written before it is linked
      var uninit := Slot(false, false, Plain(Immediate), None);
      ChainLonger(slots, freelist, free, seq(HEAP_SLOTS, _ => uninit));
      slots := slots + seq(HEAP_SLOTS, _ => uninit);
      heapsUsed := heapsUsed + 1;
      var pend := p + HEAP_SLOTS;
      while p < pend
        modifies this`slots, this`freelist, this`free
        invariant n <= p <= pend == |slots|
        invariant slots[..n] == before
        invariant forall i :: n <= i < |slots| ==> !slots[i].live && !slots[i].mark
        invariant FreeChain(slots, freelist, free)
        invariant forall i :: i in free <==> i in free0 || n <= i < p
      {
        var s := slots[p].(live := false, next := freelist);
        ChainPush(slots, freelist, free, p, s);
        slots := slots[p := s];
        freelist := Some(p);
        free := [p] + free;
        p := p + 1;
      }
      assert n in free;
    }

    /** What the sweep leaves of a slot. */
    ghost predicate SweptTo(a: seq<Slot>, p: nat)
      requires p <= |a|
      reads this
    {
      && |slots| == |a| && slots[p..] == a[p..]
      && (forall i :: 0 <= i < p ==> if a[i].mark then slots[i] == a[i].(mark := false) else !slots[i].live && !slots[i].mark)
      && FreeChain(slots, freelist, free)
      && (forall i :: i in free <==> 0 <= i < p && !a[i].mark)
    }

    /** One slot of the sweep. */
    method SweepSlot(p: nat, ghost a: seq<Slot>) returns (freed: nat)
      requires p < |a| && SweptTo(a, p)
      modifies this`slots, this`freelist, this`free
      ensures SweptTo(a, p + 1)
      ensures |free| == old(|free|) + freed
    {
      assert slots[p] == slots[p..][0] == a[p];
      ghost var h := slots;
      if !slots[p].mark {
        var s := slots[p].(live := false, mark := false, next := freelist);
        ChainPush(slots, freelist, free, p, s);
        slots := slots[p := s];
        freelist := Some(p);
        free := [p] + free;
        freed := 1;
      } else {
        var s := slots[p].(mark := false);
        ChainKept(slots, freelist, free, p, s);
        slots := slots[p := s];
        freed := 0;
      }
      assert slots[p + 1..] == h[p..][1..] == a[p + 1..];
    }

    /** `gc_sweep`: rebuilds the free list from the unmarked slots, heap by heap, and clears the marks. */
    method Sweep()
      requires |slots| == heapsUsed * HEAP_SLOTS
      modifies this`slots, this`heapsUsed, this`freelist, this`free
      ensures |slots| == heapsUsed * HEAP_SLOTS && |slots| >= old(|slots|)
      ensures forall i :: 0 <= i < old(|slots|) && old(slots)[i].mark ==> slots[i] == old(slots)[i].(mark := false)
      ensures forall i :: 0 <= i < |slots| && !(i < old(|slots|) && old(slots)[i].mark) ==> !slots[i].live && !slots[i].mark
      ensures FreeChain(slots, freelist, free) && free != []
      ensures forall i :: i in free <==> 0 <= i < |slots| && !(i < old(|slots|) && old(slots)[i].mark)
    {
      hide FreeChain;
      ghost var a := slots;
      freelist := None;
      free := [];
      ChainEmpty(slots);
      var freed := 0;
      var i := 0;
      while i < heapsUsed
        invariant 0 <= i <= heapsUsed && heapsUsed * HEAP_SLOTS == |a|
        invariant i * HEAP_SLOTS <= |a| && SweptTo(a, i * HEAP_SLOTS)
        invariant freed == |free|
      {
        var n := 0;
        var p := i * HEAP_SLOTS;
        var pend := p + HEAP_SLOTS;
        while p < pend
          invariant pend - HEAP_SLOTS <= p <= pend <= |a| && heapsUsed * HEAP_SLOTS == |a|
          invariant SweptTo(a, p)
          invariant freed + n == |free|
        {
          var k := SweepSlot(p, a);
          n := n + k;
          p := p + 1;
        }
        freed := freed + n;
        i := i + 1;
      }
      ghost var swept := slots;
      if freed < FREE_MIN {
        AddHeap();
        assert forall j :: 0 <= j < |a| ==> slots[j] == slots[..|a|][j] == swept[j];
      }
    }

    /** `gc`, without finalizers: keeps what is reachable, frees the rest, and leaves something on the free list. */
    method Collect(roots: seq<Root>)
      requires Valid() && RootsInRange(roots, |slots|)
      modifies this
      ensures Valid() && dontGc == old(dontGc) && |slots| >= old(|slots|)
      ensures old(dontGc) > 0 ==> slots == old(slots) && freelist == old(freelist) && free == old(free)
      ensures old(dontGc) == 0 ==>
        && free != []
        && (forall i :: 0 <= i < old(|slots|) && Reachable(old(slots), roots, i) ==> slots[i] == old(slots)[i])
        && (forall i :: 0 <= i < |slots| ==> (i in free <==> !(i < old(|slots|) && Reachable(old(slots), roots, i))))
        && (forall i :: i in free ==> !slots[i].live)
    {
      hide WellFormed, FreeChain, OnlyMarks, Reachable;
      if dontGc > 0 { return; }
      dontGc := dontGc + 1;
      ghost var a := slots;
      MarkRoots(roots);
      ghost var b := slots;
      MarkedShape(a, b);
      Sweep();
      assert forall i :: 0 <= i < |slots| && slots[i].live ==> i < |b| && b[i].mark;
      WellFormedGrow(a, slots);
      assert forall i :: i in free ==> 0 <= i < |slots| && !slots[i].live;
      dontGc := dontGc - 1;
    }

    /** `rb_newobj`: the first free slot, after a collection or a new heap when there is none. */
    method NewObj(roots: seq<Root>) returns (obj: nat)
      requires Valid() && RootsInRange(roots, |slots|)
      modifies this
      ensures Valid() && dontGc == old(dontGc)
      ensures obj < |slots| && !slots[obj].live && obj !in free
      ensures obj in old(free) || old(free) == []
      ensures |slots| >= old(|slots|)
      ensures forall i :: 0 <= i < old(|slots|) && Reachable(old(slots), roots, i) ==> slots[i] == old(slots)[i] && i != obj
      ensures old(free) != [] ==> slots == old(slots)
    {
      hide WellFormed, Reachable, FreeChain;
      ReachableLive(slots, roots);
      HeadOfChain(slots, freelist, free);
      if freelist.None? {
        if dontGc > 0 {
          ghost var a := slots;
          AddHeap();
          assert forall i :: 0 <= i < |a| ==> slots[i] == slots[..|a|][i] == a[i];
          WellFormedGrow(a, slots);
        } else {
          Collect(roots);
        }
      }
      HeadOfChain(slots, freelist, free);
      ChainPop(slots, freelist, free);
      obj := freelist.value;
      freelist := slots[obj].next;
      free := free[1..];
    }
  }

  lemma HeadOfChain(h: seq<Slot>, head: Option<nat>, free: seq<nat>)
    requires FreeChain(h, head, free)
    ensures head.None? <==> free == []
    ensures free != [] ==> head == Some(free[0]) && free[0] < |h| && !h[free[0]].live
  {
  }

  lemma ChainPop(h: seq<Slot>, head: Option<nat>, free: seq<nat>)
    requires FreeChain(h, head, free) && free != []
    ensures FreeChain(h, h[free[0]].next, free[1..]) && free[0] !in free[1..]
  {
    var rest := free[1..];
    forall k | 0 <= k < |rest|
      ensures h[rest[k]].next == At(rest, k + 1)
    {
      var j := k + 1;
      assert h[free[j]].next == At(free, j + 1);
    }
  }

  lemma ReachableLive(h: seq<Slot>, roots: seq<Root>)
    ensures forall i :: 0 <= i < |h| && Reachable(h, roots, i) ==> h[i].live
  {
    forall i | 0 <= i < |h| && Reachable(h, roots, i)
      ensures h[i].live
    {
      var p :| IsPath(h, roots, p) && p[|p| - 1] == i;
      assert LiveAt(h, Ptr(p[|p| - 1]));
    }
  }

  lemma MarkedShape(a: seq<Slot>, b: seq<Slot>)
    requires OnlyMarks(a, b) && NoMarks(a)
    ensures |a| == |b| && forall i :: 0 <= i < |a| ==> b[i].(mark := false) == a[i] && (b[i].mark ==> a[i].live)
  {
  }

  lemma ChainInRange(h: seq<Slot>, head: Option<nat>, free: seq<nat>)
    requires FreeChain(h, head, free)
    ensures forall i :: i in free ==> 0 <= i < |h|
  {
  }

  lemma ChainEmpty(h: seq<Slot>)
    ensures FreeChain(h, None, [])
  {
  }

  lemma NothingMarked(a: seq<Slot>, S: set<nat>)
    requires NoMarks(a)
    ensures MarksWithin(a, S)
  {
  }

  lemma RootWithin(a: seq<Slot>, b: seq<Slot>, roots: seq<Root>, k: nat)
    requires k < |roots| && RootsInRange(roots, |a|) && OnlyMarks(a, b)
    requires roots[k].Exact? || LooksPointer(roots[k].w, |a|)
    ensures AllWithin(b, [roots[k].w], ReachSet(a, roots))
    ensures IsRoot(roots, roots[k].w, |a|)
  {
    assert roots[k] in roots;
    var w := roots[k].w;
    if LiveAt(a, w) { RootReachable(a, roots, w); }
  }

  lemma AllRootsMarked(roots: seq<Root>, h: seq<Slot>, n: nat)
    requires forall j :: 0 <= j < |roots| && (roots[j].Exact? || LooksPointer(roots[j].w, n)) ==> Marked(h, roots[j].w)
    ensures forall w :: IsRoot(roots, w, n) ==> Marked(h, w)
  {
    forall w | IsRoot(roots, w, n)
      ensures Marked(h, w)
    {
      if Exact(w) in roots {
        var j :| 0 <= j < |roots| && roots[j] == Exact(w);
        assert roots[j].w == w;
      } else {
        var j :| 0 <= j < |roots| && roots[j] == Maybe(w);
        assert roots[j].w == w;
      }
    }
  }

  lemma DoneMore(a: seq<Slot>, b: seq<Slot>, c: seq<Slot>)
    requires OnlyMarks(a, b) && OnlyMarks(b, c) && DoneExcept(a, b, []) && DoneExcept(b, c, [])
    ensures |a| == |c| && DoneExcept(a, c, [])
  {
    forall i, w | 0 <= i < |c| && c[i].mark && !a[i].mark && Refers(c[i].body, w, |c|)
      ensures Marked(c, w)
    {
      if b[i].mark {
        assert Refers(b[i].body, w, |b|);
        assert Marked(b, w);
      }
    }
  }

  lemma ThisWithin(h: seq<Slot>, w: Word, S: set<nat>)
    requires AllWithin(h, [w], S)
    ensures InRange(w, |h|) && (LiveAt(h, w) ==> w.slot in S)
  {
    assert [w][0] == w;
  }

  lemma OneWithin(h: seq<Slot>, ws: seq<Word>, k: nat, S: set<nat>)
    requires AllWithin(h, ws, S) && k < |ws|
    ensures AllWithin(h, [ws[k]], S)
  {
  }

  lemma MarkedStays(a: seq<Slot>, b: seq<Slot>, w: Word)
    requires OnlyMarks(a, b)
    ensures Marked(a, w) ==> Marked(b, w)
  {
  }

  lemma KidsOfSlot(h: seq<Slot>, i: nat, S: set<nat>)
    requires WellFormed(h) && ClosedSet(h, S) && i < |h| && h[i].live && i in S
    ensures AllWithin(h, Recursive(h[i].body, |h|), S)
    ensures Tail(h[i].body, |h|).Some? ==> AllWithin(h, [Tail(h[i].body, |h|).value], S)
    ensures Kids(h[i].body, |h|) == Recursive(h[i].body, |h|) + TailList(h[i].body, |h|)
  {
    hide Recursive, Tail, Refers;
    KidsWithin(h, i, S);
    var rec := Recursive(h[i].body, |h|);
    forall k | 0 <= k < |rec|
      ensures Refers(h[i].body, rec[k], |h|)
    {
      FollowsReferences(h[i].body, rec[k], |h|);
    }
    if Tail(h[i].body, |h|).Some? {
      FollowsReferences(h[i].body, Tail(h[i].body, |h|).value, |h|);
    }
  }

  lemma TailCases(b: Body, n: nat)
    ensures Tail(b, n).None? ==> TailList(b, n) == []
    ensures Tail(b, n).Some? ==> TailList(b, n) == [Tail(b, n).value]
  {
    hide Tail;
  }
}
