/** Where the matches of a pattern without loops end, in the order in which its choices are tried. */
module RegexEnds {
  import opened RegexSets
  import opened RegexTree
  import opened RegexPath
  import opened RegexComplete

  /** The ends of the matches from `i` on, first choices first; -1 stands for a choice that does not match. */
  function Ends(re: Re, s: seq<byte>, i: nat): (es: seq<int>)
    ensures forall k :: 0 <= k < |es| ==> es[k] >= -1
    decreases re, 0
  {
    match re
    case Group(_, body) => Ends(body, s, i)
    case Rep(r, _) => Ends(r, s, i) + [i]
    case Cat(l, r) => Then(Ends(l, s, i), r, s)
    case Alt(l, r) => Ends(l, s, i) + Ends(r, s, i)
    case _ => if i <= |s| && OneMatches(re, s, i) then [i + Length(re)] else [-1]
  }

  /** From each end on with another pattern. */
  function Then(es: seq<int>, r: Re, s: seq<byte>): (fs: seq<int>)
    requires forall k :: 0 <= k < |es| ==> es[k] >= -1
    ensures forall k :: 0 <= k < |fs| ==> fs[k] >= -1
    decreases r, 1, |es|
  {
    if es == [] then [] else (if es[0] < 0 then [-1] else Ends(r, s, es[0])) + Then(es[1..], r, s)
  }

  /** How many characters a single command takes. */
  function Length(re: Re): nat {
    match re
    case Run(ls) => |ls|
    case Any => 1
    case Set(_, _, _) => 1
    case _ => 0
  }

  predicate OneMatches(re: Re, s: seq<byte>, i: nat)
    requires i <= |s|
  {
    match re
    case Run(ls) => i + |ls| <= |s| && s[i..i + |ls|] == Chars(ls)
    case Any => i < |s| && s[i] != NEWLINE
    case Set(neg, items, _) => i < |s| && InItems(items, s[i]) != neg
    case Bol => AtBol(s, i)
    case Eol => AtEol(s, i)
    case _ => true
  }

  // ---- the code comes to these ends in this order

  /** On from each end with the code at `pc`. */
  function Onward(es: seq<int>, code: seq<byte>, s: seq<byte>, pc: nat): seq<int> {
    if es == [] then [] else OnFrom(es[0], code, s, pc) + Onward(es[1..], code, s, pc)
  }

  /** On from one end. */
  function OnFrom(e: int, code: seq<byte>, s: seq<byte>, pc: nat): seq<int> {
    if e < 0 then [-1] else Leaves(code, s, At(pc, e))
  }

  lemma OnwardStep(es: seq<int>, code: seq<byte>, s: seq<byte>, pc: nat)
    requires es != []
    ensures Onward(es, code, s, pc) == OnFrom(es[0], code, s, pc) + Onward(es[1..], code, s, pc)
  {
    hide Leaves;
  }

  lemma {:induction false} OnwardPlus(es: seq<int>, fs: seq<int>, code: seq<byte>, s: seq<byte>, pc: nat)
    ensures Onward(es + fs, code, s, pc) == Onward(es, code, s, pc) + Onward(fs, code, s, pc)
  {
    if es == [] {
      assert es + fs == fs;
    } else {
      hide Onward, OnFrom;
      var x, y, z := OnFrom(es[0], code, s, pc), Onward(es[1..], code, s, pc), Onward(fs, code, s, pc);
      OnwardPlus(es[1..], fs, code, s, pc);
      OnwardStep(es, code, s, pc);
      OnwardMore(es, fs, code, s, pc);
      Assoc(x, y, z);
    }
  }

  lemma OnwardMore(es: seq<int>, fs: seq<int>, code: seq<byte>, s: seq<byte>, pc: nat)
    requires es != []
    ensures Onward(es + fs, code, s, pc) == OnFrom(es[0], code, s, pc) + Onward(es[1..] + fs, code, s, pc)
  {
    hide Onward, OnFrom;
    OnwardStep(es + fs, code, s, pc);
    assert (es + fs)[1..] == es[1..] + fs;
  }

  lemma Assoc(x: seq<int>, y: seq<int>, z: seq<int>)
    ensures x + (y + z) == x + y + z
  {
  }

  lemma OnwardOne(e: int, code: seq<byte>, s: seq<byte>, pc: nat)
    ensures Onward([e], code, s, pc) == if e < 0 then [-1] else Leaves(code, s, At(pc, e))
  {
    hide Leaves;
    assert [e][1..] == [];
  }

  lemma LeavesSame(code: seq<byte>, s: seq<byte>, c: Config, c': Config)
    requires c.pc < |code| && c'.pc > c.pc && Succ(code, s, c) == [c']
    ensures Leaves(code, s, c) == Leaves(code, s, c')
  {
    hide Succ;
  }

  lemma LeavesNone(code: seq<byte>, s: seq<byte>, c: Config)
    requires c.pc < |code| && Succ(code, s, c) == []
    ensures Leaves(code, s, c) == [-1]
  {
    hide Succ;
  }

  lemma LeavesChoice(code: seq<byte>, s: seq<byte>, c: Config, c1: Config, c2: Config)
    requires c.pc < |code| && c1.pc > c.pc && c2.pc > c.pc && Succ(code, s, c) == [c1, c2]
    ensures Leaves(code, s, c) == Leaves(code, s, c1) + Leaves(code, s, c2)
  {
    hide Succ;
  }

  lemma HoldsBound(code: seq<byte>, a: nat, g: seq<byte>)
    requires Holds(code, a, g)
    ensures a + |g| <= |code|
  {
  }

  lemma {:induction false} JumpLeaves(l: Re, r: Re, code: seq<byte>, a: nat, s: seq<byte>, i: nat)
    requires Holds(code, a, Gen(Alt(l, r))) && Short(Alt(l, r))
    ensures Leaves(code, s, At(a + 3 + |Gen(l)|, i)) == Leaves(code, s, At(a + |Gen(Alt(l, r))|, i))
    decreases r
  {
    hide Holds, JumpCode, Succ, Leaves, Gen;
    AltParts(code, a, l, r);
    AltLength(l, r);
    HoldsBound(code, a, Gen(Alt(l, r)));
    var m := a + 3 + |Gen(l)|;
    SuccJump(code, s, m, i, JUMP, JumpDistance(r));
    LeavesSame(code, s, At(m, i), At(m + 3 + JumpDistance(r), i));
    if r.Alt? {
      AltLength(r.first, r.second);
      JumpLeaves(r.first, r.second, code, m + 3, s, i);
    }
  }

  lemma {:induction false} JumpsOnward(es: seq<int>, l: Re, r: Re, code: seq<byte>, a: nat, s: seq<byte>)
    requires Holds(code, a, Gen(Alt(l, r))) && Short(Alt(l, r))
    ensures Onward(es, code, s, a + 3 + |Gen(l)|) == Onward(es, code, s, a + |Gen(Alt(l, r))|)
  {
    hide Holds, Leaves, Gen, Short;
    if es != [] {
      if es[0] >= 0 { JumpLeaves(l, r, code, a, s, es[0]); }
      JumpsOnward(es[1..], l, r, code, a, s);
    }
  }

  lemma LeafLeaves(re: Re, code: seq<byte>, a: nat, s: seq<byte>, i: nat)
    requires re.Run? || re.Any? || re.Set? || re.Bol? || re.Eol?
    requires Holds(code, a, Gen(re)) && Sized(re) && i <= |s|
    ensures Leaves(code, s, At(a, i)) == Onward(Ends(re, s, i), code, s, a + |Gen(re)|)
  {
    hide Holds, Succ, Leaves, Chars, InItems, BitOf, Onward, AtBol, AtEol;
    HoldsBound(code, a, Gen(re));
    match re {
      case Run(ls) => SuccRun(code, s, a, i, ls);
      case Set(neg, items, bits) => SuccSet(code, s, a, i, neg, items, bits);
      case _ => SuccSingle(code, s, a, i, re);
    }
    var e := At(a + |Gen(re)|, i + Length(re));
    if OneMatches(re, s, i) {
      assert Succ(code, s, At(a, i)) == [e];
      LeavesSame(code, s, At(a, i), e);
      OnwardOne(i + Length(re), code, s, e.pc);
    } else {
      LeavesNone(code, s, At(a, i));
      OnwardOne(-1, code, s, e.pc);
    }
  }

  lemma EmptyOnward(code: seq<byte>, a: nat, s: seq<byte>, i: nat)
    requires i <= |s|
    ensures Leaves(code, s, At(a, i)) == Onward(Ends(Empty, s, i), code, s, a + |Gen(Empty)|)
  {
    hide Leaves, Onward;
    OnwardOne(i, code, s, a);
  }

  /** The ends stay inside the string. */
  ghost predicate Inside(es: seq<int>, s: seq<byte>) {
    forall k :: 0 <= k < |es| ==> -1 <= es[k] <= |s|
  }

  lemma {:induction false} EndsInsideString(re: Re, s: seq<byte>, i: nat)
    requires i <= |s|
    ensures Inside(Ends(re, s, i), s)
    decreases re, 0
  {
    hide Chars, InItems, AtBol, AtEol, Then;
    match re
    case Group(_, body) => EndsInsideString(body, s, i);
    case Rep(r, _) => EndsInsideString(r, s, i);
    case Cat(l, r) =>
      EndsInsideString(l, s, i);
      ThenInside(Ends(l, s, i), r, s);
    case Alt(l, r) =>
      EndsInsideString(l, s, i);
      EndsInsideString(r, s, i);
    case _ =>
  }

  lemma {:induction false} ThenInside(es: seq<int>, r: Re, s: seq<byte>)
    requires Inside(es, s)
    ensures Inside(Then(es, r, s), s)
    decreases r, 1, |es|
  {
    hide Ends;
    if es != [] {
      if es[0] >= 0 { EndsInsideString(r, s, es[0]); }
      ThenInside(es[1..], r, s);
    }
  }

  /** The code of a tree goes on from the ends of the tree, in their order. */
  lemma {:induction false} LeavesAre(re: Re, code: seq<byte>, a: nat, s: seq<byte>, i: nat)
    requires Holds(code, a, Gen(re)) && Sized(re) && Short(re) && Loopless(re) && i <= |s|
    ensures Leaves(code, s, At(a, i)) == Onward(Ends(re, s, i), code, s, a + |Gen(re)|)
    decreases re, 1, 0
  {
    hide Holds, Succ, Leaves, Gen, Short, Onward, ManyOk, ZeroOk, Ends;
    match re
    case Empty => EmptyOnward(code, a, s, i);
    case Group(n, body) => GroupLeaves(n, body, code, a, s, i);
    case Cat(l, r) => CatLeaves(l, r, code, a, s, i);
    case Alt(l, r) => AltLeaves(l, r, code, a, s, i);
    case Rep(r, ops) => OptionLeaves(r, ops, code, a, s, i);
    case _ => LeafLeaves(re, code, a, s, i);
  }

  lemma {:induction false} GroupLeaves(n: byte, body: Re, code: seq<byte>, a: nat, s: seq<byte>, i: nat)
    requires Holds(code, a, Gen(Group(n, body))) && Sized(body) && Short(Group(n, body)) && Loopless(body) && i <= |s|
    ensures Leaves(code, s, At(a, i)) == Onward(Ends(Group(n, body), s, i), code, s, a + |Gen(Group(n, body))|)
    decreases body, 3, 0
  {
    hide Holds, Succ, Leaves, Onward;
    GroupParts(code, a, n, body);
    HoldsBound(code, a, Gen(Group(n, body)));
    SuccMemory(code, s, a, i, START_MEMORY, n);
    LeavesSame(code, s, At(a, i), At(a + 2, i));
    LeavesAre(body, code, a + 2, s, i);
    MemoryOnward(Ends(body, s, i), n, code, a + 2 + |Gen(body)|, s);
  }

  lemma {:induction false} MemoryOnward(es: seq<int>, n: byte, code: seq<byte>, m: nat, s: seq<byte>)
    requires Holds(code, m, [STOP_MEMORY, n])
    ensures Onward(es, code, s, m) == Onward(es, code, s, m + 2)
  {
    hide Holds, Leaves, Succ;
    if es != [] {
      if es[0] >= 0 {
        HoldsBound(code, m, [STOP_MEMORY, n]);
        SuccMemory(code, s, m, es[0], STOP_MEMORY, n);
        LeavesSame(code, s, At(m, es[0]), At(m + 2, es[0]));
      }
      MemoryOnward(es[1..], n, code, m, s);
    }
  }

  lemma {:induction false} CatLeaves(l: Re, r: Re, code: seq<byte>, a: nat, s: seq<byte>, i: nat)
    requires Holds(code, a, Gen(Cat(l, r))) && Sized(l) && Sized(r) && Short(Cat(l, r)) && Loopless(l) && Loopless(r)
    requires i <= |s|
    ensures Leaves(code, s, At(a, i)) == Onward(Ends(Cat(l, r), s, i), code, s, a + |Gen(Cat(l, r))|)
    decreases Cat(l, r), 0, 0
  {
    hide Holds, Succ, Leaves, Gen, Short, Onward, Then;
    CatIs(l, r);
    ShortParts(l, r);
    HoldsSplit(code, a, Gen(l), Gen(r));
    LeavesAre(l, code, a, s, i);
    EndsInsideString(l, s, i);
    ThenOnward(Ends(l, s, i), r, code, a + |Gen(l)|, s);
  }

  lemma {:induction false} ThenOnward(es: seq<int>, r: Re, code: seq<byte>, a: nat, s: seq<byte>)
    requires Inside(es, s) && Holds(code, a, Gen(r)) && Sized(r) && Short(r) && Loopless(r)
    ensures Onward(es, code, s, a) == Onward(Then(es, r, s), code, s, a + |Gen(r)|)
    decreases r, 2, |es|
  {
    hide Holds, Leaves, Gen, Short, Ends, Sized, Loopless;
    if es != [] {
      var fs := if es[0] < 0 then [-1] else Ends(r, s, es[0]);
      if es[0] >= 0 { LeavesAre(r, code, a, s, es[0]); } else { OnwardOne(-1, code, s, a + |Gen(r)|); }
      ThenOnward(es[1..], r, code, a, s);
      OnwardPlus(fs, Then(es[1..], r, s), code, s, a + |Gen(r)|);
    }
  }

  lemma AltEnds(l: Re, r: Re, s: seq<byte>, i: nat)
    ensures Ends(Alt(l, r), s, i) == Ends(l, s, i) + Ends(r, s, i)
  {
  }

  lemma {:induction false} AltLeaves(l: Re, r: Re, code: seq<byte>, a: nat, s: seq<byte>, i: nat)
    requires Holds(code, a, Gen(Alt(l, r))) && Sized(l) && Sized(r) && Short(Alt(l, r)) && Loopless(l) && Loopless(r)
    requires i <= |s|
    ensures Leaves(code, s, At(a, i)) == Onward(Ends(Alt(l, r), s, i), code, s, a + |Gen(Alt(l, r))|)
    decreases Alt(l, r), 0, 0
  {
    hide Holds, Succ, Leaves, JumpCode, Gen, Onward, Sized, Loopless, Ends;
    AltEnds(l, r, s, i);
    AltParts(code, a, l, r);
    AltLength(l, r);
    HoldsBound(code, a, Gen(Alt(l, r)));
    SuccChoice(code, s, a, i, |Gen(l)| + 3);
    LeavesChoice(code, s, At(a, i), At(a + 3, i), At(a + 6 + |Gen(l)|, i));
    LeavesAre(l, code, a + 3, s, i);
    JumpsOnward(Ends(l, s, i), l, r, code, a, s);
    LeavesAre(r, code, a + 6 + |Gen(l)|, s, i);
    OnwardPlus(Ends(l, s, i), Ends(r, s, i), code, s, a + |Gen(Alt(l, r))|);
  }

  lemma {:induction false} OptionLeaves(r: Re, ops: seq<byte>, code: seq<byte>, a: nat, s: seq<byte>, i: nat)
    requires Holds(code, a, Gen(Rep(r, ops))) && Sized(r) && Short(Rep(r, ops)) && !ManyOk(ops) && Loopless(r) && i <= |s|
    ensures Leaves(code, s, At(a, i)) == Onward(Ends(Rep(r, ops), s, i), code, s, a + |Gen(Rep(r, ops))|)
    decreases r, 3, 0
  {
    hide Holds, Succ, Leaves, JumpCode, Gen, Onward, ManyOk, ZeroOk, Sized, Loopless;
    OptionParts(code, a, r, ops);
    RepLength(r, ops);
    HoldsBound(code, a, Gen(Rep(r, ops)));
    var e := a + 3 + |Gen(r)|;
    SuccChoice(code, s, a, i, |Gen(r)|);
    LeavesChoice(code, s, At(a, i), At(a + 3, i), At(e, i));
    LeavesAre(r, code, a + 3, s, i);
    OnwardOne(i, code, s, e);
    OnwardPlus(Ends(r, s, i), [i], code, s, e);
  }

  lemma {:induction false} OnwardEnd(es: seq<int>, code: seq<byte>, s: seq<byte>)
    requires forall k :: 0 <= k < |es| ==> es[k] >= -1
    ensures Onward(es, code, s, |code|) == es
  {
    if es != [] {
      OnwardEnd(es[1..], code, s);
      assert es == [es[0]] + es[1..];
    }
  }

  /** The byte code comes to the ends of the pattern, in their order. */
  lemma LeavesAreEnds(re: Re, s: seq<byte>, pos: nat)
    requires Sized(re) && Short(re) && Loopless(re) && pos <= |s|
    ensures Leaves(Gen(re), s, At(0, pos)) == Ends(re, s, pos)
  {
    hide Leaves, Gen, Onward, Ends, Sized, Loopless, Short;
    HoldsItself(Gen(re));
    LeavesAre(re, Gen(re), 0, s, pos);
    OnwardEnd(Ends(re, s, pos), Gen(re), s);
  }

  // ---- the ends are where the pattern matches

  lemma {:induction false} ThenMember(es: seq<int>, r: Re, s: seq<byte>, j: nat)
    requires forall k :: 0 <= k < |es| ==> es[k] >= -1
    ensures j in Then(es, r, s) <==> exists k :: 0 <= k < |es| && es[k] >= 0 && j in Ends(r, s, es[k])
  {
    hide Ends;
    if es != [] {
      ThenMember(es[1..], r, s, j);
      if j in Then(es[1..], r, s) {
        var k :| 0 <= k < |es[1..]| && es[1..][k] >= 0 && j in Ends(r, s, es[1..][k]);
        assert es[k + 1] == es[1..][k];
      }
      if k :| 0 < k < |es| && es[k] >= 0 && j in Ends(r, s, es[k]) {
        assert es[1..][k - 1] == es[k];
      }
    }
  }

  lemma {:induction false} EndsAreMatches(re: Re, s: seq<byte>, i: nat, j: nat)
    requires Loopless(re) && i <= |s|
    ensures j in Ends(re, s, i) <==> Matches(re, s, i, j)
    decreases re
  {
    hide Chars, InItems, ManyOk, Then;
    match re
    case Group(_, body) => EndsAreMatches(body, s, i, j);
    case Rep(r, _) => EndsAreMatches(r, s, i, j);
    case Cat(l, r) => CatEnds(l, r, s, i, j);
    case Alt(l, r) =>
      EndsAreMatches(l, s, i, j);
      EndsAreMatches(r, s, i, j);
    case _ =>
  }

  lemma {:induction false} CatEnds(l: Re, r: Re, s: seq<byte>, i: nat, j: nat)
    requires Loopless(l) && Loopless(r) && i <= |s|
    ensures j in Ends(Cat(l, r), s, i) <==> Matches(Cat(l, r), s, i, j)
    decreases Cat(l, r), 0
  {
    hide Ends, Then, Loopless;
    CatIsThen(l, r, s, i);
    var es := Ends(l, s, i);
    EndsInsideString(l, s, i);
    ThenMember(es, r, s, j);
    if k :| 0 <= k < |es| && es[k] >= 0 && j in Ends(r, s, es[k]) {
      EndsAreMatches(l, s, i, es[k]);
      EndsAreMatches(r, s, es[k], j);
    }
    if Matches(Cat(l, r), s, i, j) {
      var m := CatMiddle(l, r, s, i, j);
      EndsInside(l, s, i, m);
      EndsAreMatches(l, s, i, m);
      EndsAreMatches(r, s, m, j);
      var k :| 0 <= k < |es| && es[k] == m;
    }
  }

  lemma CatMiddle(l: Re, r: Re, s: seq<byte>, i: nat, j: nat) returns (m: nat)
    requires Matches(Cat(l, r), s, i, j)
    ensures Matches(l, s, i, m) && Matches(r, s, m, j)
  {
    m :| Matches(l, s, i, m) && Matches(r, s, m, j);
  }

  lemma CatIsThen(l: Re, r: Re, s: seq<byte>, i: nat)
    ensures Ends(Cat(l, r), s, i) == Then(Ends(l, s, i), r, s)
  {
  }

  // ---- the last choices

  /** How much the pattern takes when every choice is the last one: the second alternative, nothing for a `?`. */
  function LastLength(re: Re): nat {
    match re
    case Group(_, body) => LastLength(body)
    case Rep(_, _) => 0
    case Cat(l, r) => LastLength(l) + LastLength(r)
    case Alt(_, r) => LastLength(r)
    case _ => Length(re)
  }

  /** How much the pattern takes at least. */
  function LeastLength(re: Re): nat {
    match re
    case Group(_, body) => LeastLength(body)
    case Rep(_, _) => 0
    case Cat(l, r) => LeastLength(l) + LeastLength(r)
    case Alt(l, r) => if LeastLength(l) < LeastLength(r) then LeastLength(l) else LeastLength(r)
    case _ => Length(re)
  }

  /** The pattern matches from `i` on with every choice the last one. */
  predicate LastMatches(re: Re, s: seq<byte>, i: nat) {
    match re
    case Group(_, body) => LastMatches(body, s, i)
    case Rep(_, _) => true
    case Cat(l, r) => LastMatches(l, s, i) && LastMatches(r, s, i + LastLength(l))
    case Alt(_, r) => LastMatches(r, s, i)
    case _ => i <= |s| && OneMatches(re, s, i)
  }

  /** The pattern matches from `i` to `j` with some choice that is not the last one. */
  ghost predicate OtherMatches(re: Re, s: seq<byte>, i: nat, j: nat) {
    match re
    case Group(_, body) => OtherMatches(body, s, i, j)
    case Rep(r, _) => Matches(r, s, i, j)
    case Cat(l, r) =>
      || (exists k: nat :: OtherMatches(l, s, i, k) && Matches(r, s, k, j))
      || (LastMatches(l, s, i) && OtherMatches(r, s, i + LastLength(l), j))
    case Alt(l, r) => Matches(l, s, i, j) || OtherMatches(r, s, i, j)
    case _ => false
  }

  function Last(es: seq<int>): int
    requires es != []
  {
    es[|es| - 1]
  }

  function Init(es: seq<int>): seq<int>
    requires es != []
  {
    es[..|es| - 1]
  }

  lemma InitOfPlus(es: seq<int>, fs: seq<int>)
    requires fs != []
    ensures Init(es + fs) == es + Init(fs) && Last(es + fs) == Last(fs)
  {
  }

  lemma ThenStep(es: seq<int>, r: Re, s: seq<byte>)
    requires es != [] && forall k :: 0 <= k < |es| ==> es[k] >= -1
    ensures Then(es, r, s) == (if es[0] < 0 then [-1] else Ends(r, s, es[0])) + Then(es[1..], r, s)
    ensures |es| == 1 ==> Then(es[1..], r, s) == []
  {
    hide Ends;
  }

  lemma {:induction false} ThenLast(es: seq<int>, r: Re, s: seq<byte>)
    requires es != [] && forall k :: 0 <= k < |es| ==> es[k] >= -1
    requires Last(es) >= 0 ==> Ends(r, s, Last(es)) != []
    ensures Then(es, r, s) != []
    ensures Last(Then(es, r, s)) == if Last(es) < 0 then -1 else Last(Ends(r, s, Last(es)))
  {
    hide Ends, Then;
    ThenStep(es, r, s);
    if |es| > 1 {
      ThenLast(es[1..], r, s);
      InitOfPlus(if es[0] < 0 then [-1] else Ends(r, s, es[0]), Then(es[1..], r, s));
    }
  }

  lemma {:induction false} EndsLast(re: Re, s: seq<byte>, i: nat)
    requires Loopless(re) && i <= |s|
    ensures Ends(re, s, i) != [] && Last(Ends(re, s, i)) == if LastMatches(re, s, i) then i + LastLength(re) else -1
    decreases re
  {
    hide Chars, InItems, ManyOk, Then;
    match re
    case Group(_, body) => EndsLast(body, s, i);
    case Rep(_, _) =>
    case Cat(l, r) => CatLast(l, r, s, i);
    case Alt(_, r) => EndsLast(r, s, i);
    case _ =>
  }

  lemma {:induction false} CatLast(l: Re, r: Re, s: seq<byte>, i: nat)
    requires Loopless(l) && Loopless(r) && i <= |s|
    ensures var es := Ends(Cat(l, r), s, i);
      es != [] && Last(es) == if LastMatches(Cat(l, r), s, i) then i + LastLength(Cat(l, r)) else -1
    decreases Cat(l, r), 0
  {
    hide Ends, Then, Loopless;
    CatIsThen(l, r, s, i);
    var es := Ends(l, s, i);
    EndsInsideString(l, s, i);
    EndsLast(l, s, i);
    if Last(es) >= 0 { EndsLast(r, s, Last(es)); }
    ThenLast(es, r, s);
  }

  /** The members of the ends after the first part, but for the last one. */
  lemma {:induction false} ThenInit(es: seq<int>, r: Re, s: seq<byte>, j: nat)
    requires es != [] && forall k :: 0 <= k < |es| ==> es[k] >= -1
    requires Last(es) >= 0 ==> Ends(r, s, Last(es)) != []
    ensures Then(es, r, s) != []
    ensures j in Init(Then(es, r, s)) <==>
      || (exists k :: 0 <= k < |es| - 1 && es[k] >= 0 && j in Ends(r, s, es[k]))
      || (Last(es) >= 0 && j in Init(Ends(r, s, Last(es))))
  {
    hide Ends, Then;
    ThenLast(es, r, s);
    ThenStep(es, r, s);
    if |es| == 1 {
      assert Then(es, r, s) == if es[0] < 0 then [-1] else Ends(r, s, es[0]);
    } else {
      var h, t := if es[0] < 0 then [-1] else Ends(r, s, es[0]), Then(es[1..], r, s);
      ThenInit(es[1..], r, s, j);
      assert Then(es, r, s) == h + t;
      InitOfPlus(h, t);
      assert j in h <==> es[0] >= 0 && j in Ends(r, s, es[0]);
      if k :| 0 <= k < |es[1..]| - 1 && es[1..][k] >= 0 && j in Ends(r, s, es[1..][k]) {
        assert es[k + 1] == es[1..][k];
      }
      if k :| 0 < k < |es| - 1 && es[k] >= 0 && j in Ends(r, s, es[k]) {
        assert es[1..][k - 1] == es[k];
      }
    }
  }

  /** All ends but the last are those of the other choices. */
  lemma {:induction false} OthersAre(re: Re, s: seq<byte>, i: nat, j: nat)
    requires Loopless(re) && i <= |s|
    ensures Ends(re, s, i) != [] && (j in Init(Ends(re, s, i)) <==> OtherMatches(re, s, i, j))
    decreases re
  {
    hide Chars, InItems, ManyOk, Then, Matches;
    EndsLast(re, s, i);
    match re
    case Group(_, body) => OthersAre(body, s, i, j);
    case Rep(r, _) =>
      InitOfPlus(Ends(r, s, i), [i]);
      EndsAreMatches(r, s, i, j);
    case Cat(l, r) => CatOthers(l, r, s, i, j);
    case Alt(l, r) =>
      OthersAre(r, s, i, j);
      EndsAreMatches(l, s, i, j);
      InitOfPlus(Ends(l, s, i), Ends(r, s, i));
    case _ =>
  }

  lemma {:induction false} CatOthers(l: Re, r: Re, s: seq<byte>, i: nat, j: nat)
    requires Loopless(l) && Loopless(r) && i <= |s|
    ensures Ends(Cat(l, r), s, i) != []
    ensures j in Init(Ends(Cat(l, r), s, i)) <==> OtherMatches(Cat(l, r), s, i, j)
    decreases Cat(l, r), 0
  {
    hide Ends, Then, Loopless, Matches;
    CatIsThen(l, r, s, i);
    var es := Ends(l, s, i);
    EndsInsideString(l, s, i);
    EndsLast(l, s, i);
    if Last(es) >= 0 { OthersAre(r, s, Last(es), j); }
    ThenInit(es, r, s, j);
    if k :| 0 <= k < |es| - 1 && es[k] >= 0 && j in Ends(r, s, es[k]) {
      assert Init(es)[k] == es[k];
      OthersAre(l, s, i, es[k]);
      EndsAreMatches(r, s, es[k], j);
    }
    if m: nat :| OtherMatches(l, s, i, m) && Matches(r, s, m, j) {
      OthersAre(l, s, i, m);
      assert m in Init(es);
      var k :| 0 <= k < |Init(es)| && Init(es)[k] == m;
      EndsAreMatches(r, s, m, j);
    }
  }

  lemma {:induction false} AtLeast(re: Re, s: seq<byte>, i: nat, j: nat)
    requires Loopless(re) && Matches(re, s, i, j)
    ensures j >= i + LeastLength(re)
  {
    hide Chars, InItems, ManyOk;
    match re
    case Group(_, body) => AtLeast(body, s, i, j);
    case Rep(r, _) => if i != j { AtLeast(r, s, i, j); }
    case Cat(l, r) =>
      var k: nat :| Matches(l, s, i, k) && Matches(r, s, k, j);
      AtLeast(l, s, i, k);
      AtLeast(r, s, k, j);
    case Alt(l, r) => if Matches(l, s, i, j) { AtLeast(l, s, i, j); } else { AtLeast(r, s, i, j); }
    case _ =>
  }

  // ---- when the longest match is chosen

  /**
   * The match that is passed over: with every choice the last one the pattern matches, short of the end of the string;
   * and it matches with other choices too, but not as far.
   */
  ghost predicate PassedOver(re: Re, s: seq<byte>, pos: nat) {
    && LastMatches(re, s, pos) && pos + LastLength(re) < |s|
    && (exists j: nat :: OtherMatches(re, s, pos, j))
    && (forall j: nat :: OtherMatches(re, s, pos, j) ==> j < pos + LastLength(re))
  }

  lemma LargestOf(ls: seq<int>)
    requires ls != []
    ensures Largest(ls) == if Last(ls) > Largest(Init(ls)) then Last(ls) else Largest(Init(ls))
  {
  }

  lemma LargestIsEnd(ls: seq<int>, end: int)
    requires end >= 0 && end in ls && forall k :: 0 <= k < |ls| ==> ls[k] <= end
    ensures Largest(ls) == end
  {
    hide Largest;
  }

  /** Without loops, the answer is the longest match exactly when no match is passed over. */
  lemma LongestIff(re: Re, s: seq<byte>, pos: nat)
    requires Loopless(re) && pos <= |s|
    ensures Ends(re, s, pos) != []
    ensures Pick(Ends(re, s, pos), |s|) == Largest(Ends(re, s, pos)) <==> !PassedOver(re, s, pos)
  {
    hide Ends, Loopless, OtherMatches, LastMatches, LastLength, Largest;
    var es := Ends(re, s, pos);
    EndsLast(re, s, pos);
    EndsInsideString(re, s, pos);
    LargestOf(es);
    var m := Largest(Init(es));
    forall j: nat
      ensures j in Init(es) <==> OtherMatches(re, s, pos, j)
    {
      OthersAre(re, s, pos, j);
    }
    if |s| in es {
      LargestIsEnd(es, |s|);
      EndIsNoPassing(re, s, pos, es);
    } else {
      assert Last(es) in es;
      if m >= 0 {
        assert m in Init(es) && OtherMatches(re, s, pos, m);
        forall j: nat | OtherMatches(re, s, pos, j)
          ensures j <= m
        {
          var k :| 0 <= k < |Init(es)| && Init(es)[k] == j;
        }
      }
    }
  }

  lemma EndIsNoPassing(re: Re, s: seq<byte>, pos: nat, es: seq<int>)
    requires es != [] && |s| in es && Last(es) == (if LastMatches(re, s, pos) then pos + LastLength(re) else -1)
    requires forall j: nat :: j in Init(es) <==> OtherMatches(re, s, pos, j)
    ensures !PassedOver(re, s, pos)
  {
    hide OtherMatches, LastMatches, LastLength;
    if Last(es) != |s| {
      var k :| 0 <= k < |es| && es[k] == |s|;
      assert Init(es)[k] == |s|;
      assert OtherMatches(re, s, pos, |s|);
    }
  }

  /** A pattern in which the last choices take no more than any others always gets its longest match. */
  lemma LongestWhen(re: Re, s: seq<byte>, pos: nat)
    requires Loopless(re) && pos <= |s| && LastLength(re) <= LeastLength(re)
    ensures Ends(re, s, pos) != [] && Pick(Ends(re, s, pos), |s|) == Largest(Ends(re, s, pos))
  {
    hide Ends, Loopless, OtherMatches, LastMatches, LastLength, LeastLength, Largest, Pick, Matches;
    LongestIff(re, s, pos);
    if PassedOver(re, s, pos) {
      var j: nat :| OtherMatches(re, s, pos, j);
      OthersAre(re, s, pos, j);
      InitIn(Ends(re, s, pos), j);
      EndsAreMatches(re, s, pos, j);
      AtLeast(re, s, pos, j);
    }
  }

  lemma InitIn(es: seq<int>, j: int)
    requires es != [] && j in Init(es)
    ensures j in es
  {
    var k :| 0 <= k < |Init(es)| && Init(es)[k] == j;
    assert es[k] == j;
  }

  predicate NoBar(re: Re) {
    match re
    case Group(_, body) => NoBar(body)
    case Rep(r, _) => NoBar(r)
    case Cat(l, r) => NoBar(l) && NoBar(r)
    case Alt(_, _) => false
    case _ => true
  }

  /** Patterns without `|` are of that kind. */
  lemma {:induction false} NoBarIsFine(re: Re)
    requires NoBar(re)
    ensures LastLength(re) <= LeastLength(re)
  {
    match re
    case Group(_, body) => NoBarIsFine(body);
    case Cat(l, r) =>
      NoBarIsFine(l);
      NoBarIsFine(r);
    case _ =>
  }

  /** `a|ab` on `abc`: both alternatives match, and the shorter match is the answer. */
  lemma ShorterWins()
    ensures var re := Alt(Run([Lit(97, false)]), Run([Lit(97, false), Lit(98, false)])); var s: seq<byte> := [97, 98, 99];
      && Loopless(re) && Sized(re) && Matches(re, s, 0, 2) && Ends(re, s, 0) == [1, 2] && Pick(Ends(re, s, 0), |s|) == 1
      && PassedOver(re, s, 0)
  {
    var l, r := Run([Lit(97, false)]), Run([Lit(97, false), Lit(98, false)]);
    var re, s: seq<byte> := Alt(l, r), [97, 98, 99];
    assert s[0..1] == [97] && s[0..2] == [97, 98];
    assert Chars(l.lits) == [97] && Chars(r.lits) == [97, 98];
    assert Ends(l, s, 0) == [1] && Ends(r, s, 0) == [2];
    AltEnds(l, r, s, 0);
    var es := Ends(re, s, 0);
    assert es == [1, 2] && es[..1] == [1] && [1][..0] == [];
    assert Largest([1]) == 1;
    assert Matches(l, s, 0, 1) && OtherMatches(re, s, 0, 1);
  }
}
