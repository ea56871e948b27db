/** What the one-pass compiler of regex.c keeps true from token to token. */
module RegexState {
  import opened RegexSets
  import opened RegexTree
  import opened RegexPath
  import opened RegexFlow
  import opened RegexLayout
  import opened RegexSyntax

  /** What an opening parenthesis saves. */
  datatype Saved = Saved(start: nat, fixup: int, regnum: nat, begalt: nat)

  /** The variables of the compiler, and the trees read so far: of the groups that are open, and of the innermost one. */
  datatype View = View(
    pat: seq<byte>, p: nat, code: seq<byte>,
    begalt: nat, fixup: int, laststart: int, pending: int, regnum: nat,
    stack: seq<Saved>, frames: seq<Frame>, top: Frame)

  /** Where the code of the innermost open group starts. */
  function BaseOf(stack: seq<Saved>): nat {
    if stack == [] then 0 else stack[|stack| - 1].start + 2
  }

  /** The code before the innermost open group: for each open one its frame so far and its `start_memory`. */
  predicate LowerOk(prefix: seq<byte>, stack: seq<Saved>, frames: seq<Frame>) {
    && |stack| == |frames|
    && if stack == [] then prefix == []
       else
         var n := |stack| - 1;
         var t, base := stack[n], BaseOf(stack[..n]);
         && |prefix| == t.start + 2 && base <= t.start && t.regnum < 256
         && prefix[t.start..] == [START_MEMORY, t.regnum]
         && FrameOk(prefix[..t.start], base, t.begalt, t.fixup, frames[n])
         && LowerOk(prefix[..base], stack[..n], frames[..n])
  }

  /** The text before the innermost open group. */
  function StackText(frames: seq<Frame>): seq<byte> {
    if frames == [] then [] else StackText(frames[..|frames| - 1]) + FrameText(frames[|frames| - 1]) + [OPEN]
  }

  predicate FrameGroups(f: Frame, m: nat) {
    GroupsBelow(f.cur, m) && forall k :: 0 <= k < |f.alts| ==> GroupsBelow(f.alts[k], m)
  }

  /** The text read is that of the trees. */
  predicate TextOk(v: View) {
    v.p <= |v.pat| && v.pat[..v.p] == StackText(v.frames) + FrameText(v.top)
  }

  /** The code written is that of the trees. */
  predicate CodeIs(v: View) {
    && BaseOf(v.stack) <= |v.code| && LowerOk(v.code[..BaseOf(v.stack)], v.stack, v.frames)
    && FrameOk(v.code, BaseOf(v.stack), v.begalt, v.fixup, v.top)
  }

  ghost predicate TreesOk(v: View) {
    && FrameProper(v.top, NextAt(v.pat, v.p))
    && forall k :: 0 <= k < |v.frames| ==> FrameProper(v.frames[k], OPEN)
  }

  predicate NumbersOk(v: View) {
    && 1 <= v.regnum < 256 && FrameGroups(v.top, v.regnum)
    && |v.stack| == |v.frames|
    && (forall k :: 0 <= k < |v.stack| ==> v.stack[k].regnum < v.regnum)
    && (forall k :: 0 <= k < |v.frames| ==> FrameGroups(v.frames[k], v.regnum))
  }

  /** `laststart`: where the last item starts, or -1 for null. */
  predicate LastOk(v: View) {
    v.laststart == if NoItem(v.top.cur) then -1 else v.begalt + LastPos(v.top.cur)
  }

  /** The count that may still grow is outside all places left for jumps. */
  predicate Clear(pending: int, fixup: int, stack: seq<Saved>) {
    && (fixup >= 0 ==> pending >= fixup + 3)
    && forall k :: 0 <= k < |stack| ==> (stack[k].fixup >= 0 ==> pending >= stack[k].fixup + 3)
  }

  /** `pending_exact`: the count of a run; when the run ends the code, it is the last item. */
  predicate PendingOk(v: View) {
    v.pending == -1
    || (&& 0 <= v.pending < |v.code| && v.pending + 1 + v.code[v.pending] as int <= |v.code|
        && Clear(v.pending, v.fixup, v.stack)
        && (v.pending + 1 + v.code[v.pending] as int == |v.code| ==>
              && v.top.cur.Cat? && v.top.cur.right.Run?
              && v.pending == v.begalt + |Gen(v.top.cur.left)| + 1))
  }

  ghost predicate Ok(v: View) {
    TextOk(v) && CodeIs(v) && TreesOk(v) && NumbersOk(v) && LastOk(v) && PendingOk(v)
  }

  /** The compiler before the first token. */
  function Start(pat: seq<byte>): View {
    View(pat, 0, [], 0, -1, -1, -1, 1, [], [], Frame([], Empty))
  }

  lemma StartOk(pat: seq<byte>)
    ensures Ok(Start(pat))
  {
  }

  /** The text grows at its end. */
  lemma TextGrows(pat: seq<byte>, p: nat, t: seq<byte>)
    requires p + |t| <= |pat| && pat[p..p + |t|] == t
    ensures pat[..p + |t|] == pat[..p] + t
    ensures t != [] ==> NextAt(pat, p) == t[0]
  {
    if t != [] { assert pat[p..p + |t|][0] == t[0]; }
  }

  /** What an item must be to be read at a place. */
  ghost predicate ItemFits(v: View, item: Re) {
    && v.p + |Show(item)| <= |v.pat| && v.pat[v.p..v.p + |Show(item)|] == Show(item) != []
    && !item.Empty? && !item.Cat? && !item.Alt? && Gen(item) != []
    && Proper(item, NextAt(v.pat, v.p + |Show(item)|)) && Sized(item) && GroupsBelow(item, v.regnum)
    && (item.Bol? ==> NoItem(v.top.cur))
  }

  /** The compiler after an item; `pending` is what that made of `pending_exact`. */
  function WithItem(v: View, item: Re, pending: int): View {
    v.(p := v.p + |Show(item)|, code := v.code + Gen(item), pending := pending,
       laststart := if Anchor(item) then v.laststart else |v.code|, top := v.top.(cur := Cat(v.top.cur, item)))
  }

  lemma ItemOk(v: View, item: Re, pending: int)
    requires Ok(v) && ItemFits(v, item)
    requires pending == v.pending || (item.Run? && pending == |v.code| + 1)
    ensures Ok(WithItem(v, item, pending))
  {
    hide CodeIs, TextOk, TreesOk, NumbersOk, LastOk, PendingOk;
    ItemText(v, item);
    ItemCode(v, item);
    ItemTrees(v, item);
    ItemNumbers(v, item);
    ItemLast(v, item);
    ItemPending(v, item, pending);
    var w := WithItem(v, item, pending);
    var u := WithItem(v, item, v.pending);
    SameBut(u, w);
  }

  /** Only `PendingOk` looks at `pending`. */
  lemma SameBut(u: View, w: View)
    requires w == u.(pending := w.pending)
    ensures TextOk(u) == TextOk(w) && CodeIs(u) == CodeIs(w) && TreesOk(u) == TreesOk(w)
    ensures NumbersOk(u) == NumbersOk(w) && LastOk(u) == LastOk(w)
  {
  }

  lemma ItemText(v: View, item: Re)
    requires TextOk(v) && ItemFits(v, item)
    ensures TextOk(WithItem(v, item, v.pending))
  {
    hide Show, Proper, Gen, StackText, AltsText;
    TextGrows(v.pat, v.p, Show(item));
    ShowCat(v.top.cur, item);
    assert FrameText(v.top.(cur := Cat(v.top.cur, item))) == FrameText(v.top) + Show(item);
  }

  lemma ShowCat(l: Re, r: Re)
    ensures Show(Cat(l, r)) == Show(l) + Show(r)
  {
  }

  lemma ItemCode(v: View, item: Re)
    requires CodeIs(v)
    ensures CodeIs(WithItem(v, item, v.pending))
  {
    hide FrameOk, LowerOk, Gen;
    AppendItem(v.code, BaseOf(v.stack), v.begalt, v.fixup, v.top, item);
    assert (v.code + Gen(item))[..BaseOf(v.stack)] == v.code[..BaseOf(v.stack)];
  }

  lemma ItemTrees(v: View, item: Re)
    requires TreesOk(v) && ItemFits(v, item)
    ensures TreesOk(WithItem(v, item, v.pending))
  {
    TextGrows(v.pat, v.p, Show(item));
  }

  lemma ItemNumbers(v: View, item: Re)
    requires NumbersOk(v) && ItemFits(v, item)
    ensures NumbersOk(WithItem(v, item, v.pending))
  {
  }

  lemma ItemLast(v: View, item: Re)
    requires LastOk(v) && CodeIs(v) && ItemFits(v, item)
    ensures LastOk(WithItem(v, item, v.pending))
  {
  }

  lemma ItemPending(v: View, item: Re, pending: int)
    requires PendingOk(v) && CodeIs(v) && NumbersOk(v) && ItemFits(v, item)
    requires pending == v.pending || (item.Run? && pending == |v.code| + 1)
    ensures PendingOk(WithItem(v, item, pending))
  {
    hide Gen, Show, Proper, LowerOk, Chain, GroupsBelow;
    if pending == v.pending {
      assert forall k :: 0 <= k < |v.code| ==> (v.code + Gen(item))[k] == v.code[k];
    } else {
      LowerFixups(v.code[..BaseOf(v.stack)], v.stack, v.frames);
      RunCode(v.code, item);
    }
  }

  lemma RunCode(code: seq<byte>, item: Re)
    requires item.Run? && Sized(item)
    ensures var c := code + Gen(item); |c| == |code| + 2 + |item.lits| && c[|code| + 1] == |item.lits|
  {
  }

  /** The places left for jumps are inside the code of the open groups. */
  lemma {:induction false} LowerFixups(prefix: seq<byte>, stack: seq<Saved>, frames: seq<Frame>)
    requires LowerOk(prefix, stack, frames)
    ensures forall k :: 0 <= k < |stack| ==> stack[k].fixup + 3 <= |prefix|
    decreases |stack|
  {
    hide Chain, Gen;
    if stack != [] {
      var n := |stack| - 1;
      LowerFixups(prefix[..BaseOf(stack[..n])], stack[..n], frames[..n]);
      assert forall k :: 0 <= k < n ==> stack[..n][k] == stack[k];
    }
  }

  // ---- another last item

  /** What may take the place of the last item, with more text. */
  ghost predicate LastFits(v: View, item: Re, t: seq<byte>) {
    && v.top.cur.Cat? && !Anchor(v.top.cur.right) && !Anchor(item)
    && v.p + |t| <= |v.pat| && v.pat[v.p..v.p + |t|] == t != []
    && Show(item) == Show(v.top.cur.right) + t && Show(v.top.cur.right) != []
    && !item.Empty? && !item.Cat? && !item.Alt?
    && Proper(item, NextAt(v.pat, v.p + |t|)) && Sized(item) && GroupsBelow(item, v.regnum)
  }

  /** The compiler after that. */
  function WithLast(v: View, item: Re, t: seq<byte>, pending: int): View
    requires v.top.cur.Cat? && v.begalt + |Gen(v.top.cur.left)| <= |v.code|
  {
    v.(p := v.p + |t|, code := v.code[..v.begalt + |Gen(v.top.cur.left)|] + Gen(item), pending := pending,
       top := v.top.(cur := Cat(v.top.cur.left, item)))
  }

  lemma LastPlace(v: View)
    requires CodeIs(v) && v.top.cur.Cat?
    ensures v.begalt + |Gen(v.top.cur.left)| <= |v.code|
    ensures v.code[v.begalt + |Gen(v.top.cur.left)|..] == Gen(v.top.cur.right)
  {
    hide Gen, Chain, LowerOk;
    ReplaceItem(v.code, BaseOf(v.stack), v.begalt, v.fixup, v.top, v.top.cur.right);
  }

  lemma LastText(v: View, item: Re, t: seq<byte>, w: View)
    requires TextOk(v) && LastFits(v, item, t) && w.pat == v.pat && w.p == v.p + |t| && w.frames == v.frames
    requires w.top == v.top.(cur := Cat(v.top.cur.left, item))
    ensures TextOk(w)
  {
    hide Show, Proper, Gen, StackText, AltsText;
    var l, r := v.top.cur.left, v.top.cur.right;
    TextGrows(v.pat, v.p, t);
    ShowCat(l, r);
    ShowCat(l, item);
    assert v.top.cur == Cat(l, r);
    assert FrameText(w.top) == FrameText(v.top) + t;
  }

  lemma LastCode(v: View, item: Re, t: seq<byte>, pending: int)
    requires CodeIs(v) && v.top.cur.Cat? && v.begalt + |Gen(v.top.cur.left)| <= |v.code|
    ensures CodeIs(WithLast(v, item, t, pending))
  {
    hide LowerOk, Gen, Chain;
    ReplaceItem(v.code, BaseOf(v.stack), v.begalt, v.fixup, v.top, item);
    var w := WithLast(v, item, t, pending);
    assert w.code[..BaseOf(v.stack)] == v.code[..BaseOf(v.stack)];
  }

  lemma LastTrees(v: View, item: Re, t: seq<byte>, w: View)
    requires TreesOk(v) && LastFits(v, item, t) && w.pat == v.pat && w.p == v.p + |t| && w.frames == v.frames
    requires w.top == v.top.(cur := Cat(v.top.cur.left, item))
    ensures TreesOk(w)
  {
    hide Show;
    var l, r := v.top.cur.left, v.top.cur.right;
    assert v.top.cur == Cat(l, r);
    assert Show(item)[0] == Show(r)[0];
  }

  lemma LastNumbers(v: View, item: Re, t: seq<byte>, w: View)
    requires NumbersOk(v) && LastFits(v, item, t) && w.regnum == v.regnum && w.stack == v.stack && w.frames == v.frames
    requires w.top == v.top.(cur := Cat(v.top.cur.left, item))
    ensures NumbersOk(w)
  {
    hide Show, Proper;
    assert v.top.cur == Cat(v.top.cur.left, v.top.cur.right);
  }

  /** All but `pending_exact` after the last item was replaced. */
  lemma LastOkAfter(v: View, item: Re, t: seq<byte>, pending: int)
    requires Ok(v) && LastFits(v, item, t)
    ensures v.begalt + |Gen(v.top.cur.left)| <= |v.code|
    ensures var w := WithLast(v, item, t, pending);
      TextOk(w) && CodeIs(w) && TreesOk(w) && NumbersOk(w) && LastOk(w)
  {
    hide CodeIs, TextOk, TreesOk, NumbersOk, PendingOk, Show, Proper, Gen;
    LastPlace(v);
    var w := WithLast(v, item, t, pending);
    LastText(v, item, t, w);
    LastCode(v, item, t, pending);
    LastTrees(v, item, t, w);
    LastNumbers(v, item, t, w);
  }

  /** The code with one more character in the run that ends it. */
  function Longer(code: seq<byte>, pending: nat, c: byte): seq<byte>
    requires pending < |code| && code[pending] < 127
  {
    code[pending := code[pending] + 1] + [c]
  }

  /** One more character in the last run. */
  lemma LongerRun(v: View, l: Lit)
    requires Ok(v) && v.pending >= 0 && v.pending < |v.code| && v.code[v.pending] < 127
    requires v.pending + v.code[v.pending] as int + 1 == |v.code|
    requires v.p + |ShowLit(l)| <= |v.pat| && v.pat[v.p..v.p + |ShowLit(l)|] == ShowLit(l)
    requires ProperLit(l, NextAt(v.pat, v.p + |ShowLit(l)|)) && !IsOp(NextAt(v.pat, v.p + |ShowLit(l)|))
    ensures v.top.cur.Cat? && v.top.cur.right.Run? && v.begalt + |Gen(v.top.cur.left)| <= |v.code|
    ensures var w := WithLast(v, Run(v.top.cur.right.lits + [l]), ShowLit(l), v.pending);
      Ok(w) && w.code == Longer(v.code, v.pending, l.c)
  {
    hide CodeIs, TextOk, TreesOk, NumbersOk, LastOk;
    LastPlace(v);
    var ls := v.top.cur.right.lits;
    RunSized(v);
    var item := Run(ls + [l]);
    LongerFits(v, l);
    LastOkAfter(v, item, ShowLit(l), v.pending);
    LongerCode(v, l);
    var w := WithLast(v, item, ShowLit(l), v.pending);
    assert w.code[v.pending] == v.code[v.pending] + 1;
  }

  lemma RunSized(v: View)
    requires TreesOk(v) && v.top.cur.Cat? && v.top.cur.right.Run?
    ensures Sized(v.top.cur.right) && Proper(v.top.cur.right, NextAt(v.pat, v.p))
  {
  }

  lemma LongerFits(v: View, l: Lit)
    requires TreesOk(v) && v.top.cur.Cat? && v.top.cur.right.Run? && |v.top.cur.right.lits| < 127
    requires v.p + |ShowLit(l)| <= |v.pat| && v.pat[v.p..v.p + |ShowLit(l)|] == ShowLit(l)
    requires ProperLit(l, NextAt(v.pat, v.p + |ShowLit(l)|)) && !IsOp(NextAt(v.pat, v.p + |ShowLit(l)|))
    ensures LastFits(v, Run(v.top.cur.right.lits + [l]), ShowLit(l))
  {
    var ls := v.top.cur.right.lits;
    RunSized(v);
    TextGrows(v.pat, v.p, ShowLit(l));
    assert (ls + [l])[..|ls|] == ls;
    assert ShowLits(ls) != [] by { assert ShowLit(ls[|ls| - 1]) != []; }
  }

  lemma LongerCode(v: View, l: Lit)
    requires CodeIs(v) && v.top.cur.Cat? && v.top.cur.right.Run? && Sized(v.top.cur.right)
    requires 0 <= v.pending < |v.code| && v.pending == v.begalt + |Gen(v.top.cur.left)| + 1 && v.code[v.pending] < 127
    ensures v.code[v.pending] == |v.top.cur.right.lits|
    ensures var m := v.begalt + |Gen(v.top.cur.left)|;
      m <= |v.code| && v.code[..m] + Gen(Run(v.top.cur.right.lits + [l])) == Longer(v.code, v.pending, l.c)
  {
    hide CodeIs;
    LastPlace(v);
    var ls := v.top.cur.right.lits;
    var m := v.begalt + |Gen(v.top.cur.left)|;
    LongerBytes(v.code[..m], ls, l);
    assert v.code == v.code[..m] + Gen(Run(ls));
  }

  lemma LongerBytes(u: seq<byte>, ls: seq<Lit>, l: Lit)
    requires 0 < |ls| < 127
    ensures var code := u + Gen(Run(ls));
      |code| > |u| + 1 && code[|u| + 1] == |ls|
      && u + Gen(Run(ls + [l])) == code[|u| + 1 := code[|u| + 1] + 1] + [l.c]
  {
    assert Chars(ls + [l]) == Chars(ls) + [l.c];
    assert Gen(Run(ls)) == [EXACTN, |ls|] + Chars(ls);
    assert Gen(Run(ls + [l])) == [EXACTN, |ls| + 1] + (Chars(ls) + [l.c]);
  }

  // ---- repetition

  /** What a repetition applies to. */
  lemma Operand(v: View)
    requires Ok(v) && v.laststart >= 0 && IsOp(NextAt(v.pat, v.p))
    ensures v.top.cur.Cat? && v.laststart == v.begalt + |Gen(v.top.cur.left)|
    ensures var r := v.top.cur.right;
      (r.Run? || r.Any? || r.Set? || r.Group?) && Proper(r, NextAt(v.pat, v.p)) && Sized(r) && GroupsBelow(r, v.regnum)
      && Show(r) != [] && Gen(r) != []
  {
    hide CodeIs, TextOk, PendingOk;
    OperandShape(v);
    var r := v.top.cur.right;
    if r.Run? { assert ShowLits(r.lits) != [] by { assert ShowLit(r.lits[|r.lits| - 1]) != []; } }
  }

  lemma OperandShape(v: View)
    requires TreesOk(v) && NumbersOk(v) && LastOk(v) && v.laststart >= 0 && IsOp(NextAt(v.pat, v.p))
    ensures v.top.cur.Cat? && v.laststart == v.begalt + |Gen(v.top.cur.left)|
    ensures var r := v.top.cur.right;
      (r.Run? || r.Any? || r.Set? || r.Group?) && Proper(r, NextAt(v.pat, v.p)) && Sized(r) && GroupsBelow(r, v.regnum)
  {
    hide Gen, Show;
    var n := NextAt(v.pat, v.p);
    assert v.top.cur.Cat?;
    var l, r := v.top.cur.left, v.top.cur.right;
    assert v.top.cur == Cat(l, r) && Proper(Cat(l, r), n);
    assert Proper(r, n) && Sized(r) && GroupsBelow(r, v.regnum);
    assert !r.Eol? && !r.Rep?;
    assert r.Bol? ==> NoItem(Cat(l, r));
  }

  /** The code of a repetition, as the compiler makes it from that of its operand. */
  function Repeated(code: seq<byte>, last: nat, ops: seq<byte>): seq<byte>
    requires last <= |code|
  {
    var c1 := if ManyOk(ops) then code + JumpCode(MAYBE_FINALIZE_JUMP, last - 3 - (|code| + 3)) else code;
    var c2 := Inserted(c1, last, ON_FAILURE_JUMP, |c1| + 3);
    if ZeroOk(ops) then c2 else Inserted(c2, last, DUMMY_FAILURE_JUMP, last + 6)
  }

  /** `insert_jump`: what stands behind moves up. */
  function Inserted(code: seq<byte>, from: nat, op: byte, to: int): seq<byte>
    requires from <= |code|
  {
    code[..from] + JumpCode(op, to - (from + 3)) + code[from..]
  }

  lemma RepeatedIs(u: seq<byte>, r: Re, ops: seq<byte>)
    requires ops != [] && forall k :: 0 <= k < |ops| ==> IsOp(ops[k])
    ensures Repeated(u + Gen(r), |u|, ops) == u + Gen(Rep(r, ops))
  {
    hide JumpCode, Gen, ManyOk, ZeroOk, LoopCode;
    var g := Gen(r);
    SomeOk(ops);
    RepLength(r, ops);
    if ManyOk(ops) {
      RepeatedLoop(u, g, ops);
      if ZeroOk(ops) {
        LoopIs(r, ops);
      } else {
        RepeatedPlus(u, LoopCode(g));
        PlusIs(r, ops);
      }
    } else {
      RepeatedOption(u, g);
      OptionIs(r, ops);
    }
  }

  lemma PlusIs(r: Re, ops: seq<byte>)
    requires ManyOk(ops) && !ZeroOk(ops)
    ensures Gen(Rep(r, ops)) == JumpCode(DUMMY_FAILURE_JUMP, 3) + LoopCode(Gen(r))
  {
  }

  lemma OptionIs(r: Re, ops: seq<byte>)
    requires !ManyOk(ops)
    ensures Gen(Rep(r, ops)) == JumpCode(ON_FAILURE_JUMP, |Gen(r)|) + Gen(r)
  {
  }

  lemma RepeatedLoop(u: seq<byte>, g: seq<byte>, ops: seq<byte>)
    requires ManyOk(ops)
    ensures var c1 := u + g + JumpCode(MAYBE_FINALIZE_JUMP, |u| - 3 - (|u + g| + 3));
      Inserted(c1, |u|, ON_FAILURE_JUMP, |c1| + 3) == u + LoopCode(g)
  {
    hide JumpCode;
    var c1 := u + g + JumpCode(MAYBE_FINALIZE_JUMP, |u| - 3 - (|u + g| + 3));
    assert c1[..|u|] == u && c1[|u|..] == g + JumpCode(MAYBE_FINALIZE_JUMP, -(|g| + 6));
    assert |c1| - |u| == |g| + 3;
  }

  lemma RepeatedPlus(u: seq<byte>, loop: seq<byte>)
    ensures Inserted(u + loop, |u|, DUMMY_FAILURE_JUMP, |u| + 6) == u + (JumpCode(DUMMY_FAILURE_JUMP, 3) + loop)
  {
    hide JumpCode;
  }

  lemma RepeatedOption(u: seq<byte>, g: seq<byte>)
    ensures Inserted(u + g, |u|, ON_FAILURE_JUMP, |u + g| + 3) == u + (JumpCode(ON_FAILURE_JUMP, |g|) + g)
  {
    hide JumpCode;
  }

  /** An operator allows none or many. */
  lemma SomeOk(ops: seq<byte>)
    requires ops != [] && forall k :: 0 <= k < |ops| ==> IsOp(ops[k])
    ensures ManyOk(ops) || ZeroOk(ops)
  {
    assert ops[0] != PLUS || ops[0] != QUERY;
  }

  lemma RepeatOk(v: View, ops: seq<byte>)
    requires Ok(v) && v.laststart >= 0
    requires v.p + |ops| <= |v.pat| && v.pat[v.p..v.p + |ops|] == ops != []
    requires (forall k :: 0 <= k < |ops| ==> IsOp(ops[k])) && !IsOp(NextAt(v.pat, v.p + |ops|))
    ensures v.top.cur.Cat? && v.laststart == v.begalt + |Gen(v.top.cur.left)| <= |v.code|
    ensures var w := WithLast(v, Rep(v.top.cur.right, ops), ops, -1);
      Ok(w) && w.code == Repeated(v.code, v.laststart, ops)
  {
    hide CodeIs, TextOk, TreesOk, NumbersOk, LastOk, Gen, Repeated;
    TextGrows(v.pat, v.p, ops);
    Operand(v);
    LastPlace(v);
    var r := v.top.cur.right;
    RepFits(v, ops);
    LastOkAfter(v, Rep(r, ops), ops, -1);
    var u := v.code[..v.laststart];
    assert v.code == u + Gen(r);
    RepeatedIs(u, r, ops);
  }

  lemma RepFits(v: View, ops: seq<byte>)
    requires v.top.cur.Cat? && v.p + |ops| <= |v.pat| && v.pat[v.p..v.p + |ops|] == ops != []
    requires (forall k :: 0 <= k < |ops| ==> IsOp(ops[k])) && !IsOp(NextAt(v.pat, v.p + |ops|))
    requires NextAt(v.pat, v.p) == ops[0]
    requires var r := v.top.cur.right;
      (r.Run? || r.Any? || r.Set? || r.Group?) && Proper(r, NextAt(v.pat, v.p)) && Sized(r) && GroupsBelow(r, v.regnum)
      && Show(r) != [] && Gen(r) != []
    ensures LastFits(v, Rep(v.top.cur.right, ops), ops)
  {
  }

  // ---- alternation

  function WithBar(v: View, hole: seq<byte>): View
    requires v.begalt <= |v.code| && (v.fixup < 0 || v.fixup + 3 <= v.begalt)
  {
    v.(p := v.p + 1, code := Barred(v.code, v.begalt, v.fixup, hole), begalt := |v.code| + 6, fixup := |v.code| + 3,
       laststart := -1, pending := -1, top := Frame(v.top.alts + [v.top.cur], Empty))
  }

  lemma BarOk(v: View, hole: seq<byte>)
    requires Ok(v) && v.p < |v.pat| && v.pat[v.p] == BAR && |hole| == 3
    ensures v.begalt <= |v.code| && (v.fixup < 0 || v.fixup + 3 <= v.begalt)
    ensures Ok(WithBar(v, hole))
  {
    hide Gen, Show, Proper, LowerOk, Chain, Barred, GroupsBelow;
    BarFrame(v.code, BaseOf(v.stack), v.begalt, v.fixup, v.top, hole);
    var w := WithBar(v, hole);
    BarText(v, w);
    BarTrees(v, w);
    assert w.code[..BaseOf(v.stack)] == v.code[..BaseOf(v.stack)];
    assert NumbersOk(w) by { BarNumbers(v, w); }
  }

  lemma BarText(v: View, w: View)
    requires TextOk(v) && v.p < |v.pat| && v.pat[v.p] == BAR
    requires w.pat == v.pat && w.p == v.p + 1 && w.frames == v.frames && w.top == Frame(v.top.alts + [v.top.cur], Empty)
    ensures TextOk(w)
  {
    hide StackText, AltsText;
    TextGrows(v.pat, v.p, [BAR]);
    AltsTextSnoc(v.top.alts, v.top.cur);
    assert Show(Empty) == [];
    assert FrameText(w.top) == FrameText(v.top) + [BAR];
  }

  lemma BarTrees(v: View, w: View)
    requires TreesOk(v) && v.p < |v.pat| && v.pat[v.p] == BAR
    requires w.pat == v.pat && w.p == v.p + 1 && w.frames == v.frames && w.top == Frame(v.top.alts + [v.top.cur], Empty)
    ensures TreesOk(w)
  {
  }

  lemma BarNumbers(v: View, w: View)
    requires NumbersOk(v) && w.regnum == v.regnum && w.stack == v.stack && w.frames == v.frames
    requires w.top == Frame(v.top.alts + [v.top.cur], Empty)
    ensures NumbersOk(w)
  {
  }

  // ---- groups

  function WithOpen(v: View): View
    requires v.regnum < 256
  {
    v.(p := v.p + 1, code := v.code + [START_MEMORY, v.regnum], begalt := |v.code| + 2, fixup := -1, laststart := -1,
       regnum := v.regnum + 1, stack := v.stack + [Saved(|v.code|, v.fixup, v.regnum, v.begalt)],
       frames := v.frames + [v.top], top := Frame([], Empty))
  }

  lemma OpenOk(v: View)
    requires Ok(v) && v.p < |v.pat| && v.pat[v.p] == OPEN && v.regnum + 1 < 256
    ensures Ok(WithOpen(v))
  {
    hide Gen, Show, Proper, LowerOk, Chain, GroupsBelow, FrameOk, FrameText, StackText, FrameProper;
    var w := WithOpen(v);
    OpenText(v, w);
    OpenCode(v, w);
    OpenTrees(v, w);
    OpenNumbers(v, w);
    OpenPending(v, w);
    OpenLast(w);
  }

  lemma OpenLast(w: View)
    requires w.top == Frame([], Empty) && w.laststart == -1
    ensures LastOk(w)
  {
  }

  lemma OpenText(v: View, w: View)
    requires TextOk(v) && v.p < |v.pat| && v.pat[v.p] == OPEN
    requires w.pat == v.pat && w.p == v.p + 1 && w.frames == v.frames + [v.top] && w.top == Frame([], Empty)
    ensures TextOk(w)
  {
    TextGrows(v.pat, v.p, [OPEN]);
    assert w.frames[..|v.frames|] == v.frames;
  }

  lemma OpenCode(v: View, w: View)
    requires CodeIs(v) && v.regnum < 256 && w == WithOpen(v)
    ensures CodeIs(w)
  {
    hide Chain, FrameOk;
    var n := |v.stack|;
    assert w.stack[..n] == v.stack && w.frames[..n] == v.frames;
    assert w.code[..BaseOf(w.stack)] == w.code;
    assert w.code[..|v.code|] == v.code && w.code[|v.code|..] == [START_MEMORY, v.regnum];
    FrameBounds(v.code, BaseOf(v.stack), v.begalt, v.fixup, v.top);
    assert w.code[..BaseOf(v.stack)] == v.code[..BaseOf(v.stack)];
    LowerSize(v.code[..BaseOf(v.stack)], v.stack, v.frames);
    NewFrame(w.code);
  }

  lemma LowerSize(prefix: seq<byte>, stack: seq<Saved>, frames: seq<Frame>)
    requires LowerOk(prefix, stack, frames)
    ensures |stack| == |frames|
  {
  }

  lemma FrameBounds(code: seq<byte>, base: nat, begalt: nat, fixup: int, f: Frame)
    requires FrameOk(code, base, begalt, fixup, f)
    ensures base <= begalt <= |code|
  {
  }

  lemma NewFrame(code: seq<byte>)
    ensures FrameOk(code, |code|, |code|, -1, Frame([], Empty))
  {
  }

  lemma OpenTrees(v: View, w: View)
    requires TreesOk(v) && v.p < |v.pat| && v.pat[v.p] == OPEN && w.frames == v.frames + [v.top] && w.top == Frame([], Empty)
    ensures TreesOk(w)
  {
    hide Gen, Show;
    assert FrameProper(Frame([], Empty), NextAt(w.pat, w.p));
  }

  lemma OpenNumbers(v: View, w: View)
    requires NumbersOk(v) && v.regnum + 1 < 256 && w.regnum == v.regnum + 1
    requires w.stack == v.stack + [Saved(|v.code|, v.fixup, v.regnum, v.begalt)]
    requires w.frames == v.frames + [v.top] && w.top == Frame([], Empty)
    ensures NumbersOk(w)
  {
    MoreGroups(v.top, v.regnum);
    forall k | 0 <= k < |v.frames|
      ensures FrameGroups(v.frames[k], v.regnum + 1)
    {
      MoreGroups(v.frames[k], v.regnum);
    }
  }

  lemma MoreGroups(f: Frame, m: nat)
    requires FrameGroups(f, m)
    ensures FrameGroups(f, m + 1)
  {
    GroupsBelowMore(f.cur, m);
    forall k | 0 <= k < |f.alts|
      ensures GroupsBelow(f.alts[k], m + 1)
    {
      GroupsBelowMore(f.alts[k], m);
    }
  }

  lemma {:induction false} GroupsBelowMore(re: Re, m: nat)
    requires GroupsBelow(re, m)
    ensures GroupsBelow(re, m + 1)
  {
    match re
    case Group(_, body) => GroupsBelowMore(body, m);
    case Rep(r, _) => GroupsBelowMore(r, m);
    case Cat(l, r) =>
      GroupsBelowMore(l, m);
      GroupsBelowMore(r, m);
    case Alt(l, r) =>
      GroupsBelowMore(l, m);
      GroupsBelowMore(r, m);
    case _ =>
  }

  lemma OpenPending(v: View, w: View)
    requires PendingOk(v) && v.regnum < 256 && w == WithOpen(v)
    ensures PendingOk(w)
  {
    hide Gen;
  }

  /** The group that ends. */
  function Closed(v: View): Re
    requires v.stack != [] && v.stack[|v.stack| - 1].regnum < 256
  {
    Group(v.stack[|v.stack| - 1].regnum, Tree(v.top))
  }

  function WithClose(v: View): View
    requires v.stack != [] && |v.frames| == |v.stack| && v.stack[|v.stack| - 1].regnum < 256
    requires v.fixup < 0 || v.fixup + 3 <= |v.code|
  {
    var n := |v.stack| - 1;
    var t, f := v.stack[n], v.frames[n];
    v.(p := v.p + 1, code := Filled(v.code, v.fixup, |v.code|) + [STOP_MEMORY, t.regnum],
       begalt := t.begalt, fixup := t.fixup, laststart := t.start, stack := v.stack[..n], frames := v.frames[..n],
       top := f.(cur := Cat(f.cur, Closed(v))))
  }

  lemma CloseReady(v: View)
    requires Ok(v) && v.stack != []
    ensures |v.frames| == |v.stack| && v.stack[|v.stack| - 1].regnum < 256
    ensures v.fixup < 0 || v.fixup + 3 <= |v.code|
  {
    hide Gen, Chain;
  }

  lemma CloseOk(v: View)
    requires Ok(v) && v.p < |v.pat| && v.pat[v.p] == CLOSE && v.stack != []
    ensures |v.frames| == |v.stack| && v.stack[|v.stack| - 1].regnum < 256
    ensures v.fixup < 0 || v.fixup + 3 <= |v.code|
    ensures Ok(WithClose(v))
  {
    hide Gen, Show, Proper, LowerOk, Chain, GroupsBelow, FrameOk, FrameText, StackText, FrameProper, Filled, Tree, Closed;
    CloseReady(v);
    var w := WithClose(v);
    CloseText(v, w);
    CloseCode(v, w);
    CloseTrees(v, w);
    CloseNumbers(v, w);
    ClosePending(v, w);
    CloseLast(v, w);
  }

  lemma CloseText(v: View, w: View)
    requires TextOk(v) && v.p < |v.pat| && v.pat[v.p] == CLOSE && v.stack != [] && |v.frames| == |v.stack|
    requires v.stack[|v.stack| - 1].regnum < 256
    requires var n := |v.stack| - 1; var f := v.frames[n];
      w.pat == v.pat && w.p == v.p + 1 && w.frames == v.frames[..n] && w.top == f.(cur := Cat(f.cur, Closed(v)))
    ensures TextOk(w)
  {
    hide StackText, AltsText, AltOf;
    var n := |v.stack| - 1;
    var f := v.frames[n];
    TextGrows(v.pat, v.p, [CLOSE]);
    StackTextLast(v.frames);
    ClosedText(v, f);
    hide Show, FrameText, Closed;
    Regroup(StackText(v.frames[..n]), FrameText(f), FrameText(v.top));
  }

  lemma ClosedText(v: View, f: Frame)
    requires v.stack != [] && v.stack[|v.stack| - 1].regnum < 256
    ensures FrameText(f.(cur := Cat(f.cur, Closed(v)))) == FrameText(f) + ([OPEN] + FrameText(v.top) + [CLOSE])
  {
    hide AltsText, AltOf;
    TreeText(v.top.alts, v.top.cur);
    ShowCat(f.cur, Closed(v));
    assert Show(Closed(v)) == [OPEN] + Show(Tree(v.top)) + [CLOSE];
    hide Show;
    assert AltsText(f.alts) + (Show(f.cur) + Show(Closed(v))) == AltsText(f.alts) + Show(f.cur) + Show(Closed(v));
  }

  lemma Regroup(x: seq<byte>, f: seq<byte>, t: seq<byte>)
    ensures x + f + [OPEN] + t + [CLOSE] == x + (f + ([OPEN] + t + [CLOSE]))
  {
  }

  lemma StackTextLast(frames: seq<Frame>)
    requires frames != []
    ensures StackText(frames) == StackText(frames[..|frames| - 1]) + FrameText(frames[|frames| - 1]) + [OPEN]
  {
  }

  lemma CloseCode(v: View, w: View)
    requires CodeIs(v) && TreesOk(v) && v.stack != [] && |v.frames| == |v.stack| && v.stack[|v.stack| - 1].regnum < 256
    requires v.fixup < 0 || v.fixup + 3 <= |v.code|
    requires w == WithClose(v)
    ensures CodeIs(w)
  {
    hide Gen, Chain, Filled, Tree, FrameOk, Proper;
    var n := |v.stack| - 1;
    var t, f := v.stack[n], v.frames[n];
    var base, base' := BaseOf(v.stack), BaseOf(v.stack[..n]);
    FrameFlat(v.top, NextAt(v.pat, v.p));
    CloseFrame(v.code, base, v.begalt, v.fixup, v.top);
    var c := Filled(v.code, v.fixup, |v.code|);
    var prefix := v.code[..base];
    var low := prefix[..t.start];
    assert prefix == low + [START_MEMORY, t.regnum];
    GroupCode(t.regnum, Tree(v.top));
    assert c == prefix + Gen(Tree(v.top));
    assert w.code == low + Gen(Closed(v));
    AppendItem(low, base', t.begalt, t.fixup, f, Closed(v));
    assert w.code[..base'] == prefix[..base'];
  }

  lemma GroupCode(n: byte, body: Re)
    ensures Gen(Group(n, body)) == [START_MEMORY, n] + Gen(body) + [STOP_MEMORY, n]
  {
  }

  lemma CloseTrees(v: View, w: View)
    requires TreesOk(v) && v.p < |v.pat| && v.pat[v.p] == CLOSE && v.stack != [] && |v.frames| == |v.stack|
    requires v.stack[|v.stack| - 1].regnum < 256
    requires var n := |v.stack| - 1; var f := v.frames[n];
      w.frames == v.frames[..n] && w.top == f.(cur := Cat(f.cur, Closed(v)))
    ensures TreesOk(w)
  {
    hide Gen, Tree, AltOf;
    var n := |v.stack| - 1;
    var f := v.frames[n];
    TreeProper(v.top.alts, v.top.cur, CLOSE);
    assert Tree(v.top) == AltOf(v.top.alts, v.top.cur) by { TreeIs(v.top); }
    var g := Closed(v);
    assert Show(g)[0] == OPEN;
    assert Proper(g, NextAt(w.pat, w.p)) && Sized(g);
  }

  lemma TreeIs(f: Frame)
    ensures Tree(f) == AltOf(f.alts, f.cur)
  {
  }

  lemma CloseNumbers(v: View, w: View)
    requires NumbersOk(v) && v.stack != [] && w.regnum == v.regnum
    requires v.stack[|v.stack| - 1].regnum < 256
    requires var n := |v.stack| - 1; var f := v.frames[n];
      w.frames == v.frames[..n] && w.stack == v.stack[..n] && w.top == f.(cur := Cat(f.cur, Closed(v)))
    ensures NumbersOk(w)
  {
    TreeGroups(v.top.alts, v.top.cur, v.regnum);
  }

  lemma {:induction false} TreeGroups(alts: seq<Re>, cur: Re, m: nat)
    requires FrameGroups(Frame(alts, cur), m)
    ensures GroupsBelow(AltOf(alts, cur), m)
  {
    if alts != [] {
      var rest := Frame(alts[1..], cur);
      assert forall k :: 0 <= k < |rest.alts| ==> rest.alts[k] == alts[k + 1];
      TreeGroups(alts[1..], cur, m);
    }
  }

  lemma ClosePending(v: View, w: View)
    requires PendingOk(v) && CodeIs(v) && v.stack != [] && |v.frames| == |v.stack| && v.stack[|v.stack| - 1].regnum < 256
    requires v.fixup < 0 || v.fixup + 3 <= |v.code|
    requires w == WithClose(v)
    ensures PendingOk(w)
  {
    hide Gen, Chain, LowerOk, Tree, JumpCode, FrameOk;
    var n := |v.stack| - 1;
    var c := Filled(v.code, v.fixup, |v.code|);
    assert |c| == |v.code|;
    if v.pending >= 0 {
      assert c[v.pending] == v.code[v.pending];
      assert w.code[v.pending] == c[v.pending];
      assert v.stack[n] in v.stack;
    }
  }

  lemma CloseLast(v: View, w: View)
    requires CodeIs(v) && v.stack != [] && |v.frames| == |v.stack| && v.stack[|v.stack| - 1].regnum < 256
    requires var n := |v.stack| - 1; var t, f := v.stack[n], v.frames[n];
      w.begalt == t.begalt && w.laststart == t.start && w.top == f.(cur := Cat(f.cur, Closed(v)))
    ensures LastOk(w)
  {
    hide Chain, Tree;
    var n := |v.stack| - 1;
    var t, f := v.stack[n], v.frames[n];
    var low := v.code[..BaseOf(v.stack)][..t.start];
    assert low[t.begalt..] == Gen(f.cur);
    assert |low| == t.start;
  }

  // ---- the end

  /** At the end of the pattern, with all groups closed, the last jump filled: the code of a tree that spells it. */
  lemma FinishOk(v: View)
    requires Ok(v) && v.p == |v.pat| && v.stack == []
    ensures v.fixup < 0 || v.fixup + 3 <= |v.code|
    ensures var re := Tree(v.top);
      && Filled(v.code, v.fixup, |v.code|) == Gen(re)
      && Show(re) == v.pat && Proper(re, -1) && Sized(re) && GroupsBelow(re, v.regnum)
  {
    hide Gen, Chain, Filled, FrameOk, Proper;
    FrameFlat(v.top, -1);
    CloseFrame(v.code, 0, v.begalt, v.fixup, v.top);
    var c := Filled(v.code, v.fixup, |v.code|);
    assert c[0..] == c;
    TreeText(v.top.alts, v.top.cur);
    TreeProper(v.top.alts, v.top.cur, -1);
    TreeGroups(v.top.alts, v.top.cur, v.regnum);
    assert v.pat[..v.p] == v.pat;
  }

  // ---- the length of the code

  lemma {:induction false} LitsLength(ls: seq<Lit>)
    ensures |ShowLits(ls)| >= |ls|
    decreases |ls|
  {
    if ls != [] { LitsLength(ls[..|ls| - 1]); }
  }

  lemma ItemsLength(items: seq<SetItem>)
    requires items != []
    ensures |ShowItems(items)| >= 1
  {
  }

  /** No character of a pattern makes more than twelve bytes of code. */
  lemma {:induction false} GenShort(re: Re, next: int)
    requires Proper(re, next) && Sized(re)
    ensures |Gen(re)| <= 12 * |Show(re)|
  {
    hide ProperLits, ProperItems, BitOf, InItems, ShowItems, ShowLits, ManyOk, ZeroOk;
    match re {
      case Run(ls) => LitsLength(ls);
      case Set(_, items, _) => ItemsLength(items);
      case Group(_, body) => GenShort(body, CLOSE);
      case Rep(r, ops) => GenShort(r, ops[0]);
      case Cat(l, r) =>
        GenShort(l, First(Show(r), next));
        GenShort(r, next);
      case Alt(l, r) =>
        GenShort(l, BAR);
        GenShort(r, next);
      case _ =>
    }
  }

  lemma {:induction false} ChainShort(alts: seq<Re>)
    requires alts != [] && forall k :: 0 <= k < |alts| ==> Proper(alts[k], BAR) && Sized(alts[k])
    ensures |Chain(alts)| + 3 <= 12 * |AltsText(alts)|
  {
    hide Proper, Sized, Gen, Show;
    GenShort(alts[0], BAR);
    if |alts| > 1 {
      ChainShort(alts[1..]);
    } else {
      assert alts[1..] == [];
    }
  }

  lemma FrameShort(code: seq<byte>, base: nat, begalt: nat, fixup: int, f: Frame, next: int)
    requires FrameOk(code, base, begalt, fixup, f) && FrameProper(f, next)
    ensures |code| - base <= 12 * |FrameText(f)|
  {
    hide Proper, Sized, Gen, Show, Chain, AltsText;
    GenShort(f.cur, next);
    if f.alts != [] {
      ChainShort(f.alts);
      assert |code[base..fixup]| == fixup - base;
    }
    assert |code[begalt..]| == |code| - begalt;
  }

  lemma {:induction false} LowerShort(prefix: seq<byte>, stack: seq<Saved>, frames: seq<Frame>)
    requires LowerOk(prefix, stack, frames) && forall k :: 0 <= k < |frames| ==> FrameProper(frames[k], OPEN)
    ensures |prefix| <= 12 * |StackText(frames)|
    decreases |stack|
  {
    hide FrameOk, FrameProper, FrameText;
    if stack != [] {
      var n := |stack| - 1;
      var t, base := stack[n], BaseOf(stack[..n]);
      LowerShort(prefix[..base], stack[..n], frames[..n]);
      FrameShort(prefix[..t.start], base, t.begalt, t.fixup, frames[n], OPEN);
    }
  }

  /** The code written so far is no longer than twelve times what was read. */
  lemma CodeShort(v: View)
    requires Ok(v)
    ensures |v.code| <= 12 * v.p <= 12 * |v.pat|
  {
    hide FrameOk, FrameProper, FrameText, LowerOk, StackText, NumbersOk, LastOk, PendingOk;
    var base := BaseOf(v.stack);
    LowerShort(v.code[..base], v.stack, v.frames);
    FrameShort(v.code, base, v.begalt, v.fixup, v.top, NextAt(v.pat, v.p));
    assert |v.pat[..v.p]| == v.p;
  }
}
