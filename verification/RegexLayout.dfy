/** What the one-pass compiler of regex.c has in its buffer at any time, and how each token changes it. */
module RegexLayout {
  import opened RegexSets
  import opened RegexTree
  import opened RegexPath

  /**
   * A group that is open, or the whole pattern: its finished alternatives, and the sequence so far of the last one,
   * nested to the left.
   */
  datatype Frame = Frame(alts: seq<Re>, cur: Re)

  /** Alternatives nested to the right. */
  function AltOf(alts: seq<Re>, last: Re): Re {
    if alts == [] then last else Alt(alts[0], AltOf(alts[1..], last))
  }

  function Tree(f: Frame): Re {
    AltOf(f.alts, f.cur)
  }

  /** Finished alternatives with the jumps behind all of them but the last. */
  function Chain(alts: seq<Re>): seq<byte>
    requires alts != []
  {
    JumpCode(ON_FAILURE_JUMP, |Gen(alts[0])| + 3) + Gen(alts[0])
    + if |alts| == 1 then [] else JumpCode(JUMP, 3 + |Gen(alts[1])|) + Chain(alts[1..])
  }

  /** The end of `code` from `base` on is that of a frame; the jump behind its last finished alternative is not filled. */
  predicate FrameOk(code: seq<byte>, base: nat, begalt: nat, fixup: int, f: Frame) {
    && base <= begalt <= |code| && code[begalt..] == Gen(f.cur)
    && if f.alts == [] then begalt == base && fixup == -1
       else fixup == base + |Chain(f.alts)| && begalt == fixup + 3 && code[base..fixup] == Chain(f.alts)
  }

  /** No alternative is itself an alternation: those stand in groups. */
  predicate Flat(f: Frame) {
    !f.cur.Alt? && forall k :: 0 <= k < |f.alts| ==> !f.alts[k].Alt?
  }

  /** One more finished alternative. */
  lemma {:induction false} ChainSnoc(alts: seq<Re>, r: Re)
    ensures Chain(alts + [r]) ==
      (if alts == [] then [] else Chain(alts) + JumpCode(JUMP, 3 + |Gen(r)|))
      + JumpCode(ON_FAILURE_JUMP, |Gen(r)| + 3) + Gen(r)
  {
    hide JumpCode, Gen;
    var all := alts + [r];
    if alts != [] {
      ChainSnoc(alts[1..], r);
      assert all[1..] == alts[1..] + [r];
      if |alts| == 1 {
        assert all[1] == r && alts[1..] == [];
      } else {
        assert all[1] == alts[1];
      }
    }
  }

  /** Filling the last jump makes the code of the alternation. */
  lemma {:induction false} ChainIsGen(alts: seq<Re>, last: Re)
    requires alts != [] && !last.Alt? && forall k :: 0 <= k < |alts| ==> !alts[k].Alt?
    ensures Gen(AltOf(alts, last)) == Chain(alts) + JumpCode(JUMP, |Gen(last)|) + Gen(last)
  {
    hide JumpCode, Gen, Chain;
    var rest := AltOf(alts[1..], last);
    AltIs(alts[0], rest);
    AltLength(alts[0], rest);
    ChainStep(alts);
    if |alts| > 1 {
      ChainIsGen(alts[1..], last);
      AltLength(alts[1], AltOf(alts[2..], last));
      assert rest == Alt(alts[1], AltOf(alts[1..][1..], last));
    } else {
      assert rest == last;
    }
  }

  lemma ChainStep(alts: seq<Re>)
    requires alts != []
    ensures Chain(alts) == JumpCode(ON_FAILURE_JUMP, |Gen(alts[0])| + 3) + Gen(alts[0])
      + if |alts| == 1 then [] else JumpCode(JUMP, 3 + |Gen(alts[1])|) + Chain(alts[1..])
  {
  }

  /** `store_jump` at the place left for it turns a frame into the code of its tree. */
  function Filled(code: seq<byte>, fixup: int, to: nat): seq<byte>
    requires fixup < 0 || fixup + 3 <= |code|
  {
    if fixup < 0 then code else code[..fixup] + JumpCode(JUMP, to - (fixup + 3)) + code[fixup + 3..]
  }

  lemma CloseFrame(code: seq<byte>, base: nat, begalt: nat, fixup: int, f: Frame)
    requires FrameOk(code, base, begalt, fixup, f) && Flat(f)
    ensures fixup < 0 || fixup + 3 <= |code|
    ensures var c := Filled(code, fixup, |code|); |c| == |code| && c[..base] == code[..base] && c[base..] == Gen(Tree(f))
  {
    hide JumpCode;
    if f.alts != [] {
      ChainIsGen(f.alts, f.cur);
      var c := Filled(code, fixup, |code|);
      assert c[base..] == code[base..fixup] + JumpCode(JUMP, |code| - (fixup + 3)) + code[fixup + 3..];
    }
  }

  /** An item at the end. */
  lemma AppendItem(code: seq<byte>, base: nat, begalt: nat, fixup: int, f: Frame, item: Re)
    requires FrameOk(code, base, begalt, fixup, f)
    ensures FrameOk(code + Gen(item), base, begalt, fixup, f.(cur := Cat(f.cur, item)))
  {
    hide JumpCode, Chain;
    var c := code + Gen(item);
    assert c[begalt..] == code[begalt..] + Gen(item);
    if f.alts != [] { assert c[base..fixup] == code[base..fixup]; }
  }

  lemma GenCat(l: Re, r: Re)
    ensures Gen(Cat(l, r)) == Gen(l) + Gen(r)
  {
  }

  /** Another last item in place of the last one. */
  lemma ReplaceItem(code: seq<byte>, base: nat, begalt: nat, fixup: int, f: Frame, item: Re)
    requires FrameOk(code, base, begalt, fixup, f) && f.cur.Cat?
    ensures begalt + |Gen(f.cur.left)| + |Gen(f.cur.right)| == |code|
    ensures code[begalt + |Gen(f.cur.left)|..] == Gen(f.cur.right)
    ensures FrameOk(code[..begalt + |Gen(f.cur.left)|] + Gen(item), base, begalt, fixup, f.(cur := Cat(f.cur.left, item)))
  {
    hide JumpCode, Chain, Gen;
    var l, r := f.cur.left, f.cur.right;
    GenCat(l, r);
    GenCat(l, item);
    var m := begalt + |Gen(l)|;
    var c := code[..m] + Gen(item);
    assert code[begalt..][..|Gen(l)|] == Gen(l);
    assert code[begalt..][|Gen(l)|..] == Gen(r);
    assert c[begalt..] == Gen(l) + Gen(item);
    if f.alts != [] { assert c[base..fixup] == code[base..fixup]; }
  }

  /** The code after a bar: a choice before the last alternative, the jump before it filled, a place for its own. */
  function Barred(code: seq<byte>, begalt: nat, fixup: int, hole: seq<byte>): seq<byte>
    requires begalt <= |code| && (fixup < 0 || fixup + 3 <= begalt)
  {
    var c := code[..begalt] + JumpCode(ON_FAILURE_JUMP, |code| + 6 - (begalt + 3)) + code[begalt..];
    Filled(c, fixup, |code| + 3) + hole
  }

  lemma BarFrame(code: seq<byte>, base: nat, begalt: nat, fixup: int, f: Frame, hole: seq<byte>)
    requires FrameOk(code, base, begalt, fixup, f) && |hole| == 3
    ensures fixup < 0 || fixup + 3 <= begalt
    ensures var c := Barred(code, begalt, fixup, hole);
      && |c| == |code| + 6 && c[..base] == code[..base]
      && FrameOk(c, base, |code| + 6, |code| + 3, Frame(f.alts + [f.cur], Empty))
  {
    hide JumpCode, Chain, Gen, Barred;
    var c := Barred(code, begalt, fixup, hole);
    var u, g := code[..base], Gen(f.cur);
    var x := JumpCode(ON_FAILURE_JUMP, |g| + 3) + g;
    ChainSnoc(f.alts, f.cur);
    GenEmpty();
    var ch := Chain(f.alts + [f.cur]);
    if f.alts == [] {
      assert code == u + g;
      BarFirst(u, g, hole);
      assert ch == x;
    } else {
      assert code == u + Chain(f.alts) + code[fixup..begalt] + g;
      BarNext(u, Chain(f.alts), code[fixup..begalt], g, hole);
      assert ch == Chain(f.alts) + JumpCode(JUMP, 3 + |g|) + JumpCode(ON_FAILURE_JUMP, |g| + 3) + g;
    }
    BarParts(c, u, ch, hole);
  }

  lemma BarParts(c: seq<byte>, u: seq<byte>, ch: seq<byte>, hole: seq<byte>)
    requires c == u + ch + hole && |hole| == 3
    ensures c[..|u|] == u && c[|u|..|u| + |ch|] == ch && c[|c|..] == [] && |c| == |u| + |ch| + 3
  {
  }

  lemma GenEmpty()
    ensures Gen(Empty) == []
  {
  }

  lemma BarFirst(u: seq<byte>, g: seq<byte>, hole: seq<byte>)
    requires |hole| == 3
    ensures Barred(u + g, |u|, -1, hole) == u + (JumpCode(ON_FAILURE_JUMP, |g| + 3) + g) + hole
  {
    hide JumpCode;
  }

  lemma BarNext(u: seq<byte>, ch: seq<byte>, h: seq<byte>, g: seq<byte>, hole: seq<byte>)
    requires |h| == 3 && |hole| == 3
    ensures Barred(u + ch + h + g, |u| + |ch| + 3, |u| + |ch|, hole)
      == u + (ch + JumpCode(JUMP, 3 + |g|) + JumpCode(ON_FAILURE_JUMP, |g| + 3) + g) + hole
  {
    hide JumpCode;
    var code := u + ch + h + g;
    var c := code[..|u| + |ch| + 3] + JumpCode(ON_FAILURE_JUMP, |g| + 3) + code[|u| + |ch| + 3..];
    assert c == u + ch + h + JumpCode(ON_FAILURE_JUMP, |g| + 3) + g;
    assert |code| + 3 - (|u| + |ch| + 3) == 3 + |g|;
  }
}
