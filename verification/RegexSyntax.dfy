/** When a tree is the derivation of a pattern: the choices that the text forces. */
module RegexSyntax {
  import opened RegexSets
  import opened RegexTree
  import opened RegexLayout

  /** The character at a position of a pattern, or -1 at its end. */
  function NextAt(pat: seq<byte>, p: nat): int {
    if p < |pat| then pat[p] else -1
  }

  /** The first character of a text, or what follows when there is none. */
  function First(t: seq<byte>, next: int): int {
    if t == [] then next else t[0]
  }

  /** A dollar sign stands for the end of a line only before these. */
  predicate EolFollows(next: int) {
    next == -1 || next == NEWLINE || next == CLOSE || next == BAR
  }

  predicate IsOp(c: int) {
    c == STAR || c == PLUS || c == QUERY
  }

  /** Characters that do not stand for themselves without a backslash. */
  predicate Special(c: byte) {
    c == DOT || IsOp(c) || c == OPEN || c == CLOSE || c == BAR || c == BRACKET || c == BACKSLASH || c == HAT || c == BRACE
  }

  /** Characters that a backslash makes special: s S d D w W b B x and the digits. */
  predicate ClassEscape(c: byte) {
    c == 115 || c == 83 || c == 100 || c == 68 || c == 119 || c == 87 || c == 98 || c == 66 || c == 120 || 48 <= c <= 57
  }

  predicate ProperLit(l: Lit, next: int) {
    && l.c < 128
    && if l.escaped then !ClassEscape(l.c) else !Special(l.c) && (l.c == DOLLAR ==> !EolFollows(next))
  }

  predicate ProperLits(ls: seq<Lit>, next: int) {
    ls == [] || (ProperLits(ls[..|ls| - 1], ShowLit(ls[|ls| - 1])[0]) && ProperLit(ls[|ls| - 1], next))
  }

  /** In brackets only the backslash and the closing bracket are special; that stands for itself in the first place. */
  predicate ProperSetLit(l: Lit, first: bool) {
    && l.c < 128
    && if l.escaped then !SetEscape(l.c) else l.c != BACKSLASH && (l.c == UNBRACKET ==> first)
  }

  /** Characters that a backslash makes special in brackets: w W s S d D x and the digits. */
  predicate SetEscape(c: byte) {
    c == 119 || c == 87 || c == 115 || c == 83 || c == 100 || c == 68 || c == 120 || 48 <= c <= 57
  }

  const PLAIN_DASH := One(Lit(DASH, false))

  /**
   * The parts of brackets: ranges ascend, and a dash between two characters makes them a range, so that a plain dash
   * comes behind a single character only at the end.
   */
  predicate ProperItems(items: seq<SetItem>) {
    && (forall k :: 0 <= k < |items| ==> ProperItem(items[k], k == 0))
    && (forall k :: 0 < k < |items| && BeginsDash(items[k]) && items[k - 1].One? ==>
          k == |items| - 1 && items[k] == PLAIN_DASH)
  }

  /** A plain dash comes first. */
  predicate BeginsDash(i: SetItem) {
    i == PLAIN_DASH || (i.Span? && i.lo == Lit(DASH, false))
  }

  predicate ProperItem(i: SetItem, first: bool) {
    match i
    case One(l) => ProperSetLit(l, first)
    case Span(lo, hi) => ProperSetLit(lo, first) && ProperSetLit(hi, false) && lo.c <= hi.c
  }

  predicate Anchor(re: Re) {
    re.Bol? || re.Eol?
  }

  /** A sequence in which nothing but anchors stands. */
  predicate NoItem(re: Re) {
    re.Empty? || (re.Cat? && Anchor(re.right) && NoItem(re.left))
  }

  /** Where the code of the last item that is no anchor starts. */
  function LastPos(re: Re): nat
    requires !NoItem(re)
  {
    if re.Cat? && Anchor(re.right) then LastPos(re.left) else if re.Cat? then |Gen(re.left)| else 0
  }

  /**
   * The tree is the one that the text asks for when `next` follows: which characters are special, what a repetition
   * applies to, where a line's beginning may be asked for.
   */
  predicate Proper(re: Re, next: int) {
    match re
    case Empty => true
    case Run(ls) => ls != [] && ProperLits(ls, next) && (IsOp(next) ==> |ls| == 1)
    case Any => true
    case Set(neg, items, _) =>
      && items != [] && ProperItems(items)
      && (!neg ==> items[0] != One(Lit(HAT, false)) && !(items[0].Span? && items[0].lo == Lit(HAT, false)))
    case Bol => true
    case Eol => EolFollows(next)
    case Group(_, body) => Proper(body, CLOSE)
    case Rep(r, ops) =>
      && (r.Run? || r.Any? || r.Set? || r.Group?)
      && ops != [] && (forall k :: 0 <= k < |ops| ==> IsOp(ops[k])) && !IsOp(next)
      && Proper(r, ops[0])
    case Cat(l, r) =>
      && (l.Empty? || l.Cat?) && !r.Empty? && !r.Cat? && !r.Alt?
      && Proper(l, First(Show(r), next)) && Proper(r, next)
      && (r.Bol? ==> NoItem(l))
    case Alt(l, r) => !l.Alt? && Proper(l, BAR) && Proper(r, next)
  }

  // ---- frames

  /** The text of a frame. */
  function FrameText(f: Frame): seq<byte> {
    AltsText(f.alts) + Show(f.cur)
  }

  function AltsText(alts: seq<Re>): seq<byte> {
    if alts == [] then [] else Show(alts[0]) + [BAR] + AltsText(alts[1..])
  }

  /** A frame whose parts are proper, have code that fits, and use groups below `regs`. */
  ghost predicate FrameProper(f: Frame, next: int) {
    && (f.cur.Empty? || f.cur.Cat?) && Proper(f.cur, next) && Sized(f.cur)
    && forall k :: 0 <= k < |f.alts| ==> (f.alts[k].Empty? || f.alts[k].Cat?) && Proper(f.alts[k], BAR) && Sized(f.alts[k])
  }

  lemma {:induction false} TreeText(alts: seq<Re>, cur: Re)
    ensures Show(AltOf(alts, cur)) == AltsText(alts) + Show(cur)
  {
    if alts != [] {
      var rest := AltOf(alts[1..], cur);
      TreeText(alts[1..], cur);
      assert Show(Alt(alts[0], rest)) == Show(alts[0]) + [BAR] + Show(rest);
    }
  }

  lemma {:induction false} AltsTextSnoc(alts: seq<Re>, r: Re)
    ensures AltsText(alts + [r]) == AltsText(alts) + Show(r) + [BAR]
  {
    hide Show;
    var all := alts + [r];
    if alts == [] {
      assert all[1..] == [];
    } else {
      assert all[1..] == alts[1..] + [r];
      AltsTextSnoc(alts[1..], r);
      assert AltsText(all) == Show(alts[0]) + [BAR] + AltsText(all[1..]);
    }
  }

  lemma {:induction false} TreeProper(alts: seq<Re>, cur: Re, next: int)
    requires FrameProper(Frame(alts, cur), next)
    ensures Proper(AltOf(alts, cur), next) && Sized(AltOf(alts, cur))
  {
    if alts != [] {
      var rest := Frame(alts[1..], cur);
      assert forall k :: 0 <= k < |rest.alts| ==> rest.alts[k] == alts[k + 1];
      TreeProper(alts[1..], cur, next);
    }
  }

  lemma FrameFlat(f: Frame, next: int)
    requires FrameProper(f, next)
    ensures Flat(f)
  {
  }
}
