/** Why a pattern is refused: how far it can be read as trees, and what stands there. */
module RegexRefusal {
  import opened RegexSets
  import opened RegexTree
  import opened RegexLayout
  import opened RegexSyntax
  import opened RegexState
  import opened RegexScan

  /** How far a pattern is read: the groups that are open, what the innermost one has so far, and the position. */
  datatype Place = Place(frames: seq<Frame>, top: Frame, p: nat)

  /** The pattern up to there is the text of proper trees and of the groups that are open. */
  ghost predicate ReadTo(pat: seq<byte>, at: Place) {
    && at.p <= |pat| && pat[..at.p] == StackText(at.frames) + FrameText(at.top)
    && FrameProper(at.top, NextAt(pat, at.p))
    && forall k :: 0 <= k < |at.frames| ==> FrameProper(at.frames[k], OPEN)
  }

  /** In brackets no character can be read: a backslash ends the pattern, or the character is outside of this model. */
  predicate LitFails(e: Outcome, t: seq<byte>) {
    || (e == Premature && t == [BACKSLASH])
    || (e == Outside && t != [] && (t[0] >= 128 || (t[0] == BACKSLASH && |t| > 1 && (t[1] >= 128 || SetEscape(t[1])))))
  }

  /** A range whose end comes before its beginning. */
  predicate Backwards(lo: Lit, t: seq<byte>, hi: Lit, u: seq<byte>) {
    t == ShowLit(hi) + u && ProperSetLit(hi, false) && lo.c > hi.c
  }

  /** A range without a proper end. */
  ghost predicate SpanFails(e: Outcome, t: seq<byte>, first: bool, lo: Lit, u: seq<byte>) {
    && ProperSetLit(lo, first) && t == ShowLit(lo) + [DASH] + u && !(u != [] && u[0] == UNBRACKET)
    && ((e == Premature && u == []) || LitFails(e, u) || (e == Invalid && RunsBack(lo, u)))
  }

  ghost predicate RunsBack(lo: Lit, t: seq<byte>) {
    exists hi, u :: Backwards(lo, t, hi, u)
  }

  /** The text does not begin with a part of brackets. */
  ghost predicate PartFails(e: Outcome, t: seq<byte>, first: bool) {
    (e == Premature && t == []) || LitFails(e, t) || exists lo, u :: SpanFails(e, t, first, lo, u)
  }

  /** Brackets that are not closed, have a range that runs backwards, or a part outside of this model. */
  ghost predicate BracketAt(e: Outcome, rest: seq<byte>, items: seq<SetItem>, t: seq<byte>) {
    var neg := |rest| > 1 && rest[1] == HAT;
    && rest == [BRACKET] + (if neg then [HAT] else []) + ShowItems(items) + t && ProperItems(items)
    && PartFails(e, t, items == []) && (items != [] && items[|items| - 1].One? ==> !DashRange(t, 0))
  }

  ghost predicate BracketFails(e: Outcome, rest: seq<byte>) {
    exists items, t :: BracketAt(e, rest, items, t)
  }

  /** What is wrong at `p` when so many groups are open and the alternative so far is `cur`. */
  ghost predicate Blames(e: Outcome, pat: seq<byte>, p: nat, open: nat, cur: Re) {
    match e
    case UnmatchedOpen => p == |pat| && open > 0
    case UnmatchedClose => p < |pat| && pat[p] == CLOSE && open == 0
    case TooDeep => p < |pat| && pat[p] == OPEN && open >= MAX_OPEN
    case Invalid =>
      && p < |pat|
      && (|| (IsOp(pat[p]) && NoItem(cur))
          || (pat[p] == HAT && !NoItem(cur))
          || (p + 1 == |pat| && (pat[p] == BACKSLASH || pat[p] == BRACKET))
          || BracketFails(e, pat[p..]))
    case Premature => p < |pat| && BracketFails(e, pat[p..])
    case Outside =>
      && p < |pat|
      && (|| pat[p] >= 128 || pat[p] == BRACE
          || (pat[p] == BACKSLASH && p + 1 < |pat| && (pat[p + 1] >= 128 || ClassEscape(pat[p + 1])))
          || (pat[p] == DOLLAR && p + 2 < |pat| && pat[p + 1] == BACKSLASH && (pat[p + 2] == 98 || pat[p + 2] == 66))
          || BracketFails(e, pat[p..]))
    case _ => false
  }

  lemma ReadUpTo(v: View)
    requires Ok(v)
    ensures ReadTo(v.pat, Place(v.frames, v.top, v.p))
  {
    hide CodeIs, NumbersOk, LastOk, PendingOk, FrameProper, StackText, FrameText;
  }

  // ---- brackets

  lemma LitBlamed(e: Outcome, t: seq<byte>, first: bool)
    requires LitFails(e, t)
    ensures PartFails(e, t, first)
  {
  }

  lemma NoneBlamed(t: seq<byte>, first: bool)
    requires t == []
    ensures PartFails(Premature, t, first)
  {
  }

  lemma LeftOpen(pat: seq<byte>, p: nat, open: nat, cur: Re)
    requires p == |pat| && open > 0
    ensures Blames(UnmatchedOpen, pat, p, open, cur)
  {
  }

  /** A range fails where its end does. */
  lemma SpanBlamed(e: Outcome, pat: seq<byte>, p: nat, q: nat, lo: Lit, first: bool)
    requires p < q < |pat| && pat[p..q] == ShowLit(lo) && ProperSetLit(lo, first) && DashRange(pat, q)
    requires (e == Premature && q + 1 == |pat|) || LitFails(e, pat[q + 1..])
      || (e == Invalid && RunsBack(lo, pat[q + 1..]))
    ensures PartFails(e, pat[p..], first)
  {
    hide ShowLit, ProperSetLit, LitFails, RunsBack;
    var u := pat[q + 1..];
    assert pat[p..] == pat[p..q] + [DASH] + u;
    assert SpanFails(e, pat[p..], first, lo, u);
  }

  lemma RunsBackwards(pat: seq<byte>, q: nat, q2: nat, lo: Lit, hi: Lit)
    requires q < q2 <= |pat| && pat[q..q2] == ShowLit(hi) && ProperSetLit(hi, false) && lo.c > hi.c
    ensures RunsBack(lo, pat[q..])
  {
    hide ShowLit, ProperSetLit;
    assert pat[q..] == pat[q..q2] + pat[q2..];
    assert Backwards(lo, pat[q..], hi, pat[q2..]);
  }

  lemma BracketBlamed(e: Outcome, pat: seq<byte>, p: nat, p0: nat, q: nat, items: seq<SetItem>)
    requires p + 1 < |pat| && pat[p] == BRACKET && p0 == (if pat[p + 1] == HAT then p + 2 else p + 1) && p0 <= q <= |pat|
    requires pat[p0..q] == ShowItems(items) && ProperItems(items) && PartFails(e, pat[q..], items == [])
    requires items != [] && items[|items| - 1].One? ==> !DashRange(pat, q)
    ensures BracketFails(e, pat[p..])
  {
    hide ShowItems, ProperItems, PartFails, DashRange;
    var rest, t := pat[p..], pat[q..];
    assert rest[1] == pat[p + 1];
    Spliced(pat, p, p0, q);
    DashMoved(pat, q);
    BracketIs(e, rest, rest[1] == HAT, items, t);
  }

  lemma BracketIs(e: Outcome, rest: seq<byte>, neg: bool, items: seq<SetItem>, t: seq<byte>)
    requires |rest| > 1 && neg == (rest[1] == HAT)
    requires rest == [BRACKET] + (if neg then [HAT] else []) + ShowItems(items) + t && ProperItems(items)
    requires PartFails(e, t, items == []) && (items != [] && items[|items| - 1].One? ==> !DashRange(t, 0))
    ensures BracketFails(e, rest)
  {
    hide ShowItems, ProperItems, PartFails, DashRange;
    assert BracketAt(e, rest, items, t);
  }

  lemma DashMoved(pat: seq<byte>, q: nat)
    requires q <= |pat|
    ensures DashRange(pat[q..], 0) <==> DashRange(pat, q)
  {
  }

  lemma Spliced(pat: seq<byte>, p: nat, p0: nat, q: nat)
    requires p + 1 < |pat| && pat[p] == BRACKET && p0 == (if pat[p + 1] == HAT then p + 2 else p + 1) && p0 <= q <= |pat|
    ensures pat[p..] == [BRACKET] + (if pat[p + 1] == HAT then [HAT] else []) + pat[p0..q] + pat[q..]
  {
    assert pat[p..p0] == [BRACKET] + if pat[p + 1] == HAT then [HAT] else [];
    assert pat[p..] == pat[p..p0] + pat[p0..q] + pat[q..];
  }
}
