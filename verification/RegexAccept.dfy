/** Every pattern that a proper tree spells is taken, unless its groups are too deep or too many. */
module RegexAccept {
  import opened RegexSets
  import opened RegexTree
  import opened RegexSyntax
  import opened RegexScan

  /** How deep groups are nested. */
  function Nest(re: Re): nat {
    match re
    case Group(_, body) => 1 + Nest(body)
    case Rep(r, _) => Nest(r)
    case Cat(l, r) => if Nest(l) < Nest(r) then Nest(r) else Nest(l)
    case Alt(l, r) => if Nest(l) < Nest(r) then Nest(r) else Nest(l)
    case _ => 0
  }

  function Groups(re: Re): nat {
    match re
    case Group(_, body) => 1 + Groups(body)
    case Rep(r, _) => Groups(r)
    case Cat(l, r) => Groups(l) + Groups(r)
    case Alt(l, r) => Groups(l) + Groups(r)
    case _ => 0
  }

  /** Whether the alternative has an operand behind the tree. */
  function ItemAfter(re: Re, item: bool): bool {
    match re
    case Empty => item
    case Bol => item
    case Eol => item
    case Cat(l, r) => ItemAfter(r, ItemAfter(l, item))
    case Alt(l, r) => ItemAfter(r, false)
    case _ => true
  }

  /** The text is found in the pattern at `p`. */
  predicate StandsAt(pat: seq<byte>, p: nat, t: seq<byte>) {
    p + |t| <= |pat| && pat[p..p + |t|] == t
  }

  lemma StandsParts(pat: seq<byte>, p: nat, t: seq<byte>, u: seq<byte>)
    requires StandsAt(pat, p, t + u)
    ensures StandsAt(pat, p, t) && StandsAt(pat, p + |t|, u)
    ensures forall k :: 0 <= k < |u| ==> pat[p + |t| + k] == u[k]
    ensures NextAt(pat, p + |t|) == First(u, NextAt(pat, p + |t| + |u|))
  {
    assert pat[p..p + |t|] == (t + u)[..|t|];
    assert pat[p + |t|..p + |t| + |u|] == (t + u)[|t|..];
    forall k | 0 <= k < |u|
      ensures pat[p + |t| + k] == u[k]
    {
      assert pat[p + |t|..p + |t| + |u|][k] == u[k];
    }
  }

  lemma CharsAt(pat: seq<byte>, p: nat, t: seq<byte>)
    requires StandsAt(pat, p, t)
    ensures forall k :: 0 <= k < |t| ==> pat[p + k] == t[k]
    ensures NextAt(pat, p) == First(t, NextAt(pat, p + |t|))
  {
    forall k | 0 <= k < |t|
      ensures pat[p + k] == t[k]
    {
      assert pat[p..p + |t|][k] == t[k];
    }
  }

  // ---- single characters

  /** No `\b` or `\B` stands at `p`. */
  predicate NoBoundary(pat: seq<byte>, p: nat) {
    !(p + 1 < |pat| && pat[p] == BACKSLASH && (pat[p + 1] == 98 || pat[p + 1] == 66))
  }

  lemma ScanLit(pat: seq<byte>, p: nat, l: Lit, item: bool, depth: nat, groups: nat)
    requires StandsAt(pat, p, ShowLit(l)) && NoBoundary(pat, p + |ShowLit(l)|)
    requires ProperLit(l, NextAt(pat, p + |ShowLit(l)|))
    ensures Scan(pat, p, item, depth, groups) == Scan(pat, p + |ShowLit(l)|, true, depth, groups)
    ensures NoBoundary(pat, p)
  {
    CharsAt(pat, p, ShowLit(l));
  }

  /** A run of characters. */
  lemma {:induction false} ScanLits(pat: seq<byte>, p: nat, ls: seq<Lit>, item: bool, depth: nat, groups: nat)
    requires StandsAt(pat, p, ShowLits(ls)) && NoBoundary(pat, p + |ShowLits(ls)|)
    requires ProperLits(ls, NextAt(pat, p + |ShowLits(ls)|))
    ensures Scan(pat, p, item, depth, groups) == Scan(pat, p + |ShowLits(ls)|, item || ls != [], depth, groups)
    ensures NoBoundary(pat, p)
    decreases |ls|
  {
    hide Scan, ShowLit, ProperLit;
    if ls != [] {
      var front, l := ls[..|ls| - 1], ls[|ls| - 1];
      StandsParts(pat, p, ShowLits(front), ShowLit(l));
      var q := p + |ShowLits(front)|;
      LitText(l);
      ScanLit(pat, q, l, item || front != [], depth, groups);
      ScanLits(pat, p, front, item, depth, groups);
    }
  }

  lemma LitText(l: Lit)
    ensures 1 <= |ShowLit(l)| <= 2
  {
  }

  // ---- operators

  lemma {:induction false} OpsPast(pat: seq<byte>, p: nat, q: nat)
    requires p <= q <= |pat| && (forall k :: p <= k < q ==> IsOp(pat[k])) && !IsOp(NextAt(pat, q))
    ensures PastOps(pat, p) == q
    decreases q - p
  {
    if p < q { OpsPast(pat, p + 1, q); }
  }

  lemma ScanOps(pat: seq<byte>, p: nat, ops: seq<byte>, depth: nat, groups: nat)
    requires StandsAt(pat, p, ops) && ops != [] && (forall k :: 0 <= k < |ops| ==> IsOp(ops[k]))
    requires !IsOp(NextAt(pat, p + |ops|))
    ensures Scan(pat, p, true, depth, groups) == Scan(pat, p + |ops|, true, depth, groups)
  {
    CharsAt(pat, p, ops);
    forall k | p <= k < p + |ops|
      ensures IsOp(pat[k])
    {
      assert pat[p + (k - p)] == ops[k - p];
    }
    OpsPast(pat, p + 1, p + |ops|);
  }

  // ---- brackets

  lemma SetLitReads(pat: seq<byte>, p: nat, l: Lit, first: bool)
    requires StandsAt(pat, p, ShowLit(l)) && ProperSetLit(l, first)
    ensures SetLit(pat, p) == (Good, p + |ShowLit(l)|) && SetChar(pat, p) == l.c
    ensures pat[p] == UNBRACKET ==> first && l == Lit(UNBRACKET, false)
    ensures pat[p] == DASH ==> l == Lit(DASH, false)
  {
    CharsAt(pat, p, ShowLit(l));
  }

  lemma SetPartReads(pat: seq<byte>, p: nat, i: SetItem, first: bool)
    requires StandsAt(pat, p, ShowItem(i)) && ProperItem(i, first)
    requires i.One? ==> !DashRange(pat, p + |ShowItem(i)|)
    ensures SetPart(pat, p) == (Good, p + |ShowItem(i)|) && ShowItem(i) != []
    ensures pat[p] == UNBRACKET ==> first
  {
    hide ShowLit, ProperSetLit, SetLit, SetChar;
    match i {
      case One(l) =>
        SetLitReads(pat, p, l, first);
        LitText(l);
      case Span(lo, hi) => SpanReads(pat, p, lo, hi, first);
    }
  }

  lemma SpanReads(pat: seq<byte>, p: nat, lo: Lit, hi: Lit, first: bool)
    requires StandsAt(pat, p, ShowItem(Span(lo, hi))) && ProperItem(Span(lo, hi), first)
    ensures SetPart(pat, p) == (Good, p + |ShowItem(Span(lo, hi))|) && ShowItem(Span(lo, hi)) != []
    ensures pat[p] == UNBRACKET ==> first
  {
    hide ShowLit, ProperSetLit, SetLit, SetChar, StandsAt;
    SpanText(pat, p, lo, hi);
    LitText(lo);
    LitText(hi);
    SetLitReads(pat, p, lo, first);
    SetLitReads(pat, p + |ShowLit(lo)| + 1, hi, false);
  }

  lemma SpanText(pat: seq<byte>, p: nat, lo: Lit, hi: Lit)
    requires StandsAt(pat, p, ShowItem(Span(lo, hi)))
    ensures var q := p + |ShowLit(lo)|;
      && StandsAt(pat, p, ShowLit(lo)) && StandsAt(pat, q + 1, ShowLit(hi)) && q < |pat| && pat[q] == DASH
      && q + 1 + |ShowLit(hi)| <= |pat| && p + |ShowItem(Span(lo, hi))| == q + 1 + |ShowLit(hi)|
  {
    hide ShowLit;
    Framed(pat, p, ShowLit(lo), DASH, ShowLit(hi));
  }

  lemma ItemHead(i: SetItem, first: bool)
    requires ProperItem(i, first)
    ensures ShowItem(i) != [] && (ShowItem(i)[0] == DASH ==> BeginsDash(i))
    ensures ShowItem(i)[0] == HAT ==> i == One(Lit(HAT, false)) || (i.Span? && i.lo == Lit(HAT, false))
    ensures i == PLAIN_DASH ==> ShowItem(i) == [DASH]
  {
  }

  lemma {:induction false} ItemsSplit(items: seq<SetItem>, k: nat)
    requires k <= |items|
    ensures ShowItems(items) == ShowItems(items[..k]) + ShowItems(items[k..])
    decreases |items|
  {
    hide ShowItem;
    if k == |items| {
      assert items[..k] == items;
    } else {
      var n := |items| - 1;
      ItemsSplit(items[..n], k);
      assert items[..n][..k] == items[..k] && items[..n][k..] == items[k..][..n - k];
      assert ShowItems(items[k..]) == ShowItems(items[k..][..n - k]) + ShowItem(items[n]);
    }
  }

  lemma ItemsFront(items: seq<SetItem>, k: nat)
    requires k < |items|
    ensures ShowItems(items[..k + 1]) == ShowItems(items[..k]) + ShowItem(items[k])
    ensures ShowItems(items[k..]) == ShowItem(items[k]) + ShowItems(items[k + 1..])
  {
    hide ShowItem;
    assert items[..k + 1][..k] == items[..k];
    ItemsSplit(items[k..], 1);
    assert items[k..][..1] == [items[k]] && items[k..][1..] == items[k + 1..];
    assert [items[k]][..0] == [];
    assert ShowItems([items[k]]) == ShowItems([]) + ShowItem(items[k]);
  }

  /** The text of the brackets around an item. */
  lemma ItemPlace(pat: seq<byte>, p0: nat, items: seq<SetItem>, k: nat)
    requires k < |items| && StandsAt(pat, p0, ShowItems(items) + [UNBRACKET])
    ensures var p := p0 + |ShowItems(items[..k])|;
      StandsAt(pat, p, ShowItem(items[k])) && p + |ShowItem(items[k])| == p0 + |ShowItems(items[..k + 1])|
      && StandsAt(pat, p + |ShowItem(items[k])|, ShowItems(items[k + 1..]) + [UNBRACKET])
  {
    hide ShowItem, ShowItems;
    var front, i, rest := ShowItems(items[..k]), ShowItem(items[k]), ShowItems(items[k + 1..]);
    ItemsSplit(items, k);
    ItemsFront(items, k);
    assert ShowItems(items) + [UNBRACKET] == front + (i + (rest + [UNBRACKET]));
    StandsParts(pat, p0, front, i + (rest + [UNBRACKET]));
    StandsParts(pat, p0 + |front|, i, rest + [UNBRACKET]);
  }

  lemma NoItems(items: seq<SetItem>)
    requires items == []
    ensures ShowItems(items) == []
  {
  }

  lemma NoDashHere(pat: seq<byte>, items: seq<SetItem>, k: nat, q: nat)
    requires k < |items| && ProperItems(items) && items[k].One?
    requires StandsAt(pat, q, ShowItems(items[k + 1..]) + [UNBRACKET])
    ensures !DashRange(pat, q)
  {
    hide ShowItem, ShowItems, ProperItem;
    CharsAt(pat, q, ShowItems(items[k + 1..]) + [UNBRACKET]);
    if k + 1 < |items| {
      ItemsFront(items, k + 1);
      ItemHead(items[k + 1], false);
      assert pat[q + 0] == ShowItem(items[k + 1])[0];
      if BeginsDash(items[k + 1]) {
        NoItems(items[k + 2..]);
        assert pat[q + 1] == UNBRACKET;
      }
    } else {
      NoItems(items[k + 1..]);
      assert pat[q + 0] == UNBRACKET;
    }
  }

  lemma SetItemReads(pat: seq<byte>, p0: nat, items: seq<SetItem>, k: nat)
    requires k < |items| && ProperItems(items) && StandsAt(pat, p0, ShowItems(items) + [UNBRACKET])
    ensures SetRest(pat, p0, p0 + |ShowItems(items[..k])|) == SetRest(pat, p0, p0 + |ShowItems(items[..k + 1])|)
  {
    hide ShowItem, ShowItems, ProperItem, SetPart, ProperItems;
    ProperOne(items, k);
    ItemPlace(pat, p0, items, k);
    var p := p0 + |ShowItems(items[..k])|;
    if items[k].One? { NoDashHere(pat, items, k, p + |ShowItem(items[k])|); }
    SetPartReads(pat, p, items[k], k == 0);
    if k == 0 { NoItems(items[..0]); }
  }

  lemma ProperOne(items: seq<SetItem>, k: nat)
    requires k < |items| && ProperItems(items)
    ensures ProperItem(items[k], k == 0)
  {
  }

  lemma {:induction false} SetItemsRead(pat: seq<byte>, p0: nat, items: seq<SetItem>, k: nat)
    requires k <= |items| && ProperItems(items) && StandsAt(pat, p0, ShowItems(items) + [UNBRACKET])
    ensures SetRest(pat, p0, p0) == SetRest(pat, p0, p0 + |ShowItems(items[..k])|)
  {
    hide SetRest, ProperItems, ShowItems;
    if k == 0 {
      NoItems(items[..0]);
    } else {
      SetItemsRead(pat, p0, items, k - 1);
      SetItemReads(pat, p0, items, k - 1);
    }
  }

  /** Brackets are read to their end. */
  lemma SetReads(pat: seq<byte>, p0: nat, items: seq<SetItem>)
    requires items != [] && ProperItems(items) && StandsAt(pat, p0, ShowItems(items) + [UNBRACKET])
    ensures SetRest(pat, p0, p0) == (Good, p0 + |ShowItems(items)| + 1)
    ensures ShowItems(items) != [] && pat[p0] == ShowItem(items[0])[0]
  {
    hide ProperItems, ShowItem, ShowItems, SetRest;
    SetItemsRead(pat, p0, items, |items|);
    assert items[..|items|] == items && items[0..] == items;
    CharsAt(pat, p0, ShowItems(items) + [UNBRACKET]);
    ProperOne(items, 0);
    ItemHead(items[0], true);
    ItemsFront(items, 0);
    assert pat[p0 + 0] == (ShowItems(items) + [UNBRACKET])[0];
    assert pat[p0 + |ShowItems(items)|] == UNBRACKET;
    SetCloses(pat, p0, p0 + |ShowItems(items)|);
  }

  lemma SetCloses(pat: seq<byte>, p0: nat, q: nat)
    requires q < |pat| && q != p0 && pat[q] == UNBRACKET
    ensures SetRest(pat, p0, q) == (Good, q + 1)
  {
  }

  lemma ScanSet(pat: seq<byte>, p: nat, re: Re, item: bool, depth: nat, groups: nat)
    requires re.Set? && StandsAt(pat, p, Show(re)) && Proper(re, NextAt(pat, p + |Show(re)|))
    ensures Scan(pat, p, item, depth, groups) == Scan(pat, p + |Show(re)|, true, depth, groups)
  {
    hide ProperItems, ShowItem, ShowItems, SetRest;
    var head := [BRACKET] + if re.neg then [HAT] else [];
    var tail := ShowItems(re.items) + [UNBRACKET];
    assert Show(re) == head + tail;
    StandsParts(pat, p, head, tail);
    CharsAt(pat, p, head);
    SetReads(pat, p + |head|, re.items);
    ProperOne(re.items, 0);
    ItemHead(re.items[0], true);
    assert pat[p + 0] == BRACKET;
    if re.neg { assert pat[p + 1] == HAT; }
  }

  // ---- whole trees

  /** No `\b` or `\B` stands where a proper tree begins. */
  lemma {:induction false} BoundaryFree(pat: seq<byte>, p: nat, re: Re)
    requires StandsAt(pat, p, Show(re)) && Proper(re, NextAt(pat, p + |Show(re)|)) && NoBoundary(pat, p + |Show(re)|)
    ensures NoBoundary(pat, p)
    decreases re
  {
    hide ShowLits, ProperLits, ProperItems, ShowItems, StandsAt, NoBoundary, EolFollows;
    match re {
      case Empty =>
      case Run(ls) => ScanLits(pat, p, ls, false, 0, 0);
      case Rep(r, ops) =>
        StandsParts(pat, p, Show(r), ops);
        assert pat[p + |Show(r)| + 0] == ops[0];
        NoneHere(pat, p + |Show(r)|);
        BoundaryFree(pat, p, r);
      case Cat(l, r) =>
        StandsParts(pat, p, Show(l), Show(r));
        BoundaryFree(pat, p + |Show(l)|, r);
        BoundaryFree(pat, p, l);
      case Alt(l, r) =>
        AltText(pat, p, l, r);
        NoneHere(pat, p + |Show(l)|);
        BoundaryFree(pat, p, l);
      case _ =>
        HeadIs(pat, p, re);
        NoneHere(pat, p);
    }
  }

  lemma HeadIs(pat: seq<byte>, p: nat, re: Re)
    requires StandsAt(pat, p, Show(re)) && (re.Any? || re.Set? || re.Bol? || re.Eol? || re.Group?)
    ensures p < |pat|
    ensures pat[p] == match re case Any => DOT case Set(_, _, _) => BRACKET case Bol => HAT case Eol => DOLLAR case _ => OPEN
  {
    CharsAt(pat, p, Show(re));
    assert pat[p + 0] == Show(re)[0];
  }

  lemma AltText(pat: seq<byte>, p: nat, l: Re, r: Re)
    requires StandsAt(pat, p, Show(Alt(l, r)))
    ensures StandsAt(pat, p, Show(l)) && StandsAt(pat, p + |Show(l)| + 1, Show(r))
    ensures p + |Show(l)| < |pat| && pat[p + |Show(l)|] == BAR && |Show(Alt(l, r))| == |Show(l)| + 1 + |Show(r)|
  {
    AltShows(l, r);
    hide Show;
    Framed(pat, p, Show(l), BAR, Show(r));
  }

  lemma GroupText(pat: seq<byte>, p: nat, n: byte, body: Re)
    requires StandsAt(pat, p, Show(Group(n, body)))
    ensures p < |pat| && pat[p] == OPEN && StandsAt(pat, p + 1, Show(body))
    ensures p + 1 + |Show(body)| < |pat| && pat[p + 1 + |Show(body)|] == CLOSE
    ensures |Show(Group(n, body))| == |Show(body)| + 2
  {
    GroupShows(n, body);
    hide Show;
    Framed(pat, p, [], OPEN, Show(body) + [CLOSE]);
    StandsParts(pat, p + 1, Show(body), [CLOSE]);
    assert pat[p + 1 + |Show(body)| + 0] == CLOSE;
  }

  lemma AltShows(l: Re, r: Re)
    ensures Show(Alt(l, r)) == Show(l) + [BAR] + Show(r)
  {
  }

  lemma GroupShows(n: byte, body: Re)
    ensures Show(Group(n, body)) == [] + [OPEN] + (Show(body) + [CLOSE])
  {
    var t := Show(body);
    hide Show;
    assert [OPEN] + t + [CLOSE] == [] + [OPEN] + (t + [CLOSE]);
    GroupShowsPlain(n, body);
  }

  lemma GroupShowsPlain(n: byte, body: Re)
    ensures Show(Group(n, body)) == [OPEN] + Show(body) + [CLOSE]
  {
  }

  /** A character between two texts. */
  lemma Framed(pat: seq<byte>, p: nat, t: seq<byte>, c: byte, u: seq<byte>)
    requires StandsAt(pat, p, t + [c] + u)
    ensures StandsAt(pat, p, t) && StandsAt(pat, p + |t| + 1, u) && p + |t| < |pat| && pat[p + |t|] == c
  {
    StandsParts(pat, p, t + [c], u);
    StandsParts(pat, p, t, [c]);
    assert pat[p + |t| + 0] == c;
  }

  /** Groups are neither too deep nor too many. */
  predicate Fits(re: Re, depth: nat, groups: nat) {
    depth + Nest(re) <= MAX_OPEN && groups + Groups(re) < MAX_GROUPS
  }

  /** Behind the tree the scan goes on, or the groups of the tree are refused. */
  ghost predicate Past(pat: seq<byte>, p: nat, re: Re, q: nat, item: bool, depth: nat, groups: nat) {
    var e := Scan(pat, p, item, depth, groups);
    if Fits(re, depth, groups) then e == Scan(pat, q, ItemAfter(re, item), depth, groups + Groups(re))
    else (e == TooDeep && depth + Nest(re) > MAX_OPEN) || (e == TooBig && groups + Groups(re) >= MAX_GROUPS)
  }

  lemma ScanAny(pat: seq<byte>, p: nat, re: Re, item: bool, depth: nat, groups: nat)
    requires p < |pat| && depth <= MAX_OPEN && groups < MAX_GROUPS && NoBoundary(pat, p + 1)
    requires (re.Any? && pat[p] == DOT) || (re.Bol? && pat[p] == HAT && !item)
      || (re.Eol? && pat[p] == DOLLAR && EolFollows(NextAt(pat, p + 1)))
    ensures Past(pat, p, re, p + 1, item, depth, groups)
  {
  }

  /** Two trees one behind the other fit when the first does and the second does with the groups of the first. */
  lemma FitsTwo(l: Re, r: Re, depth: nat, groups: nat)
    ensures Fits(Alt(l, r), depth, groups) == Fits(Cat(l, r), depth, groups)
    ensures Fits(Cat(l, r), depth, groups) <==> Fits(l, depth, groups) && Fits(r, depth, groups + Groups(l))
    ensures Groups(Alt(l, r)) == Groups(Cat(l, r)) == Groups(l) + Groups(r)
    ensures Nest(Alt(l, r)) == Nest(Cat(l, r)) && Nest(l) <= Nest(Cat(l, r)) && Nest(r) <= Nest(Cat(l, r))
  {
    hide Nest, Groups;
    NestOfTwo(l, r);
    GroupsOfTwo(l, r);
  }

  lemma NestOfTwo(l: Re, r: Re)
    ensures Nest(Alt(l, r)) == Nest(Cat(l, r)) == if Nest(l) < Nest(r) then Nest(r) else Nest(l)
  {
  }

  lemma GroupsOfTwo(l: Re, r: Re)
    ensures Groups(Alt(l, r)) == Groups(Cat(l, r)) == Groups(l) + Groups(r)
  {
  }

  lemma ItemAfterTwo(l: Re, r: Re, item: bool)
    ensures ItemAfter(Alt(l, r), item) == ItemAfter(r, false)
    ensures ItemAfter(Cat(l, r), item) == ItemAfter(r, ItemAfter(l, item))
  {
  }

  lemma FitsBelow(re: Re, depth: nat, groups: nat)
    requires Fits(re, depth, groups)
    ensures groups + Groups(re) < MAX_GROUPS
  {
  }

  lemma PastCat(pat: seq<byte>, p: nat, l: Re, m: nat, r: Re, q: nat, item: bool, depth: nat, groups: nat)
    requires Past(pat, p, l, m, item, depth, groups)
    requires Fits(l, depth, groups) ==> Past(pat, m, r, q, ItemAfter(l, item), depth, groups + Groups(l))
    ensures Past(pat, p, Cat(l, r), q, item, depth, groups)
  {
    hide Scan, Nest, Groups, ItemAfter, Fits;
    FitsTwo(l, r, depth, groups);
    ItemAfterTwo(l, r, item);
  }

  lemma PastAlt(pat: seq<byte>, p: nat, l: Re, m: nat, r: Re, q: nat, item: bool, depth: nat, groups: nat)
    requires Past(pat, p, l, m, item, depth, groups) && m < |pat| && pat[m] == BAR
    requires Fits(l, depth, groups) ==> Past(pat, m + 1, r, q, false, depth, groups + Groups(l))
    ensures Past(pat, p, Alt(l, r), q, item, depth, groups)
  {
    hide Scan, Nest, Groups, ItemAfter, Fits;
    FitsTwo(l, r, depth, groups);
    ItemAfterTwo(l, r, item);
    ScanBar(pat, m, ItemAfter(l, item), depth, groups + Groups(l));
  }

  lemma ScanBar(pat: seq<byte>, m: nat, item: bool, depth: nat, groups: nat)
    requires m < |pat| && pat[m] == BAR
    ensures Scan(pat, m, item, depth, groups) == Scan(pat, m + 1, false, depth, groups)
  {
  }

  lemma PastGroup(pat: seq<byte>, p: nat, n: byte, body: Re, q: nat, item: bool, depth: nat, groups: nat)
    requires p < |pat| && pat[p] == OPEN && q < |pat| && pat[q] == CLOSE && depth <= MAX_OPEN && groups < MAX_GROUPS
    requires depth < MAX_OPEN && groups + 1 < MAX_GROUPS ==> Past(pat, p + 1, body, q, false, depth + 1, groups + 1)
    ensures Past(pat, p, Group(n, body), q + 1, item, depth, groups)
  {
    hide Scan;
    ScanOpen(pat, p, item, depth, groups);
    ScanClose(pat, q, ItemAfter(body, false), depth, groups + 1 + Groups(body));
  }

  lemma ScanOpen(pat: seq<byte>, p: nat, item: bool, depth: nat, groups: nat)
    requires p < |pat| && pat[p] == OPEN
    ensures Scan(pat, p, item, depth, groups) ==
      if depth >= MAX_OPEN then TooDeep
      else if groups + 1 >= MAX_GROUPS then TooBig
      else Scan(pat, p + 1, false, depth + 1, groups + 1)
  {
  }

  lemma ScanClose(pat: seq<byte>, q: nat, item: bool, depth: nat, groups: nat)
    requires q < |pat| && pat[q] == CLOSE
    ensures Scan(pat, q, item, depth + 1, groups) == Scan(pat, q + 1, true, depth, groups)
  {
  }

  /** Where a tree may stand: an anchor of the beginning, a sequence or alternatives, only where no operand is yet. */
  predicate MayStand(re: Re, item: bool) {
    re.Bol? || re.Cat? || re.Alt? ==> !item
  }

  /** In a sequence there is an operand so far unless nothing but anchors stands there. */
  lemma {:induction false} OperandsOf(re: Re, next: int)
    requires (re.Empty? || re.Cat?) && Proper(re, next)
    ensures ItemAfter(re, false) <==> !NoItem(re)
  {
    hide ProperLits, ProperItems;
    if re.Cat? {
      OperandsOf(re.left, First(Show(re.right), next));
    }
  }

  /** The scan gets past a proper tree. */
  lemma {:induction false} ScanPast(pat: seq<byte>, p: nat, re: Re, item: bool, depth: nat, groups: nat)
    requires StandsAt(pat, p, Show(re)) && Proper(re, NextAt(pat, p + |Show(re)|)) && NoBoundary(pat, p + |Show(re)|)
    requires MayStand(re, item) && depth <= MAX_OPEN && groups < MAX_GROUPS
    ensures Past(pat, p, re, p + |Show(re)|, item, depth, groups)
    decreases re, 1
  {
    hide ShowLits, ProperLits, ProperItems, ShowItems, StandsAt, Scan, Past, EolFollows, NoBoundary, Show, Proper;
    match re {
      case Group(_, _) => GroupPast(pat, p, re, item, depth, groups);
      case Rep(_, _) => RepPast(pat, p, re, item, depth, groups);
      case Cat(_, _) => CatPast(pat, p, re, item, depth, groups);
      case Alt(_, _) => AltPast(pat, p, re, item, depth, groups);
      case _ => LeafPast(pat, p, re, item, depth, groups);
    }
  }

  /** A character, a set, an anchor. */
  lemma {:induction false} LeafPast(pat: seq<byte>, p: nat, re: Re, item: bool, depth: nat, groups: nat)
    requires re.Empty? || re.Run? || re.Set? || re.Any? || re.Bol? || re.Eol?
    requires StandsAt(pat, p, Show(re)) && Proper(re, NextAt(pat, p + |Show(re)|)) && NoBoundary(pat, p + |Show(re)|)
    requires MayStand(re, item) && depth <= MAX_OPEN && groups < MAX_GROUPS
    ensures Past(pat, p, re, p + |Show(re)|, item, depth, groups)
    decreases re, 0
  {
    hide ShowLits, ProperLits, ProperItems, ShowItems, StandsAt, Scan, Past, EolFollows, Nest, Groups,
      ItemAfter, Fits, NoBoundary;
    match re {
      case Empty => PastLeaf(pat, p, re, p, item, depth, groups);
      case Run(ls) =>
        ScanLits(pat, p, ls, item, depth, groups);
        PastLeaf(pat, p, re, p + |Show(re)|, item, depth, groups);
      case Set(_, _, _) =>
        ScanSet(pat, p, re, item, depth, groups);
        PastLeaf(pat, p, re, p + |Show(re)|, item, depth, groups);
      case _ =>
        HeadIs(pat, p, re);
        ScanAny(pat, p, re, item, depth, groups);
    }
  }

  /** A group. */
  lemma {:induction false} GroupPast(pat: seq<byte>, p: nat, re: Re, item: bool, depth: nat, groups: nat)
    requires re.Group?
    requires StandsAt(pat, p, Show(re)) && Proper(re, NextAt(pat, p + |Show(re)|)) && NoBoundary(pat, p + |Show(re)|)
    requires MayStand(re, item) && depth <= MAX_OPEN && groups < MAX_GROUPS
    ensures Past(pat, p, re, p + |Show(re)|, item, depth, groups)
    decreases re, 0
  {
    hide ShowLits, ProperLits, ProperItems, ShowItems, StandsAt, Scan, Past, EolFollows, Nest, Groups,
      ItemAfter, Fits, NoBoundary;
    var body := re.body;
    GroupText(pat, p, re.n, body);
    NoneHere(pat, p + 1 + |Show(body)|);
    if depth < MAX_OPEN && groups + 1 < MAX_GROUPS { ScanPast(pat, p + 1, body, false, depth + 1, groups + 1); }
    PastGroup(pat, p, re.n, body, p + 1 + |Show(body)|, item, depth, groups);
  }

  /** A repetition. */
  lemma {:induction false} RepPast(pat: seq<byte>, p: nat, re: Re, item: bool, depth: nat, groups: nat)
    requires re.Rep?
    requires StandsAt(pat, p, Show(re)) && Proper(re, NextAt(pat, p + |Show(re)|)) && NoBoundary(pat, p + |Show(re)|)
    requires MayStand(re, item) && depth <= MAX_OPEN && groups < MAX_GROUPS
    ensures Past(pat, p, re, p + |Show(re)|, item, depth, groups)
    decreases re, 0
  {
    hide ShowLits, ProperLits, ProperItems, ShowItems, StandsAt, Scan, Past, EolFollows, Nest, Groups,
      ItemAfter, Fits, NoBoundary;
    var r, ops := re.operand, re.ops;
    StandsParts(pat, p, Show(r), ops);
    assert pat[p + |Show(r)| + 0] == ops[0];
    NoneHere(pat, p + |Show(r)|);
    ScanPast(pat, p, r, item, depth, groups);
    ScanOps(pat, p + |Show(r)|, ops, depth, groups + Groups(r));
    PastRep(pat, p, r, ops, p + |Show(r)|, item, depth, groups);
  }

  /** A sequence. */
  lemma {:induction false} CatPast(pat: seq<byte>, p: nat, re: Re, item: bool, depth: nat, groups: nat)
    requires re.Cat?
    requires StandsAt(pat, p, Show(re)) && Proper(re, NextAt(pat, p + |Show(re)|)) && NoBoundary(pat, p + |Show(re)|)
    requires MayStand(re, item) && depth <= MAX_OPEN && groups < MAX_GROUPS
    ensures Past(pat, p, re, p + |Show(re)|, item, depth, groups)
    decreases re, 0
  {
    hide ShowLits, ProperLits, ProperItems, ShowItems, StandsAt, Scan, Past, EolFollows, Nest, Groups,
      ItemAfter, Fits, NoBoundary;
    var l, r := re.left, re.right;
    var m := p + |Show(l)|;
    StandsParts(pat, p, Show(l), Show(r));
    BoundaryFree(pat, m, r);
    OperandsOf(l, First(Show(r), NextAt(pat, p + |Show(re)|)));
    ScanPast(pat, p, l, item, depth, groups);
    if Fits(l, depth, groups) {
      FitsBelow(l, depth, groups);
      ScanPast(pat, m, r, ItemAfter(l, item), depth, groups + Groups(l));
    }
    PastCat(pat, p, l, m, r, p + |Show(re)|, item, depth, groups);
  }

  /** Alternatives. */
  lemma {:induction false} AltPast(pat: seq<byte>, p: nat, re: Re, item: bool, depth: nat, groups: nat)
    requires re.Alt?
    requires StandsAt(pat, p, Show(re)) && Proper(re, NextAt(pat, p + |Show(re)|)) && NoBoundary(pat, p + |Show(re)|)
    requires MayStand(re, item) && depth <= MAX_OPEN && groups < MAX_GROUPS
    ensures Past(pat, p, re, p + |Show(re)|, item, depth, groups)
    decreases re, 0
  {
    hide ShowLits, ProperLits, ProperItems, ShowItems, StandsAt, Scan, Past, EolFollows, Nest, Groups,
      ItemAfter, Fits, NoBoundary;
    var l, r := re.first, re.second;
    var m := p + |Show(l)|;
    AltText(pat, p, l, r);
    NoneHere(pat, m);
    ScanPast(pat, p, l, item, depth, groups);
    if Fits(l, depth, groups) {
      FitsBelow(l, depth, groups);
      ScanPast(pat, m + 1, r, false, depth, groups + Groups(l));
    }
    PastAlt(pat, p, l, m, r, p + |Show(re)|, item, depth, groups);
  }

  lemma NoneHere(pat: seq<byte>, p: nat)
    requires p < |pat| && pat[p] != BACKSLASH
    ensures NoBoundary(pat, p)
  {
  }

  lemma PastLeaf(pat: seq<byte>, p: nat, re: Re, q: nat, item: bool, depth: nat, groups: nat)
    requires re.Empty? || re.Run? || re.Set?
    requires Scan(pat, p, item, depth, groups) == Scan(pat, q, item || !re.Empty?, depth, groups)
    requires depth <= MAX_OPEN && groups < MAX_GROUPS
    ensures Past(pat, p, re, q, item, depth, groups)
  {
    hide Scan;
  }

  lemma PastRep(pat: seq<byte>, p: nat, r: Re, ops: seq<byte>, m: nat, item: bool, depth: nat, groups: nat)
    requires (r.Run? || r.Any? || r.Set? || r.Group?) && Past(pat, p, r, m, item, depth, groups)
    requires Scan(pat, m, true, depth, groups + Groups(r)) == Scan(pat, m + |ops|, true, depth, groups + Groups(r))
    ensures Past(pat, p, Rep(r, ops), m + |ops|, item, depth, groups)
  {
    hide Scan;
  }

  /**
   * A pattern that a proper tree spells is taken exactly when no more than ten of its groups are nested and it has less
   * than 255 of them; nothing else is wrong with it.
   */
  lemma TakenIff(pat: seq<byte>, re: Re)
    requires Show(re) == pat && Proper(re, -1)
    ensures var e := Scan(pat, 0, false, 0, 1);
      && (e == Good <==> Nest(re) <= MAX_OPEN && Groups(re) + 1 < MAX_GROUPS)
      && (e != Good ==> (e == TooDeep && Nest(re) > MAX_OPEN) || (e == TooBig && Groups(re) + 1 >= MAX_GROUPS))
  {
    assert pat[0..|pat|] == pat;
    ScanPast(pat, 0, re, false, 0, 1);
  }

  /** A proper tree spells the pattern, and its groups are within the limits. */
  predicate Takes(re: Re, pat: seq<byte>) {
    Show(re) == pat && Proper(re, -1) && Nest(re) <= MAX_OPEN && Groups(re) + 1 < MAX_GROUPS
  }

  /** The verdict on a pattern, from the trees that spell it. */
  lemma TreesDecide(pat: seq<byte>)
    ensures forall re :: Takes(re, pat) ==> Scan(pat, 0, false, 0, 1) == Good
    ensures forall re :: Show(re) == pat && Proper(re, -1) ==>
      var e := Scan(pat, 0, false, 0, 1); (e == Good && Takes(re, pat)) || e == TooDeep || e == TooBig
  {
    hide Scan, Show, Proper, Nest, Groups;
    forall re | Show(re) == pat && Proper(re, -1)
      ensures var e := Scan(pat, 0, false, 0, 1); (e == Good && Takes(re, pat)) || e == TooDeep || e == TooBig
      ensures Takes(re, pat) ==> Scan(pat, 0, false, 0, 1) == Good
    {
      TakenIff(pat, re);
    }
  }

  // ---- too many groups

  /** How many opening parentheses there are from `p` on. */
  function Opens(pat: seq<byte>, p: nat): nat
    decreases |pat| - p
  {
    if p >= |pat| then 0 else (if pat[p] == OPEN then 1 else 0) + Opens(pat, p + 1)
  }

  lemma {:induction false} OpensLater(pat: seq<byte>, p: nat, q: nat)
    requires p <= q
    ensures Opens(pat, q) <= Opens(pat, p)
    decreases q - p
  {
    if p < q { OpensLater(pat, p + 1, q); }
  }

  /** A pattern with too many groups has as many parentheses. */
  lemma {:induction false} TooManyOpens(pat: seq<byte>, p: nat, item: bool, depth: nat, groups: nat)
    requires groups < MAX_GROUPS && Scan(pat, p, item, depth, groups) == TooBig
    ensures groups + Opens(pat, p) >= MAX_GROUPS
    decreases |pat| - p
  {
    var c := pat[p];
    if c == DOLLAR {
      TooManyOpens(pat, p + 1, item || !EolFollows(NextAt(pat, p + 1)), depth, groups);
    } else if c == HAT {
      TooManyOpens(pat, p + 1, item, depth, groups);
    } else if IsOp(c) {
      TooManyOpens(pat, PastOps(pat, p + 1), item, depth, groups);
      OpensLater(pat, p + 1, PastOps(pat, p + 1));
    } else if c == BRACKET {
      var p0 := if pat[p + 1] == HAT then p + 2 else p + 1;
      var q := SetRest(pat, p0, p0).1;
      TooManyOpens(pat, q, true, depth, groups);
      OpensLater(pat, p + 1, q);
    } else if c == OPEN {
      if groups + 1 < MAX_GROUPS { TooManyOpens(pat, p + 1, false, depth + 1, groups + 1); }
    } else if c == CLOSE {
      TooManyOpens(pat, p + 1, true, depth - 1, groups);
    } else if c == BAR {
      TooManyOpens(pat, p + 1, false, depth, groups);
    } else if c == BACKSLASH {
      TooManyOpens(pat, p + 2, true, depth, groups);
      OpensLater(pat, p + 1, p + 2);
    } else {
      TooManyOpens(pat, p + 1, true, depth, groups);
    }
  }
}
