/** Syntax trees of patterns, the language they denote, and the byte code that regex.c has for them. */
module RegexTree {
  import opened RegexSets

  // ---- trees

  /** A character of a pattern, and whether a backslash stands before it. */
  datatype Lit = Lit(c: byte, escaped: bool)

  /** A part of a bracket expression. */
  datatype SetItem = One(l: Lit) | Span(lo: Lit, hi: Lit)

  /**
   * A derivation of a pattern. A run of characters compiles to one command; a set carries the bitmap it compiles to;
   * a group carries its number; a repetition carries its operators as written.
   */
  datatype Re =
    | Empty
    | Run(lits: seq<Lit>)
    | Any
    | Set(neg: bool, items: seq<SetItem>, bits: seq<byte>)
    | Bol
    | Eol
    | Group(n: byte, body: Re)
    | Rep(operand: Re, ops: seq<byte>)
    | Cat(left: Re, right: Re)
    | Alt(first: Re, second: Re)

  const BACKSLASH: byte := 92
  const DOLLAR: byte := 36
  const NEWLINE: byte := 10
  const STAR: byte := 42
  const PLUS: byte := 43
  const QUERY: byte := 63
  const OPEN: byte := 40
  const CLOSE: byte := 41
  const BAR: byte := 124
  const DOT: byte := 46
  const HAT: byte := 94
  const BRACKET: byte := 91
  const UNBRACKET: byte := 93
  const BRACE: byte := 123
  const DASH: byte := 45

  // ---- the text of a tree

  function ShowLit(l: Lit): seq<byte> {
    if l.escaped then [BACKSLASH, l.c] else [l.c]
  }

  function ShowLits(ls: seq<Lit>): seq<byte> {
    if ls == [] then [] else ShowLits(ls[..|ls| - 1]) + ShowLit(ls[|ls| - 1])
  }

  function ShowItem(i: SetItem): seq<byte> {
    match i
    case One(l) => ShowLit(l)
    case Span(lo, hi) => ShowLit(lo) + [DASH] + ShowLit(hi)
  }

  function ShowItems(items: seq<SetItem>): seq<byte> {
    if items == [] then [] else ShowItems(items[..|items| - 1]) + ShowItem(items[|items| - 1])
  }

  /** The pattern that a tree spells. */
  function Show(re: Re): seq<byte> {
    match re
    case Empty => []
    case Run(ls) => ShowLits(ls)
    case Any => [DOT]
    case Set(neg, items, _) => [BRACKET] + (if neg then [HAT] else []) + ShowItems(items) + [UNBRACKET]
    case Bol => [HAT]
    case Eol => [DOLLAR]
    case Group(_, body) => [OPEN] + Show(body) + [CLOSE]
    case Rep(r, ops) => Show(r) + ops
    case Cat(l, r) => Show(l) + Show(r)
    case Alt(l, r) => Show(l) + [BAR] + Show(r)
  }

  // ---- the language of a tree

  predicate InItems(items: seq<SetItem>, c: byte) {
    exists k :: 0 <= k < |items| && InItem(items[k], c)
  }

  predicate InItem(i: SetItem, c: byte) {
    match i
    case One(l) => c == l.c
    case Span(lo, hi) => lo.c <= c <= hi.c
  }

  /** No repetition is allowed to be left out when all operators are `+`. */
  predicate ZeroOk(ops: seq<byte>) {
    exists k :: 0 <= k < |ops| && ops[k] != PLUS
  }

  /** More than one is allowed unless all operators are `?`. */
  predicate ManyOk(ops: seq<byte>) {
    exists k :: 0 <= k < |ops| && ops[k] != QUERY
  }

  function Chars(ls: seq<Lit>): (cs: seq<byte>)
    ensures |cs| == |ls|
  {
    seq(|ls|, k requires 0 <= k < |ls| => ls[k].c)
  }

  /** The pattern matches the part of `s` from `i` to `j`. */
  ghost predicate Matches(re: Re, s: seq<byte>, i: nat, j: nat)
    decreases re, 0
  {
    match re
    case Empty => i == j
    case Run(ls) => j == i + |ls| && j <= |s| && s[i..j] == Chars(ls)
    case Any => j == i + 1 && j <= |s| && s[i] != NEWLINE
    case Set(neg, items, _) => j == i + 1 && j <= |s| && InItems(items, s[i]) != neg
    case Bol => i == j && (i == 0 || (i <= |s| && s[i - 1] == NEWLINE))
    case Eol => i == j && (i == |s| || (i < |s| && s[i] == NEWLINE))
    case Group(_, body) => Matches(body, s, i, j)
    case Rep(r, ops) =>
      if ManyOk(ops) then exists n: nat :: Times(r, s, i, j, n) && (n > 0 || ZeroOk(ops))
      else i == j || Matches(r, s, i, j)
    case Cat(l, r) => exists k: nat :: Matches(l, s, i, k) && Matches(r, s, k, j)
    case Alt(l, r) => Matches(l, s, i, j) || Matches(r, s, i, j)
  }

  /** `n` matches one after the other. */
  ghost predicate Times(r: Re, s: seq<byte>, i: nat, j: nat, n: nat)
    decreases r, n + 1
  {
    if n == 0 then i == j
    else exists k: nat :: Matches(r, s, i, k) && Times(r, s, k, j, n - 1)
  }

  // ---- the byte code of a tree

  const EXACTN: byte := 1
  const BEGLINE: byte := 2
  const ENDLINE: byte := 3
  const JUMP: byte := 4
  const ON_FAILURE_JUMP: byte := 5
  const FINALIZE_JUMP: byte := 6
  const MAYBE_FINALIZE_JUMP: byte := 7
  const DUMMY_FAILURE_JUMP: byte := 8
  const ANYCHAR: byte := 12
  const CHARSET: byte := 13
  const CHARSET_NOT: byte := 14
  const START_MEMORY: byte := 15
  const STOP_MEMORY: byte := 16

  /** `STORE_NUMBER`: the low byte, then what C's `>> 8` leaves in a byte. */
  function NumberCode(n: int): (b: seq<byte>)
    ensures |b| == 2
  {
    [n % 256, n / 256 % 256]
  }

  /** `EXTRACT_NUMBER`: the high byte counts with its sign. */
  function Extract(code: seq<byte>, p: nat): int
    requires p + 1 < |code|
  {
    code[p] as int + 256 * if code[p + 1] >= 128 then code[p + 1] as int - 256 else code[p + 1] as int
  }

  /** A jump keeps its distance exactly when that has 16 bits. */
  lemma ExtractIff(code: seq<byte>, p: nat, n: int)
    requires p + 1 < |code| && [code[p], code[p + 1]] == NumberCode(n)
    ensures Extract(code, p) == n <==> -0x8000 <= n < 0x8000
  {
    assert code[p] == [code[p], code[p + 1]][0] && code[p + 1] == [code[p], code[p + 1]][1];
  }

  /** `store_jump`: the distance counts from behind the command. */
  function JumpCode(op: byte, dist: int): (b: seq<byte>)
    ensures |b| == 3
  {
    [op] + NumberCode(dist)
  }

  /** The distance of the jump behind an alternative: to the jump behind the next one, or past the last. */
  function JumpDistance(re: Re): nat
    decreases re, 1
  {
    if re.Alt? then 3 + |Gen(re.first)| else |Gen(re)|
  }

  /** The code of a tree. All jumps are relative, so it does not depend on its place. */
  function Gen(re: Re): seq<byte>
    decreases re, 0
  {
    match re
    case Empty => []
    case Run(ls) => [EXACTN, |ls| % 256] + Chars(ls)
    case Any => [ANYCHAR]
    case Set(neg, _, bits) => [if neg then CHARSET_NOT else CHARSET, |bits| % 256] + bits + [0, 0]
    case Bol => [BEGLINE]
    case Eol => [ENDLINE]
    case Group(n, body) => [START_MEMORY, n] + Gen(body) + [STOP_MEMORY, n]
    case Rep(r, ops) =>
      var g := Gen(r);
      if !ManyOk(ops) then JumpCode(ON_FAILURE_JUMP, |g|) + g
      else
        var loop := LoopCode(g);
        if ZeroOk(ops) then loop else JumpCode(DUMMY_FAILURE_JUMP, 3) + loop
    case Cat(l, r) => Gen(l) + Gen(r)
    case Alt(l, r) => JumpCode(ON_FAILURE_JUMP, |Gen(l)| + 3) + Gen(l) + JumpCode(JUMP, JumpDistance(r)) + Gen(r)
  }

  /** A loop: the way out, the body, the way back. */
  function LoopCode(g: seq<byte>): seq<byte> {
    JumpCode(ON_FAILURE_JUMP, |g| + 3) + g + JumpCode(MAYBE_FINALIZE_JUMP, -(|g| + 6))
  }

  /** What the code relies on: runs fit their count, bitmaps denote their items, repetitions have an operand. */
  ghost predicate Sized(re: Re) {
    match re
    case Run(ls) => 0 < |ls| < 128 && forall k :: 0 <= k < |ls| ==> ls[k].c < 128
    case Set(_, items, bits) => |bits| <= 32 && forall c: byte :: BitOf(bits, c) <==> InItems(items, c)
    case Group(_, body) => Sized(body)
    case Rep(r, ops) => Sized(r) && ops != [] && Gen(r) != []
    case Cat(l, r) => Sized(l) && Sized(r)
    case Alt(l, r) => Sized(l) && Sized(r)
    case _ => true
  }

  /** The bit of a character in a bitmap from which zero bytes at the end were dropped. */
  predicate BitOf(bits: seq<byte>, c: byte) {
    c as int / 8 < |bits| && HasBit(bits[c as int / 8], c as int % 8)
  }
}
