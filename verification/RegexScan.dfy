/** Which patterns `re_compile_pattern` takes, and why it refuses the others, read off the pattern alone. */
module RegexScan {
  import opened RegexSets
  import opened RegexTree
  import opened RegexSyntax

  /** How a call ends. `Outside` stands for a pattern with a construct that is not part of this model. */
  datatype Outcome =
    Good | Invalid | UnmatchedOpen | UnmatchedClose | Premature | TooDeep | TooBig | Outside

  /** So many groups may be open at once, and so many there may be in all, the whole pattern being one. */
  const MAX_OPEN := 10
  const MAX_GROUPS := 256

  /** An outcome and the position behind what was read. */
  type Reading = (Outcome, nat)

  /** A character in brackets. */
  function SetLit(pat: seq<byte>, p: nat): (r: Reading)
    requires p < |pat|
    ensures r.0.Good? || r.0.Invalid? || r.0.Premature? || r.0.Outside?
  {
    if pat[p] >= 128 then (Outside, p + 1)
    else if pat[p] != BACKSLASH then (Good, p + 1)
    else if p + 1 == |pat| then (Premature, p + 1)
    else if pat[p + 1] >= 128 || SetEscape(pat[p + 1]) then (Outside, p + 2)
    else (Good, p + 2)
  }

  function SetChar(pat: seq<byte>, p: nat): byte
    requires p < |pat|
  {
    if pat[p] == BACKSLASH && p + 1 < |pat| then pat[p + 1] else pat[p]
  }

  /** A dash that makes a range. */
  predicate DashRange(pat: seq<byte>, p: nat) {
    p < |pat| && pat[p] == DASH && !(p + 1 < |pat| && pat[p + 1] == UNBRACKET)
  }

  /** A character or a range in brackets; a range must not run backwards. */
  function SetPart(pat: seq<byte>, p: nat): (r: Reading)
    requires p < |pat|
    ensures r.0.Good? || r.0.Invalid? || r.0.Premature? || r.0.Outside?
  {
    var (e, q) := SetLit(pat, p);
    if e != Good || !DashRange(pat, q) then (e, q)
    else if q + 1 == |pat| then (Premature, q + 1)
    else
      var (e2, q2) := SetLit(pat, q + 1);
      if e2 == Good && SetChar(pat, p) > SetChar(pat, q + 1) then (Invalid, q2) else (e2, q2)
  }

  /** The rest of brackets that began at `p0`; they need a part before they end. */
  function SetRest(pat: seq<byte>, p0: nat, p: nat): (r: Reading)
    ensures r.0.Good? || r.0.Invalid? || r.0.Premature? || r.0.Outside?
    decreases |pat| - p
  {
    if p >= |pat| then (Premature, p)
    else if pat[p] == UNBRACKET && p != p0 then (Good, p + 1)
    else
      var (e, q) := SetPart(pat, p);
      if e != Good then (e, q) else if q <= p then (e, q) else SetRest(pat, p0, q)
  }

  /** Behind a run of repetition operators. */
  function PastOps(pat: seq<byte>, p: nat): (q: nat)
    ensures q >= p
    decreases |pat| - p
  {
    if p < |pat| && IsOp(pat[p]) then PastOps(pat, p + 1) else p
  }

  /**
   * The verdict on the pattern from `p` on: `item` tells whether this alternative has an operand yet, `depth` how many
   * groups are open, and `groups` how many there were, the whole pattern being one.
   */
  function Scan(pat: seq<byte>, p: nat, item: bool, depth: nat, groups: nat): Outcome
    decreases |pat| - p
  {
    if p >= |pat| then if depth == 0 then Good else UnmatchedOpen
    else
      var c := pat[p];
      if c >= 128 || c == BRACE then Outside
      else if c == DOLLAR then
        if p + 2 < |pat| && pat[p + 1] == BACKSLASH && (pat[p + 2] == 98 || pat[p + 2] == 66) then Outside
        else Scan(pat, p + 1, item || !EolFollows(NextAt(pat, p + 1)), depth, groups)
      else if c == HAT then if item then Invalid else Scan(pat, p + 1, item, depth, groups)
      else if IsOp(c) then if !item then Invalid else Scan(pat, PastOps(pat, p + 1), item, depth, groups)
      else if c == BRACKET then
        if p + 1 == |pat| then Invalid
        else
          var p0 := if pat[p + 1] == HAT then p + 2 else p + 1;
          var (e, q) := SetRest(pat, p0, p0);
          if e != Good then e else if q <= p then e else Scan(pat, q, true, depth, groups)
      else if c == OPEN then
        if depth >= MAX_OPEN then TooDeep
        else if groups + 1 >= MAX_GROUPS then TooBig
        else Scan(pat, p + 1, false, depth + 1, groups + 1)
      else if c == CLOSE then
        if depth == 0 then UnmatchedClose else Scan(pat, p + 1, true, depth - 1, groups)
      else if c == BAR then Scan(pat, p + 1, false, depth, groups)
      else if c == BACKSLASH then
        if p + 1 == |pat| then Invalid
        else if pat[p + 1] >= 128 || ClassEscape(pat[p + 1]) then Outside
        else Scan(pat, p + 2, true, depth, groups)
      else Scan(pat, p + 1, true, depth, groups)
  }
}
