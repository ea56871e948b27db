/** The character sets of compiled patterns in regex.c: a bitmap and a sorted list of intervals of wide characters. */
module RegexSets {
  import Arith

  type byte = b: int | 0 <= b < 256
  type ushort = c: int | 0 <= c < 0x1_0000

  /** The wide characters from `lo` to `hi`. */
  datatype Range = Range(lo: ushort, hi: ushort)

  // ---- the list of intervals as a value

  /** Sorted, disjoint, and with a gap between neighbours; wide characters only. */
  ghost predicate Ordered(rs: seq<Range>) {
    && (forall k :: 0 <= k < |rs| ==> 256 <= rs[k].lo <= rs[k].hi)
    && (forall j, k :: 0 <= j < k < |rs| ==> rs[j].hi as int + 1 < rs[k].lo)
  }

  /** The characters that the list denotes. */
  ghost predicate Denotes(rs: seq<Range>, c: int) {
    exists k :: 0 <= k < |rs| && rs[k].lo <= c <= rs[k].hi
  }

  /** The first interval that ends at `c1 - 1` or later. */
  ghost predicate IsBegin(rs: seq<Range>, c1: ushort, beg: nat) {
    && beg <= |rs|
    && (forall k :: 0 <= k < beg ==> rs[k].hi < c1 as int - 1)
    && (forall k :: beg <= k < |rs| ==> c1 as int - 1 <= rs[k].hi)
  }

  /** Behind the last interval that starts at `c2 + 1` or earlier. */
  ghost predicate IsEnd(rs: seq<Range>, c2: ushort, beg: nat, end: nat) {
    && beg <= end <= |rs|
    && (forall k :: beg <= k < end ==> rs[k].lo as int - 1 <= c2)
    && (forall k :: end <= k < |rs| ==> c2 < rs[k].lo as int - 1)
  }

  /** What the range grows to: at the high end it takes in the start of the last interval, not its end. */
  function Merged(rs: seq<Range>, c1: ushort, c2: ushort, beg: nat, end: nat): Range
    requires beg <= end <= |rs|
  {
    if beg == end then Range(c1, c2)
    else Range(if c1 > rs[beg].lo then rs[beg].lo else c1, if c2 < rs[end - 1].lo then rs[end - 1].lo else c2)
  }

  /** The list in which one interval replaces those from `beg` to `end`. */
  function Spliced(rs: seq<Range>, r: Range, beg: nat, end: nat): seq<Range>
    requires beg <= end <= |rs|
  {
    rs[..beg] + [r] + rs[end..]
  }

  lemma SplicedAt(rs: seq<Range>, r: Range, beg: nat, end: nat, k: nat)
    requires beg <= end <= |rs| && k < |rs| + beg - end + 1
    ensures |Spliced(rs, r, beg, end)| == |rs| + beg - end + 1
    ensures Spliced(rs, r, beg, end)[k] == if k < beg then rs[k] else if k == beg then r else rs[k - beg - 1 + end]
  {
  }

  /** The list stays sorted, disjoint and non-adjacent. */
  lemma SplicedOrdered(rs: seq<Range>, c1: ushort, c2: ushort, beg: nat, end: nat)
    requires beg <= end <= |rs| && Ordered(rs) && 256 <= c1 <= c2 && IsBegin(rs, c1, beg) && IsEnd(rs, c2, beg, end)
    ensures Ordered(Spliced(rs, Merged(rs, c1, c2, beg, end), beg, end))
  {
    hide Spliced, Ordered, Merged, IsBegin, IsEnd;
    var r := Merged(rs, c1, c2, beg, end);
    var s := Spliced(rs, r, beg, end);
    MergedFits(rs, c1, c2, beg, end);
    SplicedAt(rs, r, beg, end, beg);
    var n := |rs| + beg - end + 1;
    forall k | 0 <= k < n
      ensures |s| == n && 256 <= s[k].lo <= s[k].hi
    {
      SplicedAt(rs, r, beg, end, k);
      OrderedAt(rs);
    }
    forall j, k | 0 <= j < k < n
      ensures s[j].hi as int + 1 < s[k].lo
    {
      SplicedAt(rs, r, beg, end, j);
      SplicedAt(rs, r, beg, end, k);
      OrderedAt(rs);
    }
    MakeOrdered(s);
  }

  lemma OrderedAt(rs: seq<Range>)
    requires Ordered(rs)
    ensures forall k :: 0 <= k < |rs| ==> 256 <= rs[k].lo <= rs[k].hi
    ensures forall j, k :: 0 <= j < k < |rs| ==> rs[j].hi as int + 1 < rs[k].lo
  {
  }

  lemma MakeOrdered(rs: seq<Range>)
    requires forall k :: 0 <= k < |rs| ==> 256 <= rs[k].lo <= rs[k].hi
    requires forall j, k :: 0 <= j < k < |rs| ==> rs[j].hi as int + 1 < rs[k].lo
    ensures Ordered(rs)
  {
  }

  /** The merged interval leaves gaps on both sides. */
  lemma MergedFits(rs: seq<Range>, c1: ushort, c2: ushort, beg: nat, end: nat)
    requires beg <= end <= |rs| && Ordered(rs) && 256 <= c1 <= c2 && IsBegin(rs, c1, beg) && IsEnd(rs, c2, beg, end)
    ensures beg <= end <= |rs|
    ensures var r := Merged(rs, c1, c2, beg, end);
      && 256 <= r.lo <= r.hi
      && (forall k :: 0 <= k < beg ==> rs[k].hi as int + 1 < r.lo)
      && (forall k :: end <= k < |rs| ==> r.hi as int + 1 < rs[k].lo)
  {
  }

  /** `c` is in an interval that the range reaches but does not cover to the end, behind the range and not first. */
  ghost predicate Lost(rs: seq<Range>, c2: ushort, c: int) {
    exists k :: 0 <= k < |rs| && rs[k].lo as int - 1 <= c2 < c <= rs[k].hi && c != rs[k].lo
  }

  /** No interval of two characters or more that the range reaches goes beyond it. */
  ghost predicate TailKept(rs: seq<Range>, c2: ushort) {
    forall k :: 0 <= k < |rs| && rs[k].lo as int - 1 <= c2 && rs[k].lo < rs[k].hi ==> rs[k].hi <= c2
  }

  /** The new list denotes the range, and of the old list what is not lost. */
  lemma SplicedDenotes(rs: seq<Range>, c1: ushort, c2: ushort, beg: nat, end: nat, c: int)
    requires beg <= end <= |rs| && Ordered(rs) && 256 <= c1 <= c2 && IsBegin(rs, c1, beg) && IsEnd(rs, c2, beg, end)
    ensures Denotes(Spliced(rs, Merged(rs, c1, c2, beg, end), beg, end), c)
      <==> c1 <= c <= c2 || (Denotes(rs, c) && !Lost(rs, c2, c))
  {
    hide Spliced, Ordered, IsBegin, IsEnd;
    var s := Spliced(rs, Merged(rs, c1, c2, beg, end), beg, end);
    if (Denotes(rs, c) && !Lost(rs, c2, c)) || c1 <= c <= c2 {
      Kept(rs, c1, c2, beg, end, c);
    }
    if Denotes(s, c) {
      NothingAdded(rs, c1, c2, beg, end, c);
    }
  }

  lemma Kept(rs: seq<Range>, c1: ushort, c2: ushort, beg: nat, end: nat, c: int)
    requires beg <= end <= |rs| && Ordered(rs) && c1 <= c2 && IsEnd(rs, c2, beg, end)
    requires (Denotes(rs, c) && !Lost(rs, c2, c)) || c1 <= c <= c2
    ensures Denotes(Spliced(rs, Merged(rs, c1, c2, beg, end), beg, end), c)
  {
    hide Spliced;
    var r := Merged(rs, c1, c2, beg, end);
    var s := Spliced(rs, r, beg, end);
    var i := beg;
    if Denotes(rs, c) && !Lost(rs, c2, c) {
      var k :| 0 <= k < |rs| && rs[k].lo <= c <= rs[k].hi;
      i := if k < beg then k else if k < end then beg else k - end + beg + 1;
    }
    SplicedAt(rs, r, beg, end, i);
    assert s[i].lo <= c <= s[i].hi;
  }

  lemma NothingAdded(rs: seq<Range>, c1: ushort, c2: ushort, beg: nat, end: nat, c: int)
    requires beg <= end <= |rs| && Ordered(rs) && 256 <= c1 <= c2 && IsBegin(rs, c1, beg) && IsEnd(rs, c2, beg, end)
    requires Denotes(Spliced(rs, Merged(rs, c1, c2, beg, end), beg, end), c)
    ensures c1 <= c <= c2 || (Denotes(rs, c) && !Lost(rs, c2, c))
  {
    hide Spliced, Ordered, Merged, Lost, IsBegin, IsEnd;
    var r := Merged(rs, c1, c2, beg, end);
    var s := Spliced(rs, r, beg, end);
    SplicedAt(rs, r, beg, end, beg);
    var k :| 0 <= k < |s| && s[k].lo <= c <= s[k].hi;
    SplicedAt(rs, r, beg, end, k);
    if k < beg {
      assert rs[k] == s[k];
      BelowKept(rs, c1, c2, beg, k, c);
    } else if k > beg {
      assert rs[k - beg - 1 + end] == s[k];
      AboveKept(rs, c2, beg, end, k - beg - 1 + end, c);
    } else {
      MergedDenotes(rs, c1, c2, beg, end, c);
    }
  }

  lemma BelowKept(rs: seq<Range>, c1: ushort, c2: ushort, beg: nat, k: nat, c: int)
    requires IsBegin(rs, c1, beg) && k < beg && c <= rs[k].hi && c1 <= c2
    ensures !Lost(rs, c2, c)
  {
  }

  lemma AboveKept(rs: seq<Range>, c2: ushort, beg: nat, end: nat, k: nat, c: int)
    requires Ordered(rs) && IsEnd(rs, c2, beg, end) && beg <= end <= k < |rs| && rs[k].lo <= c <= rs[k].hi
    ensures !Lost(rs, c2, c)
  {
    forall j | 0 <= j < |rs|
      ensures !(rs[j].lo as int - 1 <= c2 < c <= rs[j].hi && c != rs[j].lo)
    {
      assert j < k ==> rs[j].hi as int + 1 < rs[k].lo;
    }
  }

  /** The merged interval adds nothing but the range: the intervals that it swallows touch the range. */
  lemma MergedDenotes(rs: seq<Range>, c1: ushort, c2: ushort, beg: nat, end: nat, c: int)
    requires beg <= end <= |rs| && Ordered(rs) && 256 <= c1 <= c2 && IsBegin(rs, c1, beg) && IsEnd(rs, c2, beg, end)
    requires var r := Merged(rs, c1, c2, beg, end); r.lo <= c <= r.hi
    ensures c1 <= c <= c2 || (Denotes(rs, c) && !Lost(rs, c2, c))
  {
    if beg < end {
      if c < c1 {
        assert rs[beg].lo <= c <= rs[beg].hi;
        assert !Lost(rs, c2, c);
      }
      if c > c2 {
        assert c == rs[end - 1].lo;
        forall j | 0 <= j < |rs|
          ensures !(rs[j].lo as int - 1 <= c2 < c <= rs[j].hi && c != rs[j].lo)
        {
          assert j < end - 1 ==> rs[j].hi as int + 1 < rs[end - 1].lo;
          assert j > end - 1 ==> rs[end - 1].hi as int + 1 < rs[j].lo;
        }
      }
    }
  }

  /** The list denotes the union exactly when no interval is cut. */
  lemma UnionIff(rs: seq<Range>, c1: ushort, c2: ushort, rs': seq<Range>)
    requires c1 <= c2 && Added(rs, c1, c2, rs')
    ensures (forall c :: Denotes(rs', c) <==> c1 <= c <= c2 || Denotes(rs, c)) <==> TailKept(rs, c2)
  {
    if !TailKept(rs, c2) {
      var k :| 0 <= k < |rs| && rs[k].lo as int - 1 <= c2 && rs[k].lo < rs[k].hi && !(rs[k].hi <= c2);
      assert Denotes(rs, rs[k].hi) && Lost(rs, c2, rs[k].hi);
    }
  }

  /** Adding a part of an interval cuts the interval: what is behind the part is lost. */
  lemma UnionFails()
    ensures var rs := [Range(0x8140, 0x8180)]; var s := Spliced(rs, Merged(rs, 0x8150, 0x8160, 0, 1), 0, 1);
      && IsBegin(rs, 0x8150, 0) && IsEnd(rs, 0x8160, 0, 1)
      && Denotes(rs, 0x8170) && !Denotes(s, 0x8170)
  {
    var rs := [Range(0x8140, 0x8180)];
    assert rs[0].lo <= 0x8170 <= rs[0].hi;
  }

  /** So many gaps fit between so few characters: the sums of the binary searches stay below 2^16. */
  lemma {:induction false} FewRanges(rs: seq<Range>)
    requires Ordered(rs)
    ensures |rs| > 0 ==> 256 + 2 * (|rs| - 1) <= rs[|rs| - 1].lo
    ensures |rs| <= 32640
  {
    if |rs| > 1 {
      FewRanges(rs[..|rs| - 1]);
    }
  }

  // ---- the bytes of a set

  /** What a call for a range of wide characters makes of the list. */
  ghost predicate Added(rs: seq<Range>, c1: ushort, c2: ushort, rs': seq<Range>) {
    forall c :: Denotes(rs', c) <==> c1 <= c <= c2 || (Denotes(rs, c) && !Lost(rs, c2, c))
  }

  /** `EXTRACT_MBC`: two bytes, the high one first. */
  function Mbc(b: seq<byte>, i: nat): ushort
    requires i + 1 < |b|
  {
    b[i] as int * 256 + b[i + 1]
  }

  /** The `n` intervals from position `at` on. */
  function Ranges(b: seq<byte>, at: nat, n: nat): (rs: seq<Range>)
    requires at + 4 * n <= |b|
    ensures |rs| == n
  {
    seq(n, k requires 0 <= k < n => RangeAt(b, at + 4 * k))
  }

  function RangeAt(b: seq<byte>, i: nat): Range
    requires i + 4 <= |b|
  {
    Range(Mbc(b, i), Mbc(b, i + 2))
  }

  /** `memmove`: the bytes are copied as if through a copy. */
  method Memmove(b: array<byte>, dst: nat, src: nat, n: nat)
    requires dst + n <= b.Length && src + n <= b.Length
    modifies b
    ensures b[..] == old(b[..dst]) + old(b[src..src + n]) + old(b[dst + n..])
  {
    forall i | 0 <= i < n { b[dst + i] := b[src + i]; }
  }

  /** The first binary search of `set_list_bits`. */
  method SearchBegin(b: array<byte>, at: nat, n: ushort, c1: ushort) returns (beg: ushort)
    requires at + 4 * n <= b.Length && Ordered(Ranges(b[..], at, n))
    ensures IsBegin(Ranges(b[..], at, n), c1, beg)
  {
    hide Ordered;
    ghost var rs := Ranges(b[..], at, n);
    FewRanges(rs);
    beg := 0;
    var upb: ushort := n;
    while beg < upb
      invariant beg <= upb <= n
      invariant forall k :: 0 <= k < beg ==> rs[k].hi < c1 as int - 1
      invariant forall k :: upb <= k < n ==> c1 as int - 1 <= rs[k].hi
      decreases upb as int - beg as int
    {
      var mid: ushort := (beg as int + upb as int) % 0x1_0000 / 2;
      assert rs[mid] == RangeAt(b[..], at + 4 * mid);
      EndsSorted(rs, mid);
      if c1 as int - 1 > Mbc(b[..], at + mid as int * 4 + 2) {
        beg := mid + 1;
      } else {
        upb := mid;
      }
    }
  }

  /** The second binary search of `set_list_bits`. */
  method SearchEnd(b: array<byte>, at: nat, n: ushort, beg: ushort, c2: ushort) returns (end: ushort)
    requires at + 4 * n <= b.Length && Ordered(Ranges(b[..], at, n)) && beg <= n
    ensures beg <= end && IsEnd(Ranges(b[..], at, n), c2, beg, end)
  {
    hide Ordered;
    ghost var rs := Ranges(b[..], at, n);
    FewRanges(rs);
    end := beg;
    var upb: ushort := n;
    while end < upb
      invariant beg <= end <= upb <= n
      invariant forall k :: beg <= k < end ==> rs[k].lo as int - 1 <= c2
      invariant forall k :: upb <= k < n ==> c2 < rs[k].lo as int - 1
      decreases upb as int - end as int
    {
      var mid: ushort := (end as int + upb as int) % 0x1_0000 / 2;
      assert rs[mid] == RangeAt(b[..], at + 4 * mid);
      StartsSorted(rs, mid);
      if c2 >= Mbc(b[..], at + mid as int * 4) as int - 1 {
        end := mid + 1;
      } else {
        upb := mid;
      }
    }
  }

  /** `EXTRACT_UNSIGNED`: two bytes, the low one first. */
  function Number(b: seq<byte>, i: nat): ushort
    requires i + 1 < |b|
  {
    b[i] as int + b[i + 1] as int * 256
  }

  /** `STORE_NUMBER`. */
  method StoreNumber(b: array<byte>, i: nat, n: ushort)
    requires i + 1 < b.Length
    modifies b
    ensures b[..] == old(b[..])[i := n % 256][i + 1 := n / 256] && Number(b[..], i) == n
  {
    b[i] := n % 256;
    b[i + 1] := n / 256;
  }

  /** `STORE_MBC`, twice. */
  method StoreRange(b: array<byte>, i: nat, c1: ushort, c2: ushort)
    requires i + 4 <= b.Length
    modifies b
    ensures RangeAt(b[..], i) == Range(c1, c2)
    ensures forall k :: 0 <= k < b.Length && !(i <= k < i + 4) ==> b[k] == old(b[k])
  {
    b[i] := c1 / 256;
    b[i + 1] := c1 % 256;
    b[i + 2] := c2 / 256;
    b[i + 3] := c2 % 256;
  }

  /** Makes room for one interval in place of those from `beg` to `end`, as far as it is needed. */
  method MoveTail(b: array<byte>, at: nat, n: nat, beg: nat, end: nat)
    requires beg <= end <= n && at + 4 * (n + 1) <= b.Length
    modifies b
    ensures forall k :: 0 <= k < at + 4 * beg ==> b[k] == old(b[k])
    ensures forall k {:trigger RangeAt(old(b[..]), at + 4 * k)} ::
      end <= k < n ==> RangeAt(b[..], at + 4 * (k - end + beg + 1)) == RangeAt(old(b[..]), at + 4 * k)
  {
    hide RangeAt;
    ghost var s0 := b[..];
    if end < n && end != beg + 1 {
      Memmove(b, at + (beg + 1) * 4, at + end * 4, (n - end) * 4);
      MovedRanges(s0, b[..], at, n, beg, end);
    } else {
      Unmoved(s0, at, n, beg, end);
      assert b[..] == s0;
    }
  }

  lemma Unmoved(s: seq<byte>, at: nat, n: nat, beg: nat, end: nat)
    requires beg <= end <= n && at + 4 * (n + 1) <= |s| && (end >= n || end == beg + 1)
    ensures forall k :: end <= k < n ==> RangeAt(s, at + 4 * (k - end + beg + 1)) == RangeAt(s, at + 4 * k)
  {
    hide RangeAt;
  }

  lemma MovedRanges(s0: seq<byte>, s: seq<byte>, at: nat, n: nat, beg: nat, end: nat)
    requires beg <= end <= n && at + 4 * (n + 1) <= |s0|
    requires var dst, src, m := at + (beg + 1) * 4, at + end * 4, (n - end) * 4;
      s == s0[..dst] + s0[src..src + m] + s0[dst + m..]
    ensures |s| == |s0| && forall k :: 0 <= k < at + 4 * beg ==> s[k] == s0[k]
    ensures forall k :: end <= k < n ==> RangeAt(s, at + 4 * (k - end + beg + 1)) == RangeAt(s0, at + 4 * k)
  {
    forall k | end <= k < n
      ensures RangeAt(s, at + 4 * (k - end + beg + 1)) == RangeAt(s0, at + 4 * k)
    {
      var i, j := at + 4 * (k - end + beg + 1), at + 4 * k;
      assert s[i] == s0[j] && s[i + 1] == s0[j + 1] && s[i + 2] == s0[j + 2] && s[i + 3] == s0[j + 3];
    }
  }

  lemma AllSpliced(s0: seq<byte>, s1: seq<byte>, s2: seq<byte>, at: nat, n: nat, beg: nat, end: nat, r: Range)
    requires beg <= end <= n && at + 4 * (n + 1) <= |s0| == |s1| == |s2|
    requires forall k :: 0 <= k < at + 4 * beg ==> s1[k] == s0[k]
    requires forall k :: end <= k < n ==> RangeAt(s1, at + 4 * (k - end + beg + 1)) == RangeAt(s0, at + 4 * k)
    requires RangeAt(s2, at + 4 * beg) == r
    requires forall k :: 0 <= k < |s2| && !(at + 4 * beg <= k < at + 4 * beg + 4) ==> s2[k] == s1[k]
    ensures Ranges(s2, at, n + beg - end + 1) == Spliced(Ranges(s0, at, n), r, beg, end)
  {
    hide Spliced, RangeAt;
    var rs := Ranges(s0, at, n);
    var m := n + beg - end + 1;
    SplicedAt(rs, r, beg, end, beg);
    forall k | 0 <= k < m
      ensures Ranges(s2, at, m)[k] == Spliced(rs, r, beg, end)[k]
    {
      SplicedAt(rs, r, beg, end, k);
      if k < beg {
        SameRange(s0, s2, at + 4 * k);
      } else if k > beg {
        var j := k - beg - 1 + end;
        assert RangeAt(s1, at + 4 * (j - end + beg + 1)) == RangeAt(s0, at + 4 * j);
        SameRange(s1, s2, at + 4 * k);
      }
    }
  }

  lemma SameRange(s1: seq<byte>, s2: seq<byte>, i: nat)
    requires i + 4 <= |s1| && i + 4 <= |s2| && forall k :: i <= k < i + 4 ==> s1[k] == s2[k]
    ensures RangeAt(s1, i) == RangeAt(s2, i)
  {
  }

  /** The part of `set_list_bits` for wide characters, on the bytes: the intervals stand at `at`, their number before. */
  method AddWide(b: array<byte>, at: nat, c1_0: ushort, c2_0: ushort)
    requires 2 <= at <= b.Length && at + 4 * (Number(b[..], at - 2) as int + 1) <= b.Length
    requires Ordered(Ranges(b[..], at, Number(b[..], at - 2))) && 256 <= c1_0 <= c2_0
    modifies b
    ensures at + 4 * Number(b[..], at - 2) <= b.Length
    ensures Number(b[..], at - 2) <= old(Number(b[..], at - 2)) + 1
    ensures Ordered(Ranges(b[..], at, Number(b[..], at - 2)))
    ensures Added(old(Ranges(b[..], at, Number(b[..], at - 2))), c1_0, c2_0, Ranges(b[..], at, Number(b[..], at - 2)))
    ensures forall k :: 0 <= k < at - 2 ==> b[k] == old(b[k])
  {
    hide Ordered, Denotes, IsBegin, IsEnd, Merged, Spliced, Added;
    var n := Number(b[..], at - 2);
    ghost var rs := Ranges(b[..], at, n);
    var beg := SearchBegin(b, at, n, c1_0);
    BeginBound(rs, c1_0, beg);
    var end := SearchEnd(b, at, n, beg, c2_0);
    EndBound(rs, c2_0, beg, end);
    AddedBy(rs, c1_0, c2_0, beg, end);
    ReplaceRanges(b, at, n, beg, end, c1_0, c2_0);
  }

  /** The value level of a call for a range of wide characters. */
  lemma AddedBy(rs: seq<Range>, c1: ushort, c2: ushort, beg: nat, end: nat)
    requires beg <= end <= |rs| && Ordered(rs) && 256 <= c1 <= c2 && IsBegin(rs, c1, beg) && IsEnd(rs, c2, beg, end)
    ensures var s := Spliced(rs, Merged(rs, c1, c2, beg, end), beg, end);
      Ordered(s) && Added(rs, c1, c2, s) && |s| == |rs| + beg - end + 1 <= 32640
  {
    hide Ordered, Denotes, IsBegin, IsEnd, Merged, Spliced, Lost;
    SplicedOrdered(rs, c1, c2, beg, end);
    FewRanges(Spliced(rs, Merged(rs, c1, c2, beg, end), beg, end));
    SplicedAt(rs, Merged(rs, c1, c2, beg, end), beg, end, beg);
    forall c
      ensures Denotes(Spliced(rs, Merged(rs, c1, c2, beg, end), beg, end), c)
        <==> c1 <= c <= c2 || (Denotes(rs, c) && !Lost(rs, c2, c))
    {
      SplicedDenotes(rs, c1, c2, beg, end, c);
    }
  }

  /** The end of `set_list_bits`: the range, grown, replaces the intervals from `beg` to `end`. */
  method ReplaceRanges(b: array<byte>, at: nat, n: ushort, beg: ushort, end: ushort, c1_0: ushort, c2_0: ushort)
    requires 2 <= at <= b.Length && at + 4 * (n as int + 1) <= b.Length && n == Number(b[..], at - 2)
    requires beg <= end <= n && n as int + beg as int - end as int + 1 < 0x1_0000
    modifies b
    ensures at + 4 * Number(b[..], at - 2) <= b.Length && Number(b[..], at - 2) == n as int + beg as int - end as int + 1
    ensures var rs := old(Ranges(b[..], at, n));
      Ranges(b[..], at, Number(b[..], at - 2)) == Spliced(rs, Merged(rs, c1_0, c2_0, beg, end), beg, end)
    ensures forall k :: 0 <= k < at - 2 ==> b[k] == old(b[k])
  {
    hide Merged, Spliced, Ranges, RangeAt;
    ghost var s0 := b[..];
    var m: ushort := n as int + beg as int - end as int + 1;
    ReplaceBytes(b, at, n, beg, end, c1_0, c2_0);
    ghost var s2 := b[..];
    assert forall k :: 0 <= k < at ==> s2[k] == s0[k];
    StoreNumber(b, at - 2, m);
    SameRanges(s2, b[..], at, m);
  }

  method ReplaceBytes(b: array<byte>, at: nat, n: nat, beg: nat, end: nat, c1_0: ushort, c2_0: ushort)
    requires at + 4 * (n + 1) <= b.Length && beg <= end <= n
    modifies b
    ensures Ranges(b[..], at, n + beg - end + 1)
      == var rs := old(Ranges(b[..], at, n)); Spliced(rs, Merged(rs, c1_0, c2_0, beg, end), beg, end)
    ensures forall k :: 0 <= k < at ==> b[k] == old(b[k])
  {
    hide Merged, Spliced, Ranges, RangeAt;
    ghost var s0 := b[..];
    var c1, c2 := Widen(b, at, n, beg, end, c1_0, c2_0);
    MoveTail(b, at, n, beg, end);
    ghost var s1 := b[..];
    assert forall k :: 0 <= k < at + 4 * beg ==> s1[k] == s0[k];
    StoreRange(b, at + beg * 4, c1, c2);
    ghost var s2 := b[..];
    assert forall k :: 0 <= k < |s2| && !(at + 4 * beg <= k < at + 4 * beg + 4) ==> s2[k] == s1[k];
    AllSpliced(s0, s1, s2, at, n, beg, end, Range(c1, c2));
  }

  lemma BeginBound(rs: seq<Range>, c1: ushort, beg: nat)
    requires IsBegin(rs, c1, beg)
    ensures beg <= |rs|
  {
  }

  lemma EndBound(rs: seq<Range>, c2: ushort, beg: nat, end: nat)
    requires IsEnd(rs, c2, beg, end)
    ensures beg <= end <= |rs|
  {
  }

  lemma SameRanges(s: seq<byte>, t: seq<byte>, at: nat, n: nat)
    requires |s| == |t| && at + 4 * n <= |s| && forall k :: at <= k < |s| ==> s[k] == t[k]
    ensures Ranges(s, at, n) == Ranges(t, at, n)
  {
  }

  /** The range grows to the intervals at the ends of those that it replaces. */
  method Widen(b: array<byte>, at: nat, n: nat, beg: nat, end: nat, c1_0: ushort, c2_0: ushort) returns (c1: ushort, c2: ushort)
    requires beg <= end <= n && at + 4 * n <= b.Length
    ensures Range(c1, c2) == Merged(Ranges(b[..], at, n), c1_0, c2_0, beg, end)
  {
    c1, c2 := c1_0, c2_0;
    ghost var rs := Ranges(b[..], at, n);
    if beg != end {
      assert rs[beg] == RangeAt(b[..], at + 4 * beg) && rs[end - 1] == RangeAt(b[..], at + 4 * (end - 1));
      if c1 > Mbc(b[..], at + beg * 4) { c1 := Mbc(b[..], at + beg * 4); }
      if c2 < Mbc(b[..], at + (end - 1) * 4) { c2 := Mbc(b[..], at + (end - 1) * 4); }
    }
  }

  // ---- whole sets: the size of the bitmap, the bitmap, the number of intervals, the intervals

  /** `x & 1 << i`. */
  predicate HasBit(x: nat, i: nat) {
    if i == 0 then x % 2 == 1 else HasBit(x / 2, i - 1)
  }

  /** `x | 1 << i`. */
  function SetBit(x: nat, i: nat): nat {
    if i == 0 then x / 2 * 2 + 1 else x % 2 + 2 * SetBit(x / 2, i - 1)
  }

  lemma {:induction false} SetBitIs(x: nat, i: nat, j: nat)
    ensures HasBit(SetBit(x, i), j) <==> HasBit(x, j) || j == i
  {
    if i > 0 && j > 0 {
      assert SetBit(x, i) / 2 == SetBit(x / 2, i - 1);
      SetBitIs(x / 2, i - 1, j - 1);
    }
  }

  lemma {:induction false} SetBitBound(x: nat, i: nat, n: nat)
    requires i < n && x < Arith.Pow(2, n)
    ensures SetBit(x, i) < Arith.Pow(2, n)
  {
    if i > 0 {
      SetBitBound(x / 2, i - 1, n - 1);
    }
  }

  lemma {:induction false} NoBits(i: nat)
    ensures !HasBit(0, i)
  {
    if i > 0 { NoBits(i - 1); }
  }

  /** Where the intervals stand. */
  function WideAt(b: seq<byte>): nat
    requires |b| > 0
  {
    b[0] as int + 3
  }

  ghost predicate SetShape(b: seq<byte>) {
    && |b| > 0 && b[0] <= 32 && WideAt(b) <= |b|
    && WideAt(b) + 4 * Number(b, WideAt(b) - 2) <= |b|
  }

  ghost function WideRanges(b: seq<byte>): seq<Range>
    requires SetShape(b)
  {
    Ranges(b, WideAt(b), Number(b, WideAt(b) - 2))
  }

  /** A set as the compiler builds it. */
  ghost predicate IsSet(b: seq<byte>) {
    SetShape(b) && Ordered(WideRanges(b))
  }

  /** The bitmap holds the single-byte character `c`. */
  predicate Single(b: seq<byte>, c: int)
    requires |b| > 0 && b[0] as int < |b|
  {
    0 <= c < 256 && c / 8 < b[0] && HasBit(b[1 + c / 8], c % 8)
  }

  /** What `is_in_list` leaves of the list behind which intervals of the lead byte 0xff stand, and whether one fits. */
  function Trailing(rs: seq<Range>, size: nat, i: nat): (t: (nat, bool))
    requires size <= |rs|
    ensures t.0 <= size
    decreases size
  {
    if size > 0 && rs[size - 1].hi / 256 == 0xff then
      if rs[size - 1].lo % 256 <= i <= rs[size - 1].hi % 256 then (size - 1, true) else Trailing(rs, size - 1, i)
    else (size, false)
  }

  /** The list and the flag after the first loop of `is_in_list`. */
  function Searched(rs: seq<Range>, c: ushort): (t: (nat, bool))
    ensures t.0 <= |rs|
  {
    if |rs| > 0 && rs[|rs| - 1].lo / 256 == 0xff then Trailing(rs, |rs|, if c >= 256 then c / 256 else c)
    else (|rs|, false)
  }

  /** The low byte of a wide character that `is_in_list` accepts is no newline and no NUL. */
  predicate LowByteOk(c: ushort) {
    c % 256 != 10 && c % 256 != 0
  }

  /** `is_in_list`: 1 for a member, 2 for a byte of an interval with the lead byte 0xff, else 0. */
  method IsInList(c: ushort, b: seq<byte>) returns (result: int)
    requires IsSet(b)
    ensures var rs := WideRanges(b); var t := Searched(rs, c);
      result ==
        if Single(b, c) then 1
        else if rs == [] then 0
        else if Denotes(rs[..t.0], c) && LowByteOk(c) then 1
        else if t.1 then 2 else 0
  {
    hide Denotes, Ordered;
    if c < 256 {
      if c / 8 < b[0] && HasBit(b[1 + c as int / 8], c as int % 8) { return 1; }
    }
    var at := b[0] as int + 3;
    var size: nat := Number(b, at - 2);
    ghost var rs := WideRanges(b);
    result := 0;
    if size == 0 { return; }
    assert rs[size - 1] == RangeAt(b, at + 4 * (size - 1));
    if b[at + (size - 1) * 4] == 0xff {
      size, result := DropTrailing(b, at, size, if c >= 256 then c / 256 else c);
    }
    var found := Search(b, at, size, rs, c);
    if found { result := 1; }
  }

  /** The first loop of `is_in_list`. */
  method DropTrailing(b: seq<byte>, at: nat, n: nat, i: nat) returns (size: nat, result: int)
    requires at + 4 * n <= |b|
    ensures var t := Trailing(Ranges(b, at, n), n, i); size == t.0 && result == if t.1 then 2 else 0
  {
    size, result := n, 0;
    ghost var rs := Ranges(b, at, n);
    hide Trailing;
    while size > 0 && b[at + size * 4 - 2] == 0xff
      invariant size <= n && result == 0
      invariant Trailing(rs, size, i) == Trailing(rs, n, i)
      decreases size
    {
      RangeBytes(b, at, n, size - 1);
      TrailingStep(rs, size, i);
      size := size - 1;
      if b[at + size * 4 + 1] <= i <= b[at + size * 4 + 3] {
        result := 2;
        return;
      }
    }
    if size > 0 { RangeBytes(b, at, n, size - 1); }
    TrailingStep(rs, size, i);
  }

  lemma RangeBytes(b: seq<byte>, at: nat, n: nat, k: nat)
    requires k < n && at + 4 * n <= |b|
    ensures var r := Ranges(b, at, n)[k];
      && r.lo / 256 == b[at + 4 * k] && r.lo % 256 == b[at + 4 * k + 1]
      && r.hi / 256 == b[at + 4 * k + 2] && r.hi % 256 == b[at + 4 * k + 3]
  {
  }

  lemma TrailingStep(rs: seq<Range>, size: nat, i: nat)
    requires size <= |rs|
    ensures Trailing(rs, size, i) ==
      if size > 0 && rs[size - 1].hi / 256 == 0xff then
        if rs[size - 1].lo % 256 <= i <= rs[size - 1].hi % 256 then (size - 1, true) else Trailing(rs, size - 1, i)
      else (size, false)
  {
  }

  lemma RangeIs(b: seq<byte>, at: nat, rs: seq<Range>, k: nat)
    requires k < |rs| && at + 4 * |rs| <= |b| && rs == Ranges(b, at, |rs|)
    ensures rs[k].lo == Mbc(b, at + k * 4) && rs[k].hi == Mbc(b, at + k * 4 + 2)
  {
    assert rs[k] == RangeAt(b, at + 4 * k);
  }

  /** The binary search of `is_in_list`, and the test behind it. */
  method Search(b: seq<byte>, at: nat, size: nat, ghost rs: seq<Range>, c: ushort) returns (found: bool)
    requires size <= |rs| && at + 4 * |rs| <= |b| && rs == Ranges(b, at, |rs|) && Ordered(rs)
    ensures found <==> Denotes(rs[..size], c) && LowByteOk(c)
  {
    hide Ordered, Ranges, Mbc, Denotes;
    FewRanges(rs);
    var i: nat, j: nat := 0, size;
    while i < j
      invariant i <= j <= size
      invariant forall k :: 0 <= k < i ==> rs[k].hi < c
      invariant forall k :: j <= k < size ==> c <= rs[k].hi
      decreases j - i
    {
      var k := (i + j) % 0x1_0000 / 2;
      RangeIs(b, at, rs, k);
      EndsSorted(rs, k);
      if c > Mbc(b, at + k * 4 + 2) {
        i := k + 1;
      } else {
        j := k;
      }
    }
    SearchEnds(rs, size, c, i);
    if i < size { RangeIs(b, at, rs, i); }
    found := i < size && Mbc(b, at + i * 4) <= c && c % 256 != 10 && c % 256 != 0;
  }

  lemma EndsSorted(rs: seq<Range>, k: nat)
    requires Ordered(rs) && k < |rs|
    ensures forall m :: 0 <= m <= k ==> rs[m].hi <= rs[k].hi
    ensures forall m :: k <= m < |rs| ==> rs[k].hi <= rs[m].hi
  {
  }

  lemma StartsSorted(rs: seq<Range>, k: nat)
    requires Ordered(rs) && k < |rs|
    ensures forall m :: 0 <= m <= k ==> rs[m].lo <= rs[k].lo
    ensures forall m :: k <= m < |rs| ==> rs[k].lo <= rs[m].lo
  {
  }

  lemma SearchEnds(rs: seq<Range>, size: nat, c: ushort, i: nat)
    requires Ordered(rs) && i <= size <= |rs|
    requires forall k :: 0 <= k < i ==> rs[k].hi < c
    requires forall k :: i <= k < size ==> c <= rs[k].hi
    ensures Denotes(rs[..size], c) <==> i < size && rs[i].lo <= c
  {
    if i < size && rs[i].lo <= c {
      assert rs[..size][i].lo <= c;
    }
    if Denotes(rs[..size], c) {
      var k :| 0 <= k < size && rs[..size][k].lo <= c <= rs[..size][k].hi;
      assert k > i ==> rs[i].hi as int + 1 < rs[k].lo;
    }
  }

  /**
   * The search decides membership when the last interval starts below the lead byte 0xff, for characters whose low
   * byte is no newline and no NUL.
   */
  lemma InListDecides(b: seq<byte>, c: ushort, result: int)
    requires IsSet(b) && LowByteOk(c)
    requires var rs := WideRanges(b); rs != [] ==> rs[|rs| - 1].lo < 0xff00
    requires var rs := WideRanges(b); var t := Searched(rs, c);
      result ==
        if Single(b, c) then 1
        else if rs == [] then 0
        else if Denotes(rs[..t.0], c) && LowByteOk(c) then 1
        else if t.1 then 2 else 0
    ensures result != 0 <==> Single(b, c) || Denotes(WideRanges(b), c)
  {
    var rs := WideRanges(b);
    assert rs[..|rs|] == rs;
  }

  /** Makes the bitmap as large as it can be. */
  method Grow(b: array<byte>)
    requires IsSet(b[..]) && b.Length >= 35 + 4 * (Number(b[..], WideAt(b[..]) - 2) as int + 1)
    modifies b
    ensures IsSet(b[..]) && b[0] == 32 && WideRanges(b[..]) == old(WideRanges(b[..]))
    ensures forall c :: Single(b[..], c) <==> old(Single(b[..], c))
  {
    hide Ordered, HasBit;
    ghost var s0 := b[..];
    var size: nat := b[0];
    var n := Number(b[..], 1 + size);
    Memmove(b, 33, 1 + size, 2 + n as int * 4);
    ghost var s1 := b[..];
    forall i | 1 + size <= i < 33 { b[i] := 0; }
    ghost var s2 := b[..];
    b[0] := 32;
    GrownWide(s0, s1, s2, b[..], size, n);
    GrownSingle(s0, s1, s2, b[..], size);
  }

  lemma GrownWide(s0: seq<byte>, s1: seq<byte>, s2: seq<byte>, s3: seq<byte>, size: nat, n: nat)
    requires |s0| == |s1| == |s2| == |s3| >= 35 + 4 * n && IsSet(s0) && s0[0] == size && n == Number(s0, 1 + size)
    requires s1 == s0[..33] + s0[1 + size..1 + size + 2 + n * 4] + s0[35 + n * 4..]
    requires forall i :: 0 <= i < |s2| ==> s2[i] == if 1 + size <= i < 33 then 0 else s1[i]
    requires s3 == s2[0 := 32]
    ensures SetShape(s3) && WideRanges(s3) == WideRanges(s0)
  {
    hide Ordered;
    GrownByte(s0, s1, s2, s3, size, n, 0);
    GrownByte(s0, s1, s2, s3, size, n, 1);
    assert Number(s3, 33) == n;
    GrownRanges(s0, s1, s2, s3, size, n);
  }

  lemma GrownRanges(s0: seq<byte>, s1: seq<byte>, s2: seq<byte>, s3: seq<byte>, size: nat, n: nat)
    requires |s0| == |s1| == |s2| == |s3| >= 35 + 4 * n && size <= 32
    requires s1 == s0[..33] + s0[1 + size..1 + size + 2 + n * 4] + s0[35 + n * 4..]
    requires forall i :: 0 <= i < |s2| ==> s2[i] == if 1 + size <= i < 33 then 0 else s1[i]
    requires s3 == s2[0 := 32]
    ensures Ranges(s3, 35, n) == Ranges(s0, size + 3, n)
  {
    hide RangeAt;
    forall k | 0 <= k < n
      ensures RangeAt(s3, 35 + 4 * k) == RangeAt(s0, size + 3 + 4 * k)
    {
      GrownRange(s0, s1, s2, s3, size, n, k);
    }
  }

  lemma GrownRange(s0: seq<byte>, s1: seq<byte>, s2: seq<byte>, s3: seq<byte>, size: nat, n: nat, k: nat)
    requires |s0| == |s1| == |s2| == |s3| >= 35 + 4 * n && size <= 32 && k < n
    requires s1 == s0[..33] + s0[1 + size..1 + size + 2 + n * 4] + s0[35 + n * 4..]
    requires forall i :: 0 <= i < |s2| ==> s2[i] == if 1 + size <= i < 33 then 0 else s1[i]
    requires s3 == s2[0 := 32]
    ensures RangeAt(s3, 35 + 4 * k) == RangeAt(s0, size + 3 + 4 * k)
  {
    GrownByte(s0, s1, s2, s3, size, n, 2 + 4 * k);
    GrownByte(s0, s1, s2, s3, size, n, 3 + 4 * k);
    GrownByte(s0, s1, s2, s3, size, n, 4 + 4 * k);
    GrownByte(s0, s1, s2, s3, size, n, 5 + 4 * k);
  }

  lemma GrownByte(s0: seq<byte>, s1: seq<byte>, s2: seq<byte>, s3: seq<byte>, size: nat, n: nat, i: nat)
    requires |s0| == |s1| == |s2| == |s3| >= 35 + 4 * n && size <= 32 && i < 2 + n * 4
    requires s1 == s0[..33] + s0[1 + size..1 + size + 2 + n * 4] + s0[35 + n * 4..]
    requires forall i :: 0 <= i < |s2| ==> s2[i] == if 1 + size <= i < 33 then 0 else s1[i]
    requires s3 == s2[0 := 32]
    ensures s3[33 + i] == s0[1 + size + i]
  {
    assert s1[33 + i] == s0[1 + size..1 + size + 2 + n * 4][i];
  }

  lemma GrownSingle(s0: seq<byte>, s1: seq<byte>, s2: seq<byte>, s3: seq<byte>, size: nat)
    requires |s0| == |s1| == |s2| == |s3| >= 35 && IsSet(s0) && s0[0] == size
    requires s1[..33] == s0[..33]
    requires forall i :: 0 <= i < |s2| ==> s2[i] == if 1 + size <= i < 33 then 0 else s1[i]
    requires s3 == s2[0 := 32]
    ensures forall c :: Single(s3, c) <==> Single(s0, c)
  {
    hide IsSet, HasBit;
    assert size <= 32 by { SetSize(s0); }
    forall c
      ensures Single(s3, c) <==> Single(s0, c)
    {
      if 0 <= c < 256 {
        var i := 1 + c / 8;
        if i <= size {
          assert s3[i] == s1[i] == s1[..33][i] == s0[..33][i] == s0[i];
        } else {
          NoBits(c % 8);
        }
      }
    }
  }

  lemma SetSize(s: seq<byte>)
    requires IsSet(s)
    ensures |s| > 0 && s[0] <= 32
  {
  }

  /** The loop of `set_list_bits` over single-byte characters; `mb` tells which bytes begin a wide one. */
  method SetBits(b: array<byte>, c1: nat, upb: nat, mb: byte -> bool)
    requires IsSet(b[..]) && upb < 256 && upb / 8 < b[0]
    modifies b
    ensures IsSet(b[..]) && WideRanges(b[..]) == old(WideRanges(b[..])) && b[0] == old(b[0])
    ensures forall c :: Single(b[..], c) <==> old(Single(b[..], c)) || (c1 <= c <= upb && !mb(c))
  {
    hide Ordered, HasBit, SetBit, Ranges;
    var c := c1;
    while c <= upb
      invariant IsSet(b[..]) && WideRanges(b[..]) == old(WideRanges(b[..])) && b[0] == old(b[0])
      invariant c1 <= c && (c <= upb + 1 || c == c1)
      invariant forall d :: Single(b[..], d) <==> old(Single(b[..], d)) || (c1 <= d < c && !mb(d))
    {
      if !mb(c) {
        PutBit(b, c);
      }
      c := c + 1;
    }
  }

  /** `SET_LIST_BIT`. */
  method PutBit(b: array<byte>, c: nat)
    requires IsSet(b[..]) && c < 256 && c / 8 < b[0]
    modifies b
    ensures IsSet(b[..]) && WideRanges(b[..]) == old(WideRanges(b[..])) && b[0] == old(b[0])
    ensures forall d :: Single(b[..], d) <==> old(Single(b[..], d)) || d == c
  {
    hide Ordered, HasBit, SetBit;
    ghost var s0 := b[..];
    var i := 1 + c / 8;
    assert Arith.Pow(2, 8) == 256;
    SetBitBound(b[i], c % 8, 8);
    b[i] := SetBit(b[i], c % 8);
    BitKeepsWide(s0, b[..], i);
    forall d
      ensures Single(b[..], d) <==> Single(s0, d) || d == c
    {
      if 0 <= d < 256 { SetBitIs(s0[i], c % 8, d % 8); }
    }
  }

  lemma BitKeepsWide(s0: seq<byte>, s: seq<byte>, i: nat)
    requires IsSet(s0) && 0 < i <= s0[0] as int && |s| == |s0| && forall k :: 0 <= k < |s| && k != i ==> s[k] == s0[k]
    ensures IsSet(s) && WideRanges(s) == WideRanges(s0)
  {
    hide Ordered;
    SameRanges(s0, s, WideAt(s0), Number(s0, WideAt(s0) - 2));
  }

  /**
   * `set_list_bits`. A range does not mix single-byte characters with wide ones below 0x8000; there is room for one
   * more interval behind a full bitmap.
   */
  method SetListBits(b: array<byte>, c1_0: ushort, c2: ushort, mb: byte -> bool)
    requires IsSet(b[..]) && b.Length >= 35 + 4 * (Number(b[..], WideAt(b[..]) - 2) as int + 1)
    requires c1_0 >= 256 || c2 < 256 || c2 >= 0x8000
    modifies b
    ensures IsSet(b[..])
    ensures forall c :: Single(b[..], c) <==> old(Single(b[..], c)) || (c1_0 <= c <= c2 && c < 256 && !mb(c))
    ensures if c1_0 <= c2 && c2 >= 256
      then Added(old(WideRanges(b[..])), if c1_0 < 256 then 0x8000 else c1_0, c2, WideRanges(b[..]))
      else WideRanges(b[..]) == old(WideRanges(b[..]))
  {
    hide Ordered, HasBit, Denotes, Lost, Added;
    var c1 := c1_0;
    if c1 > c2 { return; }
    if c1 < 256 {
      var upb: nat := c2;
      if upb >= 256 { upb := 255; }
      if b[0] as int <= upb / 8 {
        Grow(b);
      }
      SetBits(b, c1, upb, mb);
      if c2 < 256 { return; }
      c1 := 0x8000;
    }
    ghost var s0 := b[..];
    AddWide(b, b[0] as int + 3, c1, c2);
    SameSingles(s0, b[..]);
  }

  lemma SameSingles(s0: seq<byte>, s: seq<byte>)
    requires SetShape(s0) && |s| == |s0| && forall k :: 0 <= k < WideAt(s0) - 2 ==> s[k] == s0[k]
    ensures forall c :: Single(s, c) <==> Single(s0, c)
  {
    hide HasBit;
  }
}
