/** The global method cache of eval.c, the walk it stands for, and what may change that walk. */
module MethodCache {
  import opened Wrappers

  type Cid = int
  type Tid = int
  type Id = int

  datatype Kind = Class | Module | IClass

  /** `struct RClass`: a class, a module, or what stands for an included module in a chain and shares its table. */
  datatype RClass = RClass(kind: Kind, tbl: Tid, super: Option<Cid>)

  /** A body: a node, or an alias, which names the class and the method that it was made from. */
  datatype Body = Node(n: int) | FBody(orig: Cid, mid: Id, head: int)

  /** What a method table holds: no body for an undefined method. */
  datatype Method = Method(body: Option<Body>, noex: int)

  /** `struct cache_entry`; an entry with `mid` 0 is dead. */
  datatype Entry = Entry(mid: Id, mid0: Id, cls: Cid, origin: Cid, node: int, noex: int)

  /** What a call gets to know of a method. */
  datatype Target = Target(origin: Cid, id: Id, node: int, noex: int)

  const CACHE_SIZE := 0x200

  type Classes = map<Cid, RClass>
  type Tables = map<Tid, map<Id, Method>>

  /** For every class its chain: the class and what it inherits from. */
  type Chains = map<Cid, seq<Cid>>

  // ---- chains

  /** The chains follow the `super` links; as they are finite, the links are not circular. */
  ghost predicate Linked(cs: Classes, ch: Chains) {
    && ch.Keys == cs.Keys
    && forall c :: c in cs ==>
         if cs[c].super.None? then ch[c] == [c]
         else cs[c].super.value in cs && ch[c] == [c] + ch[cs[c].super.value]
  }

  ghost predicate WellFormed(cs: Classes, ts: Tables, ch: Chains) {
    Linked(cs, ch) && forall c :: c in cs ==> cs[c].tbl in ts
  }

  /** From a class of a chain on, the chain is that of the class. */
  lemma {:induction false} ChainSuffix(cs: Classes, ch: Chains, c: Cid, i: nat)
    requires Linked(cs, ch) && c in cs && i < |ch[c]|
    ensures ch[c][i] in cs && ch[c][i..] == ch[ch[c][i]]
    decreases i
  {
    if i > 0 {
      var s := cs[c].super.value;
      ChainSuffix(cs, ch, s, i - 1);
      assert ch[c][i] == ch[s][i - 1] && ch[c][i..] == ch[s][i - 1..];
    } else {
      assert ch[c][0..] == ch[c];
    }
  }

  /** Nothing inherits from itself. */
  lemma NotAbove(cs: Classes, ch: Chains, c: Cid)
    requires Linked(cs, ch) && c in cs && cs[c].super.Some?
    ensures c !in ch[cs[c].super.value]
  {
    var s := cs[c].super.value;
    forall i | 0 <= i < |ch[s]|
      ensures ch[s][i] != c
    {
      ChainSuffix(cs, ch, s, i);
    }
  }

  /** The method table of `x` has the method: what `st_lookup` answers. */
  predicate Has(cs: Classes, ts: Tables, x: Cid, id: Id) {
    x in cs && cs[x].tbl in ts && id in ts[cs[x].tbl]
  }

  /** The first class of a chain with the method in its table. */
  ghost function Found(cs: Classes, ts: Tables, ch: seq<Cid>, id: Id): Option<Cid> {
    if ch == [] then None
    else if Has(cs, ts, ch[0], id) then Some(ch[0])
    else Found(cs, ts, ch[1..], id)
  }

  /** What a fresh walk tells a call: nothing for a method that is missing or undefined; for an alias, its original. */
  ghost function Fresh(cs: Classes, ts: Tables, ch: Chains, c: Cid, id: Id): Option<Target>
    requires WellFormed(cs, ts, ch) && c in cs
  {
    var f := Found(cs, ts, ch[c], id);
    if f.None? then None
    else
      FoundIn(cs, ts, ch[c], id);
      Resolve(f.value, id, ts[cs[f.value].tbl][id])
  }

  function Resolve(origin: Cid, id: Id, m: Method): Option<Target> {
    match m.body
    case None => None
    case Some(Node(n)) => Some(Target(origin, id, n, m.noex))
    case Some(FBody(orig, mid, head)) => Some(Target(orig, mid, head, m.noex))
  }

  lemma {:induction false} FoundIn(cs: Classes, ts: Tables, ch: seq<Cid>, id: Id)
    ensures Found(cs, ts, ch, id).Some? ==> Found(cs, ts, ch, id).value in ch && Has(cs, ts, Found(cs, ts, ch, id).value, id)
    ensures Found(cs, ts, ch, id).None? ==> forall x :: x in ch ==> !Has(cs, ts, x, id)
  {
    hide Has;
    if ch != [] {
      FoundIn(cs, ts, ch[1..], id);
      assert forall x :: x in ch <==> x == ch[0] || x in ch[1..];
    }
  }

  /** A call by an alias is a call of the method it was made from, class and name included. */
  lemma AliasIsOriginal(cs: Classes, ts: Tables, ch: Chains, c: Cid, name: Id, orig: Cid, mid: Id, head: int, noex: int)
    requires WellFormed(cs, ts, ch) && c in cs && orig in cs
    requires Has(cs, ts, orig, mid) && ts[cs[orig].tbl][mid] == Method(Some(Node(head)), noex)
    requires Has(cs, ts, c, name) && ts[cs[c].tbl][name] == Method(Some(FBody(orig, mid, head)), noex)
    ensures Fresh(cs, ts, ch, c, name) == Fresh(cs, ts, ch, orig, mid) == Some(Target(orig, mid, head, noex))
  {
    assert ch[c][0] == c && ch[orig][0] == orig;
  }

  /** A method of the class itself counts, undefined or not; without one, what the superclass has. */
  lemma OwnOrInherited(cs: Classes, ts: Tables, ch: Chains, c: Cid, id: Id)
    requires WellFormed(cs, ts, ch) && c in cs
    ensures Has(cs, ts, c, id) && ts[cs[c].tbl][id].body.None? ==> Fresh(cs, ts, ch, c, id) == None
    ensures Has(cs, ts, c, id) && ts[cs[c].tbl][id].body.Some? && ts[cs[c].tbl][id].body.value.Node? ==>
      Fresh(cs, ts, ch, c, id) == Some(Target(c, id, ts[cs[c].tbl][id].body.value.n, ts[cs[c].tbl][id].noex))
    ensures !Has(cs, ts, c, id) ==>
      Fresh(cs, ts, ch, c, id) == if cs[c].super.None? then None else Fresh(cs, ts, ch, cs[c].super.value, id)
  {
    assert ch[c][0] == c;
    if !Has(cs, ts, c, id) { assert Found(cs, ts, ch[c], id) == Found(cs, ts, ch[c][1..], id); }
    if cs[c].super.None? {
      assert ch[c][1..] == [];
    } else {
      assert ch[c][1..] == ch[cs[c].super.value];
    }
  }

  /** A live entry tells what a fresh walk would. */
  ghost predicate Coherent(cs: Classes, ts: Tables, ch: Chains, e: Entry)
    requires WellFormed(cs, ts, ch)
  {
    e.mid != 0 ==> e.cls in cs && Fresh(cs, ts, ch, e.cls, e.mid) == Some(Target(e.origin, e.mid0, e.node, e.noex))
  }

  // ---- a method is added to a table

  function AddTo(ts: Tables, t: Tid, id: Id, m: Method): Tables
    requires t in ts
  {
    ts[t := ts[t][id := m]]
  }

  /** A walk that finds a method of another name, or finds it before the table that changes, finds the same. */
  lemma {:induction false} FoundAfter(cs: Classes, ts: Tables, ch: seq<Cid>, t: Tid, id: Id, m: Method, mid: Id)
    requires t in ts && id !in ts[t]
    ensures Found(cs, AddTo(ts, t, id, m), ch, mid) == Found(cs, ts, ch, mid)
      <==> mid != id || !Overtaken(cs, ts, ch, t, mid)
  {
    var ts' := AddTo(ts, t, id, m);
    if ch != [] {
      var x := ch[0];
      if Has(cs, ts, x, mid) {
        FirstNotOvertaken(cs, ts, ch, t, mid);
      } else if x in cs && cs[x].tbl == t && mid == id {
        assert OvertakenAt(cs, ts, ch, t, mid, 0);
        FoundFirstOrNot(cs, ts, ch, mid);
      } else {
        FoundAfter(cs, ts, ch[1..], t, id, m, mid);
        if mid == id { OvertakenTail(cs, ts, ch, t, mid); }
      }
    }
  }

  /** A class before the one where the walk ends, or any class when it finds nothing, has the table `t`. */
  ghost predicate Overtaken(cs: Classes, ts: Tables, ch: seq<Cid>, t: Tid, mid: Id) {
    exists i :: 0 <= i < |ch| && OvertakenAt(cs, ts, ch, t, mid, i)
  }

  ghost predicate OvertakenAt(cs: Classes, ts: Tables, ch: seq<Cid>, t: Tid, mid: Id, i: nat)
    requires i < |ch|
  {
    ch[i] in cs && cs[ch[i]].tbl == t && forall j :: 0 <= j <= i ==> !Has(cs, ts, ch[j], mid)
  }

  lemma FoundFirstOrNot(cs: Classes, ts: Tables, ch: seq<Cid>, mid: Id)
    requires ch != [] && !Has(cs, ts, ch[0], mid)
    ensures Found(cs, ts, ch, mid) != Some(ch[0])
  {
    FoundIn(cs, ts, ch, mid);
  }

  lemma FirstNotOvertaken(cs: Classes, ts: Tables, ch: seq<Cid>, t: Tid, mid: Id)
    requires ch != [] && Has(cs, ts, ch[0], mid)
    ensures !Overtaken(cs, ts, ch, t, mid)
  {
  }

  lemma OvertakenTail(cs: Classes, ts: Tables, ch: seq<Cid>, t: Tid, mid: Id)
    requires ch != [] && !Has(cs, ts, ch[0], mid) && !(ch[0] in cs && cs[ch[0]].tbl == t)
    ensures Overtaken(cs, ts, ch, t, mid) <==> Overtaken(cs, ts, ch[1..], t, mid)
  {
    var tail := ch[1..];
    if Overtaken(cs, ts, ch, t, mid) {
      var i :| 0 <= i < |ch| && OvertakenAt(cs, ts, ch, t, mid, i);
      assert forall j :: 0 <= j <= i - 1 ==> tail[j] == ch[j + 1];
      assert OvertakenAt(cs, ts, tail, t, mid, i - 1);
    }
    if Overtaken(cs, ts, tail, t, mid) {
      var i :| 0 <= i < |tail| && OvertakenAt(cs, ts, tail, t, mid, i);
      forall j | 0 <= j <= i + 1
        ensures !Has(cs, ts, ch[j], mid)
      {
        if j > 0 { assert ch[j] == tail[j - 1]; }
      }
      assert OvertakenAt(cs, ts, ch, t, mid, i + 1);
    }
  }

  /** Nobody else shares the table of a class. */
  ghost predicate Unshared(cs: Classes, c: Cid)
    requires c in cs
  {
    forall x :: x in cs && cs[x].tbl == cs[c].tbl ==> x == c
  }

  /** The first class of a chain with the table `t`, before any class that has the method. */
  ghost predicate FirstOvertaken(cs: Classes, ts: Tables, ch: seq<Cid>, t: Tid, mid: Id, i: nat)
    requires i < |ch|
  {
    OvertakenAt(cs, ts, ch, t, mid, i) && forall j :: 0 <= j < i ==> !(ch[j] in cs && cs[ch[j]].tbl == t)
  }

  lemma {:induction false} LeastOvertaken(cs: Classes, ts: Tables, ch: seq<Cid>, t: Tid, mid: Id, i: nat) returns (k: nat)
    requires i < |ch| && OvertakenAt(cs, ts, ch, t, mid, i)
    ensures k <= i && FirstOvertaken(cs, ts, ch, t, mid, k)
  {
    k := i;
    if j :| 0 <= j < i && ch[j] in cs && cs[ch[j]].tbl == t {
      k := LeastOvertaken(cs, ts, ch, t, mid, j);
    }
  }

  /** A walk now ends where it is overtaken. */
  lemma {:induction false} FoundOvertaken(cs: Classes, ts: Tables, ch: seq<Cid>, t: Tid, id: Id, m: Method, i: nat)
    requires t in ts && i < |ch| && FirstOvertaken(cs, ts, ch, t, id, i)
    ensures Found(cs, AddTo(ts, t, id, m), ch, id) == Some(ch[i])
  {
    if i > 0 {
      assert !Has(cs, ts, ch[0], id) && !(ch[0] in cs && cs[ch[0]].tbl == t);
      assert forall j :: 0 <= j <= i - 1 ==> ch[1..][j] == ch[j + 1];
      FoundOvertaken(cs, ts, ch[1..], t, id, m, i - 1);
    }
  }

  /**
   * A live entry for the method is overtaken by a definition in table `t`, and does not happen to tell the same as the
   * definition does.
   */
  ghost predicate Stale(cs: Classes, ts: Tables, ch: Chains, t: Tid, id: Id, n: int, noex: int, e: Entry) {
    && e.mid == id && id != 0 && e.cls in ch
    && exists i :: 0 <= i < |ch[e.cls]| && FirstOvertaken(cs, ts, ch[e.cls], t, id, i)
        && Target(e.origin, e.mid0, e.node, e.noex) != Target(ch[e.cls][i], id, n, noex)
  }

  /** A first definition leaves a live entry right exactly when the entry is not stale. */
  lemma DefnKeepsIff(cs: Classes, ts: Tables, ch: Chains, c: Cid, id: Id, n: int, noex: int, e: Entry)
    requires WellFormed(cs, ts, ch) && c in cs && id != 0 && Coherent(cs, ts, ch, e)
    requires Found(cs, ts, ch[c], id).None?
    ensures WellFormed(cs, AddTo(ts, cs[c].tbl, id, Method(Some(Node(n)), noex)), ch)
    ensures Coherent(cs, AddTo(ts, cs[c].tbl, id, Method(Some(Node(n)), noex)), ch, e)
      <==> !Stale(cs, ts, ch, cs[c].tbl, id, n, noex, e)
  {
    hide FirstOvertaken;
    var t, m := cs[c].tbl, Method(Some(Node(n)), noex);
    FoundIn(cs, ts, ch[c], id);
    assert id !in ts[t] by { assert ch[c][0] == c; }
    if e.mid != 0 {
      FoundAfter(cs, ts, ch[e.cls], t, id, m, e.mid);
      FoundIn(cs, ts, ch[e.cls], e.mid);
      if e.mid == id && Overtaken(cs, ts, ch[e.cls], t, id) {
        OvertakenEntry(cs, ts, ch, t, id, n, noex, e);
      } else {
        NotStale(cs, ts, ch, t, id, n, noex, e);
      }
    }
  }

  lemma NotStale(cs: Classes, ts: Tables, ch: Chains, t: Tid, id: Id, n: int, noex: int, e: Entry)
    requires e.cls in ch && (e.mid == id ==> !Overtaken(cs, ts, ch[e.cls], t, id))
    ensures !Stale(cs, ts, ch, t, id, n, noex, e)
  {
  }

  lemma OvertakenEntry(cs: Classes, ts: Tables, ch: Chains, t: Tid, id: Id, n: int, noex: int, e: Entry)
    requires WellFormed(cs, ts, ch) && t in ts && e.mid == id && id != 0 && e.cls in cs
    requires Overtaken(cs, ts, ch[e.cls], t, id)
    ensures var ts' := AddTo(ts, t, id, Method(Some(Node(n)), noex));
      WellFormed(cs, ts', ch) && (Coherent(cs, ts', ch, e) <==> !Stale(cs, ts, ch, t, id, n, noex, e))
  {
    hide Found;
    var m := Method(Some(Node(n)), noex);
    var i :| 0 <= i < |ch[e.cls]| && OvertakenAt(cs, ts, ch[e.cls], t, id, i);
    var k := LeastOvertaken(cs, ts, ch[e.cls], t, id, i);
    FoundOvertaken(cs, ts, ch[e.cls], t, id, m, k);
    forall j | 0 <= j < |ch[e.cls]| && FirstOvertaken(cs, ts, ch[e.cls], t, id, j)
      ensures j == k
    {
    }
  }

  /** Nothing is overtaken by the table of a class that has it for itself. */
  lemma UnsharedKeeps(cs: Classes, ts: Tables, ch: Chains, c: Cid, id: Id, n: int, noex: int, e: Entry)
    requires WellFormed(cs, ts, ch) && c in cs && Unshared(cs, c) && Coherent(cs, ts, ch, e)
    requires Found(cs, ts, ch[c], id).None?
    ensures !Stale(cs, ts, ch, cs[c].tbl, id, n, noex, e)
  {
    hide Found;
    if e.mid == id && id != 0 {
      NotOvertaken(cs, ts, ch, c, id, e.cls);
      NotStale(cs, ts, ch, cs[c].tbl, id, n, noex, e);
    }
  }

  lemma NotOvertaken(cs: Classes, ts: Tables, ch: Chains, c: Cid, id: Id, d: Cid)
    requires WellFormed(cs, ts, ch) && c in cs && Unshared(cs, c) && d in cs
    requires Found(cs, ts, ch[c], id).None? && Found(cs, ts, ch[d], id).Some?
    ensures !Overtaken(cs, ts, ch[d], cs[c].tbl, id)
  {
    if Overtaken(cs, ts, ch[d], cs[c].tbl, id) {
      var i :| 0 <= i < |ch[d]| && OvertakenAt(cs, ts, ch[d], cs[c].tbl, id, i);
      ChainSuffix(cs, ch, d, i);
      FoundSkip(cs, ts, ch[d], id, i);
      assert false;
    }
  }

  lemma {:induction false} FoundSkip(cs: Classes, ts: Tables, ch: seq<Cid>, id: Id, i: nat)
    requires i < |ch| && forall j :: 0 <= j < i ==> !Has(cs, ts, ch[j], id)
    ensures Found(cs, ts, ch, id) == Found(cs, ts, ch[i..], id)
  {
    if i > 0 {
      assert forall j :: 0 <= j <= i - 1 ==> ch[1..][j] == ch[j + 1];
      FoundSkip(cs, ts, ch[1..], id, i - 1);
      assert ch[1..][i - 1..] == ch[i..];
    } else {
      assert ch[0..] == ch;
    }
  }

  // ---- a module that is reopened

  /** Class 1 inherits from 2 and includes module 3, by 4; only 2 has a method, number 5. */
  const SAMPLE: Classes := map[
    1 := RClass(Class, 1, Some(4)), 2 := RClass(Class, 2, None),
    3 := RClass(Module, 3, None), 4 := RClass(IClass, 3, Some(2))]
  const SAMPLE_CHAINS: Chains := map[1 := [1, 4, 2], 2 := [2], 3 := [3], 4 := [4, 2]]
  const SAMPLE_METHOD := Method(Some(Node(7)), 0)
  const SAMPLE_TABLES: Tables := map[1 := map[], 2 := map[5 := SAMPLE_METHOD], 3 := map[]]

  /**
   * Reopening a module after it was included does not clear the cache: when method 5 is defined in module 3, a fresh
   * walk from 1 finds it there, and a live entry still tells of the one in 2.
   */
  lemma ReopenedModuleIsMissed()
    ensures var e, ts := Entry(5, 5, 1, 2, 7, 0), AddTo(SAMPLE_TABLES, 3, 5, SAMPLE_METHOD);
      && WellFormed(SAMPLE, SAMPLE_TABLES, SAMPLE_CHAINS) && WellFormed(SAMPLE, ts, SAMPLE_CHAINS)
      && Found(SAMPLE, SAMPLE_TABLES, SAMPLE_CHAINS[3], 5).None?
      && Coherent(SAMPLE, SAMPLE_TABLES, SAMPLE_CHAINS, e)
      && !Coherent(SAMPLE, ts, SAMPLE_CHAINS, e)
      && Stale(SAMPLE, SAMPLE_TABLES, SAMPLE_CHAINS, 3, 5, 7, 0, e)
  {
    FoundFirst(SAMPLE, SAMPLE_TABLES, 1, 4, 2);
    FoundFirst(SAMPLE, AddTo(SAMPLE_TABLES, 3, 5, SAMPLE_METHOD), 1, 4, 2);
    FoundIn(SAMPLE, SAMPLE_TABLES, [3], 5);
    DefnKeepsIff(SAMPLE, SAMPLE_TABLES, SAMPLE_CHAINS, 3, 5, 7, 0, Entry(5, 5, 1, 2, 7, 0));
  }

  lemma FoundFirst(cs: Classes, ts: Tables, x: Cid, y: Cid, z: Cid)
    requires !Has(cs, ts, x, 5) && Has(cs, ts, z, 5)
    ensures Found(cs, ts, [x, y, z], 5) == if Has(cs, ts, y, 5) then Some(y) else Some(z)
  {
    assert [x, y, z][1..] == [y, z] && [y, z][1..] == [z];
    assert Found(cs, ts, [z], 5) == Some(z);
    assert Found(cs, ts, [y, z], 5) == if Has(cs, ts, y, 5) then Some(y) else Some(z);
  }

  // ---- a module is included

  /** A class `n` put in behind `c`. */
  function Spliced(cs: Classes, c: Cid, n: Cid, t: Tid): Classes
    requires c in cs
  {
    cs[n := RClass(IClass, t, cs[c].super)][c := cs[c].(super := Some(n))]
  }

  /** A chain with `n` behind `c`. */
  ghost function Behind(s: seq<Cid>, c: Cid, n: Cid): seq<Cid> {
    if s == [] then [] else if s[0] == c then [c, n] + s[1..] else [s[0]] + Behind(s[1..], c, n)
  }

  lemma {:induction false} BehindNone(s: seq<Cid>, c: Cid, n: Cid)
    requires c !in s
    ensures Behind(s, c, n) == s
  {
    if s != [] { BehindNone(s[1..], c, n); }
  }

  ghost function SplicedChains(ch: Chains, c: Cid, n: Cid): Chains
    requires c in ch && ch[c] != []
  {
    map x | x in ch.Keys + {n} :: if x == n then [n] + ch[c][1..] else Behind(ch[x], c, n)
  }

  /** All chains through `c` now go through `n`, the others are as before. */
  lemma SplicedLinked(cs: Classes, ch: Chains, c: Cid, n: Cid, t: Tid)
    requires Linked(cs, ch) && c in cs && n !in cs
    ensures ch[c] != [] && Linked(Spliced(cs, c, n, t), SplicedChains(ch, c, n))
    ensures SplicedChains(ch, c, n)[c] == [c, n] + ch[c][1..]
    ensures forall x :: x in cs && c !in ch[x] ==> SplicedChains(ch, c, n)[x] == ch[x]
  {
    var cs', ch' := Spliced(cs, c, n, t), SplicedChains(ch, c, n);
    forall x | x in cs'
      ensures if cs'[x].super.None? then ch'[x] == [x]
        else cs'[x].super.value in cs' && ch'[x] == [x] + ch'[cs'[x].super.value]
    {
      SplicedAt(cs, ch, c, n, t, x);
    }
    forall x | x in cs && c !in ch[x]
      ensures ch'[x] == ch[x]
    {
      BehindNone(ch[x], c, n);
    }
  }

  lemma SplicedAt(cs: Classes, ch: Chains, c: Cid, n: Cid, t: Tid, x: Cid)
    requires Linked(cs, ch) && c in cs && n !in cs && ch[c] != [] && x in Spliced(cs, c, n, t)
    ensures var cs', ch' := Spliced(cs, c, n, t), SplicedChains(ch, c, n);
      if cs'[x].super.None? then ch'[x] == [x]
      else cs'[x].super.value in cs' && ch'[x] == [x] + ch'[cs'[x].super.value]
  {
    hide Behind, Linked;
    if x == n {
      AtNew(cs, ch, c, n, t);
    } else if x == c {
      AtClass(cs, ch, c, n);
    } else {
      AtOther(cs, ch, c, n, x);
    }
  }

  lemma AtNew(cs: Classes, ch: Chains, c: Cid, n: Cid, t: Tid)
    requires Linked(cs, ch) && c in cs && n !in cs && ch[c] != []
    ensures var ch' := SplicedChains(ch, c, n);
      if cs[c].super.None? then ch'[n] == [n] else cs[c].super.value in cs && ch'[n] == [n] + ch'[cs[c].super.value]
  {
    if cs[c].super.Some? {
      NotAbove(cs, ch, c);
      BehindNone(ch[cs[c].super.value], c, n);
      assert ch[c][1..] == ch[cs[c].super.value];
    } else {
      assert ch[c][1..] == [];
    }
  }

  lemma AtClass(cs: Classes, ch: Chains, c: Cid, n: Cid)
    requires Linked(cs, ch) && c in cs && n !in cs && ch[c] != []
    ensures var ch' := SplicedChains(ch, c, n); ch'[c] == [c] + ch'[n]
  {
    assert ch[c][0] == c;
  }

  lemma AtOther(cs: Classes, ch: Chains, c: Cid, n: Cid, x: Cid)
    requires Linked(cs, ch) && c in cs && n !in cs && ch[c] != [] && x in cs && x != c
    ensures var ch' := SplicedChains(ch, c, n);
      if cs[x].super.None? then ch'[x] == [x] else cs[x].super.value in cs && ch'[x] == [x] + ch'[cs[x].super.value]
  {
    if cs[x].super.Some? {
      var s := cs[x].super.value;
      assert ch[x][1..] == ch[s] && ch[x][0] == x;
      assert s in ch;
    } else {
      assert ch[x] == [x] && ch[x][1..] == [];
      assert Behind([], c, n) == [];
    }
  }

  /** A class that stands for an included module with table `t` is in a chain. */
  ghost predicate Included(cs: Classes, s: seq<Cid>, t: Tid) {
    exists x :: x in s && x in cs && cs[x].kind == IClass && cs[x].tbl == t
  }

  lemma ChainIn(cs: Classes, ch: Chains, c: Cid)
    requires Linked(cs, ch) && c in cs
    ensures ch[c] != [] && ch[c][0] == c && forall i :: 0 <= i < |ch[c]| ==> ch[c][i] in cs
  {
    forall i | 0 <= i < |ch[c]|
      ensures ch[c][i] in cs
    {
      ChainSuffix(cs, ch, c, i);
    }
  }

  /** Between a class and what was above it now stand included modules with the tables of `mods`. */
  ghost predicate Put(cs: Classes, was: seq<Cid>, mods: seq<Cid>, cs': Classes, now: seq<Cid>) {
    && was != [] && |now| == |was| + |mods| && now[0] == was[0] && now[|mods| + 1..] == was[1..]
    && forall i :: 0 <= i < |mods| ==> Stands(cs, cs', mods[i], now[i + 1])
  }

  /** The first `k` modules are not yet above the class, and the next one is, if there is one. */
  ghost predicate Stops(cs: Classes, above: seq<Cid>, ms: seq<Cid>, k: nat) {
    && k <= |ms| && (forall i :: 0 <= i < |ms| ==> ms[i] in cs)
    && (forall i :: 0 <= i < k ==> !Included(cs, above, cs[ms[i]].tbl))
    && (k < |ms| ==> Included(cs, above, cs[ms[k]].tbl))
  }

  /** A chain of classes, link by link. */
  ghost predicate Links(cs: Classes, ms: seq<Cid>) {
    forall i :: 0 <= i < |ms| ==> LinkAt(cs, ms, i)
  }

  ghost predicate LinkAt(cs: Classes, ms: seq<Cid>, i: nat)
    requires i < |ms|
  {
    ms[i] in cs && cs[ms[i]].super == if i + 1 < |ms| then Some(ms[i + 1]) else None
  }

  lemma ChainLinks(cs: Classes, ch: Chains, c: Cid)
    requires Linked(cs, ch) && c in cs
    ensures Links(cs, ch[c])
  {
    forall i | 0 <= i < |ch[c]|
      ensures LinkAt(cs, ch[c], i)
    {
      ChainLinkAt(cs, ch, c, i);
    }
  }

  lemma ChainLinkAt(cs: Classes, ch: Chains, c: Cid, i: nat)
    requires Linked(cs, ch) && c in cs && i < |ch[c]|
    ensures LinkAt(cs, ch[c], i)
  {
    var ms := ch[c];
    ChainSuffix(cs, ch, c, i);
    var x := ms[i];
    if cs[x].super.Some? {
      var s := cs[x].super.value;
      ChainIn(cs, ch, s);
      assert ms[i..][1..] == ch[s];
      assert ms[i + 1] == ms[i..][1] == ch[s][0];
    } else {
      assert |ms[i..]| == 1;
    }
  }

  /** What was known is still there; only the class at the bottom has another link. */
  ghost predicate Grown(cs: Classes, cs': Classes, class_: Cid) {
    forall x :: x in cs ==>
      x in cs' && cs'[x].kind == cs[x].kind && cs'[x].tbl == cs[x].tbl && (x != class_ ==> cs'[x].super == cs[x].super)
  }

  /** The new class `x` stands for the module `m`. */
  ghost predicate Stands(cs: Classes, cs': Classes, m: Cid, x: Cid) {
    x !in cs && x in cs' && m in cs && cs'[x].kind == IClass && cs'[x].tbl == cs[m].tbl
  }

  /** The loop of `rb_include_module` after `k` modules: `done` are the class and what was put above it, last `c`. */
  ghost predicate Growing(cs: Classes, cs': Classes, ch': Chains, class_: Cid, c: Cid, done: seq<Cid>, above: seq<Cid>,
    ms: seq<Cid>, k: nat)
  {
    && |done| == k + 1 && done[0] == class_ && done[k] == c && c !in done[..k] && class_ in cs && k <= |ms|
    && class_ in ch' && c in ch' && ch'[class_] == done + above && ch'[c] == [c] + above
    && (forall i :: 0 <= i < k ==> Stands(cs, cs', ms[i], done[i + 1]))
    && Grown(cs, cs', class_) && Links(cs, ms) && class_ !in ms
    && forall x :: x in above ==> x in cs
  }

  lemma {:induction false} BehindAt(s: seq<Cid>, c: Cid, n: Cid, above: seq<Cid>)
    requires s != [] && s[|s| - 1] == c && c !in s[..|s| - 1]
    ensures Behind(s + above, c, n) == s + [n] + above
  {
    var rest := s[1..];
    assert (s + above)[1..] == rest + above;
    if |s| > 1 {
      assert s[0] == s[..|s| - 1][0];
      assert forall i :: 0 <= i < |rest| - 1 ==> rest[i] == s[..|s| - 1][i + 1];
      BehindAt(rest, c, n, above);
      FirstOff(s, [n], above);
    } else {
      assert rest + above == above;
    }
  }

  lemma FirstOff(s: seq<Cid>, t: seq<Cid>, u: seq<Cid>)
    requires s != []
    ensures s + t + u == [s[0]] + (s[1..] + t + u)
  {
    assert s == [s[0]] + s[1..];
  }

  /** One more module is put above the class. */
  lemma Grow(cs: Classes, cs1: Classes, ch1: Chains, class_: Cid, c: Cid, done: seq<Cid>, above: seq<Cid>, ms: seq<Cid>,
      k: nat, n: Cid)
    requires Growing(cs, cs1, ch1, class_, c, done, above, ms, k) && k < |ms| && n !in cs1 && ch1.Keys == cs1.Keys
    ensures ms[k] in cs && c in cs1 && ch1[c] != []
    ensures Growing(cs, Spliced(cs1, c, n, cs[ms[k]].tbl), SplicedChains(ch1, c, n), class_, n, done + [n], above, ms, k + 1)
  {
    hide Links, Behind;
    LinkIn(cs, ms, k);
    var cs2, ch2 := Spliced(cs1, c, n, cs[ms[k]].tbl), SplicedChains(ch1, c, n);
    var d := done + [n];
    assert done[..|done| - 1] == done[..k];
    BehindAt(done, c, n, above);
    assert ch2[class_] == d + above;
    assert ch1[c][1..] == above;
    assert d[..k + 1] == done;
    GrowingIn(cs, cs1, ch1, class_, c, done, above, ms, k);
    assert c in done && n !in done;
    GrownMore(cs, cs1, class_, c, n, cs[ms[k]].tbl) by {
      if k > 0 { assert Stands(cs, cs1, ms[k - 1], done[k - 1 + 1]); }
    }
    forall i | 0 <= i < k + 1
      ensures Stands(cs, cs2, ms[i], d[i + 1])
    {
      if i < k {
        assert d[i + 1] == done[i + 1];
        assert Stands(cs, cs1, ms[i], done[i + 1]);
      }
    }
  }

  lemma GrownMore(cs: Classes, cs1: Classes, class_: Cid, c: Cid, n: Cid, t: Tid)
    requires Grown(cs, cs1, class_) && c in cs1 && n !in cs1 && (c == class_ || c !in cs)
    ensures Grown(cs, Spliced(cs1, c, n, t), class_)
  {
  }

  lemma LinkIn(cs: Classes, ms: seq<Cid>, k: nat)
    requires Links(cs, ms) && k < |ms|
    ensures ms[k] in cs
  {
    assert LinkAt(cs, ms, k);
  }

  lemma GrowingIn(cs: Classes, cs': Classes, ch': Chains, class_: Cid, c: Cid, done: seq<Cid>, above: seq<Cid>, ms: seq<Cid>,
      k: nat)
    requires Growing(cs, cs', ch', class_, c, done, above, ms, k)
    ensures forall x :: x in done ==> x in cs'
  {
    hide Links;
    forall x | x in done
      ensures x in cs'
    {
      var i :| 0 <= i < |done| && done[i] == x;
      if i > 0 { assert Stands(cs, cs', ms[i - 1], done[i - 1 + 1]); }
    }
  }

  lemma GrowingStart(cs: Classes, ch: Chains, class_: Cid, module_: Cid)
    requires Linked(cs, ch) && class_ in cs && module_ in cs && class_ !in ch[module_]
    ensures ch[class_] != [] && Growing(cs, cs, ch, class_, class_, [class_], ch[class_][1..], ch[module_], 0)
  {
    ChainIn(cs, ch, class_);
    ChainLinks(cs, ch, module_);
    assert ch[class_] == [class_] + ch[class_][1..];
    assert forall x :: x in ch[class_][1..] ==> x in ch[class_];
  }

  /** What the loop needs to know. */
  lemma GrowingFacts(cs: Classes, cs': Classes, ch': Chains, class_: Cid, c: Cid, done: seq<Cid>, above: seq<Cid>,
      ms: seq<Cid>, k: nat)
    requires Growing(cs, cs', ch', class_, c, done, above, ms, k)
    ensures c in cs' && class_ in cs' && c in ch' && ch'[c][1..] == above
    ensures forall i :: 0 <= i < |ms| ==> ms[i] in cs && ms[i] in cs' && cs'[ms[i]].tbl == cs[ms[i]].tbl
    ensures class_ in ch' && |ch'[class_]| == k + 1 + |above|
    ensures Put(cs, [class_] + above, ms[..k], cs', ch'[class_])
  {
    GrowingIn(cs, cs', ch', class_, c, done, above, ms, k);
    var now := ch'[class_];
    assert now[|ms[..k]| + 1..] == above;
    assert ([class_] + above)[1..] == above;
    assert forall j :: 0 <= j <= k ==> now[j] == done[j];
    forall i | 0 <= i < |ms|
      ensures ms[i] in cs && ms[i] in cs' && cs'[ms[i]].tbl == cs[ms[i]].tbl
    {
      assert LinkAt(cs, ms, i) && ms[i] in ms;
      GrownAt(cs, cs', class_, ms[i]);
    }
  }

  lemma GrownAt(cs: Classes, cs': Classes, class_: Cid, x: Cid)
    requires Grown(cs, cs', class_) && x in cs
    ensures x in cs' && cs'[x].kind == cs[x].kind && cs'[x].tbl == cs[x].tbl
    ensures x != class_ ==> cs'[x].super == cs[x].super
  {
  }

  lemma NextModule(cs: Classes, cs': Classes, ch': Chains, class_: Cid, c: Cid, done: seq<Cid>, above: seq<Cid>,
      ms: seq<Cid>, k: nat, i: nat)
    requires Growing(cs, cs', ch', class_, c, done, above, ms, k) && i < |ms|
    ensures ms[i] in cs' && cs'[ms[i]].super == if i + 1 < |ms| then Some(ms[i + 1]) else None
  {
    assert LinkAt(cs, ms, i) && ms[i] in ms;
    GrownAt(cs, cs', class_, ms[i]);
  }

  lemma GrowingSame(cs: Classes, cs': Classes, ch': Chains, class_: Cid, c: Cid, done: seq<Cid>, above: seq<Cid>,
      ms: seq<Cid>, k: nat, t: Tid)
    requires Growing(cs, cs', ch', class_, c, done, above, ms, k)
    ensures Included(cs', above, t) == Included(cs, above, t)
  {
    hide Links;
    SameIncluded(cs, cs', above, t);
  }

  lemma SameIncluded(cs: Classes, cs': Classes, above: seq<Cid>, t: Tid)
    requires (forall x :: x in above ==> x in cs)
    requires forall x :: x in cs ==> x in cs' && cs'[x].kind == cs[x].kind && cs'[x].tbl == cs[x].tbl
    ensures Included(cs', above, t) == Included(cs, above, t)
  {
  }

  // ---- the interpreter

  class Interp {
    var classes: Classes
    var tables: Tables
    var cache: array<Entry>
    /** Where the next class is made. */
    var next: Cid
    /** `EXPR1`: the slot of a class and a method. */
    const hash: (Cid, Id) -> nat
    ghost var chains: Chains

    /** Classes and their tables. */
    ghost predicate World()
      reads this
    {
      WellFormed(classes, tables, chains) && cache.Length == CACHE_SIZE && (forall c, m :: hash(c, m) < CACHE_SIZE)
      && forall c :: c in classes ==> c < next
    }

    /** Every live entry of the cache tells what a fresh walk would. */
    ghost predicate Valid()
      reads this, cache
    {
      World() && forall k :: 0 <= k < CACHE_SIZE ==> Coherent(classes, tables, chains, cache[k])
    }

    ghost predicate AllDead()
      reads this`cache, cache
    {
      cache.Length == CACHE_SIZE && forall k :: 0 <= k < CACHE_SIZE ==> cache[k].mid == 0
    }

    /** `rb_clear_cache`. */
    method ClearCache()
      requires World()
      modifies cache
      ensures Valid() && AllDead()
    {
      var ent := 0;
      while ent < CACHE_SIZE
        invariant 0 <= ent <= CACHE_SIZE && forall k :: 0 <= k < ent ==> cache[k].mid == 0
      {
        cache[ent] := cache[ent].(mid := 0);
        ent := ent + 1;
      }
    }

    /** `search_method`. */
    method SearchMethod(class_: Cid, id: Id) returns (r: Option<(Cid, Method)>)
      requires World() && class_ in classes
      ensures r.None? <==> Found(classes, tables, chains[class_], id).None?
      ensures r.Some? ==>
        && Found(classes, tables, chains[class_], id) == Some(r.value.0)
        && Has(classes, tables, r.value.0, id) && r.value.1 == tables[classes[r.value.0].tbl][id]
    {
      var c := class_;
      while id !in tables[classes[c].tbl]
        invariant c in classes && Found(classes, tables, chains[c], id) == Found(classes, tables, chains[class_], id)
        decreases |chains[c]|
      {
        if classes[c].super.None? {
          assert chains[c][1..] == [];
          return None;
        }
        assert chains[c][1..] == chains[classes[c].super.value];
        c := classes[c].super.value;
      }
      ChainIn(classes, chains, c);
      r := Some((c, tables[classes[c].tbl][id]));
    }

    /** `rb_get_method_body`: the walk, and an entry for it. */
    method GetMethodBody(class_: Cid, id: Id) returns (r: Option<Target>)
      requires Valid() && class_ in classes && id != 0
      modifies cache
      ensures Valid() && r == Fresh(classes, tables, chains, class_, id)
    {
      hide Found, Linked;
      var found := SearchMethod(class_, id);
      if found.None? { return None; }
      var (origin, body) := found.value;
      if body.body.None? { return None; }
      var target := match body.body.value
        case FBody(orig, mid, head) => Target(orig, mid, head, body.noex)
        case Node(n) => Target(origin, id, n, body.noex);
      cache[hash(class_, id)] := Entry(id, target.id, class_, target.origin, target.node, target.noex);
      r := Some(target);
    }

    /** The beginning of `rb_call`: the cache is asked first. */
    method FindMethod(class_: Cid, mid: Id) returns (r: Option<Target>)
      requires Valid() && class_ in classes && mid != 0
      modifies cache
      ensures Valid() && r == Fresh(classes, tables, chains, class_, mid)
    {
      hide Found, Linked, Fresh;
      var ent := cache[hash(class_, mid)];
      if ent.mid == mid && ent.cls == class_ {
        r := Some(Target(ent.origin, ent.mid0, ent.node, ent.noex));
      } else {
        r := GetMethodBody(class_, mid);
      }
    }

    /** `rb_add_method`. */
    method AddMethod(class_: Cid, mid: Id, m: Method)
      requires World() && class_ in classes
      modifies this`tables
      ensures World() && tables == AddTo(old(tables), classes[class_].tbl, mid, m)
    {
      hide Linked;
      tables := AddTo(tables, classes[class_].tbl, mid, m);
    }

    /** The visibility of the method that a walk finds. */
    ghost function FoundNoex(c: Cid, mid: Id): int
      requires World() && c in classes
      reads this
    {
      FoundIn(classes, tables, chains[c], mid);
      var f := Found(classes, tables, chains[c], mid);
      if f.None? then 0 else tables[classes[f.value].tbl][mid].noex
    }

    /** No entry would be stale after the definition. */
    ghost predicate NoneStale(class_: Cid, mid: Id, node: int, noex: int)
      requires Valid() && class_ in classes
      reads this, cache
    {
      forall k :: 0 <= k < CACHE_SIZE ==> !Stale(classes, tables, chains, classes[class_].tbl, mid, node, noex, cache[k])
    }

    /**
     * The definition of a method. The cache is cleared only when a walk finds one of that name. Otherwise it stays right
     * exactly when no entry is stale; if no included module shares the table of the class, none is.
     */
    method Define(class_: Cid, mid: Id, node: int, noex: int) returns (cleared: bool, nx: int)
      requires Valid() && class_ in classes && mid != 0
      modifies this`tables, cache
      ensures World() && cleared == old(Found(classes, tables, chains[class_], mid)).Some?
      ensures Valid() <==> cleared || old(NoneStale(class_, mid, node, noex))
      ensures Unshared(classes, class_) ==> Valid()
      ensures tables == AddTo(old(tables), classes[class_].tbl, mid, Method(Some(Node(node)), nx))
      ensures nx == if cleared then old(FoundNoex(class_, mid)) else noex
    {
      hide Found, Linked, Coherent, Stale;
      var found := SearchMethod(class_, mid);
      cleared := found.Some?;
      if cleared { ClearCache(); }
      nx := if cleared then found.value.1.noex else noex;
      var m := Method(Some(Node(node)), nx);
      ghost var was := tables;
      AddMethod(class_, mid, m);
      if cleared {
        DeadIsCoherent();
      } else {
        forall k | 0 <= k < CACHE_SIZE
          ensures Coherent(classes, tables, chains, cache[k]) <==>
            !Stale(classes, was, chains, classes[class_].tbl, mid, node, noex, cache[k])
          ensures Unshared(classes, class_) ==> !Stale(classes, was, chains, classes[class_].tbl, mid, node, noex, cache[k])
        {
          DefnKeepsIff(classes, was, chains, class_, mid, node, noex, cache[k]);
          if Unshared(classes, class_) { UnsharedKeeps(classes, was, chains, class_, mid, node, noex, cache[k]); }
        }
      }
    }

    lemma DeadIsCoherent()
      requires World() && AllDead()
      ensures Valid()
    {
    }

    /** `undef`; false when there is nothing to undefine. A walk then finds the name, and a call nothing. */
    method Undefine(class_: Cid, mid: Id) returns (ok: bool)
      requires Valid() && class_ in classes && mid != 0
      modifies this`tables, cache
      ensures Valid() && (ok <==> old(Fresh(classes, tables, chains, class_, mid)).Some?)
      ensures ok ==> Fresh(classes, tables, chains, class_, mid).None?
      ensures !ok ==> tables == old(tables)
    {
      hide Linked;
      var found := SearchMethod(class_, mid);
      if found.None? || found.value.1.body.None? { return false; }
      ClearCache();
      AddMethod(class_, mid, Method(None, 0));
      DeadIsCoherent();
      ChainIn(classes, chains, class_);
      ok := true;
    }

    /** The inner loop of `rb_include_module`: an included module with this table is above the class. */
    method AlreadyIncluded(class_: Cid, t: Tid) returns (found: bool)
      requires World() && class_ in classes
      ensures found == Included(classes, chains[class_][1..], t)
    {
      hide Included;
      var p := classes[class_].super;
      assert chains[class_][1..] == if p.None? then [] else chains[p.value];
      while p.Some?
        invariant p.Some? ==> p.value in classes
        invariant Included(classes, chains[class_][1..], t) ==
          Included(classes, if p.None? then [] else chains[p.value], t)
        decreases if p.None? then 0 else |chains[p.value]|
      {
        IncludedStep(p.value, t);
        if classes[p.value].kind == IClass && classes[p.value].tbl == t { return true; }
        p := classes[p.value].super;
      }
      IncludedNone(t);
      found := false;
    }

    lemma IncludedNone(t: Tid)
      ensures !Included(classes, [], t)
    {
    }

    lemma IncludedStep(c: Cid, t: Tid)
      requires World() && c in classes
      ensures classes[c].super.Some? ==> classes[c].super.value in classes && |chains[classes[c].super.value]| < |chains[c]|
      ensures 0 < |chains[c]|
      ensures Included(classes, chains[c], t) <==>
        (classes[c].kind == IClass && classes[c].tbl == t)
        || Included(classes, if classes[c].super.None? then [] else chains[classes[c].super.value], t)
    {
      var s := if classes[c].super.None? then [] else chains[classes[c].super.value];
      assert chains[c] == [c] + s;
      assert forall x :: x in chains[c] <==> x == c || x in s;
    }

    /** `include_class_new`, and the link to it: a class that shares the module's table, right above `c`. */
    method Insert(c: Cid, t: Tid) returns (n: Cid)
      requires World() && c in classes && t in tables
      modifies this`classes, this`next, this`chains
      ensures World() && n == old(next) && n !in old(classes)
      ensures classes == Spliced(old(classes), c, n, t) && chains == SplicedChains(old(chains), c, n)
    {
      hide Linked, Behind, SplicedChains;
      KeysAre();
      n := next;
      next := next + 1;
      ChainIn(classes, chains, c);
      SplicedLinked(classes, chains, c, n, t);
      chains := SplicedChains(chains, c, n);
      classes := Spliced(classes, c, n, t);
    }

    /**
     * `rb_include_module`: above the class come the module and what it includes, up to the first that is already above
     * the class. All walks change with the chain, and the cache is empty.
     */
    method IncludeModule(class_: Cid, module_: Cid) returns (k: nat)
      requires Valid() && class_ in classes && module_ in classes && (class_ != module_ ==> class_ !in chains[module_])
      modifies this`classes, this`next, this`chains, cache
      ensures Valid() && tables == old(tables)
      ensures class_ == module_ ==> k == 0 && classes == old(classes)
      ensures class_ in classes && |chains[class_]| == |old(chains[class_])| + k
      ensures class_ != module_ ==>
        && k <= |old(chains[module_])|
        && Put(old(classes), old(chains[class_]), old(chains[module_])[..k], classes, chains[class_])
        && Stops(old(classes), old(chains[class_])[1..], old(chains[module_]), k)
    {
      k := 0;
      if class_ == module_ { return; }
      ClearCache();
      GrowingStart(classes, chains, class_, module_);
      k := IncludeLoop(class_, module_);
      DeadIsCoherent();
    }

    /** The outer loop of `rb_include_module`. */
    method IncludeLoop(class_: Cid, module_: Cid) returns (k: nat)
      requires World() && class_ in classes && module_ in classes && chains[class_] != [] && AllDead()
      requires Growing(classes, classes, chains, class_, class_, [class_], chains[class_][1..], chains[module_], 0)
      modifies this`classes, this`next, this`chains
      ensures World() && class_ in classes && |chains[class_]| == |old(chains[class_])| + k && k <= |old(chains[module_])|
      ensures Put(old(classes), old(chains[class_]), old(chains[module_])[..k], classes, chains[class_])
      ensures Stops(old(classes), old(chains[class_])[1..], old(chains[module_]), k)
    {
      hide Included, Linked, WellFormed, Growing, Put;
      k := 0;
      FirstLink(class_, module_);
      ghost var cs, above, ms := classes, chains[class_][1..], chains[module_];
      var c, m := class_, Some(module_);
      ghost var done := [class_];
      while m.Some?
        invariant World()
        invariant k <= |ms| && (if k == |ms| then m == None else m == Some(ms[k]))
        invariant Growing(cs, classes, chains, class_, c, done, above, ms, k)
        invariant forall i :: 0 <= i < k ==> ms[i] in cs && !Included(cs, above, cs[ms[i]].tbl)
        decreases |ms| - k
      {
        var found, n := IncludeStep(c, m.value, cs, class_, done, above, ms, k);
        if found { break; }
        done := done + [n];
        c := n;
        k := k + 1;
        GrowingFacts(cs, classes, chains, class_, c, done, above, ms, k);
        NextModule(cs, classes, chains, class_, c, done, above, ms, k, k - 1);
        m := classes[m.value].super;
      }
      GrowingFacts(cs, classes, chains, class_, c, done, above, ms, k);
    }

    lemma FirstLink(class_: Cid, module_: Cid)
      requires World() && class_ in classes && module_ in classes
      ensures class_ in chains && module_ in chains
      ensures chains[class_] == [class_] + chains[class_][1..] && chains[module_] != [] && chains[module_][0] == module_
    {
      ChainIn(classes, chains, class_);
      ChainIn(classes, chains, module_);
    }

    /** One turn of the outer loop: the module is above the class already, or is put there. */
    method IncludeStep(c: Cid, m: Cid, ghost cs: Classes, ghost class_: Cid, ghost done: seq<Cid>, ghost above: seq<Cid>,
        ghost ms: seq<Cid>, ghost k: nat) returns (found: bool, n: Cid)
      requires World() && Growing(cs, classes, chains, class_, c, done, above, ms, k) && k < |ms| && m == ms[k]
      modifies this`classes, this`next, this`chains
      ensures World() && ms[k] in cs && found == Included(cs, above, cs[ms[k]].tbl)
      ensures found ==> Growing(cs, classes, chains, class_, c, done, above, ms, k)
      ensures !found ==> Growing(cs, classes, chains, class_, n, done + [n], above, ms, k + 1)
    {
      hide Included, Linked, Growing, SplicedChains, Put;
      n := c;
      GrowingFacts(cs, classes, chains, class_, c, done, above, ms, k);
      var t := classes[m].tbl;
      found := AlreadyIncluded(c, t);
      GrowingSame(cs, classes, chains, class_, c, done, above, ms, k, t);
      if !found {
        ghost var cs1, ch1 := classes, chains;
        KeysAre();
        n := Insert(c, t);
        Grow(cs, cs1, ch1, class_, c, done, above, ms, k, n);
      }
    }

    lemma KeysAre()
      requires World()
      ensures chains.Keys == classes.Keys && forall x :: x in classes ==> classes[x].tbl in tables
    {
    }
  }
}
