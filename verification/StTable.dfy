/** The chained hash table of st.c: bins of linked entries that together denote a finite map. */
module StTable {
  import Arith
  import opened Wrappers

  const ST_DEFAULT_MAX_DENSITY := 5
  const ST_DEFAULT_INIT_TABLE_SIZE := 11

  class Entry<K, V> {
    const key: K
    var record: V
    var next: Entry?<K, V>

    constructor (key: K, record: V)
      ensures this.key == key && this.record == record
    {
      this.key := key;
      this.record := record;
      next := null;
    }
  }

  /**
   * The number of bins for so many entries: a quotient by 5 * 0.87, and a product of doubles in st.c. The quotient is
   * exact here.
   */
  function Scaled(size: nat): (n: nat)
    ensures size <= n * ST_DEFAULT_MAX_DENSITY || n < ST_DEFAULT_INIT_TABLE_SIZE
  {
    if size == 0 then ST_DEFAULT_INIT_TABLE_SIZE else size * 20 / 87
  }

  /** What a callback of `st_foreach` answers. */
  datatype Verdict = Continue | Stop | Delete

  /** A bin's list: `es` from `head` on. */
  ghost predicate Linked<K, V>(head: Entry?<K, V>, es: seq<Entry<K, V>>)
    reads es`next
  {
    && head == At(es, 0)
    && forall j :: 0 <= j < |es| ==> es[j].next == At(es, j + 1)
  }

  function At<K, V>(es: seq<Entry<K, V>>, j: nat): Entry?<K, V> {
    if j < |es| then es[j] else null
  }

  /** Every entry is in the bin of its key, and no key is in a bin twice. */
  ghost predicate Placed<K, V>(hash: (K, nat) -> nat, n: nat, chains: seq<seq<Entry<K, V>>>) {
    && (forall i, j :: 0 <= i < |chains| && 0 <= j < |chains[i]| ==> hash(chains[i][j].key, n) == i)
    && (forall i, j, k :: 0 <= i < |chains| && 0 <= j < k < |chains[i]| ==> chains[i][j].key != chains[i][k].key)
  }

  /** The part of `Placed` for one bin. */
  ghost predicate ChainOk<K, V>(hash: (K, nat) -> nat, n: nat, i: nat, c: seq<Entry<K, V>>) {
    && (forall j :: 0 <= j < |c| ==> hash(c[j].key, n) == i)
    && (forall j, k :: 0 <= j < k < |c| ==> c[j].key != c[k].key)
  }

  lemma PlacedParts<K, V>(hash: (K, nat) -> nat, n: nat, chains: seq<seq<Entry<K, V>>>)
    ensures Placed(hash, n, chains) <==> forall i :: 0 <= i < |chains| ==> ChainOk(hash, n, i, chains[i])
  {
  }

  /** A chain without one of its entries. */
  lemma ShorterChain<K, V>(hash: (K, nat) -> nat, n: nat, i: nat, c: seq<Entry<K, V>>, j: nat)
    requires ChainOk(hash, n, i, c) && j < |c|
    ensures ChainOk(hash, n, i, c[..j] + c[j + 1..])
    ensures forall e :: e in c[..j] + c[j + 1..] <==> e in c && e != c[j]
  {
    var d := c[..j] + c[j + 1..];
    assert forall k :: 0 <= k < |d| ==> d[k] == if k < j then c[k] else c[k + 1];
    forall e | e in c && e != c[j]
      ensures e in d
    {
      var k :| 0 <= k < |c| && c[k] == e;
      assert d[if k < j then k else k - 1] == e;
    }
  }

  /** A chain with one more entry. */
  lemma LongerChain<K, V>(hash: (K, nat) -> nat, n: nat, i: nat, c: seq<Entry<K, V>>, e: Entry<K, V>)
    requires ChainOk(hash, n, i, c) && hash(e.key, n) == i && forall f :: f in c ==> f.key != e.key
    ensures ChainOk(hash, n, i, [e] + c) && forall f :: f in [e] + c <==> f in c || f == e
  {
    var d := [e] + c;
    assert forall k :: 1 <= k < |d| ==> d[k] == c[k - 1];
  }

  /** The part of `Holds` that changes with one bin. */
  lemma HoldsChange<K, V>(hash: (K, nat) -> nat, n: nat, chains: seq<seq<Entry<K, V>>>, es: set<Entry<K, V>>, h: nat,
      c: seq<Entry<K, V>>, es': set<Entry<K, V>>)
    requires Holds(hash, n, chains, es) && h < |chains|
    requires forall e :: e in c <==> e in es' && hash(e.key, n) == h
    requires forall e :: e in es && hash(e.key, n) != h ==> e in es'
    requires forall e :: e in es' && hash(e.key, n) != h ==> e in es
    requires forall i, j :: 0 <= i < |chains| && i != h && 0 <= j < |chains[i]| ==> hash(chains[i][j].key, n) != h
    ensures Holds(hash, n, chains[h := c], es')
  {
    var cs := chains[h := c];
    forall i, j | 0 <= i < |cs| && 0 <= j < |cs[i]|
      ensures cs[i][j] in es'
    {
      if i == h { assert cs[i][j] in c; }
    }
  }

  /** The chains hold exactly these entries. */
  ghost predicate Holds<K, V>(hash: (K, nat) -> nat, n: nat, chains: seq<seq<Entry<K, V>>>, entries: set<Entry<K, V>>) {
    && (forall i, j :: 0 <= i < |chains| && 0 <= j < |chains[i]| ==> chains[i][j] in entries)
    && (forall e :: e in entries ==> hash(e.key, n) < |chains| && e in chains[hash(e.key, n)])
  }

  /** The entries are the pairs of the map. */
  ghost predicate Denotes<K, V>(entries: set<Entry<K, V>>, m: map<K, V>)
    reads entries`record
  {
    && (forall e :: e in entries ==> e.key in m && m[e.key] == e.record)
    && (forall k :: k in m ==> exists e :: e in entries && e.key == k)
  }

  lemma KeysUnique<K, V>(hash: (K, nat) -> nat, n: nat, chains: seq<seq<Entry<K, V>>>, entries: set<Entry<K, V>>)
    requires Placed(hash, n, chains) && Holds(hash, n, chains, entries)
    ensures forall e, f :: e in entries && f in entries && e.key == f.key ==> e == f
  {
    forall e, f | e in entries && f in entries && e.key == f.key
      ensures e == f
    {
      var c := chains[hash(e.key, n)];
      var j :| 0 <= j < |c| && c[j] == e;
      var k :| 0 <= k < |c| && c[k] == f;
    }
  }

  /** With a key in one entry only, there are as many entries as keys. */
  lemma {:induction false} SizeIs<K, V>(entries: set<Entry<K, V>>, m: map<K, V>)
    requires Denotes(entries, m)
    requires forall e, f :: e in entries && f in entries && e.key == f.key ==> e == f
    ensures |entries| == |m|
    decreases |entries|
  {
    if entries == {} {
      if k :| k in m { assert false; }
      assert m == map[];
    } else {
      var e :| e in entries;
      SizeIs(entries - {e}, m - {e.key});
      assert m == (m - {e.key})[e.key := e.record];
    }
  }

  class Table<K(==,!new), V> {
    /** `do_hash`: the bin of a key among `n` bins. */
    const hash: (K, nat) -> nat
    var numBins: nat
    var numEntries: nat
    var bins: array<Entry?<K, V>>
    /** The list behind each bin. */
    ghost var chains: seq<seq<Entry<K, V>>>
    ghost var entries: set<Entry<K, V>>
    /** What the table means. */
    ghost var contents: map<K, V>

    /** The hash function stays inside the bins. */
    ghost predicate HashInRange() {
      forall k, n: nat :: n > 0 ==> hash(k, n) < n
    }

    ghost predicate Structure()
      reads this`numBins, this`bins, bins, this`chains, this`entries, this`numEntries, entries`next
    {
      && HashInRange()
      && 0 < numBins == bins.Length == |chains|
      && Placed(hash, numBins, chains)
      && Holds(hash, numBins, chains, entries)
      && (forall i :: 0 <= i < numBins ==> Linked(bins[i], chains[i]))
      && numEntries == |entries|
    }

    /** A whole table: it denotes `contents`, and has at most six entries a bin. */
    ghost predicate Valid()
      reads this, bins, entries
    {
      && Structure()
      && Denotes(entries, contents)
      && numEntries <= (ST_DEFAULT_MAX_DENSITY + 1) * numBins
      && ST_DEFAULT_INIT_TABLE_SIZE <= numBins
    }

    /** `num_entries` is the size of the map. */
    lemma NumEntriesIsSize()
      requires Valid()
      ensures numEntries == |contents|
    {
      KeysUnique(hash, numBins, chains, entries);
      SizeIs(entries, contents);
    }

    /** `st_init_table_with_size`: for `size` entries there are enough bins, without any of them being too full. */
    constructor (hash: (K, nat) -> nat, size: nat)
      requires forall k, n: nat :: n > 0 ==> hash(k, n) < n
      ensures Valid() && contents == map[] && this.hash == hash && fresh(bins) && entries == {}
      ensures numBins == if Scaled(size) < ST_DEFAULT_INIT_TABLE_SIZE then ST_DEFAULT_INIT_TABLE_SIZE else Scaled(size)
      ensures numBins >= ST_DEFAULT_INIT_TABLE_SIZE && size <= numBins * ST_DEFAULT_MAX_DENSITY
    {
      this.hash := hash;
      var n := Scaled(size);
      if n < ST_DEFAULT_INIT_TABLE_SIZE { n := ST_DEFAULT_INIT_TABLE_SIZE; }
      numBins := n;
      numEntries := 0;
      bins := new Entry?<K, V>[n](_ => null);
      chains := seq(n, _ => []);
      entries := {};
      contents := map[];
    }

    /** An empty table with the given number of bins, as `st_copy` makes it. */
    constructor OfBins(hash: (K, nat) -> nat, n: nat)
      requires n >= ST_DEFAULT_INIT_TABLE_SIZE && forall k, n: nat :: n > 0 ==> hash(k, n) < n
      ensures Valid() && contents == map[] && this.hash == hash && fresh(bins) && entries == {} && numBins == n
    {
      this.hash := hash;
      numBins := n;
      numEntries := 0;
      bins := new Entry?<K, V>[n](_ => null);
      chains := seq(n, _ => []);
      entries := {};
      contents := map[];
    }

    /** Where an entry is in its chain. */
    lemma Spot(e: Entry<K, V>) returns (h: nat, j: nat)
      requires Holds(hash, numBins, chains, entries) && e in entries
      ensures h == hash(e.key, numBins) && h < |chains| && j < |chains[h]| && chains[h][j] == e
    {
      h := hash(e.key, numBins);
      j :| 0 <= j < |chains[h]| && chains[h][j] == e;
    }

    /** `FIND_ENTRY`: the first entry of the bin with this key. */
    method FindEntry(key: K, h: nat) returns (ptr: Entry?<K, V>, ghost j: nat)
      requires Structure() && h == hash(key, numBins)
      ensures h < |chains|
      ensures ptr != null ==> j < |chains[h]| && ptr == chains[h][j] && ptr in entries && ptr.key == key
      ensures ptr == null ==> forall e :: e in entries ==> e.key != key
    {
      hide Placed, Linked;
      assert Linked(bins[h], chains[h]);
      ptr, j := FindIn(bins[h], key, chains[h]);
    }

    /** The search of one list. */
    static method FindIn(head: Entry?<K, V>, key: K, ghost c: seq<Entry<K, V>>) returns (ptr: Entry?<K, V>, ghost j: nat)
      requires Linked(head, c)
      ensures ptr != null ==> j < |c| && ptr == c[j] && ptr.key == key
      ensures ptr == null ==> forall e :: e in c ==> e.key != key
    {
      ptr := head;
      j := 0;
      if ptr != null && ptr.key != key {
        while ptr.next != null && ptr.next.key != key
          invariant j < |c| && ptr == c[j]
          invariant forall i :: 0 <= i <= j ==> c[i].key != key
          decreases |c| - j
        {
          ptr := ptr.next;
          j := j + 1;
        }
        ptr := ptr.next;
        j := j + 1;
      }
    }

    /** `st_lookup`. */
    method Lookup(key: K) returns (value: Option<V>)
      requires Valid()
      ensures value == if key in contents then Some(contents[key]) else None
    {
      hide Structure;
      var h := hash(key, numBins);
      var ptr, j := FindEntry(key, h);
      if ptr == null {
        value := None;
      } else {
        value := Some(ptr.record);
      }
    }

    lemma InBins(key: K)
      requires HashInRange() && numBins > 0
      ensures hash(key, numBins) < numBins
    {
    }

    /** Puts an entry at the head of its bin: the step of `ADD_DIRECT` and of `rehash`. */
    method Push(e: Entry<K, V>, h: nat)
      requires Structure() && e !in entries && h == hash(e.key, numBins)
      requires forall f :: f in entries ==> f.key != e.key
      modifies this`numEntries, this`chains, this`entries, bins, e`next
      ensures Structure() && entries == old(entries) + {e}
      ensures h < |old(chains)| && chains == old(chains)[h := [e] + old(chains[h])]
    {
      hide Placed, Holds, Linked, HashInRange;
      InBins(e.key);
      PushKeeps(e, h);
      PushApart(e);
      ghost var cs := chains[h := [e] + chains[h]];
      LinkFirst(bins, h, e, chains, cs);
      numEntries := numEntries + 1;
      entries := entries + {e};
      chains := cs;
    }

    /** The links and the bin that change when `e` becomes the first of its list. */
    static method LinkFirst(bins: array<Entry?<K, V>>, h: nat, e: Entry<K, V>, ghost cs: seq<seq<Entry<K, V>>>,
        ghost cs': seq<seq<Entry<K, V>>>)
      requires h < bins.Length == |cs| && cs' == cs[h := [e] + cs[h]]
      requires forall i, j :: 0 <= i < |cs| && 0 <= j < |cs[i]| ==> cs[i][j] != e
      requires forall i :: 0 <= i < |cs| ==> Linked(bins[i], cs[i])
      modifies bins, e`next
      ensures forall i :: 0 <= i < |cs| ==> Linked(bins[i], cs'[i])
      ensures bins[..] == old(bins[..])[h := e]
    {
      ghost var c := cs[h];
      assert Linked(bins[h], c);
      e.next := bins[h];
      bins[h] := e;
      assert Linked(bins[h], [e] + c);
      forall i | 0 <= i < |cs| && i != h
        ensures Linked(bins[i], cs[i])
      {
        assert old(Linked(bins[i], cs[i]));
        assert forall j :: 0 <= j < |cs[i]| ==> cs[i][j] != e;
      }
    }

    lemma PushApart(e: Entry<K, V>)
      requires Holds(hash, numBins, chains, entries) && e !in entries
      ensures forall i, j :: 0 <= i < |chains| && 0 <= j < |chains[i]| ==> chains[i][j] != e
    {
    }

    lemma PushKeeps(e: Entry<K, V>, h: nat)
      requires Placed(hash, numBins, chains) && Holds(hash, numBins, chains, entries)
      requires e !in entries && h == hash(e.key, numBins) && h < |chains|
      requires forall f :: f in entries ==> f.key != e.key
      ensures var cs := chains[h := [e] + chains[h]]; Placed(hash, numBins, cs) && Holds(hash, numBins, cs, entries + {e})
    {
      hide ChainOk;
      PlacedParts(hash, numBins, chains);
      var c := [e] + chains[h];
      var cs := chains[h := c];
      LongerChain(hash, numBins, h, chains[h], e);
      forall i | 0 <= i < |cs|
        ensures ChainOk(hash, numBins, i, cs[i])
      {
      }
      PlacedParts(hash, numBins, cs);
      hide Placed;
      HoldsChange(hash, numBins, chains, entries, h, c, entries + {e});
    }

    /** The number of bins after a rehash: 1.79 times the old one, made odd. The product is exact here, and a double in st.c. */
    function Grown(n: nat): (m: nat)
      ensures m % 2 == 1
      ensures n >= 2 ==> m > n
    {
      var m := 179 * n / 100;
      if m % 2 == 0 then m + 1 else m
    }

    /** `rehash`: more bins, the same entries. */
    method Rehash()
      requires Structure() && numBins >= 2
      modifies this`numBins, this`numEntries, this`bins, this`chains, this`entries, entries`next
      ensures Structure() && entries == old(entries) && numEntries == old(numEntries)
      ensures numBins == Grown(old(numBins)) > old(numBins) && fresh(bins)
    {
      hide Placed, Holds, Linked, Grown;
      var oldBins, oldNum := bins, numBins;
      ghost var oc, oe := chains, entries;
      KeysUnique(hash, oldNum, oc, oe);
      numBins := Grown(oldNum);
      numEntries := 0;
      bins := new Entry?<K, V>[numBins](_ => null);
      chains := seq(numBins, _ => []);
      entries := {};
      EmptyStructure();
      RehashLoop(oldBins, oldNum, oc, oe);
      assert entries == oe;
    }

    method RehashLoop(oldBins: array<Entry?<K, V>>, oldNum: nat, ghost oc: seq<seq<Entry<K, V>>>, ghost oe: set<Entry<K, V>>)
      requires Structure() && entries == {} && oldNum == oldBins.Length == |oc| && bins != oldBins
      requires Placed(hash, oldNum, oc) && Holds(hash, oldNum, oc, oe)
      requires forall i :: 0 <= i < oldNum ==> Linked(oldBins[i], oc[i])
      requires forall e, f :: e in oe && f in oe && e.key == f.key ==> e == f
      modifies this`numEntries, this`chains, this`entries, bins, oe`next
      ensures Structure()
      ensures forall e :: e in entries <==> e in oe && hash(e.key, oldNum) < oldNum
    {
      hide Placed, Holds, Linked, Structure;
      for i := 0 to oldNum
        invariant Structure()
        invariant forall i' :: i <= i' < oldNum ==> Linked(oldBins[i'], oc[i'])
        invariant forall e :: e in entries <==> e in oe && hash(e.key, oldNum) < i
      {
        MoveNext(oc, oe, oldNum, i);
        MoveList(oldBins[i], oc[i]);
        assert forall e :: e in oe && hash(e.key, oldNum) == i ==> e in oc[i];
      }
    }

    lemma EmptyStructure()
      requires entries == {} && chains == seq(numBins, _ => [])
      ensures Placed(hash, numBins, chains) && Holds(hash, numBins, chains, entries)
      ensures forall i :: 0 <= i < numBins ==> Linked(null, chains[i])
    {
    }

    lemma MoveNext(oc: seq<seq<Entry<K, V>>>, oe: set<Entry<K, V>>, n: nat, i: nat)
      requires Placed(hash, n, oc) && Holds(hash, n, oc, oe) && i < |oc| && n == |oc|
      ensures forall j :: 0 <= j < |oc[i]| ==> oc[i][j] in oe && hash(oc[i][j].key, n) == i
      ensures forall e :: e in oe && hash(e.key, n) == i ==> e in oc[i]
      ensures forall j, k :: 0 <= j < k < |oc[i]| ==> oc[i][j].key != oc[i][k].key
      ensures forall a, b :: 0 <= a < |oc| && a != i && 0 <= b < |oc[a]| ==> oc[a][b] !in oc[i]
    {
    }

    /** The entries of the table after `j` of a list were moved. */
    ghost function Moved(e0: set<Entry<K, V>>, c: seq<Entry<K, V>>, j: nat): set<Entry<K, V>>
      requires j <= |c|
    {
      e0 + set e | e in c[..j]
    }

    /** The next entry of the list is not among those that the table has. */
    lemma NotMoved(c: seq<Entry<K, V>>, j: nat, e0: set<Entry<K, V>>)
      requires j < |c|
      requires forall j, k :: 0 <= j < k < |c| ==> c[j].key != c[k].key
      requires forall e, f :: e in e0 && f in c ==> e.key != f.key
      ensures c[j] !in Moved(e0, c, j) && forall f :: f in Moved(e0, c, j) ==> f.key != c[j].key
      ensures Moved(e0, c, j + 1) == Moved(e0, c, j) + {c[j]}
      ensures forall k :: j < k < |c| ==> c[k] != c[j]
    {
      assert c[j] in c;
      forall f | f in c[..j]
        ensures f.key != c[j].key
      {
        var k :| 0 <= k < j && c[..j][k] == f;
        assert c[k] == f;
      }
      assert c[..j + 1] == c[..j] + [c[j]];
    }

    /** Moves the entries of one old list into the new bins. */
    method MoveList(head: Entry?<K, V>, ghost c: seq<Entry<K, V>>)
      requires Structure() && Linked(head, c)
      requires forall j, k :: 0 <= j < k < |c| ==> c[j].key != c[k].key
      requires forall e, f :: e in entries && f in c ==> e.key != f.key
      modifies this`numEntries, this`chains, this`entries, bins, c`next
      ensures Structure() && entries == old(entries) + set e | e in c
    {
      hide Structure, Linked, Moved;
      var ptr := head;
      ghost var j := 0;
      ghost var e0 := entries;
      FirstOf(head, c);
      MovedEnds(e0, c);
      while ptr != null
        invariant 0 <= j <= |c| && ptr == At(c, j)
        invariant Structure() && entries == Moved(e0, c, j)
        invariant forall k :: j <= k < |c| ==> c[k].next == At(c, k + 1)
        decreases |c| - j
      {
        var next := ptr.next;
        var h := hash(ptr.key, numBins);
        NotMoved(c, j, e0);
        Push(ptr, h);
        ptr := next;
        j := j + 1;
      }
    }

    lemma MovedEnds(e0: set<Entry<K, V>>, c: seq<Entry<K, V>>)
      ensures Moved(e0, c, 0) == e0 && Moved(e0, c, |c|) == e0 + set e | e in c
    {
      assert c[..|c|] == c && c[..0] == [];
    }

    /** `ADD_DIRECT`: a new entry for a key that the table lacks. */
    method AddDirect(key: K, value: V, h0: nat)
      requires Valid() && key !in contents && h0 == hash(key, numBins)
      modifies this, bins, entries`next
      ensures Valid() && contents == old(contents)[key := value]
      ensures fresh(entries - old(entries)) && (bins == old(bins) || fresh(bins))
    {
      hide Structure, Grown, Denotes;
      var h := h0;
      DensityStep(numEntries, numBins);
      if numEntries / numBins > ST_DEFAULT_MAX_DENSITY {
        Rehash();
        h := hash(key, numBins);
      }
      var e := new Entry(key, value);
      DenotesMore(entries, contents, e);
      Sized();
      Push(e, h);
      contents := contents[key := value];
      Sized();
    }

    lemma Sized()
      requires Structure()
      ensures numEntries == |entries| && 0 < numBins == |chains| == bins.Length
    {
    }

    lemma DensityStep(n: nat, b: nat)
      requires n <= (ST_DEFAULT_MAX_DENSITY + 1) * b && b > 0
      ensures if n / b > ST_DEFAULT_MAX_DENSITY then n == 6 * b else n < 6 * b
    {
      var q := n / b;
      assert q * b <= n < (q + 1) * b;
      if q > 5 {
        Arith.MulMono(6, q, b);
      } else {
        Arith.MulMono(q + 1, 6, b);
      }
    }

    lemma DenotesMore(es: set<Entry<K, V>>, m: map<K, V>, e: Entry<K, V>)
      requires Denotes(es, m) && e.key !in m
      ensures Denotes(es + {e}, m[e.key := e.record]) && e !in es
      ensures forall f :: f in es ==> f.key != e.key
    {
    }

    /** `st_insert`. */
    method Insert(key: K, value: V) returns (existed: bool)
      requires Valid()
      modifies this, bins, entries
      ensures Valid() && contents == old(contents)[key := value]
      ensures existed <==> key in old(contents)
      ensures fresh(entries - old(entries)) && (bins == old(bins) || fresh(bins))
    {
      hide Placed, Holds, Linked;
      var h := hash(key, numBins);
      var ptr, j := FindEntry(key, h);
      if ptr == null {
        AddDirect(key, value, h);
        existed := false;
      } else {
        KeysUnique(hash, numBins, chains, entries);
        ptr.record := value;
        contents := contents[key := value];
        existed := true;
      }
    }

    /** Takes the entry at place `j` out of its bin; `last` is the one before it, if any. */
    method Unlink(h: nat, last: Entry?<K, V>, e: Entry<K, V>, ghost j: nat)
      requires Valid() && h < |chains| && j < |chains[h]| && chains[h][j] == e
      requires last == if j == 0 then null else chains[h][j - 1]
      modifies this`numEntries, this`chains, this`entries, this`contents, bins, entries`next
      ensures Valid() && contents == old(contents) - {e.key}
      ensures entries == old(entries) - {e}
      ensures chains == old(chains)[h := old(chains[h])[..j] + old(chains[h])[j + 1..]]
    {
      hide Placed, Holds, Linked, Denotes;
      UnlinkKeeps(h, j);
      UnlinkDenotes(h, j);
      ApartBins(h);
      UnlinkLinks(bins, h, last, e, chains, j);
      numEntries := numEntries - 1;
      entries := entries - {e};
      contents := contents - {e.key};
      chains := chains[h := chains[h][..j] + chains[h][j + 1..]];
    }

    lemma ApartBins(h: nat)
      requires Placed(hash, numBins, chains) && Holds(hash, numBins, chains, entries) && h < |chains|
      ensures forall i, k :: 0 <= i < |chains| && i != h && 0 <= k < |chains[i]| ==> chains[i][k] !in chains[h]
      ensures forall i, k :: 0 <= i < k < |chains[h]| ==> chains[h][i] != chains[h][k]
      ensures forall e :: e in chains[h] ==> e in entries
    {
    }

    lemma UnlinkDenotes(h: nat, j: nat)
      requires Placed(hash, numBins, chains) && Holds(hash, numBins, chains, entries) && Denotes(entries, contents)
      requires h < |chains| && j < |chains[h]|
      ensures chains[h][j] in entries && Denotes(entries - {chains[h][j]}, contents - {chains[h][j].key})
    {
      KeysUnique(hash, numBins, chains, entries);
    }

    lemma UnlinkKeeps(h: nat, j: nat)
      requires Placed(hash, numBins, chains) && Holds(hash, numBins, chains, entries)
      requires h < |chains| && j < |chains[h]|
      ensures var cs := chains[h := chains[h][..j] + chains[h][j + 1..]];
        Placed(hash, numBins, cs) && Holds(hash, numBins, cs, entries - {chains[h][j]})
    {
      hide ChainOk;
      PlacedParts(hash, numBins, chains);
      var c := chains[h][..j] + chains[h][j + 1..];
      var cs := chains[h := c];
      ShorterChain(hash, numBins, h, chains[h], j);
      forall i | 0 <= i < |cs|
        ensures ChainOk(hash, numBins, i, cs[i])
      {
      }
      PlacedParts(hash, numBins, cs);
      HoldsChange(hash, numBins, chains, entries, h, c, entries - {chains[h][j]});
    }

    static method UnlinkLinks(bins: array<Entry?<K, V>>, h: nat, last: Entry?<K, V>, e: Entry<K, V>,
        ghost cs: seq<seq<Entry<K, V>>>, ghost j: nat)
      requires h < bins.Length == |cs| && j < |cs[h]| && cs[h][j] == e
      requires last == if j == 0 then null else cs[h][j - 1]
      requires forall i, k :: 0 <= i < |cs| && i != h && 0 <= k < |cs[i]| ==> cs[i][k] !in cs[h]
      requires forall i, k :: 0 <= i < k < |cs[h]| ==> cs[h][i] != cs[h][k]
      requires forall i :: 0 <= i < |cs| ==> Linked(bins[i], cs[i])
      modifies bins, cs[h]`next
      ensures forall i :: 0 <= i < |cs| ==> Linked(bins[i], cs[h := cs[h][..j] + cs[h][j + 1..]][i])
    {
      ghost var c := cs[h];
      ghost var d := c[..j] + c[j + 1..];
      assert Linked(bins[h], c);
      if last == null {
        bins[h] := e.next;
      } else {
        last.next := e.next;
      }
      assert Linked(bins[h], d);
      forall i | 0 <= i < |cs| && i != h
        ensures Linked(bins[i], cs[i])
      {
        assert old(Linked(bins[i], cs[i]));
      }
    }

    /** `st_delete`: the value that the key had. */
    method Delete(key: K) returns (value: Option<V>)
      requires Valid()
      modifies this`numEntries, this`chains, this`entries, this`contents, bins, entries`next
      ensures Valid() && contents == old(contents) - {key}
      ensures forall e :: e in entries <==> e in old(entries) && e.key != key
      ensures value == if key in old(contents) then Some(old(contents[key])) else None
    {
      hide Placed, Holds, Linked, Denotes;
      var h := hash(key, numBins);
      HeadOf(h);
      var ptr := bins[h];
      if ptr == null {
        KeyMissing(key, h);
        return None;
      }
      if ptr.key == key {
        KeyFound(h, 0);
        value := Some(ptr.record);
        Unlink(h, null, ptr, 0);
        return;
      }
      ghost var j;
      assert Linked(bins[h], chains[h]);
      ptr, j := FindBefore(ptr, key, chains[h]);
      if ptr.next != null {
        KeyFound(h, j + 1);
        value := Some(ptr.next.record);
        Unlink(h, ptr, ptr.next, j + 1);
        return;
      }
      KeyMissing(key, h);
      value := None;
    }

    lemma KeyFound(h: nat, j: nat)
      requires Valid() && h < |chains| && j < |chains[h]|
      ensures chains[h][j] in entries && chains[h][j].key in contents
      ensures contents[chains[h][j].key] == chains[h][j].record
      ensures forall f :: f in entries && f.key == chains[h][j].key ==> f == chains[h][j]
    {
      hide Linked;
      KeysUnique(hash, numBins, chains, entries);
    }

    lemma KeyMissing(key: K, h: nat)
      requires Valid() && h == hash(key, numBins) && h < |chains| && forall e :: e in chains[h] ==> e.key != key
      ensures key !in contents && forall e :: e in entries ==> e.key != key
      ensures contents == contents - {key}
    {
      hide Linked, Placed;
    }

    lemma HeadOf(h: nat)
      requires Structure() && h < |chains|
      ensures bins[h] == At(chains[h], 0)
    {
    }

    /** The loop of `st_delete`: to the entry before the one with the key, or to the last. */
    static method FindBefore(head: Entry<K, V>, key: K, ghost c: seq<Entry<K, V>>) returns (ptr: Entry<K, V>, ghost j: nat)
      requires Linked(head, c) && head.key != key
      ensures j < |c| && ptr == c[j] && ptr.next == At(c, j + 1)
      ensures ptr.next != null ==> ptr.next.key == key
      ensures ptr.next == null ==> forall e :: e in c ==> e.key != key
    {
      ptr := head;
      j := 0;
      while ptr.next != null
        invariant j < |c| && ptr == c[j]
        invariant forall i :: 0 <= i <= j ==> c[i].key != key
        decreases |c| - j
      {
        if ptr.next.key == key { return; }
        ptr := ptr.next;
        j := j + 1;
      }
    }

    /** `st_copy`: a table of new entries with the same meaning, every bin in the opposite order. */
    method Copy() returns (t: Table<K, V>)
      requires Valid()
      ensures fresh(t) && fresh(t.bins) && fresh(t.entries) && t.Valid()
      ensures t.contents == contents && t.numBins == numBins && t.numEntries == numEntries && t.hash == hash
      ensures forall i :: 0 <= i < numBins ==> Mirrored(t.chains[i], chains[i])
    {
      hide Placed, Holds, Linked, Denotes, Mirrored;
      t := new Table.OfBins(hash, numBins);
      AllEmpty(t);
      ghost var b := t.bins;
      for i := 0 to numBins
        invariant t.Structure() && t.numBins == numBins && t.hash == hash && t.bins == b
        invariant fresh(t) && fresh(t.bins) && fresh(t.entries)
        invariant forall i' :: 0 <= i' < i ==> Mirrored(t.chains[i'], chains[i'])
        invariant forall i' :: i <= i' < numBins ==> t.chains[i'] == []
        modifies t, t.bins, t.entries
      {
        ChainPlaced(i);
        t.CopyList(i, bins[i], chains[i]);
      }
      CopyDenotes(t);
      CopyCounts(t);
      t.contents := contents;
    }

    lemma AllEmpty(t: Table<K, V>)
      requires t.Structure() && t.entries == {}
      ensures forall i :: 0 <= i < t.numBins ==> t.chains[i] == []
    {
    }

    lemma ChainPlaced(i: nat)
      requires Placed(hash, numBins, chains) && i < |chains|
      ensures forall j :: 0 <= j < |chains[i]| ==> hash(chains[i][j].key, numBins) == i
      ensures forall j, k :: 0 <= j < k < |chains[i]| ==> chains[i][j].key != chains[i][k].key
    {
    }

    /** Copies one list into the empty bin `i`. */
    method CopyList(i: nat, head: Entry?<K, V>, ghost c: seq<Entry<K, V>>)
      requires Structure() && i < numBins && chains[i] == [] && Linked(head, c)
      requires forall j :: 0 <= j < |c| ==> hash(c[j].key, numBins) == i
      requires forall j, k :: 0 <= j < k < |c| ==> c[j].key != c[k].key
      requires forall e :: e in c ==> e !in entries
      modifies this`numEntries, this`chains, this`entries, bins
      ensures Structure() && fresh(entries - old(entries))
      ensures |chains| == |old(chains)| && Mirrored(chains[i], c)
      ensures forall i' :: 0 <= i' < |chains| && i' != i ==> chains[i'] == old(chains[i'])
    {
      hide Placed, Holds, Structure, Linked, Mirrored;
      var ptr := head;
      ghost var j := 0;
      FirstOf(head, c);
      Sized();
      assert Mirrored(chains[i], c[..0]) by { MirrorNone(chains[i], c[..0]); }
      while ptr != null
        invariant 0 <= j <= |c| && ptr == At(c, j)
        invariant Structure() && fresh(entries - old(entries))
        invariant i < |chains| == |old(chains)| && Mirrored(chains[i], c[..j])
        invariant forall i' :: 0 <= i' < |chains| && i' != i ==> chains[i'] == old(chains[i'])
        invariant forall k :: 0 <= k < |c| ==> c[k].next == At(c, k + 1)
        decreases |c| - j
      {
        CopyEntry(i, ptr, c, j);
        ptr := ptr.next;
        j := j + 1;
      }
      assert c[..j] == c;
    }

    method CopyEntry(i: nat, ptr: Entry<K, V>, ghost c: seq<Entry<K, V>>, ghost j: nat)
      requires Structure() && i < |chains| && j < |c| && ptr == c[j] && Mirrored(chains[i], c[..j])
      requires hash(ptr.key, numBins) == i
      requires forall j, k :: 0 <= j < k < |c| ==> c[j].key != c[k].key
      modifies this`numEntries, this`chains, this`entries, bins
      ensures Structure() && fresh(entries - old(entries))
      ensures |chains| == |old(chains)| && Mirrored(chains[i], c[..j + 1])
      ensures forall i' :: 0 <= i' < |chains| && i' != i ==> chains[i'] == old(chains[i'])
    {
      hide Placed, Holds, Structure, Linked, Mirrored;
      Sized();
      var tbl := new Entry(ptr.key, ptr.record);
      NewKey(i, c, j);
      MirrorMore(chains[i], c, j, tbl);
      Push(tbl, i);
    }

    lemma FirstOf(head: Entry?<K, V>, c: seq<Entry<K, V>>)
      requires Linked(head, c)
      ensures head == At(c, 0) && forall k :: 0 <= k < |c| ==> c[k].next == At(c, k + 1)
    {
    }

    lemma MirrorNone(a: seq<Entry<K, V>>, c: seq<Entry<K, V>>)
      requires a == [] && c == []
      ensures Mirrored(a, c)
    {
    }

    lemma MirrorMore(a: seq<Entry<K, V>>, c: seq<Entry<K, V>>, j: nat, e: Entry<K, V>)
      requires j < |c| && Mirrored(a, c[..j]) && e.key == c[j].key && e.record == c[j].record
      ensures Mirrored([e] + a, c[..j + 1])
    {
    }

    /** A bin that so far mirrors a part of a list lacks the next key of that list. */
    lemma NewKey(i: nat, c: seq<Entry<K, V>>, j: nat)
      requires Structure() && i < numBins && j < |c| && Mirrored(chains[i], c[..j])
      requires hash(c[j].key, numBins) == i
      requires forall j, k :: 0 <= j < k < |c| ==> c[j].key != c[k].key
      ensures forall f :: f in entries ==> f.key != c[j].key
    {
      hide Placed, Linked, Mirrored;
      forall f | f in entries
        ensures f.key != c[j].key
      {
        if hash(f.key, numBins) == i {
          var h, k := Spot(f);
          MirrorKey(chains[i], c, j, k);
        }
      }
    }

    lemma MirrorKey(a: seq<Entry<K, V>>, c: seq<Entry<K, V>>, j: nat, k: nat)
      requires j <= |c| && Mirrored(a, c[..j]) && k < |a|
      ensures k < j && a[k].key == c[j - 1 - k].key
    {
    }

    lemma CopyDenotes(t: Table<K, V>)
      requires Valid() && t.Structure() && t.hash == hash && t.numBins == numBins
      requires forall i :: 0 <= i < numBins ==> Mirrored(t.chains[i], chains[i])
      ensures Denotes(t.entries, contents)
    {
      hide Placed, Linked, Mirrored;
      forall e | e in t.entries
        ensures e.key in contents && contents[e.key] == e.record
      {
        var h, j := t.Spot(e);
        MirroredBack(t.chains[h], chains[h]);
        var f := Twin(t.chains[h], chains[h], j);
        assert f in entries;
      }
      forall k | k in contents
        ensures exists e :: e in t.entries && e.key == k
      {
        var e :| e in entries && e.key == k;
        var h, j := Spot(e);
        MirroredBack(t.chains[h], chains[h]);
        var f := Twin(chains[h], t.chains[h], j);
        assert f in t.entries;
      }
    }

    lemma MirroredBack(a: seq<Entry<K, V>>, b: seq<Entry<K, V>>)
      requires Mirrored(a, b)
      ensures Mirrored(b, a)
    {
    }

    lemma Twin(a: seq<Entry<K, V>>, b: seq<Entry<K, V>>, j: nat) returns (f: Entry<K, V>)
      requires Mirrored(a, b) && j < |a|
      ensures f in b && f.key == a[j].key && f.record == a[j].record
    {
      f := b[|b| - 1 - j];
    }

    lemma CopyCounts(t: Table<K, V>)
      requires Valid() && t.Structure() && Denotes(t.entries, contents)
      ensures t.numEntries == numEntries
    {
      KeysUnique(t.hash, t.numBins, t.chains, t.entries);
      SizeIs(t.entries, contents);
      NumEntriesIsSize();
    }

    /** `st_foreach`, with a callback whose verdict depends on the number of the call, the key and the record. */
    method ForEach(f: (nat, K, V) -> Verdict) returns (calls: seq<(K, V)>, stopped: bool)
      requires Valid()
      modifies this`numEntries, this`chains, this`entries, this`contents, bins, entries`next
      ensures Valid()
      ensures CallsFit(f, calls, stopped, old(contents))
      ensures !stopped ==> forall k :: k in old(contents) ==> Called(calls, k)
      ensures contents == Survivors(f, calls, old(contents))
    {
      hide Structure, Placed, Holds, Linked, Denotes, CallsFit, Survivors, Called, Progress;
      calls, stopped := [], false;
      ghost var before := contents;
      ghost var es := entries;
      var i := 0;
      Begin(f);
      while i < numBins
        invariant 0 <= i <= numBins && Valid() && !stopped && entries <= es
        invariant Progress(f, before, calls, contents, entries, hash, numBins, chains, i, 0)
        decreases numBins - i
      {
        calls, stopped := ForBin(f, i, calls, before);
        if stopped { return; }
        i := i + 1;
      }
      Finish(f, before, calls);
    }

    /** The walk over one bin. */
    method ForBin(f: (nat, K, V) -> Verdict, i: nat, calls0: seq<(K, V)>, ghost before: map<K, V>)
      returns (calls: seq<(K, V)>, stopped: bool)
      requires Valid() && i < numBins && Progress(f, before, calls0, contents, entries, hash, numBins, chains, i, 0)
      modifies this`numEntries, this`chains, this`entries, this`contents, bins, entries`next
      ensures Valid() && entries <= old(entries)
      ensures !stopped ==> Progress(f, before, calls, contents, entries, hash, numBins, chains, i + 1, 0)
      ensures stopped ==> CallsFit(f, calls, true, before) && contents == Survivors(f, calls, before)
    {
      hide Structure, Placed, Holds, Linked, Denotes, CallsFit, Survivors, Called, Progress;
      calls, stopped := calls0, false;
      Sized();
      HeadOf(i);
      var last: Entry?<K, V> := null;
      var ptr := bins[i];
      ghost var j := 0;
      ghost var es := entries;
      while ptr != null
        invariant Valid() && i < numBins == |chains| && j <= |chains[i]| && entries <= es
        invariant ptr == At(chains[i], j) && last == if j == 0 then null else chains[i][j - 1]
        invariant Progress(f, before, calls, contents, entries, hash, numBins, chains, i, j)
        decreases |chains[i]| - j
      {
        NextOf(i, j);
        var call := (ptr.key, ptr.record);
        var verdict := f(|calls|, ptr.key, ptr.record);
        StepForward(f, before, calls, i, j);
        calls := calls + [call];
        match verdict
        case Continue =>
          last := ptr;
          ptr := ptr.next;
          j := j + 1;
        case Stop =>
          stopped := true;
          return;
        case Delete =>
          var tmp := ptr;
          ptr := ptr.next;
          Unlink(i, last, tmp, j);
      }
      BinDone(f, before, calls, i);
    }

    lemma NextOf(i: nat, j: nat)
      requires Structure() && i < |chains| && j < |chains[i]|
      ensures chains[i][j].next == At(chains[i], j + 1)
    {
      assert Linked(bins[i], chains[i]);
    }

    lemma Begin(f: (nat, K, V) -> Verdict)
      requires Valid()
      ensures Progress(f, contents, [], contents, entries, hash, numBins, chains, 0, 0)
    {
      assert Survivors(f, [], contents) == contents;
    }

    lemma BinDone(f: (nat, K, V) -> Verdict, before: map<K, V>, calls: seq<(K, V)>, i: nat)
      requires Valid() && i < numBins && Progress(f, before, calls, contents, entries, hash, numBins, chains, i, |chains[i]|)
      ensures Progress(f, before, calls, contents, entries, hash, numBins, chains, i + 1, 0)
    {
      hide Survivors, Denotes;
      assert chains[i][..|chains[i]|] == chains[i];
    }

    lemma Finish(f: (nat, K, V) -> Verdict, before: map<K, V>, calls: seq<(K, V)>)
      requires Valid() && Progress(f, before, calls, contents, entries, hash, numBins, chains, numBins, 0)
      ensures CallsFit(f, calls, false, before)
      ensures forall k :: k in before ==> Called(calls, k)
      ensures contents == Survivors(f, calls, before)
    {
      forall k | k in before
        ensures Called(calls, k)
      {
        if k in contents {
          var e :| e in entries && e.key == k;
        }
      }
    }

    /** What one call of the callback does to the walk, by its verdict. */
    lemma StepForward(f: (nat, K, V) -> Verdict, before: map<K, V>, calls: seq<(K, V)>, i: nat, j: nat)
      requires Valid() && i < numBins && j < |chains[i]|
      requires Progress(f, before, calls, contents, entries, hash, numBins, chains, i, j)
      ensures var e := chains[i][j]; var calls' := calls + [(e.key, e.record)];
        match f(|calls|, e.key, e.record)
        case Continue => Progress(f, before, calls', contents, entries, hash, numBins, chains, i, j + 1)
        case Stop => CallsFit(f, calls', true, before) && contents == Survivors(f, calls', before)
        case Delete =>
          Progress(f, before, calls', contents - {e.key}, entries - {e}, hash, numBins,
            chains[i := chains[i][..j] + chains[i][j + 1..]], i, j)
    {
      hide CallsFit, Called, Survivors, PlaceBefore, Denotes, Linked, Placed, Holds;
      var e := chains[i][j];
      StepKey(i, j);
      SurvivorsIn(f, calls, before);
      assert !Called(calls, e.key);
      CallsGrow(f, calls, before, e.key, e.record);
      PlaceStep(i, j);
    }

    /** The entry at the place reached is the only one of its key, and still to be visited. */
    lemma StepKey(i: nat, j: nat)
      requires Valid() && i < numBins && j < |chains[i]|
      ensures hash(chains[i][j].key, numBins) == i && numBins == |chains|
      ensures chains[i][j] in entries && !PlaceBefore(hash, numBins, chains, chains[i][j], i, j)
      ensures chains[i][j].key in contents && contents[chains[i][j].key] == chains[i][j].record
      ensures forall e :: e in entries ==> (e.key == chains[i][j].key <==> e == chains[i][j])
    {
      KeysUnique(hash, numBins, chains, entries);
    }

    lemma PlaceStep(i: nat, j: nat)
      requires i < |chains| && j < |chains[i]| && hash(chains[i][j].key, numBins) == i
      ensures forall e :: PlaceBefore(hash, numBins, chains, e, i, j + 1) <==>
        PlaceBefore(hash, numBins, chains, e, i, j) || e == chains[i][j]
      ensures forall e :: PlaceBefore(hash, numBins, chains[i := chains[i][..j] + chains[i][j + 1..]], e, i, j) <==>
        PlaceBefore(hash, numBins, chains, e, i, j)
    {
      hide PlaceBefore;
      var cs := chains[i := chains[i][..j] + chains[i][j + 1..]];
      forall e
        ensures PlaceBefore(hash, numBins, chains, e, i, j + 1) <==>
          PlaceBefore(hash, numBins, chains, e, i, j) || e == chains[i][j]
        ensures PlaceBefore(hash, numBins, cs, e, i, j) <==> PlaceBefore(hash, numBins, chains, e, i, j)
      {
        PlaceOf(i, j, e);
        PlaceWithout(i, j, e);
      }
    }

    lemma PlaceOf(i: nat, j: nat, e: Entry<K, V>)
      requires i < |chains| && j < |chains[i]| && hash(chains[i][j].key, numBins) == i
      ensures PlaceBefore(hash, numBins, chains, e, i, j + 1) <==>
        PlaceBefore(hash, numBins, chains, e, i, j) || e == chains[i][j]
    {
      var c := chains[i];
      assert c[..j + 1] == c[..j] + [c[j]];
      assert e in c[..j + 1] <==> e in c[..j] || e == c[j];
    }

    lemma PlaceWithout(i: nat, j: nat, e: Entry<K, V>)
      requires i < |chains| && j < |chains[i]|
      ensures PlaceBefore(hash, numBins, chains[i := chains[i][..j] + chains[i][j + 1..]], e, i, j) <==>
        PlaceBefore(hash, numBins, chains, e, i, j)
    {
      var c := chains[i];
      var cs := chains[i := c[..j] + c[j + 1..]];
      assert cs[i][..j] == c[..j];
    }
  }

  lemma SurvivorsIn<K, V>(f: (nat, K, V) -> Verdict, calls: seq<(K, V)>, before: map<K, V>)
    ensures forall k :: k in Survivors(f, calls, before) ==> k in before && before[k] == Survivors(f, calls, before)[k]
  {
  }

  /** One more call: what was called, what is left. */
  lemma CallsGrow<K, V>(f: (nat, K, V) -> Verdict, calls: seq<(K, V)>, before: map<K, V>, k: K, v: V)
    requires CallsFit(f, calls, false, before) && k in before && before[k] == v && !Called(calls, k)
    ensures CallsFit(f, calls + [(k, v)], f(|calls|, k, v) == Stop, before)
    ensures forall k' :: Called(calls + [(k, v)], k') <==> Called(calls, k') || k' == k
    ensures Survivors(f, calls + [(k, v)], before) ==
      if f(|calls|, k, v) == Delete then Survivors(f, calls, before) - {k} else Survivors(f, calls, before)
  {
    var calls' := calls + [(k, v)];
    forall k'
      ensures Called(calls', k') <==> Called(calls, k') || k' == k
      ensures Deleted(f, calls', k') <==> Deleted(f, calls, k') || (k' == k && f(|calls|, k, v) == Delete)
    {
      if Called(calls, k') {
        var i :| 0 <= i < |calls| && calls[i].0 == k';
        assert calls'[i].0 == k';
      }
      if Deleted(f, calls, k') {
        var i :| 0 <= i < |calls| && calls[i].0 == k' && f(i, calls[i].0, calls[i].1) == Delete;
        assert calls'[i] == calls[i];
      }
      assert calls'[|calls|] == (k, v);
    }
  }

  /** Two lists with the same keys and records, in opposite orders. */
  ghost predicate Mirrored<K, V>(a: seq<Entry<K, V>>, b: seq<Entry<K, V>>)
    reads a`record, b`record
  {
    && |a| == |b|
    && forall j :: 0 <= j < |a| ==> a[j].key == b[|b| - 1 - j].key && a[j].record == b[|b| - 1 - j].record
  }

  ghost predicate Called<K, V>(calls: seq<(K, V)>, k: K) {
    exists i :: 0 <= i < |calls| && calls[i].0 == k
  }

  /** The calls are of different keys with their records, and only the last may have stopped the walk. */
  ghost predicate CallsFit<K, V>(f: (nat, K, V) -> Verdict, calls: seq<(K, V)>, stopped: bool, before: map<K, V>) {
    && (forall i :: 0 <= i < |calls| ==> calls[i].0 in before && before[calls[i].0] == calls[i].1)
    && (forall i, j :: 0 <= i < j < |calls| ==> calls[i].0 != calls[j].0)
    && (forall i :: 0 <= i < |calls| ==>
          (f(i, calls[i].0, calls[i].1) == Stop <==> stopped && i == |calls| - 1))
    && (stopped ==> calls != [])
  }

  ghost predicate Deleted<K, V>(f: (nat, K, V) -> Verdict, calls: seq<(K, V)>, k: K) {
    exists i :: 0 <= i < |calls| && calls[i].0 == k && f(i, calls[i].0, calls[i].1) == Delete
  }

  /** What is left of a map after the calls. */
  ghost function Survivors<K, V>(f: (nat, K, V) -> Verdict, calls: seq<(K, V)>, before: map<K, V>): map<K, V> {
    map k | k in before && !Deleted(f, calls, k) :: before[k]
  }

  /** The walk has come to place `j` of bin `i`. */
  ghost predicate Progress<K, V>(f: (nat, K, V) -> Verdict, before: map<K, V>, calls: seq<(K, V)>, m: map<K, V>,
    entries: set<Entry<K, V>>, hash: (K, nat) -> nat, n: nat, cs: seq<seq<Entry<K, V>>>, i: nat, j: nat)
  {
    && CallsFit(f, calls, false, before) && m == Survivors(f, calls, before)
    && (i < |cs| ==> j <= |cs[i]|)
    && (forall e :: e in entries ==> (Called(calls, e.key) <==> PlaceBefore(hash, n, cs, e, i, j)))
    && (forall k :: k in before ==> Called(calls, k) || k in m)
  }

  ghost predicate PlaceBefore<K, V>(hash: (K, nat) -> nat, n: nat, cs: seq<seq<Entry<K, V>>>, e: Entry<K, V>, i: nat, j: nat) {
    var h := hash(e.key, n);
    h < i || (h == i && i < |cs| && j <= |cs[i]| && e in cs[i][..j])
  }

  const INT_MIN := -0x8000_0000
  const INT_MAX := 0x7FFF_FFFF

  /** The remainder of C, which has the sign of the dividend. */
  function Rem(n: int, m: int): int
    requires m > 0
  {
    if n >= 0 then n % m else -(-n % m)
  }

  /** The 32-bit value of an `int` expression. */
  function ToInt(x: int): int {
    (x + 0x8000_0000) % 0x1_0000_0000 - 0x8000_0000
  }

  /** `numhash`. */
  function NumHash(n: int, modulus: int): int
    requires modulus > 0
  {
    Rem(n, modulus)
  }

  /** A character of a string: `char` is signed. */
  type Char = c: int | -128 <= c < 128

  /** The sum over a string, which wraps around at every turn. */
  function StrSum(s: seq<Char>): (val: int)
    ensures INT_MIN <= val <= INT_MAX
  {
    if s == [] then 0 else ToInt(StrSum(s[..|s| - 1]) * 997 + s[|s| - 1])
  }

  /** The string as the digits of a number. */
  function Polynomial(s: seq<Char>): int {
    if s == [] then 0 else Polynomial(s[..|s| - 1]) * 997 + s[|s| - 1]
  }

  /** Wrapping around at every turn comes to wrapping around once. */
  lemma {:induction false} StrSumIs(s: seq<Char>)
    ensures StrSum(s) == ToInt(Polynomial(s))
  {
    if s != [] {
      var t, c := s[..|s| - 1], s[|s| - 1];
      StrSumIs(t);
      WrapsLate(Polynomial(t), c);
    }
  }

  lemma WrapsLate(x: int, c: int)
    ensures ToInt(ToInt(x) * 997 + c) == ToInt(x * 997 + c)
  {
    ToIntMultiple(x);
    var k := (x - ToInt(x)) / 0x1_0000_0000;
    assert x * 997 + c == ToInt(x) * 997 + c + (997 * k) * 0x1_0000_0000;
    ToIntSame(ToInt(x) * 997 + c, 997 * k);
  }

  lemma ToIntMultiple(x: int)
    ensures x == ToInt(x) + (x - ToInt(x)) / 0x1_0000_0000 * 0x1_0000_0000
  {
  }

  lemma ToIntSame(x: int, k: int)
    ensures ToInt(x + k * 0x1_0000_0000) == ToInt(x)
  {
  }

  /** The end of `strhash`: from the sum over the characters to a bin. */
  function StrBin(val: int, modulus: int): int
    requires modulus > 0
  {
    Rem(if val < 0 then ToInt(-val) else val, modulus)
  }

  /** `strhash`, on a string without its NUL. */
  method StrHash(s: seq<Char>, modulus: int) returns (h: int)
    requires modulus > 0
    ensures h == StrBin(ToInt(Polynomial(s)), modulus)
  {
    var val, i := 0, 0;
    while i < |s|
      invariant 0 <= i <= |s| && val == StrSum(s[..i])
    {
      assert s[..i + 1][..i] == s[..i];
      val := ToInt(val * 997 + s[i]);
      i := i + 1;
    }
    assert s[..i] == s;
    StrSumIs(s);
    h := StrBin(val, modulus);
  }

  /** A number has a bin exactly when it is not negative, or is a multiple of the number of bins. */
  lemma NumHashInRangeIff(n: int, m: int)
    requires m > 0
    ensures 0 <= NumHash(n, m) < m <==> n >= 0 || -n % m == 0
  {
  }

  /** The key -1 has no bin among 11. */
  lemma NumHashFails()
    ensures NumHash(-1, 11) == -1
  {
    assert 1 % 11 == 1;
  }

  /** A string has a bin exactly when its sum is not the least `int`, or the number of bins divides that. */
  lemma StrBinInRangeIff(s: seq<Char>, m: int)
    requires m > 0
    ensures 0 <= StrBin(StrSum(s), m) < m <==> StrSum(s) != INT_MIN || -INT_MIN % m == 0
  {
    var val := StrSum(s);
    assert val != INT_MIN ==> ToInt(-val) == -val;
    assert ToInt(-INT_MIN) == INT_MIN;
  }

  /** `@7+!<u` */
  const UNLUCKY: seq<Char> := [64, 55, 43, 33, 60, 117]

  lemma SumMore(s: seq<Char>, c: Char)
    ensures StrSum(s + [c]) == ToInt(StrSum(s) * 997 + c)
  {
    assert (s + [c])[..|s|] == s;
  }

  lemma UnluckySum()
    ensures StrSum(UNLUCKY) == INT_MIN
  {
    hide StrSum;
    assert StrSum([]) == 0 by { SumOfNone(); }
    SumMore([], 64);
    assert [] + [64] == [64] && StrSum([64]) == 64;
    SumMore([64], 55);
    assert [64] + [55] == [64, 55] && StrSum([64, 55]) == 63863;
    SumMore([64, 55], 43);
    assert [64, 55] + [43] == [64, 55, 43] && StrSum([64, 55, 43]) == 63671454;
    SumMore([64, 55, 43], 33);
    assert [64, 55, 43] + [33] == [64, 55, 43, 33] && StrSum([64, 55, 43, 33]) == -944069769;
    SumMore([64, 55, 43, 33], 60);
    assert [64, 55, 43, 33] + [60] == [64, 55, 43, 33, 60] && StrSum([64, 55, 43, 33, 60]) == -639721809;
    SumMore([64, 55, 43, 33, 60], 117);
    assert [64, 55, 43, 33, 60] + [117] == [64, 55, 43, 33, 60, 117] && StrSum([64, 55, 43, 33, 60, 117]) == -2147483648;
  }

  lemma SumOfNone()
    ensures StrSum([]) == 0
  {
  }

  /** Its sum is the least `int`, which is its own negative, and it has no bin among 11. */
  method StrBinFails() returns (h: int)
    ensures StrSum(UNLUCKY) == INT_MIN && h == StrBin(StrSum(UNLUCKY), 11) == -2
  {
    hide StrSum, Polynomial;
    UnluckySum();
    StrSumIs(UNLUCKY);
    h := StrHash(UNLUCKY, 11);
    assert ToInt(-INT_MIN) == INT_MIN;
    assert -INT_MIN == 195225786 * 11 + 2;
  }
}
