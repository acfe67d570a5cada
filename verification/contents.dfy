/** The counting view of a B-tree: in a tree that keeps the invariant no
    key is held twice, so the tree stands for a map from key to frequency,
    and `insert` of a found key (`BTree.java:352-356`) raises one count. */
module Contents {
  import opened Base
  import opened Nodes
  import opened Engine
  import opened Shapes
  import opened Splitting

  /** In ascending keys, the bounds of an earlier child slot end where the
      bounds of a later one begin. */
  lemma SlotsOrdered(keys: seq<Entry>, lo: int, hi: int)
    requires Ascending(keys)
    ensures forall a, b :: 0 <= a < b <= |keys| ==> Hi(keys, hi, a) <= Lo(keys, lo, b)
  {
    forall a, b | 0 <= a < b <= |keys|
      ensures Hi(keys, hi, a) <= Lo(keys, lo, b)
    {
      if a < b - 1 {
        AscendingAt(keys, a, b - 1);
      }
    }
  }

  /** A key lies within the bounds of one child slot only. */
  lemma SlotOfKey(keys: seq<Entry>, lo: int, hi: int, j1: int, j2: int, k: int)
    requires Ascending(keys) && 0 <= j1 <= |keys| && 0 <= j2 <= |keys|
    requires Lo(keys, lo, j1) < k < Hi(keys, hi, j1) && Lo(keys, lo, j2) < k < Hi(keys, hi, j2)
    ensures j1 == j2
  {
    SlotsOrdered(keys, lo, hi);
  }

  /** A B-tree holds every key in one entry only. */
  lemma {:induction false} EntryOfKey(T: Shape, t: int, h: int, lo: int, hi: int, isRoot: bool, e1: Entry, e2: Entry)
    requires BInv(T, t, h, lo, hi, isRoot) && e1 in Entries(T) && e2 in Entries(T) && e1.key == e2.key
    ensures e1 == e2
    decreases T
  {
    var j1 := EntryWhere(T, e1);
    var j2 := EntryWhere(T, e2);
    if j1 == -1 {
      var k :| 0 <= k < |T.keys| && T.keys[k] == e1;
      KeyOfNodeUnique(T, t, h, lo, hi, isRoot, k, e2);
    } else if j2 == -1 {
      var k :| 0 <= k < |T.keys| && T.keys[k] == e2;
      KeyOfNodeUnique(T, t, h, lo, hi, isRoot, k, e1);
    } else {
      KidBounds(T, t, h, lo, hi, isRoot, j1);
      KidBounds(T, t, h, lo, hi, isRoot, j2);
      EntryBound(T.kids[j1], t, h - 1, Lo(T.keys, lo, j1), Hi(T.keys, hi, j1), false, e1);
      EntryBound(T.kids[j2], t, h - 1, Lo(T.keys, lo, j2), Hi(T.keys, hi, j2), false, e2);
      SlotOfKey(T.keys, lo, hi, j1, j2, e1.key);
      EntryOfKey(T.kids[j1], t, h - 1, Lo(T.keys, lo, j1), Hi(T.keys, hi, j1), false, e1, e2);
    }
  }

  /** The frequency of a key of the tree: that of an entry holding it
      (there is only one in a B-tree, by `EntryOfKey`). */
  ghost function FreqOf(T: Shape, k: int): Int32
    requires k in KeySet(T)
  {
    var e :| e in Entries(T) && e.key == k; e.freq
  }

  /** The tree as a count map: each key it holds, with its frequency. */
  ghost function Counts(T: Shape): (m: map<int, Int32>)
    ensures m.Keys == KeySet(T)
  {
    map k | k in KeySet(T) :: FreqOf(T, k)
  }

  /** The count map after one more occurrence of `k`: a new key counts
      once, a known one goes up by one, wrapping as a Java `int` does. */
  function Counted(m: map<int, Int32>, k: int): (r: map<int, Int32>)
    ensures r.Keys == m.Keys + {k}
    ensures k !in m ==> r[k] == 1
    ensures k in m && m[k] < MaxInt32 ==> r[k] == m[k] + 1
    ensures forall j :: j in m && j != k ==> r[j] == m[j]
  {
    if k in m then m[k := IncFreq(m[k])] else m[k := 1]
  }

  /** In a B-tree, the count of an entry's key is that entry's frequency. */
  lemma CountOf(T: Shape, t: int, h: int, lo: int, hi: int, isRoot: bool, e: Entry)
    requires BInv(T, t, h, lo, hi, isRoot) && e in Entries(T)
    ensures e.key in Counts(T) && Counts(T)[e.key] == e.freq
  {
    var e' :| e' in Entries(T) && e'.key == e.key && FreqOf(T, e.key) == e'.freq;
    EntryOfKey(T, t, h, lo, hi, isRoot, e, e');
  }

  /** Two B-trees whose entries agree hold the same counts. */
  lemma CountsOfEntries(T: Shape, t: int, h: int, lo: int, hi: int, isRoot: bool,
                        T': Shape, h': int, lo': int, hi': int, isRoot': bool)
    requires BInv(T, t, h, lo, hi, isRoot) && BInv(T', t, h', lo', hi', isRoot')
    requires Entries(T) == Entries(T')
    ensures Counts(T) == Counts(T')
  {
    forall k | k in KeySet(T)
      ensures Counts(T)[k] == Counts(T')[k]
    {
      var e :| e in Entries(T) && e.key == k;
      CountOf(T, t, h, lo, hi, isRoot, e);
      CountOf(T', t, h', lo', hi', isRoot', e);
    }
  }

  /** The keys of a tree that gained one entry. */
  lemma KeySetAdd(T: Shape, T': Shape, e: Entry)
    requires Entries(T') == Entries(T) + {e}
    ensures KeySet(T') == KeySet(T) + {e.key}
  {
    forall k | k in KeySet(T) + {e.key}
      ensures k in KeySet(T')
    {
      if k != e.key {
        var e' :| e' in Entries(T) && e'.key == k;
        assert e' in Entries(T');
      }
    }
  }

  /** A B-tree that gained the entry `(k, 1)` for a key it did not hold
      counts `k` once, and every other key as before. */
  lemma CountsAdd(T: Shape, t: int, h: int, lo: int, hi: int, isRoot: bool,
                  T': Shape, h': int, lo': int, hi': int, isRoot': bool, k: Int64)
    requires BInv(T, t, h, lo, hi, isRoot) && BInv(T', t, h', lo', hi', isRoot')
    requires k !in KeySet(T) && Entries(T') == Entries(T) + {Entry(k, 1)}
    ensures Counts(T') == Counts(T)[k := 1]
  {
    KeySetAdd(T, T', Entry(k, 1));
    forall j | j in Counts(T')
      ensures Counts(T')[j] == Counts(T)[k := 1][j]
    {
      if j == k {
        CountOf(T', t, h', lo', hi', isRoot', Entry(k, 1));
      } else {
        var e :| e in Entries(T) && e.key == j;
        CountOf(T, t, h, lo, hi, isRoot, e);
        CountOf(T', t, h', lo', hi', isRoot', e);
      }
    }
    assert Counts(T').Keys == Counts(T)[k := 1].Keys;
  }

  /** The keys of a node with the frequency of key `i` raised, when the
      node is the one the search found (`here`). */
  function BumpKeys(keys: seq<Entry>, here: bool, i: nat): (r: seq<Entry>)
    ensures |r| == |keys|
    ensures forall j :: 0 <= j < |keys| ==> r[j].key == keys[j].key
    ensures forall j :: 0 <= j < |keys| && (j != i || !here) ==> r[j] == keys[j]
  {
    if here && i < |keys| then keys[i := Bump(keys[i])] else keys
  }

  /** The tree after `insert` raised the frequency of key `i` of the node
      at address `a`. */
  ghost function BumpAt(T: Shape, a: int, i: nat): (r: Shape)
    decreases T
  {
    Shape(T.addr, BumpKeys(T.keys, T.addr == a, i),
          seq(|T.kids|, j requires 0 <= j < |T.kids| => BumpAt(T.kids[j], a, i)))
  }

  /** The arena after that write: the found record with its key `i` bumped. */
  function BumpStore(s: Store, a: int, i: nat): (r: Store)
    requires a in s
    ensures r.Keys == s.Keys
    ensures r[a].keys == BumpKeys(s[a].keys, true, i)
    ensures forall b :: b in s && b != a ==> r[b] == s[b]
  {
    s[a := s[a].(keys := BumpKeys(s[a].keys, true, i))]
  }

  /** Raising a frequency keeps the tree's shape: same addresses, same
      kids, same keys. */
  lemma {:induction false} BumpAddrs(T: Shape, a: int, i: nat)
    ensures Addrs(BumpAt(T, a, i)) == Addrs(T)
    ensures KidsAddrs(BumpAt(T, a, i).kids) == KidsAddrs(T.kids)
    ensures Distinct(T) ==> Distinct(BumpAt(T, a, i))
    decreases T
  {
    var T' := BumpAt(T, a, i);
    forall j | 0 <= j < |T.kids|
      ensures Addrs(T'.kids[j]) == Addrs(T.kids[j])
      ensures Distinct(T.kids[j]) ==> Distinct(T'.kids[j])
    {
      BumpAddrs(T.kids[j], a, i);
    }
    forall b | b in KidsAddrs(T'.kids)
      ensures b in KidsAddrs(T.kids)
    {
      var q :| 0 <= q < |T'.kids| && b in Addrs(T'.kids[q]);
      InKidsAddr(T.kids, q, b);
    }
    forall b | b in KidsAddrs(T.kids)
      ensures b in KidsAddrs(T'.kids)
    {
      var q :| 0 <= q < |T.kids| && b in Addrs(T.kids[q]);
      InKidsAddr(T'.kids, q, b);
    }
  }

  /** Raising a frequency keeps the B-tree invariant: it only looks at keys. */
  lemma {:induction false} BumpInv(T: Shape, t: int, h: int, lo: int, hi: int, isRoot: bool, a: int, i: nat)
    requires BInv(T, t, h, lo, hi, isRoot)
    ensures BInv(BumpAt(T, a, i), t, h, lo, hi, isRoot)
    decreases T
  {
    var T' := BumpAt(T, a, i);
    forall x, y | 0 <= x < y < |T'.keys|
      ensures Below(T'.keys, x, y)
    {
      AscendingAt(T.keys, x, y);
    }
    forall j | 0 <= j < |T.kids|
      ensures BInv(T'.kids[j], t, h - 1, Lo(T'.keys, lo, j), Hi(T'.keys, hi, j), false)
    {
      KidBounds(T, t, h, lo, hi, isRoot, j);
      BumpInv(T.kids[j], t, h - 1, Lo(T.keys, lo, j), Hi(T.keys, hi, j), false, a, i);
    }
  }

  /** The arena after the write lays out the bumped tree. */
  lemma {:induction false} BumpLayout(s: Store, t: int, T: Shape, isRoot: bool, a: int, i: nat)
    requires Layout(s, t, T, isRoot) && a in s
    ensures Layout(BumpStore(s, a, i), t, BumpAt(T, a, i), isRoot)
    decreases T
  {
    var T' := BumpAt(T, a, i);
    var s' := BumpStore(s, a, i);
    forall j | 0 <= j < |T.kids|
      ensures Layout(s', t, T'.kids[j], false)
    {
      BumpLayout(s, t, T.kids[j], false, a, i);
    }
    forall j | 0 <= j < |T.kids|
      ensures T'.kids[j].addr == T.kids[j].addr
    {
      assert T'.kids[j] == BumpAt(T.kids[j], a, i);
    }
    assert NodeMatches(s'[T.addr], t, T', isRoot);
  }

  /** The write changes no entry whose key is not the bumped one. */
  lemma {:induction false} BumpOthers(s: Store, t: int, T: Shape, isRoot: bool, a: int, i: nat, e: Entry)
    requires Layout(s, t, T, isRoot) && a in s && i < |s[a].keys| && e.key != s[a].keys[i].key
    ensures e in Entries(BumpAt(T, a, i)) <==> e in Entries(T)
    decreases T
  {
    var T' := BumpAt(T, a, i);
    assert e in T'.keys <==> e in T.keys by {
      if T.addr == a {
        assert T.keys == s[a].keys;
      }
    }
    forall j | 0 <= j < |T.kids|
      ensures e in Entries(T'.kids[j]) <==> e in Entries(T.kids[j])
    {
      BumpOthers(s, t, T.kids[j], false, a, i, e);
    }
    InKidsEntries(T.kids, e);
    InKidsEntries(T'.kids, e);
  }

  /** The bumped entry is in the bumped tree, when the found node is in it. */
  lemma {:induction false} BumpFound(s: Store, t: int, T: Shape, isRoot: bool, a: int, i: nat)
    requires Layout(s, t, T, isRoot) && a in Addrs(T) && a in s && i < |s[a].keys|
    ensures s[a].keys[i] in Entries(T)
    ensures Bump(s[a].keys[i]) in Entries(BumpAt(T, a, i))
    decreases T
  {
    var T' := BumpAt(T, a, i);
    if T.addr == a {
      assert T.keys[i] == s[a].keys[i] && T'.keys[i] == Bump(s[a].keys[i]);
    } else {
      InKidsAddrs(T.kids, a);
      var j :| 0 <= j < |T.kids| && a in Addrs(T.kids[j]);
      BumpFound(s, t, T.kids[j], false, a, i);
      InKids(T.kids, j, s[a].keys[i]);
      InKids(T'.kids, j, Bump(s[a].keys[i]));
    }
  }

  /** Raising the frequency of a found entry raises its key's count and
      leaves every other count, and the set of keys, as they were. */
  lemma CountsBump(s: Store, t: int, T: Shape, h: int, lo: int, hi: int, isRoot: bool, a: int, i: nat)
    requires Layout(s, t, T, isRoot) && BInv(T, t, h, lo, hi, isRoot)
    requires a in Addrs(T) && a in s && i < |s[a].keys|
    ensures var k := s[a].keys[i].key;
      && k in Counts(T)
      && Counts(BumpAt(T, a, i)) == Counts(T)[k := IncFreq(Counts(T)[k])]
  {
    var e := s[a].keys[i];
    var T' := BumpAt(T, a, i);
    BumpFound(s, t, T, isRoot, a, i);
    BumpInv(T, t, h, lo, hi, isRoot, a, i);
    CountOf(T, t, h, lo, hi, isRoot, e);
    CountOf(T', t, h, lo, hi, isRoot, Bump(e));
    BumpOthersSame(s, t, T, h, lo, hi, isRoot, a, i);
    MapUpdate(Counts(T), Counts(T'), e.key, Bump(e).freq);
  }

  /** A map that differs from `m` at `k` only, where it holds `v`, is `m`
      updated at `k`. */
  lemma MapUpdate(m: map<int, int>, m': map<int, int>, k: int, v: int)
    requires k in m && k in m' && m'[k] == v
    requires forall j :: j != k ==> (j in m <==> j in m')
    requires forall j :: j != k && j in m ==> m'[j] == m[j]
    ensures m' == m[k := v]
  {
    forall j
      ensures j in m'.Keys <==> j in m[k := v].Keys
    {
      if j != k {
        assert j in m' <==> j in m;
      }
    }
    assert m'.Keys == m[k := v].Keys;
    forall j | j in m'
      ensures m'[j] == m[k := v][j]
    {
      if j != k {
        assert j in m;
      }
    }
  }

  /** The keys other than the bumped one keep their counts. */
  lemma BumpOthersSame(s: Store, t: int, T: Shape, h: int, lo: int, hi: int, isRoot: bool, a: int, i: nat)
    requires Layout(s, t, T, isRoot) && BInv(T, t, h, lo, hi, isRoot)
    requires a in s && i < |s[a].keys|
    ensures var T', k := BumpAt(T, a, i), s[a].keys[i].key;
      && (forall j :: j != k ==> (j in Counts(T) <==> j in Counts(T')))
      && (forall j :: j != k && j in Counts(T) ==> Counts(T')[j] == Counts(T)[j])
  {
    var T', k := BumpAt(T, a, i), s[a].keys[i].key;
    forall j | j != k && (j in KeySet(T) || j in KeySet(T'))
      ensures j in KeySet(T) && j in KeySet(T') && Counts(T')[j] == Counts(T)[j]
    {
      BumpOthersAt(s, t, T, h, lo, hi, isRoot, a, i, j);
    }
  }

  /** A key other than the bumped one is held, with the same count, by the
      tree before and after the write. */
  lemma BumpOthersAt(s: Store, t: int, T: Shape, h: int, lo: int, hi: int, isRoot: bool, a: int, i: nat, k: int)
    requires Layout(s, t, T, isRoot) && BInv(T, t, h, lo, hi, isRoot)
    requires a in s && i < |s[a].keys| && k != s[a].keys[i].key
    requires k in KeySet(T) || k in KeySet(BumpAt(T, a, i))
    ensures k in KeySet(T) && k in KeySet(BumpAt(T, a, i))
    ensures Counts(BumpAt(T, a, i))[k] == Counts(T)[k]
  {
    var T' := BumpAt(T, a, i);
    BumpInv(T, t, h, lo, hi, isRoot, a, i);
    var e :| (e in Entries(T) || e in Entries(T')) && e.key == k;
    BumpOthers(s, t, T, isRoot, a, i, e);
    CountOf(T, t, h, lo, hi, isRoot, e);
    CountOf(T', t, h, lo, hi, isRoot, e);
  }
}
