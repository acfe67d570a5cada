/** The ghost view of a tree held in the arena: a `Shape` names the address
    of every node and its keys, `Layout` says the arena holds exactly that
    tree, and `BInv` is the B-tree invariant (key counts, key order, key
    ranges, all leaves at one depth). `check_valid_r` (`BTree.java:603-666`)
    looks for violations of parts of it with tests that are not all written
    as meant; the `Validator` module models those tests as written and
    relates them to `BInv`. */
module Shapes {
  import opened Base
  import opened Nodes
  import opened Engine

  datatype Shape = Shape(addr: int, keys: seq<Entry>, kids: seq<Shape>)

  /** The bounds no Java `long` reaches, for the keys of a whole tree. */
  const Bottom: int := MinInt64 - 1
  const Top: int := MaxInt64 + 1

  /** Lower and upper bound for the keys under child slot `j`. */
  function Lo(keys: seq<Entry>, lo: int, j: int): int
  {
    if 0 < j <= |keys| then keys[j - 1].key else lo
  }

  function Hi(keys: seq<Entry>, hi: int, j: int): int
  {
    if 0 <= j < |keys| then keys[j].key else hi
  }

  /** Key `a` of `keys` is below key `b`. */
  predicate Below(keys: seq<Entry>, a: int, b: int)
    requires 0 <= a < |keys| && 0 <= b < |keys|
  {
    keys[a].key < keys[b].key
  }

  /** Keys strictly ascending. */
  predicate Ascending(keys: seq<Entry>)
  {
    forall a, b :: 0 <= a < b < |keys| ==> Below(keys, a, b)
  }

  /** In ascending keys an earlier key is below a later one. */
  lemma AscendingAt(keys: seq<Entry>, a: int, b: int)
    requires Ascending(keys) && 0 <= a < b < |keys|
    ensures keys[a].key < keys[b].key
  {
    assert Below(keys, a, b);
  }

  /** A slice of ascending keys is ascending. */
  lemma AscendingSlice(keys: seq<Entry>, i: int, j: int)
    requires Ascending(keys) && 0 <= i <= j <= |keys|
    ensures Ascending(keys[i..j])
  {
    forall a, b | 0 <= a < b < j - i
      ensures Below(keys[i..j], a, b)
    {
      assert Below(keys, i + a, i + b);
    }
  }

  /** The entries stored anywhere in a tree. */
  ghost function Entries(T: Shape): set<Entry>
    decreases T
  {
    (set e | e in T.keys) + KidsEntries(T.kids)
  }

  ghost function KidsEntries(ks: seq<Shape>): set<Entry>
    decreases ks
  {
    set j, e | 0 <= j < |ks| && e in Entries(ks[j]) :: e
  }

  /** The keys stored anywhere in a tree. */
  ghost function KeySet(T: Shape): set<int>
  {
    set e | e in Entries(T) :: e.key
  }

  /** The node addresses of a tree. */
  ghost function Addrs(T: Shape): set<int>
    decreases T
  {
    {T.addr} + KidsAddrs(T.kids)
  }

  ghost function KidsAddrs(ks: seq<Shape>): set<int>
    decreases ks
  {
    set j, a | 0 <= j < |ks| && a in Addrs(ks[j]) :: a
  }

  /** The height `check_height_r` measures: 1 for a leaf. */
  ghost function Height(T: Shape): int
    decreases T
  {
    if T.kids == [] then 1 else 1 + Height(T.kids[0])
  }

  /** No address is used twice in a tree. */
  ghost predicate Distinct(T: Shape)
    decreases T
  {
    && T.addr !in KidsAddrs(T.kids)
    && (forall a, b :: 0 <= a < b < |T.kids| ==> Addrs(T.kids[a]) !! Addrs(T.kids[b]))
    && forall j :: 0 <= j < |T.kids| ==> Distinct(T.kids[j])
  }

  /** The record `x` is the node `T` describes: same keys, its first
      `|T.kids|` child slots hold the kids' addresses and the rest `-1`,
      and it is a leaf exactly when it has no kids. */
  ghost predicate NodeMatches(x: Node, t: int, T: Shape, isRoot: bool)
  {
    && WellFormed(t, x)
    && x.isRoot == isRoot
    && x.keys == T.keys
    && x.leaf == (|T.kids| == 0)
    && |T.kids| <= 2 * t
    && (forall j :: 0 <= j < |T.kids| ==> x.children[j] == T.kids[j].addr)
    && (forall j :: |T.kids| <= j < 2 * t ==> x.children[j] == NoChild)
  }

  /** The arena holds the tree `T`, the root flag set on its top node only. */
  ghost predicate Layout(s: Store, t: int, T: Shape, isRoot: bool)
    decreases T
  {
    && T.addr in s
    && NodeMatches(s[T.addr], t, T, isRoot)
    && forall j :: 0 <= j < |T.kids| ==> Layout(s, t, T.kids[j], false)
  }

  /** The B-tree invariant of a subtree of height `h` whose keys lie
      strictly between `lo` and `hi`: at most `2t-1` keys, at least `t-1`
      below the root, keys strictly ascending, every internal node with
      one more kid than keys, at least one key, and all leaves at the
      same depth. */
  ghost predicate BInv(T: Shape, t: int, h: int, lo: int, hi: int, isRoot: bool)
    decreases T
  {
    && h >= 1
    && |T.keys| <= 2 * t - 1
    && (!isRoot ==> t - 1 <= |T.keys|)
    && Ascending(T.keys)
    && (forall j :: 0 <= j < |T.keys| ==> lo < T.keys[j].key < hi)
    && (h == 1 <==> |T.kids| == 0)
    && (h > 1 ==> 1 <= |T.keys| && |T.kids| == |T.keys| + 1)
    && forall j :: 0 <= j < |T.kids| ==>
         BInv(T.kids[j], t, h - 1, Lo(T.keys, lo, j), Hi(T.keys, hi, j), false)
  }

  /** A valid tree: the arena lays out the shape `T` from the root, `T`
      keeps the B-tree invariant, no node is shared, and `num_nodes`
      counts the keys. */
  ghost predicate Valid(tr: BTree, T: Shape)
  {
    && Wf(tr)
    && Allocated(tr)
    && T.addr == tr.root
    && Layout(tr.store, tr.t, T, true)
    && BInv(T, tr.t, Height(T), Bottom, Top, true)
    && Distinct(T)
    && tr.numKeys == |KeySet(T)|
  }

  /** A valid tree's root is stored: search can start from it. */
  lemma ValidRooted(tr: BTree, T: Shape)
    requires Valid(tr, T)
    ensures Rooted(tr)
  {
  }

  lemma InKidsAddrs(ks: seq<Shape>, a: int)
    ensures a in KidsAddrs(ks) <==> exists j :: 0 <= j < |ks| && a in Addrs(ks[j])
  {
  }

  lemma InKidsEntries(ks: seq<Shape>, e: Entry)
    ensures e in KidsEntries(ks) <==> exists j :: 0 <= j < |ks| && e in Entries(ks[j])
  {
  }

  /** The addresses and the entries of a list of kids, kid by kid. */
  lemma KidsOfConcat(a: seq<Shape>, b: seq<Shape>)
    ensures KidsAddrs(a + b) == KidsAddrs(a) + KidsAddrs(b)
    ensures KidsEntries(a + b) == KidsEntries(a) + KidsEntries(b)
  {
    forall j | 0 <= j < |a|
      ensures (a + b)[j] == a[j]
    {
    }
    forall j | 0 <= j < |b|
      ensures (a + b)[|a| + j] == b[j]
    {
    }
  }

  lemma KidsOfSingle(k: Shape)
    ensures KidsAddrs([k]) == Addrs(k) && KidsEntries([k]) == Entries(k)
  {
    assert [k][0] == k;
  }

  /** A tree laid out in the arena stays laid out when no node of it changes. */
  lemma {:induction false} LayoutFrame(s: Store, s': Store, t: int, T: Shape, isRoot: bool)
    requires Layout(s, t, T, isRoot)
    requires forall a :: a in Addrs(T) ==> a in s && a in s' && s'[a] == s[a]
    ensures Layout(s', t, T, isRoot)
    decreases T
  {
    forall j | 0 <= j < |T.kids|
      ensures Layout(s', t, T.kids[j], false)
    {
      forall a | a in Addrs(T.kids[j])
        ensures a in s && a in s' && s'[a] == s[a]
      {
        InKidsAddrs(T.kids, a);
      }
      LayoutFrame(s, s', t, T.kids[j], false);
    }
  }

  /** Every node of a laid-out tree is in the arena. */
  lemma {:induction false} AddrsInStore(s: Store, t: int, T: Shape, isRoot: bool)
    requires Layout(s, t, T, isRoot)
    ensures Addrs(T) <= s.Keys
    decreases T
  {
    forall a | a in Addrs(T)
      ensures a in s
    {
      if a != T.addr {
        InKidsAddrs(T.kids, a);
        var j :| 0 <= j < |T.kids| && a in Addrs(T.kids[j]);
        AddrsInStore(s, t, T.kids[j], false);
      }
    }
  }

  /** Where an entry of a tree sits: in the top node (`-1`) or under the
      kid it returns. */
  lemma EntryWhere(T: Shape, e: Entry) returns (j: int)
    requires e in Entries(T)
    ensures -1 <= j < |T.kids|
    ensures j == -1 ==> exists k :: 0 <= k < |T.keys| && T.keys[k] == e
    ensures j >= 0 ==> e in Entries(T.kids[j])
  {
    if e in T.keys {
      j := -1;
    } else {
      InKidsEntries(T.kids, e);
      j :| 0 <= j < |T.kids| && e in Entries(T.kids[j]);
    }
  }

  /** Every key of a subtree lies within the subtree's bounds. */
  lemma {:induction false} EntryBound(T: Shape, t: int, h: int, lo: int, hi: int, isRoot: bool, e: Entry)
    requires BInv(T, t, h, lo, hi, isRoot) && e in Entries(T)
    ensures lo < e.key < hi
    decreases T
  {
    var j := EntryWhere(T, e);
    if j >= 0 {
      KidBounds(T, t, h, lo, hi, isRoot, j);
      EntryBound(T.kids[j], t, h - 1, Lo(T.keys, lo, j), Hi(T.keys, hi, j), false, e);
    }
  }

  lemma EntryBounds(T: Shape, t: int, h: int, lo: int, hi: int, isRoot: bool)
    requires BInv(T, t, h, lo, hi, isRoot)
    ensures forall e :: e in Entries(T) ==> lo < e.key < hi
  {
    forall e | e in Entries(T)
      ensures lo < e.key < hi
    {
      EntryBound(T, t, h, lo, hi, isRoot, e);
    }
  }

  /** The bounds of a kid lie within the bounds of its parent. */
  lemma KidBounds(T: Shape, t: int, h: int, lo: int, hi: int, isRoot: bool, j: int)
    requires BInv(T, t, h, lo, hi, isRoot) && 0 <= j < |T.kids|
    ensures BInv(T.kids[j], t, h - 1, Lo(T.keys, lo, j), Hi(T.keys, hi, j), false)
    ensures lo <= Lo(T.keys, lo, j) && Hi(T.keys, hi, j) <= hi
  {
    if 0 < j <= |T.keys| {
      assert T.keys[j - 1].key > lo;
    }
    if j < |T.keys| {
      assert T.keys[j].key < hi;
    }
  }

  /** The height parameter of the invariant is the tree's height. */
  lemma {:induction false} HeightOf(T: Shape, t: int, h: int, lo: int, hi: int, isRoot: bool)
    requires BInv(T, t, h, lo, hi, isRoot)
    ensures Height(T) == h
    decreases T
  {
    if T.kids != [] {
      HeightOf(T.kids[0], t, h - 1, Lo(T.keys, lo, 0), Hi(T.keys, hi, 0), false);
    }
  }

  /** A tree without shared nodes has at least as many nodes as its height. */
  lemma {:induction false} HeightBound(T: Shape)
    requires Distinct(T)
    ensures Height(T) <= |Addrs(T)|
    decreases T
  {
    if T.kids != [] {
      var k := T.kids[0];
      HeightBound(k);
      KidAddrs(T, 0);
      OneMore(Addrs(k), T.addr, Addrs(T));
    }
  }

  /** A set and one more element fit in any superset of both. */
  lemma OneMore<A>(small: set<A>, a: A, big: set<A>)
    requires a !in small && small <= big && a in big
    ensures |small| + 1 <= |big|
  {
    SubsetCard(small + {a}, big);
  }

  /** A key of a node occurs nowhere else in its subtree: the other
      entries under it all carry different keys. */
  lemma KeyOfNodeUnique(T: Shape, t: int, h: int, lo: int, hi: int, isRoot: bool, i: nat, e: Entry)
    requires BInv(T, t, h, lo, hi, isRoot) && i < |T.keys|
    requires e in Entries(T) && e.key == T.keys[i].key
    ensures e == T.keys[i]
  {
    var j := EntryWhere(T, e);
    if j == -1 {
      var k :| 0 <= k < |T.keys| && T.keys[k] == e;
      if k < i {
        AscendingAt(T.keys, k, i);
      } else if i < k {
        AscendingAt(T.keys, i, k);
      }
    } else {
      KidKeyDiffers(T, t, h, lo, hi, isRoot, i, j, e);
    }
  }

  /** The entries under a kid carry keys other than the node's own. */
  lemma KidKeyDiffers(T: Shape, t: int, h: int, lo: int, hi: int, isRoot: bool, i: nat, j: int, e: Entry)
    requires BInv(T, t, h, lo, hi, isRoot) && i < |T.keys| && 0 <= j < |T.kids|
    requires e in Entries(T.kids[j])
    ensures e.key != T.keys[i].key
  {
    KidBounds(T, t, h, lo, hi, isRoot, j);
    EntryBound(T.kids[j], t, h - 1, Lo(T.keys, lo, j), Hi(T.keys, hi, j), false, e);
    if i < j - 1 {
      assert Below(T.keys, i, j - 1);
    } else if j < i {
      assert Below(T.keys, j, i);
    }
  }

  lemma SubsetCard<A>(small: set<A>, big: set<A>)
    requires small <= big
    ensures |small| <= |big|
  {
    assert big == small + (big - small);
  }

  /** Every entry of a kid is an entry of its parent. */
  lemma KidEntries(T: Shape, j: int)
    requires 0 <= j < |T.kids|
    ensures Entries(T.kids[j]) <= Entries(T)
    ensures Addrs(T.kids[j]) <= Addrs(T)
  {
    forall e | e in Entries(T.kids[j])
      ensures e in KidsEntries(T.kids)
    {
      InKidsEntries(T.kids, e);
    }
    KidAddrs(T, j);
  }

  /** Every address of a kid is an address of its parent, and in a tree
      without shared nodes it is not the parent's own. */
  lemma KidAddrs(T: Shape, j: int)
    requires 0 <= j < |T.kids|
    ensures Addrs(T.kids[j]) <= KidsAddrs(T.kids) <= Addrs(T)
    ensures Distinct(T) ==> T.addr !in Addrs(T.kids[j])
  {
    forall a | a in Addrs(T.kids[j])
      ensures a in KidsAddrs(T.kids)
    {
      InKidsAddrs(T.kids, a);
    }
  }

  lemma ValidHeight(tr: BTree, T: Shape)
    requires Valid(tr, T)
    ensures Height(T) <= |tr.store|
  {
    HeightBound(T);
    AddrsInStore(tr.store, tr.t, T, true);
    SubsetCard(Addrs(T), tr.store.Keys);
  }
}
