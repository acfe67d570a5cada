/** Why `insert_nonfull` keeps the tree a B-tree: below a node that is
    not full, the new key lands in a leaf, every full child on the way is
    split first, and the result is again laid out, ordered, balanced and
    free of repeated addresses, with exactly the one new entry. */
module Inserting {
  import opened Base
  import opened Nodes
  import opened Engine
  import opened Shapes
  import opened Splitting

  /** Bytes the cursor may advance below a node of height `h`: at most one
      split, so one new record, per level. */
  function Budget(t: int, h: int): (r: int)
    requires Degree(t)
    ensures r >= 0
    decreases h
  {
    if h <= 0 then 0 else NodeBytes(t) + Budget(t, h - 1)
  }

  /** A taller tree has the larger budget. */
  lemma {:induction false} BudgetMono(t: int, h: int, h': int)
    requires Degree(t) && h <= h'
    ensures Budget(t, h) <= Budget(t, h')
    decreases h' - h
  {
    if h < h' {
      BudgetMono(t, h, h' - 1);
    }
  }

  /** The arena lays out `X` as a B-tree of height `h` with keys strictly
      between `lo` and `hi`, free of repeated addresses, without `key`. */
  ghost predicate Placed(tr: BTree, X: Shape, h: int, lo: int, hi: int, isRoot: bool, key: Entry)
  {
    && Wf(tr) && Allocated(tr)
    && Layout(tr.store, tr.t, X, isRoot)
    && BInv(X, tr.t, h, lo, hi, isRoot) && Distinct(X)
    && key.key !in KeySet(X)
  }

  /** What `insert_nonfull(x, key)` needs below the node `X` of height `h`:
      the arena lays out `X` with `x` at its address, `X` is a B-tree with
      keys strictly between `lo` and `hi`, it is not full, `key` belongs
      between the bounds and is not yet in the tree, the fuel covers the
      descent and the cursor has room for one split per level. */
  ghost predicate NonfullReady(tr: BTree, x: Node, X: Shape, h: int, lo: int, hi: int, isRoot: bool, key: Entry, fuel: nat)
  {
    && Placed(tr, X, h, lo, hi, isRoot, key) && x == tr.store[X.addr]
    && |X.keys| < 2 * tr.t - 1 && lo < key.key < hi
    && h - 1 <= fuel
    && tr.next + Budget(tr.t, h) <= MaxInt64
  }

  /** What holds after inserting `key` below `X`, taking `tr` to `tr'` and
      `X` to `X'`: the arena is still allocated, it lays out `X'` at the
      same address, `X'` is a B-tree within the same bounds and height,
      holds exactly one entry more, uses no address of the old arena
      except its own, and nothing outside `X` changed. */
  ghost predicate NonfullDone(tr: BTree, X: Shape, h: int, lo: int, hi: int, isRoot: bool, key: Entry, tr': BTree, X': Shape)
  {
    && Wf(tr') && Allocated(tr') && tr'.t == tr.t && tr.next <= tr'.next
    && X'.addr == X.addr
    && Layout(tr'.store, tr.t, X', isRoot)
    && BInv(X', tr.t, h, lo, hi, isRoot) && Distinct(X')
    && Entries(X') == Entries(X) + {key}
    && (forall a :: a in Addrs(X') ==> a in Addrs(X) || tr.next <= a)
    && Unchanged(tr.store, tr'.store, Addrs(X))
  }

  /** The leaf step of `insert_nonfull`. */
  lemma NonfullLeafStep(mode: Comparison, tr: BTree, xa: int, x: Node, key: Entry, fuel: nat)
    requires Wf(tr) && WellFormed(tr.t, x) && x.leaf && |x.keys| < 2 * tr.t - 1
    ensures var p := ScanDown(x.keys, key.key, |x.keys| - 1);
      InsertNonfull(mode, tr, xa, x, key, fuel) == Success(DiskWrite(tr, xa, x.(keys := InsertAt(x.keys, p, key))))
  {
  }

  /** The step of `insert_nonfull` into a child that is not full. */
  lemma NonfullDescendStep(mode: Comparison, tr: BTree, xa: int, x: Node, key: Entry, fuel: nat)
    requires Wf(tr) && WellFormed(tr.t, x) && !x.leaf && fuel > 0
    requires var i := ScanDown(x.keys, key.key, |x.keys| - 1);
      x.children[i] in tr.store && |tr.store[x.children[i]].keys| < 2 * tr.t - 1
    ensures var i := ScanDown(x.keys, key.key, |x.keys| - 1);
      InsertNonfull(mode, tr, xa, x, key, fuel) == InsertNonfull(mode, tr, x.children[i], tr.store[x.children[i]], key, fuel - 1)
  {
  }

  /** The step of `insert_nonfull` that splits a full child first. */
  lemma NonfullSplitStep(mode: Comparison, tr: BTree, xa: int, x: Node, key: Entry, fuel: nat)
    requires Wf(tr) && WellFormed(tr.t, x) && !x.leaf && fuel > 0
    requires |x.keys| < 2 * tr.t - 1 && tr.next <= MaxInt64
    requires var i := ScanDown(x.keys, key.key, |x.keys| - 1);
      x.children[i] in tr.store && |tr.store[x.children[i]].keys| == 2 * tr.t - 1
    ensures var i := ScanDown(x.keys, key.key, |x.keys| - 1);
      var (tr2, x2) := SplitChild(tr, xa, x, i);
      var j := if DescendRight(mode, key.key, x2.keys[i].key) then i + 1 else i;
      x2.children[j] in tr2.store ==>
        InsertNonfull(mode, tr, xa, x, key, fuel) == InsertNonfull(mode, tr2, x2.children[j], tr2.store[x2.children[j]], key, fuel - 1)
  {
    var i := ScanDown(x.keys, key.key, |x.keys| - 1);
    NonfullSplits(mode, tr, xa, x, key, fuel);
    SplitDescends(mode, tr, xa, x, i, key, fuel);
  }

  /** At a full child, `insert_nonfull` takes the split branch. */
  lemma NonfullSplits(mode: Comparison, tr: BTree, xa: int, x: Node, key: Entry, fuel: nat)
    requires Wf(tr) && WellFormed(tr.t, x) && !x.leaf
    requires var i := ScanDown(x.keys, key.key, |x.keys| - 1);
      x.children[i] in tr.store && |tr.store[x.children[i]].keys| == 2 * tr.t - 1
    ensures var i := ScanDown(x.keys, key.key, |x.keys| - 1);
      InsertNonfull(mode, tr, xa, x, key, fuel) == SplitThenDescend(mode, tr, xa, x, i, key, fuel)
  {
    var i := ScanDown(x.keys, key.key, |x.keys| - 1);
    assert InsertNonfull(mode, tr, xa, x, key, fuel) == DescendFrom(mode, tr, xa, x, key, fuel);
  }

  /** The split branch splits, then goes on into the half on the key's
      side of the median. */
  lemma SplitDescends(mode: Comparison, tr: BTree, xa: int, x: Node, i: nat, key: Entry, fuel: nat)
    requires Wf(tr) && WellFormed(tr.t, x) && fuel > 0 && i <= |x.keys|
    requires |x.keys| < 2 * tr.t - 1 && tr.next <= MaxInt64
    requires x.children[i] in tr.store && |tr.store[x.children[i]].keys| == 2 * tr.t - 1
    ensures var (tr2, x2) := SplitChild(tr, xa, x, i);
      var j := if DescendRight(mode, key.key, x2.keys[i].key) then i + 1 else i;
      x2.children[j] in tr2.store ==>
        SplitThenDescend(mode, tr, xa, x, i, key, fuel) == InsertNonfull(mode, tr2, x2.children[j], tr2.store[x2.children[j]], key, fuel - 1)
  {
  }

  /** The elements of a sequence with one value inserted. */
  lemma InsertAtElements<T>(s: seq<T>, p: nat, v: T)
    requires p <= |s|
    ensures (set e | e in InsertAt(s, p, v)) == (set e | e in s) + {v}
  {
    var r := InsertAt(s, p, v);
    InsertAtIndex(s, p, v);
    forall e | e in s
      ensures e in r
    {
      var k :| 0 <= k < |s| && s[k] == e;
      if k < p {
        assert r[k] == e;
      } else {
        assert r[k + 1] == e;
      }
    }
  }

  /** A tree of one leaf holds the entries of that leaf. */
  lemma LeafEntries(a: int, keys: seq<Entry>)
    ensures Entries(Shape(a, keys, [])) == set e | e in keys
    ensures Addrs(Shape(a, keys, [])) == {a}
  {
    assert KidsEntries([]) == {};
    assert KidsAddrs([]) == {};
  }

  /** A leaf with a key inserted between its neighbours is still ordered
      and within its bounds. */
  lemma LeafShapeInv(X: Shape, t: int, h: int, lo: int, hi: int, isRoot: bool, p: nat, key: Entry)
    requires BInv(X, t, h, lo, hi, isRoot) && X.kids == [] && |X.keys| < 2 * t - 1
    requires lo < key.key < hi && p <= |X.keys|
    requires p > 0 ==> X.keys[p - 1].key < key.key
    requires p < |X.keys| ==> key.key < X.keys[p].key
    ensures BInv(Shape(X.addr, InsertAt(X.keys, p, key), []), t, h, lo, hi, isRoot)
  {
    AscendingInsert(X.keys, p, key);
  }

  /** `ScanDown` stops where an absent key goes between its neighbours. */
  lemma ScanDownPlace(X: Shape, key: Entry)
    requires key.key !in KeySet(X)
    ensures var p := ScanDown(X.keys, key.key, |X.keys| - 1);
      && (p > 0 ==> X.keys[p - 1].key < key.key)
      && (p < |X.keys| ==> key.key < X.keys[p].key)
  {
    var p := ScanDown(X.keys, key.key, |X.keys| - 1);
    if p < |X.keys| {
      assert X.keys[p] in Entries(X);
      assert X.keys[p].key in KeySet(X);
    }
  }

  /** The leaf with the key inserted holds one entry more. */
  lemma LeafShapeEntries(X: Shape, p: nat, key: Entry)
    requires X.kids == [] && p <= |X.keys|
    ensures var X' := Shape(X.addr, InsertAt(X.keys, p, key), []);
      Entries(X') == Entries(X) + {key} && Addrs(X') == Addrs(X) && Distinct(X')
  {
    assert X == Shape(X.addr, X.keys, []);
    LeafEntries(X.addr, X.keys);
    LeafEntries(X.addr, InsertAt(X.keys, p, key));
    InsertAtElements(X.keys, p, key);
  }

  /** Rewriting a leaf with new keys keeps the arena allocated and lays
      out the new leaf; nothing else changes. */
  lemma LeafStoreOk(tr: BTree, x: Node, X: Shape, isRoot: bool, keys: seq<Entry>)
    requires Wf(tr) && Allocated(tr) && X.kids == [] && |keys| <= 2 * tr.t - 1
    requires Layout(tr.store, tr.t, X, isRoot) && x == tr.store[X.addr]
    ensures var tr' := DiskWrite(tr, X.addr, x.(keys := keys));
      && Wf(tr') && Allocated(tr')
      && Layout(tr'.store, tr.t, Shape(X.addr, keys, []), isRoot)
      && Unchanged(tr.store, tr'.store, Addrs(X))
  {
    var tr' := DiskWrite(tr, X.addr, x.(keys := keys));
    assert NodeMatches(tr'.store[X.addr], tr.t, Shape(X.addr, keys, []), isRoot);
    assert X.addr in Addrs(X);
  }

  /** In a leaf, `insert_nonfull` writes the leaf back with the key put
      where `ScanDown` stops. */
  lemma LeafInsertOk(tr: BTree, x: Node, X: Shape, h: int, lo: int, hi: int, isRoot: bool, key: Entry, fuel: nat)
    returns (X': Shape)
    requires NonfullReady(tr, x, X, h, lo, hi, isRoot, key, fuel) && X.kids == []
    ensures var p := ScanDown(x.keys, key.key, |x.keys| - 1);
      var tr' := DiskWrite(tr, X.addr, x.(keys := InsertAt(x.keys, p, key)));
      NonfullDone(tr, X, h, lo, hi, isRoot, key, tr', X') && tr'.next == tr.next
  {
    var t := tr.t;
    var p := ScanDown(x.keys, key.key, |x.keys| - 1);
    var keys := InsertAt(x.keys, p, key);
    X' := Shape(X.addr, keys, []);
    LeafStoreOk(tr, x, X, isRoot, keys);
    assert x.keys == X.keys;
    ScanDownPlace(X, key);
    LeafShapeInv(X, t, h, lo, hi, isRoot, p, key);
    LeafShapeEntries(X, p, key);
  }

  /** The keys of a kid are keys of its parent. */
  lemma KidKeySet(X: Shape, j: int)
    requires 0 <= j < |X.kids|
    ensures KeySet(X.kids[j]) <= KeySet(X)
  {
    KidEntries(X, j);
  }

  /** A tree whose kid `j` gained the entry `key` gained it too. */
  lemma ReplaceEntries(X: Shape, j: nat, K: Shape, key: Entry)
    requires j < |X.kids| && Entries(K) == Entries(X.kids[j]) + {key}
    ensures Entries(X.(kids := X.kids[j := K])) == Entries(X) + {key}
  {
    var X2 := X.(kids := X.kids[j := K]);
    forall e | e in KidsEntries(X2.kids)
      ensures e in KidsEntries(X.kids) + {key}
    {
      var q :| 0 <= q < |X2.kids| && e in Entries(X2.kids[q]);
      if q != j {
        InKids(X.kids, q, e);
      } else if e != key {
        InKids(X.kids, j, e);
      }
    }
    forall e | e in KidsEntries(X.kids) + {key}
      ensures e in KidsEntries(X2.kids)
    {
      if e == key {
        InKids(X2.kids, j, e);
      } else {
        var q :| 0 <= q < |X.kids| && e in Entries(X.kids[q]);
        InKids(X2.kids, q, e);
      }
    }
  }

  /** A tree whose kid `j` took only fresh addresses took only those. */
  lemma ReplaceAddrs(X: Shape, j: nat, K: Shape, n: int)
    requires j < |X.kids| && K.addr == X.kids[j].addr
    requires forall a :: a in Addrs(K) ==> a in Addrs(X.kids[j]) || n <= a
    ensures forall a :: a in Addrs(X.(kids := X.kids[j := K])) ==> a in Addrs(X) || n <= a
  {
    var X2 := X.(kids := X.kids[j := K]);
    forall a | a in KidsAddrs(X2.kids)
      ensures a in KidsAddrs(X.kids) || n <= a
    {
      var q :| 0 <= q < |X2.kids| && a in Addrs(X2.kids[q]);
      if q != j || n > a {
        InKidsAddr(X.kids, q, a);
      }
    }
  }

  /** Replacing kid `j` by a B-tree of the same height within the same
      bounds keeps the parent a B-tree. */
  lemma ReplaceInv(X: Shape, t: int, h: int, lo: int, hi: int, isRoot: bool, j: nat, K: Shape)
    requires BInv(X, t, h, lo, hi, isRoot) && j < |X.kids|
    requires BInv(K, t, h - 1, Lo(X.keys, lo, j), Hi(X.keys, hi, j), false)
    ensures BInv(X.(kids := X.kids[j := K]), t, h, lo, hi, isRoot)
  {
  }

  /** Replacing kid `j` by a tree of fresh or its own addresses keeps the
      addresses distinct. */
  lemma ReplaceDistinct(X: Shape, j: nat, K: Shape, n: int)
    requires Distinct(X) && Distinct(K) && j < |X.kids|
    requires forall a :: a in Addrs(X) ==> a < n
    requires forall a :: a in Addrs(K) ==> a in Addrs(X.kids[j]) || n <= a
    ensures Distinct(X.(kids := X.kids[j := K]))
  {
    var X2 := X.(kids := X.kids[j := K]);
    KidAddrs(X, j);
    forall a, b | 0 <= a < b < |X2.kids|
      ensures Addrs(X2.kids[a]) !! Addrs(X2.kids[b])
    {
      KidAddrs(X, a);
      KidAddrs(X, b);
    }
    forall q | 0 <= q < |X2.kids|
      ensures X.addr !in Addrs(X2.kids[q])
    {
      KidAddrs(X, q);
    }
  }

  /** Replacing kid `j`, once the arena lays the new kid out at the same
      address and changed nothing outside the old kid, keeps the parent
      laid out. */
  lemma ReplaceLayout(s: Store, s': Store, t: int, X: Shape, isRoot: bool, j: nat, K: Shape)
    requires Layout(s, t, X, isRoot) && Distinct(X) && j < |X.kids|
    requires Layout(s', t, K, false) && K.addr == X.kids[j].addr
    requires Unchanged(s, s', Addrs(X.kids[j]))
    ensures Layout(s', t, X.(kids := X.kids[j := K]), isRoot)
  {
    var X2 := X.(kids := X.kids[j := K]);
    KidAddrs(X, j);
    forall q | 0 <= q < |X2.kids| && q != j
      ensures Layout(s', t, X2.kids[q], false)
    {
      KidAddrs(X, q);
      if q < j {
        assert Addrs(X.kids[q]) !! Addrs(X.kids[j]);
      } else {
        assert Addrs(X.kids[j]) !! Addrs(X.kids[q]);
      }
      KidFrame(s, s', t, X.kids[q], Addrs(X.kids[j]));
    }
    assert NodeMatches(s'[X.addr], t, X2, isRoot);
  }

  /** A slot unchanged outside a smaller set is unchanged outside a larger. */
  lemma UnchangedMore(s: Store, s': Store, small: set<int>, big: set<int>)
    requires Unchanged(s, s', small) && small <= big
    ensures Unchanged(s, s', big)
  {
  }

  /** Inserting below kid `j` is inserting below its parent. */
  lemma ReplaceDone(tr: BTree, X: Shape, h: int, lo: int, hi: int, isRoot: bool, key: Entry, fuel: nat, j: nat, tr': BTree, K: Shape)
    requires DescendReady(tr, X, h, lo, hi, isRoot, key, fuel, j)
    requires NonfullDone(tr, X.kids[j], h - 1, Lo(X.keys, lo, j), Hi(X.keys, hi, j), false, key, tr', K)
    ensures NonfullDone(tr, X, h, lo, hi, isRoot, key, tr', X.(kids := X.kids[j := K]))
  {
    var t := tr.t;
    ReplaceEntries(X, j, K, key);
    ReplaceAddrs(X, j, K, tr.next);
    ReplaceInv(X, t, h, lo, hi, isRoot, j, K);
    AddrsInStore(tr.store, t, X, isRoot);
    AllocatedBelow(tr);
    ReplaceDistinct(X, j, K, tr.next);
    ReplaceLayout(tr.store, tr'.store, t, X, isRoot, j, K);
    KidAddrs(X, j);
    UnchangedMore(tr.store, tr'.store, Addrs(X.kids[j]), Addrs(X));
  }

  /** What descending into kid `j` of `X` needs: `X` is laid out and a
      B-tree without `key`, kid `j` is not full and `key` belongs under it,
      and fuel and cursor room cover the kid's height. */
  ghost predicate DescendReady(tr: BTree, X: Shape, h: int, lo: int, hi: int, isRoot: bool, key: Entry, fuel: nat, j: nat)
  {
    && Placed(tr, X, h, lo, hi, isRoot, key)
    && 2 <= h && h - 1 <= fuel
    && tr.next + Budget(tr.t, h - 1) <= MaxInt64
    && j < |X.kids| && X.kids[j].addr in tr.store && |X.kids[j].keys| < 2 * tr.t - 1
    && Lo(X.keys, lo, j) < key.key < Hi(X.keys, hi, j)
  }

  /** The kid a descent goes into is ready for `insert_nonfull`. */
  lemma KidReady(tr: BTree, X: Shape, h: int, lo: int, hi: int, isRoot: bool, key: Entry, fuel: nat, j: nat)
    requires DescendReady(tr, X, h, lo, hi, isRoot, key, fuel, j)
    ensures NonfullReady(tr, tr.store[X.kids[j].addr], X.kids[j], h - 1, Lo(X.keys, lo, j), Hi(X.keys, hi, j), false, key, fuel - 1)
  {
    KidBounds(X, tr.t, h, lo, hi, isRoot, j);
    KidKeySet(X, j);
  }

  /** Descending into a kid that is not full inserts the key below the
      parent. */
  lemma DescendOk(tr: BTree, X: Shape, h: int, lo: int, hi: int, isRoot: bool, key: Entry, fuel: nat, j: nat)
    returns (X': Shape)
    requires DescendReady(tr, X, h, lo, hi, isRoot, key, fuel, j)
    ensures var r := InsertNonfull(Intended, tr, X.kids[j].addr, tr.store[X.kids[j].addr], key, fuel - 1);
      && r.Success? && NonfullDone(tr, X, h, lo, hi, isRoot, key, r.value, X')
      && r.value.next <= tr.next + Budget(tr.t, h - 1)
    decreases fuel, 0
  {
    KidReady(tr, X, h, lo, hi, isRoot, key, fuel, j);
    var K' := InsertNonfullOk(tr, tr.store[X.kids[j].addr], X.kids[j], h - 1, Lo(X.keys, lo, j), Hi(X.keys, hi, j), false, key, fuel - 1);
    var r := InsertNonfull(Intended, tr, X.kids[j].addr, tr.store[X.kids[j].addr], key, fuel - 1);
    ReplaceDone(tr, X, h, lo, hi, isRoot, key, fuel, j, r.value, K');
    X' := X.(kids := X.kids[j := K']);
  }

  /** The slot `insert_nonfull` picks in an internal node holds the kid of
      the same index, and that kid is stored. */
  lemma KidAt(tr: BTree, x: Node, X: Shape, h: int, lo: int, hi: int, isRoot: bool, key: Entry, fuel: nat)
    requires NonfullReady(tr, x, X, h, lo, hi, isRoot, key, fuel) && X.kids != []
    ensures var i := ScanDown(x.keys, key.key, |x.keys| - 1);
      && i < |X.kids| && x.children[i] == X.kids[i].addr
      && X.kids[i].addr in tr.store && tr.store[X.kids[i].addr].keys == X.kids[i].keys
      && |X.kids[i].keys| <= 2 * tr.t - 1
  {
    var i := ScanDown(x.keys, key.key, |x.keys| - 1);
    assert x.keys == X.keys;
    assert Layout(tr.store, tr.t, X.kids[i], false);
  }

  /** A kid that is not full is descended into directly. */
  lemma DirectReady(tr: BTree, x: Node, X: Shape, h: int, lo: int, hi: int, isRoot: bool, key: Entry, fuel: nat)
    returns (i: nat)
    requires NonfullReady(tr, x, X, h, lo, hi, isRoot, key, fuel) && X.kids != []
    requires var i := ScanDown(x.keys, key.key, |x.keys| - 1);
      i < |X.kids| && |X.kids[i].keys| < 2 * tr.t - 1
    ensures i == ScanDown(x.keys, key.key, |x.keys| - 1)
    ensures DescendReady(tr, X, h, lo, hi, isRoot, key, fuel, i)
    ensures Budget(tr.t, h - 1) <= Budget(tr.t, h)
  {
    KidAt(tr, x, X, h, lo, hi, isRoot, key, fuel);
    assert x.keys == X.keys;
    ScanDownPlace(X, key);
    BudgetMono(tr.t, h - 1, h);
    i := ScanDown(x.keys, key.key, |x.keys| - 1);
  }

  /** Into a kid that is not full, `insert_nonfull` goes on directly. */
  lemma DirectEquation(tr: BTree, xa: int, x: Node, key: Entry, fuel: nat, i: nat, ka: int)
    requires Wf(tr) && WellFormed(tr.t, x) && !x.leaf && fuel > 0
    requires i == ScanDown(x.keys, key.key, |x.keys| - 1) && x.children[i] == ka
    requires ka in tr.store && |tr.store[ka].keys| < 2 * tr.t - 1
    ensures InsertNonfull(Intended, tr, xa, x, key, fuel) == InsertNonfull(Intended, tr, ka, tr.store[ka], key, fuel - 1)
  {
    NonfullDescendStep(Intended, tr, xa, x, key, fuel);
  }

  /** `insert_nonfull` below a node that is not full succeeds, and the
      tree below it is again a B-tree with exactly the new entry more. */
  lemma InsertNonfullOk(tr: BTree, x: Node, X: Shape, h: int, lo: int, hi: int, isRoot: bool, key: Entry, fuel: nat)
    returns (X': Shape)
    requires NonfullReady(tr, x, X, h, lo, hi, isRoot, key, fuel)
    ensures var r := InsertNonfull(Intended, tr, X.addr, x, key, fuel);
      && r.Success? && NonfullDone(tr, X, h, lo, hi, isRoot, key, r.value, X')
      && r.value.next <= tr.next + Budget(tr.t, h)
    decreases fuel, 2
  {
    if X.kids == [] {
      NonfullLeafStep(Intended, tr, X.addr, x, key, fuel);
      X' := LeafInsertOk(tr, x, X, h, lo, hi, isRoot, key, fuel);
    } else {
      KidAt(tr, x, X, h, lo, hi, isRoot, key, fuel);
      var i := ScanDown(x.keys, key.key, |x.keys| - 1);
      if |X.kids[i].keys| < 2 * tr.t - 1 {
        i := DirectReady(tr, x, X, h, lo, hi, isRoot, key, fuel);
        DirectEquation(tr, X.addr, x, key, fuel, i, X.kids[i].addr);
        X' := DescendOk(tr, X, h, lo, hi, isRoot, key, fuel, i);
      } else {
        X' := SplitDescendOk(tr, x, X, h, lo, hi, isRoot, key, fuel);
      }
    }
  }

  /** Everything the split step needs at kid `i` of the parent `X`. */
  ghost predicate SplitAt(tr: BTree, x: Node, X: Shape, h: int, lo: int, hi: int, isRoot: bool, key: Entry, fuel: nat, i: nat)
  {
    && SplitSite(tr, x, X, isRoot, i) && Parent(X, tr.t, h, lo, hi, isRoot) && Allocated(tr) && X.addr in tr.store
    && lo < key.key < hi && key.key !in KeySet(X)
    && i == ScanDown(x.keys, key.key, |x.keys| - 1) && i == ScanDown(X.keys, key.key, |X.keys| - 1)
    && 0 < fuel && h - 1 <= fuel && tr.next + NodeBytes(tr.t) + Budget(tr.t, h - 1) <= MaxInt64
  }

  /** A full kid of a node that is not full is ready to split. */
  lemma SplitSiteOf(tr: BTree, x: Node, X: Shape, h: int, lo: int, hi: int, isRoot: bool, key: Entry, fuel: nat, i: nat)
    requires NonfullReady(tr, x, X, h, lo, hi, isRoot, key, fuel) && X.kids != []
    requires i <= |X.keys| && |X.kids[i].keys| == 2 * tr.t - 1
    ensures SplitSite(tr, x, X, isRoot, i) && Parent(X, tr.t, h, lo, hi, isRoot)
    ensures tr.next + NodeBytes(tr.t) + Budget(tr.t, h - 1) <= MaxInt64
  {
    ParentOfBInv(X, tr.t, h, lo, hi, isRoot);
    MedianBounds(X, tr.t, h, lo, hi, isRoot, i);
    AddrsInStore(tr.store, tr.t, X, isRoot);
    AllocatedBelow(tr);
  }

  /** The kid `insert_nonfull` descends into, when it is full, is a split
      site. */
  lemma SplitAtScan(tr: BTree, x: Node, X: Shape, h: int, lo: int, hi: int, isRoot: bool, key: Entry, fuel: nat)
    returns (i: nat)
    requires NonfullReady(tr, x, X, h, lo, hi, isRoot, key, fuel) && X.kids != [] && fuel > 0
    requires var i := ScanDown(x.keys, key.key, |x.keys| - 1);
      i < |X.kids| && |X.kids[i].keys| == 2 * tr.t - 1
    ensures SplitAt(tr, x, X, h, lo, hi, isRoot, key, fuel, i)
  {
    assert x.keys == X.keys;
    i := ScanDown(x.keys, key.key, |x.keys| - 1);
    SplitSiteOf(tr, x, X, h, lo, hi, isRoot, key, fuel, i);
  }

  /** The median of the full kid `i` is a key of the tree, so it is not
      the absent key, and `ScanDown` puts the key between its neighbours. */
  lemma MedianOf(X: Shape, t: int, key: Entry, i: nat)
    requires i < |X.kids| && FullShape(X.kids[i], t) && key.key !in KeySet(X)
    requires i == ScanDown(X.keys, key.key, |X.keys| - 1)
    ensures X.kids[i].keys[t - 1].key != key.key
    ensures i > 0 ==> X.keys[i - 1].key < key.key
    ensures i < |X.keys| ==> key.key < X.keys[i].key
  {
    MedianInTree(X, t, i);
    ScanDownPlace(X, key);
  }

  /** The median of a full kid is a key of the tree. */
  lemma MedianInTree(X: Shape, t: int, i: nat)
    requires i < |X.kids| && FullShape(X.kids[i], t)
    ensures X.kids[i].keys[t - 1].key in KeySet(X)
  {
    var m := X.kids[i].keys[t - 1];
    assert m in Entries(X.kids[i]);
    KidEntries(X, i);
  }

  /** A key above the median goes into the upper half, between the median
      and the parent's next key. */
  lemma SplitRight(X: Shape, t: int, i: nat, za: int, lo: int, hi: int, key: Entry)
    requires i < |X.kids| && i <= |X.keys| && FullShape(X.kids[i], t)
    requires X.kids[i].keys[t - 1].key < key.key < hi
    requires i < |X.keys| ==> key.key < X.keys[i].key
    ensures var X1 := SplitShape(X, t, i, za);
      && X1.keys[i] == X.kids[i].keys[t - 1]
      && i + 1 < |X1.kids| && |X1.kids[i + 1].keys| < 2 * t - 1
      && Lo(X1.keys, lo, i + 1) < key.key < Hi(X1.keys, hi, i + 1)
  {
    var X1 := SplitShape(X, t, i, za);
    SplitKid(X, t, i, za, i + 1);
    if i + 1 < |X1.keys| {
      assert X1.keys[i + 1] == X.keys[i];
    }
  }

  /** A key below the median goes into the lower half, between the
      parent's previous key and the median. */
  lemma SplitLeft(X: Shape, t: int, i: nat, za: int, lo: int, hi: int, key: Entry)
    requires i < |X.kids| && i <= |X.keys| && FullShape(X.kids[i], t)
    requires lo < key.key < X.kids[i].keys[t - 1].key
    requires i > 0 ==> X.keys[i - 1].key < key.key
    ensures var X1 := SplitShape(X, t, i, za);
      && X1.keys[i] == X.kids[i].keys[t - 1]
      && i < |X1.kids| && |X1.kids[i].keys| < 2 * t - 1
      && Lo(X1.keys, lo, i) < key.key < Hi(X1.keys, hi, i)
  {
    var X1 := SplitShape(X, t, i, za);
    SplitKid(X, t, i, za, i);
    if i > 0 {
      assert X1.keys[i - 1] == X.keys[i - 1];
    }
  }

  /** After the split, the key goes to a half that is not full and whose
      bounds hold it: right of the median when it is larger, left when it
      is smaller. */
  lemma SplitTarget(X: Shape, t: int, h: int, lo: int, hi: int, isRoot: bool, za: int, key: Entry, i: nat)
    requires Parent(X, t, h, lo, hi, isRoot) && 2 <= t && lo < key.key < hi && key.key !in KeySet(X)
    requires i == ScanDown(X.keys, key.key, |X.keys| - 1) && i <= |X.keys| && |X.kids[i].keys| == 2 * t - 1
    ensures FullShape(X.kids[i], t)
    ensures var X1 := SplitShape(X, t, i, za);
      var j := if key.key > X1.keys[i].key then i + 1 else i;
      && j < |X1.kids| && |X1.kids[j].keys| < 2 * t - 1
      && Lo(X1.keys, lo, j) < key.key < Hi(X1.keys, hi, j)
  {
    MedianBounds(X, t, h, lo, hi, isRoot, i);
    MedianOf(X, t, key, i);
    if key.key > X.kids[i].keys[t - 1].key {
      SplitRight(X, t, i, za, lo, hi, key);
    } else {
      SplitLeft(X, t, i, za, lo, hi, key);
    }
  }

  /** The split parent, as a shape: still a B-tree of the same height with
      the same entries, distinct addresses, the fresh one added, and the
      key's target half ready. */
  lemma SplitShapeReady(X: Shape, t: int, h: int, lo: int, hi: int, isRoot: bool, key: Entry, za: int, i: nat)
    requires Parent(X, t, h, lo, hi, isRoot) && 2 <= t && Distinct(X) && za !in Addrs(X)
    requires |X.keys| < 2 * t - 1 && lo < key.key < hi && key.key !in KeySet(X)
    requires i == ScanDown(X.keys, key.key, |X.keys| - 1) && i <= |X.keys| && |X.kids[i].keys| == 2 * t - 1
    ensures FullShape(X.kids[i], t)
    ensures var X1 := SplitShape(X, t, i, za);
      var j := if key.key > X1.keys[i].key then i + 1 else i;
      && BInv(X1, t, h, lo, hi, isRoot) && Distinct(X1)
      && Entries(X1) == Entries(X) && KeySet(X1) == KeySet(X)
      && Addrs(X1) == Addrs(X) + {za} && X1.addr == X.addr
      && j < |X1.kids| && |X1.kids[j].keys| < 2 * t - 1
      && Lo(X1.keys, lo, j) < key.key < Hi(X1.keys, hi, j)
  {
    SplitTarget(X, t, h, lo, hi, isRoot, za, key, i);
    ParentInv(X, t, h, lo, hi, isRoot, i, za);
    SplitDistinct(X, t, i, za);
    SplitEntries(X, t, i, za);
    SplitAddrs(X, t, i, za);
  }

  /** The split parent, in the arena: still allocated, laid out, and
      nothing outside the old tree changed. */
  lemma SplitStoreReady(tr: BTree, x: Node, X: Shape, isRoot: bool, i: nat)
    requires SplitSite(tr, x, X, isRoot, i) && Allocated(tr) && X.addr in tr.store
    ensures var tr2 := SplitChild(tr, X.addr, x, i).0;
      && Allocated(tr2) && tr2.next == tr.next + NodeBytes(tr.t)
      && Layout(tr2.store, tr.t, SplitShape(X, tr.t, i, tr.next), isRoot)
      && tr.store.Keys <= tr2.store.Keys && Unchanged(tr.store, tr2.store, Addrs(X))
  {
    SplitLayout(tr, x, X, isRoot, i);
    SplitKeeps(tr, x, X, isRoot, i);
    SplitAllocated(tr, X.addr, x, i);
  }

  /** After the split, `insert_nonfull` goes on into the kid `j` of the
      split shape, the half on the key's side of the median. */
  lemma SplitEquation(tr: BTree, x: Node, X: Shape, isRoot: bool, key: Entry, fuel: nat, i: nat, j: nat, tr2: BTree, X1: Shape)
    requires SplitSite(tr, x, X, isRoot, i) && fuel > 0 && i == ScanDown(x.keys, key.key, |x.keys| - 1)
    requires tr2 == SplitChild(tr, X.addr, x, i).0 && i < |X1.keys| && j < |X1.kids|
    requires X1 == SplitShape(X, tr.t, i, tr.next) && j == (if key.key > X1.keys[i].key then i + 1 else i)
    requires X1.kids[j].addr in tr2.store
    ensures InsertNonfull(Intended, tr, X.addr, x, key, fuel)
      == InsertNonfull(Intended, tr2, X1.kids[j].addr, tr2.store[X1.kids[j].addr], key, fuel - 1)
  {
    SplitParentSlots(tr, x, X, isRoot, i);
    NonfullSplitStep(Intended, tr, X.addr, x, key, fuel);
  }

  /** What a split leaves for the proof above it: the same entries, the
      fresh address added, the cursor moved on, nothing outside changed. */
  ghost predicate SplitMoved(tr: BTree, X: Shape, tr2: BTree, X1: Shape)
  {
    && Entries(X1) == Entries(X) && Addrs(X1) == Addrs(X) + {tr.next} && X1.addr == X.addr
    && tr.next !in tr.store && tr2.t == tr.t && tr.next <= tr2.next
    && tr.store.Keys <= tr2.store.Keys && Unchanged(tr.store, tr2.store, Addrs(X))
  }

  /** The split step at a known split site. */
  lemma SplitStepAt(tr: BTree, x: Node, X: Shape, h: int, lo: int, hi: int, isRoot: bool, key: Entry, fuel: nat, i: nat)
    returns (j: nat, tr2: BTree, X1: Shape)
    requires SplitAt(tr, x, X, h, lo, hi, isRoot, key, fuel, i)
    ensures X1 == SplitShape(X, tr.t, i, tr.next) && tr2 == SplitChild(tr, X.addr, x, i).0
    ensures i < |X1.keys| && j == (if key.key > X1.keys[i].key then i + 1 else i)
    ensures DescendReady(tr2, X1, h, lo, hi, isRoot, key, fuel, j) && SplitMoved(tr, X, tr2, X1)
    ensures tr2.next == tr.next + NodeBytes(tr.t)
  {
    SplitShapeReady(X, tr.t, h, lo, hi, isRoot, key, tr.next, i);
    SplitStoreReady(tr, x, X, isRoot, i);
    X1 := SplitShape(X, tr.t, i, tr.next);
    tr2 := SplitChild(tr, X.addr, x, i).0;
    j := if key.key > X1.keys[i].key then i + 1 else i;
    SplitReady(tr, X, tr2, X1, h, lo, hi, isRoot, key, fuel, j);
  }

  /** The facts a split leaves, gathered into the two predicates the
      descent after it needs. */
  lemma SplitReady(tr: BTree, X: Shape, tr2: BTree, X1: Shape, h: int, lo: int, hi: int, isRoot: bool, key: Entry, fuel: nat, j: nat)
    requires Wf(tr) && tr.next !in tr.store && key.key !in KeySet(X) && 2 <= h && h - 1 <= fuel
    requires tr.next + NodeBytes(tr.t) + Budget(tr.t, h - 1) <= MaxInt64
    requires BInv(X1, tr.t, h, lo, hi, isRoot) && Distinct(X1)
    requires Entries(X1) == Entries(X) && KeySet(X1) == KeySet(X)
    requires Addrs(X1) == Addrs(X) + {tr.next} && X1.addr == X.addr
    requires j < |X1.kids| && |X1.kids[j].keys| < 2 * tr.t - 1
    requires Lo(X1.keys, lo, j) < key.key < Hi(X1.keys, hi, j)
    requires Wf(tr2) && Allocated(tr2) && tr2.t == tr.t && tr2.next == tr.next + NodeBytes(tr.t)
    requires Layout(tr2.store, tr.t, X1, isRoot)
    requires tr.store.Keys <= tr2.store.Keys && Unchanged(tr.store, tr2.store, Addrs(X))
    ensures DescendReady(tr2, X1, h, lo, hi, isRoot, key, fuel, j) && SplitMoved(tr, X, tr2, X1)
  {
    assert Layout(tr2.store, tr.t, X1.kids[j], false);
  }

  /** Splitting first and then inserting below the split parent is
      inserting below the node as it was. */
  lemma DoneAfterSplit(tr: BTree, X: Shape, h: int, lo: int, hi: int, isRoot: bool, key: Entry, tr2: BTree, X1: Shape, tr': BTree, X': Shape)
    requires SplitMoved(tr, X, tr2, X1)
    requires NonfullDone(tr2, X1, h, lo, hi, isRoot, key, tr', X')
    ensures NonfullDone(tr, X, h, lo, hi, isRoot, key, tr', X')
  {
  }

  /** `insert_nonfull` at a node whose target kid is full: the kid is
      split, and the key goes into the half it belongs to. */
  lemma SplitDescendOk(tr: BTree, x: Node, X: Shape, h: int, lo: int, hi: int, isRoot: bool, key: Entry, fuel: nat)
    returns (X': Shape)
    requires NonfullReady(tr, x, X, h, lo, hi, isRoot, key, fuel) && X.kids != []
    requires var i := ScanDown(x.keys, key.key, |x.keys| - 1);
      i < |X.kids| && |X.kids[i].keys| == 2 * tr.t - 1
    ensures var r := InsertNonfull(Intended, tr, X.addr, x, key, fuel);
      && r.Success? && NonfullDone(tr, X, h, lo, hi, isRoot, key, r.value, X')
      && r.value.next <= tr.next + Budget(tr.t, h)
    decreases fuel, 1
  {
    var i := SplitAtScan(tr, x, X, h, lo, hi, isRoot, key, fuel);
    var j, tr2, X1 := SplitStepAt(tr, x, X, h, lo, hi, isRoot, key, fuel, i);
    SplitEquation(tr, x, X, isRoot, key, fuel, i, j, tr2, X1);
    X' := DescendOk(tr2, X1, h, lo, hi, isRoot, key, fuel, j);
    var r := InsertNonfull(Intended, tr2, X1.kids[j].addr, tr2.store[X1.kids[j].addr], key, fuel - 1);
    DoneAfterSplit(tr, X, h, lo, hi, isRoot, key, tr2, X1, r.value, X');
  }
}
