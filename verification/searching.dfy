/** `rsearch` finds exactly the keys the tree holds. */
module Searching {
  import opened Base
  import opened Nodes
  import opened Engine
  import opened Shapes

  /** What `ScanUp` leaves when the key is not at the stop index: the key
      lies strictly inside the bounds of the child slot there. */
  lemma ScanBounds(keys: seq<Entry>, lo: int, hi: int, key: int, i: nat)
    requires Ascending(keys) && lo < key < hi
    requires i == ScanUp(keys, key, 0)
    requires !(i < |keys| && keys[i].key == key)
    ensures Lo(keys, lo, i) < key < Hi(keys, hi, i)
    ensures forall j :: 0 <= j < |keys| ==> keys[j].key != key
    ensures forall j :: 0 <= j < i ==> Hi(keys, hi, j) < key
    ensures forall j :: i < j <= |keys| ==> key < Lo(keys, lo, j)
  {
    forall j | 0 <= j < i
      ensures Hi(keys, hi, j) < key
    {
      if j < i - 1 {
        assert Below(keys, j, i - 1);
      }
    }
    forall j | i < j < |keys|
      ensures key < keys[j].key
    {
      assert Below(keys, i, j);
    }
  }

  /** An entry whose key is not among a node's keys and lies inside the
      bounds of child slot `i` sits under kid `i`. */
  lemma EntryUnderKid(T: Shape, t: int, h: int, lo: int, hi: int, isRoot: bool, e: Entry, i: int)
    requires BInv(T, t, h, lo, hi, isRoot) && 0 <= i < |T.kids| && e in Entries(T)
    requires forall j :: 0 <= j < |T.keys| ==> T.keys[j].key != e.key
    requires forall j :: 0 <= j < i ==> Hi(T.keys, hi, j) < e.key
    requires forall j :: i < j <= |T.keys| ==> e.key < Lo(T.keys, lo, j)
    ensures e in Entries(T.kids[i])
  {
    var j := EntryWhere(T, e);
    if j >= 0 {
      KidOfEntry(T, t, h, lo, hi, isRoot, e.key, i, j, e);
    }
  }

  /** An entry whose key lies inside the bounds of slot `i` can only be
      under kid `i`. */
  lemma KidOfEntry(T: Shape, t: int, h: int, lo: int, hi: int, isRoot: bool, key: int, i: int, j: int, e: Entry)
    requires BInv(T, t, h, lo, hi, isRoot) && 0 <= i < |T.kids| && 0 <= j < |T.kids|
    requires e in Entries(T.kids[j]) && e.key == key
    requires forall m :: 0 <= m < i ==> Hi(T.keys, hi, m) < key
    requires forall m :: i < m <= |T.keys| ==> key < Lo(T.keys, lo, m)
    ensures j == i
  {
    KidBounds(T, t, h, lo, hi, isRoot, j);
    EntryBound(T.kids[j], t, h - 1, Lo(T.keys, lo, j), Hi(T.keys, hi, j), false, e);
  }

  /** A key that is not among a node's keys and lies inside the bounds of
      child slot `i` is in the subtree exactly when it is under kid `i`. */
  lemma MissUnderKid(T: Shape, t: int, h: int, lo: int, hi: int, isRoot: bool, key: int, i: int)
    requires BInv(T, t, h, lo, hi, isRoot) && 0 <= i < |T.kids|
    requires forall j :: 0 <= j < |T.keys| ==> T.keys[j].key != key
    requires forall j :: 0 <= j < i ==> Hi(T.keys, hi, j) < key
    requires forall j :: i < j <= |T.keys| ==> key < Lo(T.keys, lo, j)
    ensures key in KeySet(T) <==> key in KeySet(T.kids[i])
  {
    KidEntries(T, i);
    if key in KeySet(T) {
      var e :| e in Entries(T) && e.key == key;
      EntryUnderKid(T, t, h, lo, hi, isRoot, e, i);
    }
  }

  /** A key missing from a leaf's keys is missing from the leaf. */
  lemma MissAtLeaf(T: Shape, key: int)
    requires T.kids == [] && forall j :: 0 <= j < |T.keys| ==> T.keys[j].key != key
    ensures key !in KeySet(T)
  {
    assert KidsEntries(T.kids) == {};
    forall e | e in Entries(T)
      ensures e.key != key
    {
      assert e in T.keys;
    }
  }

  /** One step of `rsearch`, with the cursor bookkeeping of `disk_read`
      taken out: a read leaves the tree as it was. */
  lemma RSearchStep(tr: BTree, xa: int, x: Node, key: Int64, fuel: nat)
    requires Wf(tr) && WellFormed(tr.t, x)
    ensures var i := ScanUp(x.keys, key, 0); var c := x.children[i];
      RSearch(tr, xa, x, key, fuel) ==
        if i < |x.keys| && x.keys[i].key == key then Success(Some(Hit(xa, x, i)))
        else if x.leaf then Success(None)
        else if c == NoChild then Failure(CorruptNode)
        else if fuel == 0 then Failure(Exhausted)
        else if c !in tr.store then Failure(IoFailure)
        else RSearch(tr, c, tr.store[c], key, fuel - 1)
  {
  }

  /** What `rsearch` promises for the subtree `T`: it succeeds, it hits
      exactly when `key` is in `T`, and a hit is a node of `T` whose entry
      at the hit index is an entry of `T` carrying `key`. */
  ghost predicate Answers(T: Shape, key: int, r: Result<Option<Hit>>)
  {
    && r.Success?
    && (r.value.Some? <==> key in KeySet(T))
    && (r.value.Some? ==>
          var hit := r.value.value;
          && hit.addr in Addrs(T) && hit.index < |hit.node.keys|
          && hit.node.keys[hit.index] in Entries(T) && hit.node.keys[hit.index].key == key)
  }

  /** What `RSearchCorrect` needs of a subtree and the search state. */
  ghost predicate RSearchReady(tr: BTree, T: Shape, h: int, lo: int, hi: int, isRoot: bool, key: Int64, fuel: int)
  {
    && Wf(tr) && NoChild !in tr.store
    && Layout(tr.store, tr.t, T, isRoot) && BInv(T, tr.t, h, lo, hi, isRoot)
    && lo < key < hi && h - 1 <= fuel
  }

  /** A hit in a kid answers for the parent when the key is in the parent
      exactly when it is in the kid. */
  lemma AnswersLift(T: Shape, j: int, key: int, r: Result<Option<Hit>>)
    requires 0 <= j < |T.kids| && Answers(T.kids[j], key, r)
    requires key in KeySet(T) <==> key in KeySet(T.kids[j])
    ensures Answers(T, key, r)
  {
    KidEntries(T, j);
  }

  /** The stop index of the scan names a kid whose bounds hold the key. */
  lemma DescendBounds(T: Shape, t: int, h: int, lo: int, hi: int, isRoot: bool, key: Int64)
    requires BInv(T, t, h, lo, hi, isRoot) && lo < key < hi && T.kids != []
    requires var i := ScanUp(T.keys, key, 0); !(i < |T.keys| && T.keys[i].key == key)
    ensures var i := ScanUp(T.keys, key, 0);
      && i < |T.kids|
      && BInv(T.kids[i], t, h - 1, Lo(T.keys, lo, i), Hi(T.keys, hi, i), false)
      && Lo(T.keys, lo, i) < key < Hi(T.keys, hi, i)
  {
    var i := ScanUp(T.keys, key, 0);
    ScanBounds(T.keys, lo, hi, key, i);
    KidBounds(T, t, h, lo, hi, isRoot, i);
  }

  /** When the scan stops at the key, or at a leaf, `rsearch` answers
      without descending. */
  lemma StopAnswers(tr: BTree, T: Shape, h: int, lo: int, hi: int, isRoot: bool, key: Int64, fuel: nat)
    requires Wf(tr) && Layout(tr.store, tr.t, T, isRoot) && BInv(T, tr.t, h, lo, hi, isRoot)
    requires lo < key < hi
    requires var i := ScanUp(T.keys, key, 0); (i < |T.keys| && T.keys[i].key == key) || T.kids == []
    ensures Answers(T, key, RSearch(tr, T.addr, tr.store[T.addr], key, fuel))
  {
    var x := tr.store[T.addr];
    var i := ScanUp(x.keys, key, 0);
    RSearchStep(tr, T.addr, x, key, fuel);
    if i < |x.keys| && x.keys[i].key == key {
      assert x.keys[i] in Entries(T);
    } else {
      ScanBounds(T.keys, lo, hi, key, i);
      MissAtLeaf(T, key);
    }
  }

  /** A miss in an internal node answers as its kid at the stop index does. */
  lemma DescendAnswers(tr: BTree, T: Shape, h: int, lo: int, hi: int, isRoot: bool, key: Int64, fuel: nat)
    requires RSearchReady(tr, T, h, lo, hi, isRoot, key, fuel) && T.kids != []
    requires var i := ScanUp(T.keys, key, 0); !(i < |T.keys| && T.keys[i].key == key)
    requires var i := ScanUp(T.keys, key, 0);
      i < |T.kids| && T.kids[i].addr in tr.store &&
      Answers(T.kids[i], key, RSearch(tr, T.kids[i].addr, tr.store[T.kids[i].addr], key, fuel - 1))
    ensures Answers(T, key, RSearch(tr, T.addr, tr.store[T.addr], key, fuel))
  {
    var x := tr.store[T.addr];
    var i := ScanUp(x.keys, key, 0);
    RSearchStep(tr, T.addr, x, key, fuel);
    ScanBounds(T.keys, lo, hi, key, i);
    assert x.children[i] == T.kids[i].addr;
    MissUnderKid(T, tr.t, h, lo, hi, isRoot, key, i);
    AnswersLift(T, i, key, RSearch(tr, T.kids[i].addr, tr.store[T.kids[i].addr], key, fuel - 1));
  }

  /** `rsearch` from a subtree's top node answers for the subtree. */
  lemma {:induction false} RSearchCorrect(tr: BTree, T: Shape, h: int, lo: int, hi: int, isRoot: bool,
                                          key: Int64, fuel: nat)
    requires RSearchReady(tr, T, h, lo, hi, isRoot, key, fuel)
    ensures Answers(T, key, RSearch(tr, T.addr, tr.store[T.addr], key, fuel))
    decreases fuel, 1
  {
    var i := ScanUp(T.keys, key, 0);
    if (i < |T.keys| && T.keys[i].key == key) || T.kids == [] {
      StopAnswers(tr, T, h, lo, hi, isRoot, key, fuel);
    } else {
      DescendCorrect(tr, T, h, lo, hi, isRoot, key, fuel);
    }
  }

  /** The descending case of `RSearchCorrect`. */
  lemma {:induction false} DescendCorrect(tr: BTree, T: Shape, h: int, lo: int, hi: int, isRoot: bool,
                                          key: Int64, fuel: nat)
    requires RSearchReady(tr, T, h, lo, hi, isRoot, key, fuel) && T.kids != []
    requires var i := ScanUp(T.keys, key, 0); !(i < |T.keys| && T.keys[i].key == key)
    ensures Answers(T, key, RSearch(tr, T.addr, tr.store[T.addr], key, fuel))
    decreases fuel, 0
  {
    var i := ScanUp(T.keys, key, 0);
    var k := T.kids[i];
    assert RSearchReady(tr, k, h - 1, Lo(T.keys, lo, i), Hi(T.keys, hi, i), false, key, fuel - 1) by {
      DescendBounds(T, tr.t, h, lo, hi, isRoot, key);
    }
    RSearchCorrect(tr, k, h - 1, Lo(T.keys, lo, i), Hi(T.keys, hi, i), false, key, fuel - 1);
    DescendAnswers(tr, T, h, lo, hi, isRoot, key, fuel);
  }

  /** `search(key)` on a valid tree succeeds, and it finds the key exactly
      when the tree holds it, at an entry of the tree. */
  lemma SearchCorrect(tr: BTree, T: Shape, key: Int64)
    requires Valid(tr, T)
    ensures Search(tr, key).Success?
    ensures Search(tr, key).value.Some? <==> key in KeySet(T)
    ensures var r := Search(tr, key); r.value.Some? ==>
      r.value.value.addr in Addrs(T) && r.value.value.node.keys[r.value.value.index] in Entries(T)
  {
    ValidHeight(tr, T);
    AllocatedBelow(tr);
    assert !Aligned(tr.t, NoChild);
    RSearchCorrect(tr, T, Height(T), Bottom, Top, true, key, |tr.store|);
  }
}
