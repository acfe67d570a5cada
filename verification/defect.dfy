/** The comparison after a split in `insert_nonfull` (`BTree.java:401`),
    as written: `compareTo` never exceeds 1, so a key above the promoted
    median goes into the left half. A concrete tree of degree 2 where
    that loses the key: the tree `insert` builds from the keys 1 to 5. */
module Defect {
  import opened Base
  import opened Nodes
  import opened Engine
  import opened Shapes
  import opened Insertion

  function One(k: Int64): Entry { Entry(k, 1) }

  /** Degree 2, so `NodeBytes(2) == 76`: the first root leaf at 20 became
      the left child of the root at 96 when it filled up, the right half
      went to 172, and the cursor stands at 248. */
  function FiveTree(): (r: BTree)
    ensures Rooted(r)
  {
    BTree(2, 96, 248, 5, map[
      20 := Node(true, false, [One(1)], [-1, -1, -1, -1]),
      96 := Node(false, true, [One(2)], [20, 172, -1, -1]),
      172 := Node(true, false, [One(3), One(4), One(5)], [-1, -1, -1, -1])])
  }

  ghost function FiveShape(): Shape
  {
    Shape(96, [One(2)], [Shape(20, [One(1)], []), Shape(172, [One(3), One(4), One(5)], [])])
  }

  /** The example is a valid B-tree: the model's invariant holds of it. */
  lemma FiveValid()
    ensures Valid(FiveTree(), FiveShape())
  {
    FiveAllocated();
    FiveLayout();
    FiveInv();
    FiveDistinct();
    FiveKeys();
  }

  lemma FiveAllocated()
    ensures Wf(FiveTree()) && Allocated(FiveTree())
  {
    assert Slots(2, 248) == {20, 96, 172} by {
      assert Slots(2, 20) == {};
    }
    assert Aligned(2, 248) by {
      assert Aligned(2, 20) && Aligned(2, 96) && Aligned(2, 172);
    }
  }

  lemma FiveLayout()
    ensures Layout(FiveTree().store, 2, FiveShape(), true)
  {
    var s, T := FiveTree().store, FiveShape();
    assert Layout(s, 2, T.kids[0], false);
    assert Layout(s, 2, T.kids[1], false);
  }

  lemma FiveInv()
    ensures Height(FiveShape()) == 2
    ensures BInv(FiveShape(), 2, 2, Bottom, Top, true)
  {
    var T := FiveShape();
    assert BInv(T.kids[0], 2, 1, Bottom, 2, false);
    assert BInv(T.kids[1], 2, 1, 2, Top, false);
  }

  lemma FiveDistinct()
    ensures Distinct(FiveShape())
  {
    var T := FiveShape();
    var L, R := T.kids[0], T.kids[1];
    assert Addrs(L) == {20} && Addrs(R) == {172} by {
      assert KidsAddrs(L.kids) == {} && KidsAddrs(R.kids) == {};
    }
    assert KidsAddrs(T.kids) == {20, 172};
  }

  lemma FiveKeys()
    ensures FiveTree().numKeys == |KeySet(FiveShape())|
  {
    FiveKeySet();
    FiveCount();
  }

  lemma FiveCount()
    ensures |{1, 2, 3, 4, 5}| == 5
  {
    assert |{1, 2}| == 2;
    assert |{1, 2, 3}| == 3;
    assert |{1, 2, 3, 4}| == 4;
  }

  lemma FiveKeySet()
    ensures KeySet(FiveShape()) == {1, 2, 3, 4, 5}
  {
    var T := FiveShape();
    var L, R := T.kids[0], T.kids[1];
    LeafEntries(L);
    LeafEntries(R);
    assert KidsEntries(T.kids) == Entries(L) + Entries(R);
    assert Entries(T) == {One(1), One(2), One(3), One(4), One(5)};
  }

  lemma LeafEntries(S: Shape)
    requires S.kids == []
    ensures Entries(S) == set e | e in S.keys
  {
    assert KidsEntries(S.kids) == {};
  }

  /** The tree after inserting 6 as written: the root took the promoted
      4 and the new right leaf at 248, 6 went into the left half at 172,
      and the cursor moved one slot on. */
  function SixTree(): (r: BTree)
    ensures Rooted(r)
  {
    BTree(2, 96, 324, 6, map[
      20 := Node(true, false, [One(1)], [-1, -1, -1, -1]),
      96 := Node(false, true, [One(2), One(4)], [20, 172, 248, -1]),
      172 := Node(true, false, [One(3), One(6)], [-1, -1, -1, -1]),
      248 := Node(true, false, [One(5)], [-1, -1, -1, -1])])
  }

  /** As written, inserting 6 splits the full right leaf and then puts 6
      into its lower half, left of the promoted 4. */
  lemma AsWrittenInsertsLeft()
    ensures InsertWith(AsWritten, FiveTree(), 6) == Success(SixTree())
  {
    var tr := FiveTree();
    var root, right := tr.store[96], tr.store[172];
    assert Search(tr, 6) == Success(None) by {
      assert ScanUp(root.keys, 6, 0) == 1;
      assert ScanUp(right.keys, 6, 0) == 3;
    }
    assert ScanDown(root.keys, 6, 0) == 1;
    var tr4 := SplitLeft();
    assert InsertNonfull(AsWritten, tr, 96, root, One(6), 3) == Success(tr4);
    assert tr4.(numKeys := 6) == SixTree();
  }

  /** The split and the descent into the left half, as written. */
  lemma SplitLeft() returns (tr4: BTree)
    ensures tr4.numKeys == 5
    ensures SplitThenDescend(AsWritten, FiveTree(), 96, FiveTree().store[96], 1, One(6), 3) == Success(tr4)
    ensures tr4.(numKeys := 6) == SixTree()
  {
    var tr := FiveTree();
    var root, right := tr.store[96], tr.store[172];
    var (tr2, x2) := SplitChild(tr, 96, root, 1);
    SplitChildEffect(tr, 96, root, 1);
    assert x2.keys == [One(2), One(4)] && x2.children[1] == 172;
    assert tr2.store[172].keys == [One(3)] && tr2.store[172].leaf;
    assert !DescendRight(AsWritten, 6, 4);
    tr4 := DiskWrite(tr2, 172, tr2.store[172].(keys := [One(3), One(6)]));
    assert ScanDown([One(3)], 6, 0) == 1;
    assert InsertAt([One(3)], 1, One(6)) == [One(3), One(6)];
    assert InsertNonfull(AsWritten, tr2, 172, tr2.store[172], One(6), 2) == Success(tr4);
    assert UpperHalf(2, right).children == [-1, -1, -1, -1];
    assert x2.children == [20, 172, 248, -1];
  }

  /** A search for 6 in that tree takes the branch right of 4 and reports
      it absent. */
  lemma SixMissing()
    ensures Search(SixTree(), 6) == Success(None)
  {
    var tr := SixTree();
    assert ScanUp(tr.store[96].keys, 6, 0) == 2;
    assert ScanUp(tr.store[248].keys, 6, 0) == 1;
  }

  /** As written, inserting 6 into the valid tree `FiveTree` succeeds, yet
      a search for 6 afterwards does not find it. */
  lemma AsWrittenLosesKey()
    ensures InsertWith(AsWritten, FiveTree(), 6) == Success(SixTree())
    ensures Search(SixTree(), 6) == Success(None)
  {
    hide *;
    AsWrittenInsertsLeft();
    SixMissing();
  }

  /** With the intended comparison the same insertion keeps the tree valid
      and a search finds 6. */
  lemma IntendedFindsKey() returns (tr': BTree)
    ensures Insert(FiveTree(), 6) == Success(tr') && Rooted(tr')
    ensures Search(tr', 6).Success? && Search(tr', 6).value.Some?
  {
    FiveValid();
    var T';
    tr', T' := InsertCorrect(FiveTree(), FiveShape(), 6);
    ValidRooted(tr', T');
  }
}
