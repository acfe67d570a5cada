/** What `split_child` does to the ghost shape of a tree: a full kid is cut
    at its median into a lower and an upper half, the median moves up into
    the parent, and the B-tree invariant, the entries and the separation of
    nodes all survive. */
module Splitting {
  import opened Base
  import opened Nodes
  import opened Engine
  import opened Shapes

  /** A full node of degree `t`: `2t-1` keys and, when internal, `2t` kids. */
  ghost predicate FullShape(Y: Shape, t: int)
  {
    2 <= t && |Y.keys| == 2 * t - 1 && (Y.kids == [] || |Y.kids| == 2 * t)
  }

  /** The part of a full node that stays where it was: `t-1` keys, `t` kids. */
  ghost function LowerShape(Y: Shape, t: int): Shape
    requires FullShape(Y, t)
  {
    Shape(Y.addr, Y.keys[..t - 1], if Y.kids == [] then [] else Y.kids[..t])
  }

  /** The part of a full node that moves to the new node at `za`. */
  ghost function UpperShape(Y: Shape, t: int, za: int): Shape
    requires FullShape(Y, t)
  {
    Shape(za, Y.keys[t..], if Y.kids == [] then [] else Y.kids[t..])
  }

  /** The parent after its kid `i` is split, the new node at `za`. */
  ghost function SplitShape(X: Shape, t: int, i: nat, za: int): Shape
    requires i < |X.kids| && i <= |X.keys| && FullShape(X.kids[i], t)
  {
    var Y := X.kids[i];
    Shape(X.addr, InsertAt(X.keys, i, Y.keys[t - 1]),
          X.kids[..i] + [LowerShape(Y, t), UpperShape(Y, t, za)] + X.kids[i + 1..])
  }

  /** An internal node that keeps the invariant except that it may have no
      key: the new root of `insert` before its only kid is split. */
  ghost predicate Parent(X: Shape, t: int, h: int, lo: int, hi: int, isRoot: bool)
  {
    && h > 1
    && |X.keys| <= 2 * t - 1
    && (!isRoot ==> t - 1 <= |X.keys|)
    && Ascending(X.keys)
    && (forall j :: 0 <= j < |X.keys| ==> lo < X.keys[j].key < hi)
    && |X.kids| == |X.keys| + 1
    && forall j :: 0 <= j < |X.kids| ==>
         BInv(X.kids[j], t, h - 1, Lo(X.keys, lo, j), Hi(X.keys, hi, j), false)
  }

  lemma ParentOfBInv(X: Shape, t: int, h: int, lo: int, hi: int, isRoot: bool)
    requires BInv(X, t, h, lo, hi, isRoot) && X.kids != []
    ensures Parent(X, t, h, lo, hi, isRoot)
  {
  }

  /** A full tree keeps the invariant as a non-root: the root's exemption
      from the minimum is not needed at `2t-1` keys. */
  lemma {:induction false} FullAsKid(Y: Shape, t: int, h: int, lo: int, hi: int, isRoot: bool)
    requires BInv(Y, t, h, lo, hi, isRoot) && |Y.keys| == 2 * t - 1
    ensures BInv(Y, t, h, lo, hi, false)
  {
  }

  /** Inserting `e` between its neighbours keeps keys strictly ascending. */
  lemma AscendingInsert(keys: seq<Entry>, i: nat, e: Entry)
    requires Ascending(keys) && i <= |keys|
    requires i > 0 ==> keys[i - 1].key < e.key
    requires i < |keys| ==> e.key < keys[i].key
    ensures Ascending(InsertAt(keys, i, e))
  {
    var r := InsertAt(keys, i, e);
    InsertAtIndex(keys, i, e);
    forall a, b | 0 <= a < b < |r|
      ensures Below(r, a, b)
    {
      if b < i {
        assert Below(keys, a, b);
      } else if b == i {
        if a < i - 1 {
          assert Below(keys, a, i - 1);
        }
      } else if a == i {
        if i < b - 1 {
          assert Below(keys, i, b - 1);
        }
      } else if a < i {
        assert Below(keys, a, b - 1);
      } else {
        assert Below(keys, a - 1, b - 1);
      }
    }
  }

  /** The lower half of a full subtree keeps the invariant below the median. */
  lemma LowerInv(Y: Shape, t: int, h: int, lo: int, hi: int, isRoot: bool)
    requires BInv(Y, t, h, lo, hi, isRoot) && |Y.keys| == 2 * t - 1 && 2 <= t
    ensures FullShape(Y, t)
    ensures BInv(LowerShape(Y, t), t, h, lo, Y.keys[t - 1].key, false)
  {
    var L := LowerShape(Y, t);
    var m := Y.keys[t - 1].key;
    AscendingSlice(Y.keys, 0, t - 1);
    forall j | 0 <= j < |L.keys|
      ensures lo < L.keys[j].key < m
    {
      assert L.keys[j] == Y.keys[j];
      assert Below(Y.keys, j, t - 1);
    }
    forall j | 0 <= j < |L.kids|
      ensures BInv(L.kids[j], t, h - 1, Lo(L.keys, lo, j), Hi(L.keys, m, j), false)
    {
      assert L.kids[j] == Y.kids[j];
      assert Lo(L.keys, lo, j) == Lo(Y.keys, lo, j);
      assert Hi(L.keys, m, j) == Hi(Y.keys, hi, j);
    }
  }

  /** The upper half of a full subtree keeps the invariant above the median. */
  lemma UpperInv(Y: Shape, t: int, h: int, lo: int, hi: int, isRoot: bool, za: int)
    requires BInv(Y, t, h, lo, hi, isRoot) && |Y.keys| == 2 * t - 1 && 2 <= t
    ensures FullShape(Y, t)
    ensures BInv(UpperShape(Y, t, za), t, h, Y.keys[t - 1].key, hi, false)
  {
    var U := UpperShape(Y, t, za);
    var m := Y.keys[t - 1].key;
    AscendingSlice(Y.keys, t, |Y.keys|);
    assert Y.keys[t..|Y.keys|] == Y.keys[t..];
    forall j | 0 <= j < |U.keys|
      ensures m < U.keys[j].key < hi
    {
      assert U.keys[j] == Y.keys[t + j];
      assert Below(Y.keys, t - 1, t + j);
    }
    forall j | 0 <= j < |U.kids|
      ensures BInv(U.kids[j], t, h - 1, Lo(U.keys, m, j), Hi(U.keys, hi, j), false)
    {
      assert U.kids[j] == Y.kids[t + j];
      assert Lo(U.keys, m, j) == Lo(Y.keys, lo, t + j);
      assert Hi(U.keys, hi, j) == Hi(Y.keys, hi, t + j);
    }
  }

  /** The median of a full kid lies strictly inside the kid's bounds. */
  lemma MedianBounds(X: Shape, t: int, h: int, lo: int, hi: int, isRoot: bool, i: nat)
    requires Parent(X, t, h, lo, hi, isRoot) && i <= |X.keys| && |X.kids[i].keys| == 2 * t - 1 && 2 <= t
    ensures FullShape(X.kids[i], t)
    ensures Lo(X.keys, lo, i) < X.kids[i].keys[t - 1].key < Hi(X.keys, hi, i)
    ensures lo <= Lo(X.keys, lo, i) && Hi(X.keys, hi, i) <= hi
  {
    var Y := X.kids[i];
    assert BInv(Y, t, h - 1, Lo(X.keys, lo, i), Hi(X.keys, hi, i), false);
  }

  /** What the lemmas about one kid of a split parent assume. */
  ghost predicate SplitReady(X: Shape, t: int, h: int, lo: int, hi: int, isRoot: bool, i: nat)
  {
    Parent(X, t, h, lo, hi, isRoot) && i <= |X.keys| && |X.kids[i].keys| == 2 * t - 1 && 2 <= t
  }

  /** Every kid of the split parent keeps the invariant within its new bounds. */
  lemma SplitKidInv(X: Shape, t: int, h: int, lo: int, hi: int, isRoot: bool, i: nat, za: int, j: int)
    requires SplitReady(X, t, h, lo, hi, isRoot, i) && 0 <= j <= |X.kids|
    ensures FullShape(X.kids[i], t)
    ensures var X2 := SplitShape(X, t, i, za);
      BInv(X2.kids[j], t, h - 1, Lo(X2.keys, lo, j), Hi(X2.keys, hi, j), false)
  {
    MedianBounds(X, t, h, lo, hi, isRoot, i);
    if j < i {
      SplitKidBefore(X, t, h, lo, hi, isRoot, i, za, j);
    } else if j == i {
      SplitKidLower(X, t, h, lo, hi, isRoot, i, za);
    } else if j == i + 1 {
      SplitKidUpper(X, t, h, lo, hi, isRoot, i, za);
    } else {
      SplitKidAfter(X, t, h, lo, hi, isRoot, i, za, j);
    }
  }

  lemma SplitKidBefore(X: Shape, t: int, h: int, lo: int, hi: int, isRoot: bool, i: nat, za: int, j: int)
    requires SplitReady(X, t, h, lo, hi, isRoot, i) && 0 <= j < i && FullShape(X.kids[i], t)
    ensures var X2 := SplitShape(X, t, i, za);
      BInv(X2.kids[j], t, h - 1, Lo(X2.keys, lo, j), Hi(X2.keys, hi, j), false)
  {
    var X2 := SplitShape(X, t, i, za);
    assert X2.kids[j] == X.kids[j];
    assert Lo(X2.keys, lo, j) == Lo(X.keys, lo, j);
    assert Hi(X2.keys, hi, j) == Hi(X.keys, hi, j);
  }

  lemma SplitKidLower(X: Shape, t: int, h: int, lo: int, hi: int, isRoot: bool, i: nat, za: int)
    requires SplitReady(X, t, h, lo, hi, isRoot, i) && FullShape(X.kids[i], t)
    ensures var X2 := SplitShape(X, t, i, za);
      BInv(X2.kids[i], t, h - 1, Lo(X2.keys, lo, i), Hi(X2.keys, hi, i), false)
  {
    var Y := X.kids[i];
    var X2 := SplitShape(X, t, i, za);
    var lo' := Lo(X.keys, lo, i);
    assert BInv(Y, t, h - 1, lo', Hi(X.keys, hi, i), false);
    LowerInv(Y, t, h - 1, lo', Hi(X.keys, hi, i), false);
    assert X2.kids[i] == LowerShape(Y, t);
    assert Lo(X2.keys, lo, i) == lo';
    assert Hi(X2.keys, hi, i) == Y.keys[t - 1].key;
  }

  lemma SplitKidUpper(X: Shape, t: int, h: int, lo: int, hi: int, isRoot: bool, i: nat, za: int)
    requires SplitReady(X, t, h, lo, hi, isRoot, i) && FullShape(X.kids[i], t)
    ensures var X2 := SplitShape(X, t, i, za);
      BInv(X2.kids[i + 1], t, h - 1, Lo(X2.keys, lo, i + 1), Hi(X2.keys, hi, i + 1), false)
  {
    var Y := X.kids[i];
    var X2 := SplitShape(X, t, i, za);
    var hi' := Hi(X.keys, hi, i);
    assert BInv(Y, t, h - 1, Lo(X.keys, lo, i), hi', false);
    UpperInv(Y, t, h - 1, Lo(X.keys, lo, i), hi', false, za);
    assert X2.kids[i + 1] == UpperShape(Y, t, za);
    assert Lo(X2.keys, lo, i + 1) == Y.keys[t - 1].key;
    assert Hi(X2.keys, hi, i + 1) == hi';
  }

  lemma SplitKidAfter(X: Shape, t: int, h: int, lo: int, hi: int, isRoot: bool, i: nat, za: int, j: int)
    requires SplitReady(X, t, h, lo, hi, isRoot, i) && i + 1 < j <= |X.kids| && FullShape(X.kids[i], t)
    ensures var X2 := SplitShape(X, t, i, za);
      BInv(X2.kids[j], t, h - 1, Lo(X2.keys, lo, j), Hi(X2.keys, hi, j), false)
  {
    var X2 := SplitShape(X, t, i, za);
    assert X2.kids[j] == X.kids[j - 1];
    assert Lo(X2.keys, lo, j) == Lo(X.keys, lo, j - 1);
    assert Hi(X2.keys, hi, j) == Hi(X.keys, hi, j - 1);
  }

  /** `split_child` keeps the parent's invariant: one more key, one more
      kid, the median between its neighbours. */
  lemma ParentInv(X: Shape, t: int, h: int, lo: int, hi: int, isRoot: bool, i: nat, za: int)
    requires Parent(X, t, h, lo, hi, isRoot) && i <= |X.keys| && 2 <= t
    requires |X.keys| < 2 * t - 1 && |X.kids[i].keys| == 2 * t - 1
    ensures FullShape(X.kids[i], t)
    ensures BInv(SplitShape(X, t, i, za), t, h, lo, hi, isRoot)
  {
    var X2 := SplitShape(X, t, i, za);
    var m := X.kids[i].keys[t - 1];
    MedianBounds(X, t, h, lo, hi, isRoot, i);
    AscendingInsert(X.keys, i, m);
    forall j | 0 <= j < |X2.keys|
      ensures lo < X2.keys[j].key < hi
    {
      if j > i {
        assert X2.keys[j] == X.keys[j - 1];
      }
    }
    assert SplitReady(X, t, h, lo, hi, isRoot, i);
    forall j | 0 <= j < |X2.kids|
      ensures BInv(X2.kids[j], t, h - 1, Lo(X2.keys, lo, j), Hi(X2.keys, hi, j), false)
    {
      SplitKidInv(X, t, h, lo, hi, isRoot, i, za, j);
    }
  }

  /** Cutting a full node loses no entry: the entries of a full node are
      the two halves' and the median. */
  lemma HalvesEntries(Y: Shape, t: int, za: int)
    requires FullShape(Y, t)
    ensures Entries(LowerShape(Y, t)) + {Y.keys[t - 1]} + Entries(UpperShape(Y, t, za)) == Entries(Y)
  {
    var L, U := LowerShape(Y, t), UpperShape(Y, t, za);
    forall e | e in Entries(Y)
      ensures e in Entries(L) || e == Y.keys[t - 1] || e in Entries(U)
    {
      var j := EntryWhere(Y, e);
      if j == -1 {
        var k :| 0 <= k < |Y.keys| && Y.keys[k] == e;
        if k < t - 1 {
          assert L.keys[k] == e;
        } else if k >= t {
          assert U.keys[k - t] == e;
        }
      } else if j < t {
        assert L.kids[j] == Y.kids[j];
        InKids(L.kids, j, e);
      } else {
        assert U.kids[j - t] == Y.kids[j];
        InKids(U.kids, j - t, e);
      }
    }
    forall e | e in Entries(L)
      ensures e in Entries(Y)
    {
      var j := EntryWhere(L, e);
      if j >= 0 {
        assert L.kids[j] == Y.kids[j];
        InKids(Y.kids, j, e);
      }
    }
    forall e | e in Entries(U)
      ensures e in Entries(Y)
    {
      var j := EntryWhere(U, e);
      if j >= 0 {
        assert U.kids[j] == Y.kids[t + j];
        InKids(Y.kids, t + j, e);
      }
    }
  }

  /** Cutting a full node keeps its address for the lower half and adds
      `za` for the upper one. */
  lemma HalvesAddrs(Y: Shape, t: int, za: int)
    requires FullShape(Y, t)
    ensures Addrs(LowerShape(Y, t)) + Addrs(UpperShape(Y, t, za)) == Addrs(Y) + {za}
  {
    var L, U := LowerShape(Y, t), UpperShape(Y, t, za);
    forall a | a in KidsAddrs(Y.kids)
      ensures a in KidsAddrs(L.kids) || a in KidsAddrs(U.kids)
    {
      var j :| 0 <= j < |Y.kids| && a in Addrs(Y.kids[j]);
      if j < t {
        assert L.kids[j] == Y.kids[j];
        InKidsAddr(L.kids, j, a);
      } else {
        assert U.kids[j - t] == Y.kids[j];
        InKidsAddr(U.kids, j - t, a);
      }
    }
    forall a | a in KidsAddrs(L.kids)
      ensures a in KidsAddrs(Y.kids)
    {
      var j :| 0 <= j < |L.kids| && a in Addrs(L.kids[j]);
      assert L.kids[j] == Y.kids[j];
      InKidsAddr(Y.kids, j, a);
    }
    forall a | a in KidsAddrs(U.kids)
      ensures a in KidsAddrs(Y.kids)
    {
      var j :| 0 <= j < |U.kids| && a in Addrs(U.kids[j]);
      assert U.kids[j] == Y.kids[t + j];
      InKidsAddr(Y.kids, t + j, a);
    }
  }

  lemma InKids(ks: seq<Shape>, j: int, e: Entry)
    requires 0 <= j < |ks| && e in Entries(ks[j])
    ensures e in KidsEntries(ks)
  {
  }

  lemma InKidsAddr(ks: seq<Shape>, j: int, a: int)
    requires 0 <= j < |ks| && a in Addrs(ks[j])
    ensures a in KidsAddrs(ks)
  {
  }

  /** Kid `j` of the split parent, named by where it came from. */
  lemma SplitKid(X: Shape, t: int, i: nat, za: int, j: int)
    requires i < |X.kids| && i <= |X.keys| && FullShape(X.kids[i], t) && 0 <= j <= |X.kids|
    ensures var k := SplitShape(X, t, i, za).kids[j];
      && (j < i ==> k == X.kids[j])
      && (j == i ==> k == LowerShape(X.kids[i], t))
      && (j == i + 1 ==> k == UpperShape(X.kids[i], t, za))
      && (j > i + 1 ==> k == X.kids[j - 1])
  {
  }

  /** The split parent holds the same entries. */
  lemma SplitEntries(X: Shape, t: int, i: nat, za: int)
    requires i < |X.kids| && i <= |X.keys| && FullShape(X.kids[i], t)
    ensures Entries(SplitShape(X, t, i, za)) == Entries(X)
  {
    SplitEntriesSub(X, t, i, za);
    SplitEntriesSup(X, t, i, za);
  }

  lemma SplitEntriesSub(X: Shape, t: int, i: nat, za: int)
    requires i < |X.kids| && i <= |X.keys| && FullShape(X.kids[i], t)
    ensures Entries(SplitShape(X, t, i, za)) <= Entries(X)
  {
    var Y := X.kids[i];
    var X2 := SplitShape(X, t, i, za);
    var m := Y.keys[t - 1];
    HalvesEntries(Y, t, za);
    forall e | e in Entries(X2)
      ensures e in Entries(X)
    {
      var j := EntryWhere(X2, e);
      if j == -1 {
        var k :| 0 <= k < |X2.keys| && X2.keys[k] == e;
        if k < i {
          assert X.keys[k] == e;
        } else if k == i {
          InKids(X.kids, i, e);
        } else {
          assert X.keys[k - 1] == e;
        }
      } else {
        SplitKid(X, t, i, za, j);
        if j < i {
          InKids(X.kids, j, e);
        } else if j <= i + 1 {
          InKids(X.kids, i, e);
        } else {
          InKids(X.kids, j - 1, e);
        }
      }
    }
  }

  lemma SplitEntriesSup(X: Shape, t: int, i: nat, za: int)
    requires i < |X.kids| && i <= |X.keys| && FullShape(X.kids[i], t)
    ensures Entries(X) <= Entries(SplitShape(X, t, i, za))
  {
    forall e | e in Entries(X)
      ensures e in Entries(SplitShape(X, t, i, za))
    {
      var j := EntryWhere(X, e);
      if j == -1 {
        var k :| 0 <= k < |X.keys| && X.keys[k] == e;
        SplitKeepsKey(X, t, i, za, k);
      } else {
        SplitKeepsKidEntry(X, t, i, za, j, e);
      }
    }
  }

  /** A key of the parent stays a key of the split parent. */
  lemma SplitKeepsKey(X: Shape, t: int, i: nat, za: int, k: int)
    requires i < |X.kids| && i <= |X.keys| && FullShape(X.kids[i], t) && 0 <= k < |X.keys|
    ensures X.keys[k] in Entries(SplitShape(X, t, i, za))
  {
    var X2 := SplitShape(X, t, i, za);
    InsertAtIndex(X.keys, i, X.kids[i].keys[t - 1]);
    if k < i {
      assert X2.keys[k] == X.keys[k];
    } else {
      assert X2.keys[k + 1] == X.keys[k];
    }
  }

  /** An entry under kid `j` of the parent stays under the split parent:
      under the same kid, one of the halves, or as the promoted median. */
  lemma SplitKeepsKidEntry(X: Shape, t: int, i: nat, za: int, j: int, e: Entry)
    requires i < |X.kids| && i <= |X.keys| && FullShape(X.kids[i], t)
    requires 0 <= j < |X.kids| && e in Entries(X.kids[j])
    ensures e in Entries(SplitShape(X, t, i, za))
  {
    var Y := X.kids[i];
    var X2 := SplitShape(X, t, i, za);
    if j < i {
      SplitKid(X, t, i, za, j);
      InKids(X2.kids, j, e);
    } else if j == i {
      HalvesEntries(Y, t, za);
      SplitKid(X, t, i, za, i);
      SplitKid(X, t, i, za, i + 1);
      if e == Y.keys[t - 1] {
        assert X2.keys[i] == e;
      } else if e in Entries(LowerShape(Y, t)) {
        InKids(X2.kids, i, e);
      } else {
        InKids(X2.kids, i + 1, e);
      }
    } else {
      SplitKid(X, t, i, za, j + 1);
      InKids(X2.kids, j + 1, e);
    }
  }

  /** The split parent has one more address: the new node's. */
  lemma SplitAddrs(X: Shape, t: int, i: nat, za: int)
    requires i < |X.kids| && i <= |X.keys| && FullShape(X.kids[i], t)
    ensures Addrs(SplitShape(X, t, i, za)) == Addrs(X) + {za}
    ensures KidsAddrs(SplitShape(X, t, i, za).kids) <= KidsAddrs(X.kids) + {za}
  {
    SplitKidsAddrsSub(X, t, i, za);
    SplitKidsAddrsSup(X, t, i, za);
  }

  lemma SplitKidsAddrsSub(X: Shape, t: int, i: nat, za: int)
    requires i < |X.kids| && i <= |X.keys| && FullShape(X.kids[i], t)
    ensures KidsAddrs(SplitShape(X, t, i, za).kids) <= KidsAddrs(X.kids) + {za}
  {
    var X2 := SplitShape(X, t, i, za);
    HalvesAddrs(X.kids[i], t, za);
    forall a | a in KidsAddrs(X2.kids)
      ensures a in KidsAddrs(X.kids) + {za}
    {
      var j :| 0 <= j < |X2.kids| && a in Addrs(X2.kids[j]);
      SplitKid(X, t, i, za, j);
      if j < i {
        InKidsAddr(X.kids, j, a);
      } else if j <= i + 1 {
        if a != za {
          InKidsAddr(X.kids, i, a);
        }
      } else {
        InKidsAddr(X.kids, j - 1, a);
      }
    }
  }

  lemma SplitKidsAddrsSup(X: Shape, t: int, i: nat, za: int)
    requires i < |X.kids| && i <= |X.keys| && FullShape(X.kids[i], t)
    ensures KidsAddrs(X.kids) + {za} <= KidsAddrs(SplitShape(X, t, i, za).kids)
  {
    var Y := X.kids[i];
    var X2 := SplitShape(X, t, i, za);
    HalvesAddrs(Y, t, za);
    forall a | a in KidsAddrs(X.kids)
      ensures a in KidsAddrs(X2.kids)
    {
      var j :| 0 <= j < |X.kids| && a in Addrs(X.kids[j]);
      if j < i {
        SplitKid(X, t, i, za, j);
        InKidsAddr(X2.kids, j, a);
      } else if j == i {
        SplitKid(X, t, i, za, i);
        SplitKid(X, t, i, za, i + 1);
        if a in Addrs(LowerShape(Y, t)) {
          InKidsAddr(X2.kids, i, a);
        } else {
          InKidsAddr(X2.kids, i + 1, a);
        }
      } else {
        SplitKid(X, t, i, za, j + 1);
        InKidsAddr(X2.kids, j + 1, a);
      }
    }
    SplitKid(X, t, i, za, i + 1);
    InKidsAddr(X2.kids, i + 1, za);
  }

  /** The lower half of a node without shared addresses has none either. */
  lemma LowerDistinct(Y: Shape, t: int)
    requires FullShape(Y, t) && Distinct(Y)
    ensures Distinct(LowerShape(Y, t))
    ensures KidsAddrs(LowerShape(Y, t).kids) <= KidsAddrs(Y.kids)
  {
    var L := LowerShape(Y, t);
    forall a | a in KidsAddrs(L.kids)
      ensures a in KidsAddrs(Y.kids)
    {
      var j :| 0 <= j < |L.kids| && a in Addrs(L.kids[j]);
      assert L.kids[j] == Y.kids[j];
      InKidsAddr(Y.kids, j, a);
    }
    forall a, b | 0 <= a < b < |L.kids|
      ensures Addrs(L.kids[a]) !! Addrs(L.kids[b])
    {
      assert L.kids[a] == Y.kids[a] && L.kids[b] == Y.kids[b];
    }
    forall j | 0 <= j < |L.kids|
      ensures Distinct(L.kids[j])
    {
      assert L.kids[j] == Y.kids[j];
    }
  }

  /** The upper half, at a fresh address, has no shared addresses. */
  lemma UpperDistinct(Y: Shape, t: int, za: int)
    requires FullShape(Y, t) && Distinct(Y) && za !in Addrs(Y)
    ensures Distinct(UpperShape(Y, t, za))
    ensures KidsAddrs(UpperShape(Y, t, za).kids) <= KidsAddrs(Y.kids)
  {
    var U := UpperShape(Y, t, za);
    forall a | a in KidsAddrs(U.kids)
      ensures a in KidsAddrs(Y.kids)
    {
      var j :| 0 <= j < |U.kids| && a in Addrs(U.kids[j]);
      assert U.kids[j] == Y.kids[t + j];
      InKidsAddr(Y.kids, t + j, a);
    }
    forall a, b | 0 <= a < b < |U.kids|
      ensures Addrs(U.kids[a]) !! Addrs(U.kids[b])
    {
      assert U.kids[a] == Y.kids[t + a] && U.kids[b] == Y.kids[t + b];
    }
    forall j | 0 <= j < |U.kids|
      ensures Distinct(U.kids[j])
    {
      assert U.kids[j] == Y.kids[t + j];
    }
  }

  /** The two halves share no address. */
  lemma HalvesDisjoint(Y: Shape, t: int, za: int)
    requires FullShape(Y, t) && Distinct(Y) && za !in Addrs(Y)
    ensures Addrs(LowerShape(Y, t)) !! Addrs(UpperShape(Y, t, za))
    ensures Addrs(LowerShape(Y, t)) <= Addrs(Y) && Addrs(UpperShape(Y, t, za)) <= Addrs(Y) + {za}
  {
    var L, U := LowerShape(Y, t), UpperShape(Y, t, za);
    LowerDistinct(Y, t);
    UpperDistinct(Y, t, za);
    forall a | a in KidsAddrs(L.kids)
      ensures a !in KidsAddrs(U.kids)
    {
      var p :| 0 <= p < |L.kids| && a in Addrs(L.kids[p]);
      assert L.kids[p] == Y.kids[p];
      forall q | 0 <= q < |U.kids|
        ensures a !in Addrs(U.kids[q])
      {
        assert U.kids[q] == Y.kids[t + q];
        assert Addrs(Y.kids[p]) !! Addrs(Y.kids[t + q]);
      }
    }
  }

  /** What the lemmas about the separation of a split parent assume. */
  ghost predicate SplitFresh(X: Shape, t: int, i: nat, za: int)
  {
    i < |X.kids| && i <= |X.keys| && FullShape(X.kids[i], t) && Distinct(X) && za !in Addrs(X)
  }

  /** Where the addresses of kid `j` of the split parent come from. */
  lemma SplitKidCover(X: Shape, t: int, i: nat, za: int, j: int)
    requires SplitFresh(X, t, i, za) && 0 <= j <= |X.kids|
    ensures var A := Addrs(SplitShape(X, t, i, za).kids[j]);
      && (j < i ==> A <= Addrs(X.kids[j]))
      && (j == i ==> A <= Addrs(X.kids[i]))
      && (j == i + 1 ==> A <= Addrs(X.kids[i]) + {za})
      && (j > i + 1 ==> A <= Addrs(X.kids[j - 1]))
  {
    SplitKid(X, t, i, za, j);
    KidAddrs(X, i);
    HalvesDisjoint(X.kids[i], t, za);
  }

  /** Two kids of the split parent share no address. */
  lemma SplitPairDisjoint(X: Shape, t: int, i: nat, za: int, p: int, q: int)
    requires SplitFresh(X, t, i, za) && 0 <= p < q <= |X.kids|
    ensures var X2 := SplitShape(X, t, i, za); Addrs(X2.kids[p]) !! Addrs(X2.kids[q])
  {
    var X2 := SplitShape(X, t, i, za);
    SplitKidCover(X, t, i, za, p);
    SplitKidCover(X, t, i, za, q);
    if p == i && q == i + 1 {
      KidAddrs(X, i);
      SplitKid(X, t, i, za, p);
      SplitKid(X, t, i, za, q);
      HalvesDisjoint(X.kids[i], t, za);
    } else {
      var p' := if p <= i then p else p - 1;
      var q' := if q <= i then q else q - 1;
      assert p' < q';
      KidAddrs(X, p');
      KidAddrs(X, q');
      assert Addrs(X.kids[p']) !! Addrs(X.kids[q']);
    }
  }

  /** `split_child` into a fresh address keeps every address used once. */
  lemma SplitDistinct(X: Shape, t: int, i: nat, za: int)
    requires SplitFresh(X, t, i, za)
    ensures Distinct(SplitShape(X, t, i, za))
  {
    var Y := X.kids[i];
    var X2 := SplitShape(X, t, i, za);
    KidAddrs(X, i);
    SplitAddrs(X, t, i, za);
    forall p, q | 0 <= p < q < |X2.kids|
      ensures Addrs(X2.kids[p]) !! Addrs(X2.kids[q])
    {
      SplitPairDisjoint(X, t, i, za, p, q);
    }
    forall j | 0 <= j < |X2.kids|
      ensures Distinct(X2.kids[j])
    {
      SplitKid(X, t, i, za, j);
      if j == i {
        LowerDistinct(Y, t);
      } else if j == i + 1 {
        UpperDistinct(Y, t, za);
      }
    }
  }

  /** The record `Raise` builds is the split parent's node. */
  lemma RaiseMatches(t: int, x: Node, X: Shape, isRoot: bool, i: nat, za: Int64)
    requires Degree(t) && NodeMatches(x, t, X, isRoot)
    requires |X.keys| < 2 * t - 1 && |X.kids| == |X.keys| + 1 && i <= |X.keys| && FullShape(X.kids[i], t)
    ensures NodeMatches(Raise(t, x, i, X.kids[i].keys[t - 1], za), t, SplitShape(X, t, i, za), isRoot)
  {
    var X2 := SplitShape(X, t, i, za);
    var x2 := Raise(t, x, i, X.kids[i].keys[t - 1], za);
    RaiseChildren(t, x, i, X.kids[i].keys[t - 1], za);
    forall j | 0 <= j < |X2.kids|
      ensures x2.children[j] == X2.kids[j].addr
    {
      SplitKid(X, t, i, za, j);
    }
  }

  /** The record `LowerHalf` builds is the lower half's node. */
  lemma LowerMatches(t: int, y: Node, Y: Shape)
    requires Degree(t) && NodeMatches(y, t, Y, false) && FullShape(Y, t)
    ensures NodeMatches(LowerHalf(t, y), t, LowerShape(Y, t), false)
  {
    HalvesChildren(t, y);
  }

  /** The record `UpperHalf` builds is the upper half's node. */
  lemma UpperMatches(t: int, y: Node, Y: Shape, za: int)
    requires Degree(t) && NodeMatches(y, t, Y, false) && FullShape(Y, t)
    ensures NodeMatches(UpperHalf(t, y), t, UpperShape(Y, t, za), false)
  {
    var U := UpperShape(Y, t, za);
    var z := UpperHalf(t, y);
    HalvesChildren(t, y);
    forall j | 0 <= j < |U.kids|
      ensures z.children[j] == U.kids[j].addr
    {
      assert U.kids[j] == Y.kids[t + j];
    }
  }

  /** Every slot of `s` outside `bad` is still in `s'`, unchanged. */
  ghost predicate Unchanged(s: Store, s': Store, bad: set<int>)
  {
    forall b :: b in s && b !in bad ==> b in s' && s'[b] == s[b]
  }

  /** A subtree none of whose nodes was overwritten stays laid out. */
  lemma KidFrame(s: Store, s': Store, t: int, K: Shape, bad: set<int>)
    requires Layout(s, t, K, false) && Addrs(K) !! bad && Unchanged(s, s', bad)
    ensures Layout(s', t, K, false)
  {
    AddrsInStore(s, t, K, false);
    LayoutFrame(s, s', t, K, false);
  }

  /** What a split of kid `i` of `X` may overwrite: the parent, the kid,
      and the fresh slot `za`, which is outside the tree. */
  ghost predicate SplitFrame(s: Store, s': Store, X: Shape, i: nat, za: int)
    requires i < |X.kids|
  {
    Distinct(X) && za !in Addrs(X) && Unchanged(s, s', {X.addr, X.kids[i].addr, za})
  }

  /** A kid other than the split one keeps its layout. */
  lemma OtherKidFrame(s: Store, s': Store, t: int, X: Shape, i: nat, za: int, k: nat)
    requires i < |X.kids| && k < |X.kids| && k != i
    requires Layout(s, t, X.kids[k], false) && SplitFrame(s, s', X, i, za)
    ensures Layout(s', t, X.kids[k], false)
  {
    KidAddrs(X, k);
    assert X.kids[i].addr in Addrs(X.kids[i]);
    if k < i {
      assert Addrs(X.kids[k]) !! Addrs(X.kids[i]);
    } else {
      assert Addrs(X.kids[i]) !! Addrs(X.kids[k]);
    }
    KidFrame(s, s', t, X.kids[k], {X.addr, X.kids[i].addr, za});
  }

  /** A kid of the split kid keeps its layout. */
  lemma GrandkidFrame(s: Store, s': Store, t: int, X: Shape, i: nat, za: int, q: nat)
    requires i < |X.kids| && q < |X.kids[i].kids|
    requires Layout(s, t, X.kids[i], false) && SplitFrame(s, s', X, i, za)
    ensures Layout(s', t, X.kids[i].kids[q], false)
  {
    KidAddrs(X, i);
    assert Distinct(X.kids[i]);
    KidAddrs(X.kids[i], q);
    KidFrame(s, s', t, X.kids[i].kids[q], {X.addr, X.kids[i].addr, za});
  }

  /** The lower half, written over the full kid, is laid out. */
  lemma LowerLayout(s: Store, s': Store, t: int, X: Shape, i: nat, za: int)
    requires i < |X.kids| && FullShape(X.kids[i], t)
    requires Layout(s, t, X.kids[i], false) && SplitFrame(s, s', X, i, za)
    requires X.kids[i].addr in s' && NodeMatches(s'[X.kids[i].addr], t, LowerShape(X.kids[i], t), false)
    ensures Layout(s', t, LowerShape(X.kids[i], t), false)
  {
    var L := LowerShape(X.kids[i], t);
    forall q | 0 <= q < |L.kids|
      ensures Layout(s', t, L.kids[q], false)
    {
      GrandkidFrame(s, s', t, X, i, za, q);
    }
  }

  /** The upper half, written at the fresh slot, is laid out. */
  lemma UpperLayout(s: Store, s': Store, t: int, X: Shape, i: nat, za: int)
    requires i < |X.kids| && FullShape(X.kids[i], t)
    requires Layout(s, t, X.kids[i], false) && SplitFrame(s, s', X, i, za)
    requires za in s' && NodeMatches(s'[za], t, UpperShape(X.kids[i], t, za), false)
    ensures Layout(s', t, UpperShape(X.kids[i], t, za), false)
  {
    var U := UpperShape(X.kids[i], t, za);
    forall q | 0 <= q < |U.kids|
      ensures Layout(s', t, U.kids[q], false)
    {
      assert U.kids[q] == X.kids[i].kids[t + q];
      GrandkidFrame(s, s', t, X, i, za, t + q);
    }
  }

  /** What `split_child(x, i)` needs to keep the arena laid out: `x` is
      the node `X` (not full, internal), its kid `i` is full, its kids are
      laid out, no address repeats, and the cursor's slot is free. */
  ghost predicate SplitSite(tr: BTree, x: Node, X: Shape, isRoot: bool, i: nat)
  {
    && Wf(tr) && NodeMatches(x, tr.t, X, isRoot)
    && |X.keys| < 2 * tr.t - 1 && |X.kids| == |X.keys| + 1 && i <= |X.keys|
    && FullShape(X.kids[i], tr.t)
    && (forall j :: 0 <= j < |X.kids| ==> Layout(tr.store, tr.t, X.kids[j], false))
    && Distinct(X) && tr.next !in tr.store && tr.next !in Addrs(X) && tr.next <= MaxInt64
    && x.children[i] in tr.store && |tr.store[x.children[i]].keys| == 2 * tr.t - 1
  }

  /** The three records `split_child` writes, in terms of the shapes. */
  lemma SplitNodes(tr: BTree, x: Node, X: Shape, isRoot: bool, i: nat)
    requires SplitSite(tr, x, X, isRoot, i)
    ensures var s' := SplitChild(tr, X.addr, x, i).0.store;
      var Y := X.kids[i];
      && Y.addr in tr.store && NodeMatches(tr.store[Y.addr], tr.t, Y, false)
      && X.addr in s' && s'[X.addr] == Raise(tr.t, x, i, Y.keys[tr.t - 1], tr.next)
      && Y.addr in s' && s'[Y.addr] == LowerHalf(tr.t, tr.store[Y.addr])
      && tr.next in s' && s'[tr.next] == UpperHalf(tr.t, tr.store[Y.addr])
      && SplitFrame(tr.store, s', X, i, tr.next)
  {
    var Y := X.kids[i];
    assert x.children[i] == Y.addr;
    SplitChildEffect(tr, X.addr, x, i);
    KidAddrs(X, i);
    assert Y.addr in Addrs(Y);
  }

  /** In the parent `split_child` writes back, slot `i` holds the median
      and slots `i` and `i+1` the two halves, as in the split shape. */
  lemma SplitParentSlots(tr: BTree, x: Node, X: Shape, isRoot: bool, i: nat)
    requires SplitSite(tr, x, X, isRoot, i)
    ensures var x2 := SplitChild(tr, X.addr, x, i).1;
      var X1 := SplitShape(X, tr.t, i, tr.next);
      && i + 1 < |X1.kids| && i < |x2.keys|
      && x2.keys[i] == X1.keys[i]
      && x2.children[i] == X1.kids[i].addr && x2.children[i + 1] == X1.kids[i + 1].addr
  {
    var t, Y := tr.t, X.kids[i];
    assert x.children[i] == Y.addr;
    assert Layout(tr.store, t, Y, false);
    var median := tr.store[Y.addr].keys[t - 1];
    SplitChildEffect(tr, X.addr, x, i);
    RaiseChildren(t, x, i, median, tr.next);
    var X1 := SplitShape(X, t, i, tr.next);
    assert X1.kids[i] == LowerShape(Y, t) && X1.kids[i + 1] == UpperShape(Y, t, tr.next);
  }

  /** The kids of the split parent that are not halves keep their layout. */
  lemma SplitOthers(s: Store, s': Store, t: int, X: Shape, i: nat, za: int)
    requires i < |X.kids| && i <= |X.keys| && FullShape(X.kids[i], t)
    requires (forall j :: 0 <= j < |X.kids| ==> Layout(s, t, X.kids[j], false)) && SplitFrame(s, s', X, i, za)
    ensures var X2 := SplitShape(X, t, i, za);
      forall j :: 0 <= j < |X2.kids| && j != i && j != i + 1 ==> Layout(s', t, X2.kids[j], false)
  {
    var X2 := SplitShape(X, t, i, za);
    forall j | 0 <= j < |X2.kids| && j != i && j != i + 1
      ensures Layout(s', t, X2.kids[j], false)
    {
      SplitKid(X, t, i, za, j);
      if j < i {
        OtherKidFrame(s, s', t, X, i, za, j);
      } else {
        OtherKidFrame(s, s', t, X, i, za, j - 1);
      }
    }
  }

  /** After `split_child`, the arena lays out the split shape. */
  lemma SplitLayout(tr: BTree, x: Node, X: Shape, isRoot: bool, i: nat)
    requires SplitSite(tr, x, X, isRoot, i)
    ensures Layout(SplitChild(tr, X.addr, x, i).0.store, tr.t, SplitShape(X, tr.t, i, tr.next), isRoot)
  {
    var t, za := tr.t, tr.next;
    var Y := X.kids[i];
    var s' := SplitChild(tr, X.addr, x, i).0.store;
    SplitNodes(tr, x, X, isRoot, i);
    LowerMatches(t, tr.store[Y.addr], Y);
    UpperMatches(t, tr.store[Y.addr], Y, za);
    LowerLayout(tr.store, s', t, X, i, za);
    UpperLayout(tr.store, s', t, X, i, za);
    RaiseMatches(t, x, X, isRoot, i, za);
    SplitOthers(tr.store, s', t, X, i, za);
    var X2 := SplitShape(X, t, i, za);
    assert X2.kids[i] == LowerShape(Y, t) && X2.kids[i + 1] == UpperShape(Y, t, za);
  }

  /** `split_child` writes only the parent's slot and the cursor's, and
      leaves every node outside the tree as it was. */
  lemma SplitKeeps(tr: BTree, x: Node, X: Shape, isRoot: bool, i: nat)
    requires SplitSite(tr, x, X, isRoot, i)
    ensures var s' := SplitChild(tr, X.addr, x, i).0.store;
      && s'.Keys == tr.store.Keys + {X.addr, tr.next}
      && Unchanged(tr.store, s', Addrs(X))
  {
    var Y := X.kids[i];
    SplitChildEffect(tr, X.addr, x, i);
    KidAddrs(X, i);
    assert Y.addr in Addrs(Y);
  }
}
