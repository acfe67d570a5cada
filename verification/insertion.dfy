/** `insert` from the root (`BTree.java:349-381`): a key already in the
    tree has its frequency raised, an absent key goes in with frequency 1,
    after a full root is split under a new root. The tree stays a valid
    B-tree and its key-to-frequency map changes exactly as a counter's. */
module Insertion {
  import opened Base
  import opened Nodes
  import opened Engine
  import opened Shapes
  import opened Splitting
  import opened Searching
  import opened Inserting
  import opened Contents

  /** The new root of `insert` before the split: no keys, the old tree as
      its only kid. */
  ghost function Above(T: Shape, sa: int): Shape
  {
    Shape(sa, [], [T])
  }

  /** Clearing the root flag of the old root leaves it laid out as a
      non-root: no other node of the tree sits at its address. */
  lemma ReflagLayout(s: Store, t: int, T: Shape)
    requires Layout(s, t, T, true) && Distinct(T)
    ensures Layout(s[T.addr := s[T.addr].(isRoot := false)], t, T, false)
  {
    var s' := s[T.addr := s[T.addr].(isRoot := false)];
    forall j | 0 <= j < |T.kids|
      ensures Layout(s', t, T.kids[j], false)
    {
      KidAddrs(T, j);
      AddrsInStore(s, t, T.kids[j], false);
      LayoutFrame(s, s', t, T.kids[j], false);
    }
  }

  /** The shape above a full root is a parent ready for its kid to be
      split, one level taller, with the same entries and one more node. */
  lemma GrowShape(T: Shape, t: int, h: int, sa: int)
    requires 2 <= t && BInv(T, t, h, Bottom, Top, true) && |T.keys| == 2 * t - 1
    requires Distinct(T) && sa !in Addrs(T)
    ensures Parent(Above(T, sa), t, h + 1, Bottom, Top, true)
    ensures FullShape(T, t) && Distinct(Above(T, sa))
    ensures Entries(Above(T, sa)) == Entries(T) && Addrs(Above(T, sa)) == {sa} + Addrs(T)
  {
    FullAsKid(T, t, h, Bottom, Top, true);
    KidsOfSingle(T);
    assert (set e | e in Above(T, sa).keys) == {};
  }

  /** After `NewRoot`, `split_child(s, 0)` has what it needs: the new root
      matches the shape above the old root, the old root is laid out as a
      full non-root kid, and the cursor's slot is free. */
  lemma GrowSite(tr: BTree, T: Shape)
    requires Valid(tr, T) && |T.keys| == 2 * tr.t - 1 && tr.next + NodeBytes(tr.t) <= MaxInt64
    ensures SplitSite(NewRoot(tr).0, NewRoot(tr).1, Above(T, tr.next), true, 0)
      && Parent(Above(T, tr.next), tr.t, Height(T) + 1, Bottom, Top, true)
      && Entries(Above(T, tr.next)) == Entries(T)
      && Addrs(Above(T, tr.next)) == {tr.next} + Addrs(T)
  {
    var t := tr.t;
    AllocatedBelow(tr);
    AddrsInStore(tr.store, t, T, true);
    assert tr.next !in Addrs(T);
    GrowShape(T, t, Height(T), tr.next);
    ReflagLayout(tr.store, t, T);
    NextAddressFresh(tr);
    assert tr.store[T.addr].keys == T.keys;
  }

  /** `NewRoot` keeps the allocator's invariant: the new root takes the
      cursor's slot, and the reflagged old root keeps its own. */
  lemma NewRootAllocated(tr: BTree)
    requires Rooted(tr) && Allocated(tr) && tr.next <= MaxInt64
    ensures Allocated(NewRoot(tr).0)
  {
    NextAddressFresh(tr);
    assert NewRoot(tr).0.store.Keys == tr.store.Keys;
  }

  /** The full-root step keeps the allocator's invariant: the new root
      and the new sibling take the next two slots. */
  lemma GrowAllocated(tr: BTree)
    requires Rooted(tr) && Allocated(tr) && |tr.store[tr.root].keys| == 2 * tr.t - 1
    requires tr.next + NodeBytes(tr.t) <= MaxInt64
    ensures Allocated(GrowRoot(tr).0)
  {
    hide Raise, LowerHalf, UpperHalf, InsertAt, NoChildren;
    var t := tr.t;
    var (tr2, s) := NewRoot(tr);
    SplitChildEffect(tr2, tr2.root, s, 0);
    NewRootAllocated(tr);
    AlignedNext(t, tr2.next);
    assert Slots(t, tr2.next) == Slots(t, tr.next) + {tr.next};
    assert Slots(t, tr2.next + NodeBytes(t)) == Slots(t, tr2.next) + {tr2.next};
  }

  /** The tree after the full-root step: the shape above the old root
      `T`, at `sa`, with its only kid split, the upper half at `za`. */
  ghost function TallerShape(T: Shape, t: int, sa: int, za: int): (S: Shape)
    requires FullShape(T, t)
  {
    SplitShape(Above(T, sa), t, 0, za)
  }

  /** The full-root step keeps the B-tree invariant one level up, keeps
      the entries, and uses every address once. */
  lemma GrowShapeOk(T: Shape, t: int, h: int, sa: int, za: int)
    requires 2 <= t && BInv(T, t, h, Bottom, Top, true) && |T.keys| == 2 * t - 1 && Distinct(T)
    requires sa !in Addrs(T) && za !in Addrs(T) && sa != za
    ensures FullShape(T, t)
    ensures var S := TallerShape(T, t, sa, za);
      && S.addr == sa && |S.keys| == 1
      && BInv(S, t, h + 1, Bottom, Top, true) && Distinct(S) && Entries(S) == Entries(T)
  {
    GrowShape(T, t, h, sa);
    var S0 := Above(T, sa);
    ParentInv(S0, t, h + 1, Bottom, Top, true, 0, za);
    SplitDistinct(S0, t, 0, za);
    SplitEntries(S0, t, 0, za);
  }

  /** After the full-root step the arena lays out the grown tree. */
  lemma GrowLayout(tr: BTree, T: Shape)
    requires Valid(tr, T) && |T.keys| == 2 * tr.t - 1 && tr.next + NodeBytes(tr.t) <= MaxInt64
    ensures FullShape(T, tr.t)
    ensures Layout(GrowRoot(tr).0.store, tr.t, TallerShape(T, tr.t, tr.next, tr.next + NodeBytes(tr.t)), true)
  {
    var tr2, s := NewRoot(tr).0, NewRoot(tr).1;
    GrowSite(tr, T);
    SplitLayout(tr2, s, Above(T, tr.next), true, 0);
    GrowEquation(tr);
    GrownLayout(SplitChild(tr2, Above(T, tr.next).addr, s, 0).0.store, GrowRoot(tr).0.store,
                tr2.t, tr.t, T, tr.next, tr2.next, tr.next + NodeBytes(tr.t));
  }

  /** A layout of the grown shape carries over to equal arenas and arguments. */
  lemma GrownLayout(s: Store, s': Store, t: int, t': int, T: Shape, sa: int, za: int, za': int)
    requires FullShape(T, t) && Layout(s, t, SplitShape(Above(T, sa), t, 0, za), true)
    requires s' == s && t' == t && za' == za
    ensures Layout(s', t', TallerShape(T, t', sa, za'), true)
  {
  }

  /** `GrowRoot` is `NewRoot` followed by the split of the new root's kid. */
  lemma GrowEquation(tr: BTree)
    requires Rooted(tr) && |tr.store[tr.root].keys| == 2 * tr.t - 1
    requires tr.next + NodeBytes(tr.t) <= MaxInt64
    ensures GrowRoot(tr) == SplitChild(NewRoot(tr).0, tr.next, NewRoot(tr).1, 0)
  {
  }

  /** `insert` of an absent key into a root with room: `insert_nonfull`
      from the root, then one more key counted. */
  lemma RoomyEquation(mode: Comparison, tr: BTree, key: Int64, xa: int)
    requires Rooted(tr) && Search(tr, key) == Success(None)
    requires |tr.store[tr.root].keys| < 2 * tr.t - 1 && xa == tr.root
    ensures var r := InsertNonfull(mode, tr, xa, tr.store[tr.root], Entry(key, 1), |tr.store|);
      r.Success? ==> InsertWith(mode, tr, key) == Success(r.value.(numKeys := r.value.numKeys + 1))
  {
  }

  /** `insert` of an absent key into a full root: `insert_nonfull` from
      the new root after the full-root step, then one more key counted. */
  lemma FullEquation(mode: Comparison, tr: BTree, key: Int64, xa: int)
    requires Rooted(tr) && Search(tr, key) == Success(None)
    requires |tr.store[tr.root].keys| == 2 * tr.t - 1 && tr.next + NodeBytes(tr.t) <= MaxInt64
    requires xa == GrowRoot(tr).0.root
    ensures var r := InsertNonfull(mode, GrowRoot(tr).0, xa, GrowRoot(tr).1, Entry(key, 1), |tr.store|);
      r.Success? ==> InsertWith(mode, tr, key) == Success(r.value.(numKeys := r.value.numKeys + 1))
  {
  }

  /** `insert` of a key the search finds: the found record is written back
      with that key's frequency raised. */
  lemma PresentEquation(mode: Comparison, tr: BTree, key: Int64)
    requires Rooted(tr) && Search(tr, key).Success? && Search(tr, key).value.Some?
    ensures var h := Search(tr, key).value.value;
      InsertWith(mode, tr, key) == Success(tr.(store := BumpStore(tr.store, h.addr, h.index)))
  {
    var h := Search(tr, key).value.value;
    assert BumpKeys(h.node.keys, true, h.index) == h.node.keys[h.index := Bump(h.node.keys[h.index])];
  }

  /** The cursor has room for the worst case of one `insert`: the new root,
      its new sibling, and one split on every level below. */
  ghost predicate Room(tr: BTree, T: Shape)
  {
    Degree(tr.t) && tr.next + Budget(tr.t, Height(T) + 3) <= MaxInt64
  }

  /** Two levels more cost two records more. */
  lemma BudgetTwo(t: int, h: int)
    requires Degree(t) && 0 <= h
    ensures Budget(t, h + 3) == 2 * NodeBytes(t) + Budget(t, h + 1)
  {
    assert Budget(t, h + 3) == NodeBytes(t) + Budget(t, h + 2);
  }

  /** After the full-root step, `insert_nonfull` from the new root has what
      it needs. */
  lemma GrowReady(tr: BTree, T: Shape, key: Int64) returns (S: Shape)
    requires Valid(tr, T) && key !in KeySet(T) && |T.keys| == 2 * tr.t - 1 && Room(tr, T)
    ensures tr.next + NodeBytes(tr.t) <= MaxInt64
    ensures NonfullReady(GrowRoot(tr).0, GrowRoot(tr).1, S, Height(T) + 1, Bottom, Top, true, Entry(key, 1), |tr.store|)
    ensures S.addr == GrowRoot(tr).0.root && Entries(S) == Entries(T)
  {
    hide GrowRoot;
    GrowNext(tr, Height(T));
    GrowAllocated(tr);
    ValidHeight(tr, T);
    S := TallerReady(tr, T);
    SameKeys(S, T);
    RootReady(GrowRoot(tr).0, GrowRoot(tr).1, S, tr.t, Height(T) + 1, Entry(key, 1), |tr.store|);
  }

  /** The tree after the full-root step: the new root at the cursor with
      one key, a B-tree one level taller with the same entries, laid out
      in the grown arena. */
  lemma TallerReady(tr: BTree, T: Shape) returns (S: Shape)
    requires Valid(tr, T) && |T.keys| == 2 * tr.t - 1 && tr.next + NodeBytes(tr.t) <= MaxInt64
    ensures S.addr == tr.next && |S.keys| == 1 && Entries(S) == Entries(T)
    ensures BInv(S, tr.t, Height(T) + 1, Bottom, Top, true) && Distinct(S)
    ensures Layout(GrowRoot(tr).0.store, tr.t, S, true)
  {
    hide GrowRoot, TallerShape, SplitShape, Above, BInv, Distinct, Layout, Entries, Addrs;
    FreshAbove(tr, T);
    GrowLayout(tr, T);
    GrowShapeOk(T, tr.t, Height(T), tr.next, tr.next + NodeBytes(tr.t));
    S := TallerShape(T, tr.t, tr.next, tr.next + NodeBytes(tr.t));
  }

  /** Trees with the same entries have the same keys. */
  lemma SameKeys(S: Shape, T: Shape)
    requires Entries(S) == Entries(T)
    ensures KeySet(S) == KeySet(T)
  {
  }

  /** The cursor's slot and the one after it hold no node of the tree. */
  lemma FreshAbove(tr: BTree, T: Shape)
    requires Valid(tr, T)
    ensures tr.next !in Addrs(T) && tr.next + NodeBytes(tr.t) !in Addrs(T)
  {
    AllocatedBelow(tr);
    AddrsInStore(tr.store, tr.t, T, true);
  }

  /** The cursor after the full-root step still has room for one split
      per level of the grown tree. */
  lemma GrowNext(tr: BTree, h: int)
    requires Rooted(tr) && |tr.store[tr.root].keys| == 2 * tr.t - 1 && 0 <= h
    requires tr.next + Budget(tr.t, h + 3) <= MaxInt64
    ensures tr.next + NodeBytes(tr.t) <= MaxInt64
    ensures GrowRoot(tr).0.next + Budget(tr.t, h + 1) == tr.next + Budget(tr.t, h + 3)
  {
    BudgetTwo(tr.t, h);
  }

  /** `NonfullReady` at a root, from its parts stated with the degree `t`. */
  lemma RootReady(tr: BTree, x: Node, X: Shape, t: int, h: int, key: Entry, fuel: nat)
    requires tr.t == t && Wf(tr) && Allocated(tr)
    requires Layout(tr.store, t, X, true) && x == tr.store[X.addr]
    requires BInv(X, t, h, Bottom, Top, true) && Distinct(X)
    requires key.key !in KeySet(X) && |X.keys| < 2 * t - 1 && Bottom < key.key < Top
    requires h - 1 <= fuel && tr.next + Budget(t, h) <= MaxInt64
    ensures NonfullReady(tr, x, X, h, Bottom, Top, true, key, fuel)
  {
  }

  /** `insert` of an absent key leaves a valid tree: `insert_nonfull`
      from the root `S` of `tr0`, which holds the entries of `T`, gave
      `T'` of height `h` with the new entry, and the counter counts it. */
  lemma AbsentDone(tr: BTree, T: Shape, key: Int64, tr0: BTree, S: Shape, h: int, res: Result<BTree>, T': Shape, tr': BTree)
    requires Valid(tr, T) && key !in KeySet(T) && Entries(S) == Entries(T)
    requires tr0.t == tr.t && tr0.numKeys == tr.numKeys && tr0.root == S.addr && Degree(tr.t)
    requires res.Success? && NonfullDone(tr0, S, h, Bottom, Top, true, Entry(key, 1), res.value, T')
    requires Grown(tr0, res.value) && res.value.next <= tr0.next + Budget(tr0.t, h)
    requires tr0.next + Budget(tr0.t, h) <= tr.next + Budget(tr.t, Height(T) + 3)
    requires tr' == res.value.(numKeys := res.value.numKeys + 1)
    ensures Valid(tr', T') && Height(T') == h && Counts(T') == Counts(T)[key := 1]
    ensures tr'.next <= tr.next + Budget(tr.t, Height(T) + 3)
  {
    HeightOf(T', tr.t, h, Bottom, Top, true);
    KeySetAdd(T, T', Entry(key, 1));
    CountsAdd(T, tr.t, Height(T), Bottom, Top, true, T', h, Bottom, Top, true, key);
  }

  /** `insert_nonfull` from the new root after the full-root step. */
  lemma FullCore(tr: BTree, T: Shape, key: Int64) returns (res: Result<BTree>, tr': BTree, T': Shape)
    requires Valid(tr, T) && key !in KeySet(T) && |T.keys| == 2 * tr.t - 1 && Room(tr, T)
    ensures tr.next + NodeBytes(tr.t) <= MaxInt64
    ensures res == InsertNonfull(Intended, GrowRoot(tr).0, GrowRoot(tr).0.root, GrowRoot(tr).1, Entry(key, 1), |tr.store|)
    ensures res.Success? && tr' == res.value.(numKeys := res.value.numKeys + 1)
    ensures Valid(tr', T') && Height(T') == Height(T) + 1 && Counts(T') == Counts(T)[key := 1]
    ensures tr'.next <= tr.next + Budget(tr.t, Height(T) + 3)
  {
    hide GrowRoot, InsertNonfull;
    var S := GrowReady(tr, T, key);
    GrowNext(tr, Height(T));
    var tr3, s := GrowRoot(tr).0, GrowRoot(tr).1;
    T' := InsertNonfullOk(tr3, s, S, Height(T) + 1, Bottom, Top, true, Entry(key, 1), |tr.store|);
    res := InsertNonfull(Intended, tr3, S.addr, s, Entry(key, 1), |tr.store|);
    tr' := res.value.(numKeys := res.value.numKeys + 1);
    AbsentDone(tr, T, key, tr3, S, Height(T) + 1, res, T', tr');
  }

  /** `insert_nonfull` from a root with room. */
  lemma RoomyCore(tr: BTree, T: Shape, key: Int64) returns (res: Result<BTree>, tr': BTree, T': Shape)
    requires Valid(tr, T) && key !in KeySet(T) && |T.keys| < 2 * tr.t - 1 && Room(tr, T)
    ensures res == InsertNonfull(Intended, tr, T.addr, tr.store[tr.root], Entry(key, 1), |tr.store|)
    ensures res.Success? && tr' == res.value.(numKeys := res.value.numKeys + 1)
    ensures Valid(tr', T') && Height(T') == Height(T) && Counts(T') == Counts(T)[key := 1]
    ensures tr'.next <= tr.next + Budget(tr.t, Height(T) + 3)
  {
    hide InsertNonfull;
    var x := tr.store[tr.root];
    ValidHeight(tr, T);
    BudgetMono(tr.t, Height(T), Height(T) + 3);
    T' := InsertNonfullOk(tr, x, T, Height(T), Bottom, Top, true, Entry(key, 1), |tr.store|);
    res := InsertNonfull(Intended, tr, T.addr, x, Entry(key, 1), |tr.store|);
    tr' := res.value.(numKeys := res.value.numKeys + 1);
    AbsentDone(tr, T, key, tr, T, Height(T), res, T', tr');
  }

  /** `insert` of an absent key: the tree stays valid, grows by at most one
      level, and counts the key once. */
  lemma InsertAbsent(tr: BTree, T: Shape, key: Int64) returns (tr': BTree, T': Shape)
    requires Valid(tr, T) && key !in KeySet(T) && Room(tr, T)
    ensures Insert(tr, key) == Success(tr')
    ensures Valid(tr', T') && Counts(T') == Counts(T)[key := 1]
    ensures Height(T) <= Height(T') <= Height(T) + 1
    ensures tr.next <= tr'.next <= tr.next + Budget(tr.t, Height(T) + 3)
  {
    hide InsertWith, GrowRoot, InsertNonfull, Search;
    SearchCorrect(tr, T, key);
    var res;
    if |T.keys| < 2 * tr.t - 1 {
      res, tr', T' := RoomyCore(tr, T, key);
      RoomyEquation(Intended, tr, key, T.addr);
    } else {
      res, tr', T' := FullCore(tr, T, key);
      FullEquation(Intended, tr, key, GrowRoot(tr).0.root);
    }
  }

  /** Raising the frequency of key `i` of the node at `a` keeps a valid
      tree valid, of the same height, and counts that key once more. */
  lemma BumpValid(tr: BTree, T: Shape, a: int, i: nat)
    requires Valid(tr, T) && a in Addrs(T) && a in tr.store && i < |tr.store[a].keys|
    ensures var T' := BumpAt(T, a, i);
      && Valid(tr.(store := BumpStore(tr.store, a, i)), T') && Height(T') == Height(T)
      && Counts(T') == Counted(Counts(T), tr.store[a].keys[i].key)
  {
    var t, T' := tr.t, BumpAt(T, a, i);
    BumpLayout(tr.store, t, T, true, a, i);
    BumpInv(T, t, Height(T), Bottom, Top, true, a, i);
    BumpAddrs(T, a, i);
    HeightOf(T', t, Height(T), Bottom, Top, true);
    CountsBump(tr.store, t, T, Height(T), Bottom, Top, true, a, i);
  }

  /** `insert` of a key the tree holds: the found record is written back
      with that key's frequency raised; the tree keeps its height, the
      cursor and the key counter stay, and only that key's count moves. */
  lemma InsertPresent(tr: BTree, T: Shape, key: Int64) returns (tr': BTree, T': Shape)
    requires Valid(tr, T) && key in KeySet(T)
    ensures Insert(tr, key) == Success(tr')
    ensures Valid(tr', T') && Counts(T') == Counted(Counts(T), key)
    ensures Height(T') == Height(T) && tr'.next == tr.next && tr'.numKeys == tr.numKeys
  {
    SearchCorrect(tr, T, key);
    var h := Search(tr, key).value.value;
    PresentEquation(Intended, tr, key);
    tr' := tr.(store := BumpStore(tr.store, h.addr, h.index));
    T' := BumpAt(T, h.addr, h.index);
    BumpValid(tr, T, h.addr, h.index);
  }

  /** `insert` on a valid tree with room for its worst case: it succeeds,
      the tree stays valid and at most one level taller, its count map
      is the old one with `key` counted once more, and a search then
      finds `key`. */
  lemma InsertCorrect(tr: BTree, T: Shape, key: Int64) returns (tr': BTree, T': Shape)
    requires Valid(tr, T) && Room(tr, T)
    ensures Insert(tr, key) == Success(tr')
    ensures Valid(tr', T') && Counts(T') == Counted(Counts(T), key)
    ensures Height(T) <= Height(T') <= Height(T) + 1
    ensures tr.next <= tr'.next <= tr.next + Budget(tr.t, Height(T) + 3)
    ensures Search(tr', key).Success? && Search(tr', key).value.Some?
  {
    hide Insert, InsertWith, Search, Layout, BInv, Distinct, Entries, Budget;
    if key in KeySet(T) {
      tr', T' := InsertPresent(tr, T, key);
    } else {
      tr', T' := InsertAbsent(tr, T, key);
    }
    SearchCorrect(tr', T', key);
  }

  /** A new file's tree: an empty root leaf right after the header, which
      is a valid tree holding nothing. */
  lemma CreateValid(t: int)
    requires Degree(t)
    ensures Valid(Create(t), Shape(HeaderBytes, [], []))
    ensures Counts(Shape(HeaderBytes, [], [])) == map[]
    ensures Height(Shape(HeaderBytes, [], [])) == 1
  {
    var E := Shape(HeaderBytes, [], []);
    assert KeySet(E) == {} by {
      assert Entries(E) == {};
    }
  }
}
