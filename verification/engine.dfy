/** The B-tree engine of `BTree.java` over an arena: the file's node slots
    are a map from byte address to node, and every `disk_read` /
    `disk_write` is a lookup / update of that map (the `Record` module shows
    the file image agrees with the map). */
module Engine {
  import opened Base
  import opened Nodes

  type Store = map<int, Node>

  /** `BTree`'s state. `root` is `rpos`, `next` the allocation cursor
      `next_address`, `numKeys` the `num_nodes` counter of a created tree
      (it counts distinct keys inserted, not records). */
  datatype BTree = BTree(t: int, root: Int64, next: int, numKeys: int, store: Store)

  /** What `rsearch` hands back: the node (at `addr`) and its `search_idx`. */
  datatype Hit = Hit(addr: int, node: Node, index: nat)

  /** The two readings of the test at `BTree.java:401`: as written it asks
      `compareTo(..) > 1`, intended is `> 0`. */
  datatype Comparison = AsWritten | Intended

  /** Every stored node is a well-formed record; the cursor never goes
      back into the header. */
  predicate Wf(tr: BTree)
  {
    && Degree(tr.t)
    && HeaderBytes <= tr.next
    && forall a :: a in tr.store ==> WellFormed(tr.t, tr.store[a])
  }

  /** A well-formed tree whose root is stored: what a search starts from. */
  predicate Rooted(tr: BTree)
  {
    Wf(tr) && tr.root in tr.store
  }

  /** The allocator's invariant: the cursor is a slot address, and every
      stored node sits in a slot below it. */
  predicate Allocated(tr: BTree)
  {
    Aligned(tr.t, tr.next) && tr.store.Keys <= Slots(tr.t, tr.next)
  }

  /** Every stored node sits in a slot below the cursor. */
  lemma AllocatedBelow(tr: BTree)
    requires Allocated(tr)
    ensures forall a :: a in tr.store ==> Aligned(tr.t, a) && a < tr.next
  {
    SlotsBelow(tr.t, tr.next);
  }

  /** `next_address()`: hands out the cursor and moves it one record on. */
  function NextAddress(tr: BTree): (r: (int, BTree))
    requires Degree(tr.t)
    ensures r.1.t == tr.t && r.1.root == tr.root && r.1.numKeys == tr.numKeys && r.1.store == tr.store
    ensures r.0 == tr.next && r.1.next == r.0 + NodeBytes(tr.t)
  {
    (tr.next, tr.(next := tr.next + NodeBytes(tr.t)))
  }

  /** The allocator hands out a free slot and keeps its invariant. */
  lemma NextAddressFresh(tr: BTree)
    requires Allocated(tr)
    ensures var (a, tr') := NextAddress(tr);
      a !in tr.store && Aligned(tr.t, a) && Allocated(tr')
  {
    AllocatedBelow(tr);
    AlignedNext(tr.t, tr.next);
  }

  /** `address_rollback()`: gives the last slot back. */
  function AddressRollback(tr: BTree): (r: BTree)
    requires Degree(tr.t)
    ensures r.next + NodeBytes(tr.t) == tr.next
  {
    tr.(next := tr.next - NodeBytes(tr.t))
  }

  /** The node constructor inside `disk_read` takes a slot with
      `next_address` and gives it back with `address_rollback`: the pair
      leaves the tree as it was, which is why `DiskRead` takes no cursor. */
  lemma ReadRollsBack(tr: BTree)
    requires Degree(tr.t)
    ensures AddressRollback(NextAddress(tr).1) == tr
  {
  }

  /** `disk_read(address)`: the node held at `a`. Reading an address that
      holds no node is an I/O failure. */
  function DiskRead(tr: BTree, a: int): (r: Result<Node>)
    ensures r.Success? <==> a in tr.store
    ensures r.Success? ==> r.value == tr.store[a]
    ensures r.Failure? ==> r.error == IoFailure
  {
    if a in tr.store then Success(tr.store[a]) else Failure(IoFailure)
  }

  /** `disk_write(x)` at address `a`. */
  function DiskWrite(tr: BTree, a: int, x: Node): (r: BTree)
    ensures r.store.Keys == tr.store.Keys + {a}
    ensures r.store[a] == x
    ensures r.t == tr.t && r.root == tr.root && r.next == tr.next && r.numKeys == tr.numKeys
  {
    tr.(store := tr.store[a := x])
  }

  /** The scan of `rsearch` (`BTree.java:297`): the first index at or after
      `i` whose key is not below `key`. */
  function ScanUp(keys: seq<Entry>, key: int, i: nat): (r: nat)
    requires i <= |keys|
    ensures i <= r <= |keys|
    ensures forall j :: i <= j < r ==> keys[j].key < key
    ensures r < |keys| ==> key <= keys[r].key
    decreases |keys| - i
  {
    if i < |keys| && CompareTo(key, keys[i].key) > 0 then ScanUp(keys, key, i + 1) else i
  }

  /** The backward scan of `insert_nonfull` (`BTree.java:386` and `394-397`):
      from index `i` down, step over every key not below `key`; the result
      is the index after the last key that stopped the scan. */
  function ScanDown(keys: seq<Entry>, key: int, i: int): (r: nat)
    requires -1 <= i < |keys|
    ensures r <= i + 1
    ensures r <= i ==> key <= keys[r].key
    ensures r > 0 ==> keys[r - 1].key < key
    decreases i + 1
  {
    if i >= 0 && CompareTo(key, keys[i].key) < 1 then ScanDown(keys, key, i - 1) else i + 1
  }

  /** Every key the backward scan steps over is not below `key`. */
  lemma {:induction false} ScanDownSkips(keys: seq<Entry>, key: int, i: int)
    requires -1 <= i < |keys|
    ensures forall j :: ScanDown(keys, key, i) <= j <= i ==> key <= keys[j].key
    decreases i + 1
  {
    if i >= 0 && CompareTo(key, keys[i].key) < 1 {
      ScanDownSkips(keys, key, i - 1);
    }
  }

  /** `rsearch(x, key)` for the node `x` held at `xa`. `fuel` bounds the
      descent; the callers pass the number of stored nodes, which a tree
      never exceeds in height (`Exhausted` only for a cyclic store). */
  function RSearch(tr: BTree, xa: int, x: Node, key: Int64, fuel: nat): (r: Result<Option<Hit>>)
    requires Wf(tr) && WellFormed(tr.t, x)
    ensures r.Success? && r.value.Some? ==>
      var h := r.value.value;
      && h.index < |h.node.keys| && h.node.keys[h.index].key == key
      && ((h.addr == xa && h.node == x) || (h.addr in tr.store && h.node == tr.store[h.addr]))
    decreases fuel
  {
    var i := ScanUp(x.keys, key, 0);
    if i < |x.keys| && CompareTo(key, x.keys[i].key) == 0 then Success(Some(Hit(xa, x, i)))
    else if x.leaf then Success(None)
    else if x.children[i] == NoChild then Failure(CorruptNode)
    else if fuel == 0 then Failure(Exhausted)
    else
      match DiskRead(tr, x.children[i])
      case Failure(e) => Failure(e)
      case Success(c) => RSearch(tr, x.children[i], c, key, fuel - 1)
  }

  /** `search(key)`, starting at the root. */
  function Search(tr: BTree, key: Int64): (r: Result<Option<Hit>>)
    requires Rooted(tr)
    ensures r.Success? && r.value.Some? ==>
      var h := r.value.value;
      && h.addr in tr.store && h.node == tr.store[h.addr]
      && h.index < |h.node.keys| && h.node.keys[h.index].key == key
  {
    RSearch(tr, tr.root, tr.store[tr.root], key, |tr.store|)
  }

  /** `v` put at index `i` of `s`, the later elements moving one right:
      the shifting loops of `split_child` and `insert_nonfull`. */
  function InsertAt<T>(s: seq<T>, i: nat, v: T): (r: seq<T>)
    requires i <= |s|
    ensures |r| == |s| + 1 && r[i] == v
  {
    s[..i] + [v] + s[i..]
  }

  /** The elements before `i` stay, the ones from `i` on move one right. */
  lemma InsertAtIndex<T>(s: seq<T>, i: nat, v: T)
    requires i <= |s|
    ensures forall j :: 0 <= j < i ==> InsertAt(s, i, v)[j] == s[j]
    ensures forall j :: i < j <= |s| ==> InsertAt(s, i, v)[j] == s[j - 1]
  {
  }

  /** What stays of a full node `y` after `split_child`: its bottom `t-1`
      keys, and, when internal, its first `t` children with the other
      slots cleared. */
  function LowerHalf(t: int, y: Node): (r: Node)
    requires Degree(t) && WellFormed(t, y) && |y.keys| == 2 * t - 1
    ensures WellFormed(t, r) && r.leaf == y.leaf && r.isRoot == y.isRoot
    ensures r.keys == y.keys[..t - 1]
  {
    y.(keys := y.keys[..t - 1],
       children := if y.leaf then y.children else y.children[..t] + NoChildren(t))
  }

  /** The new sibling `z` of `split_child`: a non-root node with `y`'s top
      `t-1` keys, and, when internal, `y`'s last `t` children. */
  function UpperHalf(t: int, y: Node): (r: Node)
    requires Degree(t) && WellFormed(t, y) && |y.keys| == 2 * t - 1
    ensures WellFormed(t, r) && r.leaf == y.leaf && !r.isRoot
    ensures r.keys == y.keys[t..]
  {
    Node(y.leaf, false, y.keys[t..], if y.leaf then NoChildren(2 * t) else y.children[t..] + NoChildren(t))
  }

  /** The child slots of the two halves: the lower half keeps `y`'s first
      `t` children, the upper half takes its last `t`, and every other
      slot of an internal node is cleared. */
  lemma HalvesChildren(t: int, y: Node)
    requires Degree(t) && WellFormed(t, y) && |y.keys| == 2 * t - 1
    ensures forall j :: 0 <= j < t ==> LowerHalf(t, y).children[j] == y.children[j]
    ensures forall j :: t <= j < 2 * t ==> LowerHalf(t, y).children[j] == (if y.leaf then y.children[j] else NoChild)
    ensures forall j :: 0 <= j < t ==> UpperHalf(t, y).children[j] == (if y.leaf then NoChild else y.children[t + j])
    ensures forall j :: t <= j < 2 * t ==> UpperHalf(t, y).children[j] == NoChild
  {
  }

  /** `x` after `split_child(x, i)` with new child `za`: the median at key
      `i`, `za` at child `i+1`, the later keys and the children up to slot
      `n+1` shifted one right, the slots after that kept. */
  function Raise(t: int, x: Node, i: nat, median: Entry, za: Int64): (r: Node)
    requires Degree(t) && WellFormed(t, x) && |x.keys| < 2 * t - 1 && i <= |x.keys|
    ensures WellFormed(t, r) && r.leaf == x.leaf && r.isRoot == x.isRoot
    ensures r.keys == InsertAt(x.keys, i, median)
    ensures r.children[i + 1] == za
  {
    var n := |x.keys|;
    x.(keys := InsertAt(x.keys, i, median),
       children := InsertAt(x.children[..n + 1], i + 1, za) + x.children[n + 2..])
  }

  /** The child slots of the raised parent: those up to `i` stay, `za`
      comes in at `i+1`, those up to slot `n+1` move one right, and the
      rest stay. */
  lemma RaiseChildren(t: int, x: Node, i: nat, median: Entry, za: Int64)
    requires Degree(t) && WellFormed(t, x) && |x.keys| < 2 * t - 1 && i <= |x.keys|
    ensures var r := Raise(t, x, i, median, za);
      && (forall j :: 0 <= j <= i ==> r.children[j] == x.children[j])
      && (forall j :: i + 2 <= j <= |x.keys| + 1 ==> r.children[j] == x.children[j - 1])
      && (forall j :: |x.keys| + 2 <= j < 2 * t ==> r.children[j] == x.children[j])
  {
    var n := |x.keys|;
    InsertAtIndex(x.children[..n + 1], i + 1, za);
  }

  /** `split_child(x, i)`: `x` (held at `xa`, not full) has a full child `y`
      at slot `i`. The new node `z` takes the cursor's slot and the top
      half of `y`, `y` keeps the bottom half, and `y`'s median moves up
      into `x`. `y`, `z` and `x` are written, in that order. The effect on
      the arena is `SplitChildEffect`. */
  function SplitChild(tr: BTree, xa: int, x: Node, i: nat): (r: (BTree, Node))
    requires Wf(tr) && WellFormed(tr.t, x)
    requires |x.keys| < 2 * tr.t - 1 && i <= |x.keys| && tr.next <= MaxInt64
    requires x.children[i] in tr.store && |tr.store[x.children[i]].keys| == 2 * tr.t - 1
    ensures Wf(r.0) && r.0 == tr.(next := tr.next + NodeBytes(tr.t), store := r.0.store)
    ensures WellFormed(tr.t, r.1) && |r.1.keys| == |x.keys| + 1 && xa in r.0.store && r.0.store[xa] == r.1
    ensures tr.store.Keys <= r.0.store.Keys
  {
    var t := tr.t;
    var za := tr.next;
    var tr1 := tr.(next := tr.next + NodeBytes(t));
    var ya := x.children[i];
    var y := DiskRead(tr1, ya).value;
    var x' := Raise(t, x, i, y.keys[t - 1], za);
    var tr3 := DiskWrite(DiskWrite(DiskWrite(tr1, ya, LowerHalf(t, y)), za, UpperHalf(t, y)), xa, x');
    (tr3, x')
  }

  /** What `split_child` does to the arena: `x` gains the median of `y` and
      the new node at the cursor's old address; that node holds the upper
      half of `y`, `y` keeps its lower half, and every other node stays. */
  lemma SplitChildEffect(tr: BTree, xa: int, x: Node, i: nat)
    requires Wf(tr) && WellFormed(tr.t, x)
    requires |x.keys| < 2 * tr.t - 1 && i <= |x.keys| && tr.next <= MaxInt64
    requires x.children[i] in tr.store && |tr.store[x.children[i]].keys| == 2 * tr.t - 1
    ensures var t := tr.t; var (tr', x') := SplitChild(tr, xa, x, i);
      var ya := x.children[i]; var y := tr.store[ya];
      && tr'.store.Keys == tr.store.Keys + {xa, tr.next}
      && x' == Raise(t, x, i, y.keys[t - 1], tr.next)
      && (tr.next != xa ==> tr'.store[tr.next] == UpperHalf(t, y))
      && (ya != xa && ya != tr.next ==> tr'.store[ya] == LowerHalf(t, y))
      && (forall b :: b in tr.store && b != xa && b != ya && b != tr.next ==> tr'.store[b] == tr.store[b])
  {
    var t := tr.t;
    var ya := x.children[i];
    var y := tr.store[ya];
    var x' := Raise(t, x, i, y.keys[t - 1], tr.next);
    var s := tr.store[ya := LowerHalf(t, y)][tr.next := UpperHalf(t, y)][xa := x'];
    assert SplitChild(tr, xa, x, i) == (tr.(next := tr.next + NodeBytes(t), store := s), x');
  }

  /** `split_child` takes the cursor's slot for the new node and moves the
      cursor on, so the allocator's invariant holds after it. */
  lemma SplitAllocated(tr: BTree, xa: int, x: Node, i: nat)
    requires Wf(tr) && WellFormed(tr.t, x) && Allocated(tr) && xa in tr.store
    requires |x.keys| < 2 * tr.t - 1 && i <= |x.keys| && tr.next <= MaxInt64
    requires x.children[i] in tr.store && |tr.store[x.children[i]].keys| == 2 * tr.t - 1
    ensures var tr' := SplitChild(tr, xa, x, i).0;
      Allocated(tr') && tr'.next == tr.next + NodeBytes(tr.t) && tr.store.Keys <= tr'.store.Keys
  {
    SplitChildEffect(tr, xa, x, i);
    NextAddressFresh(tr);
  }

  /** The test after a split in `insert_nonfull` (`BTree.java:401`): whether
      the new key goes right of the promoted median. */
  function DescendRight(mode: Comparison, key: int, median: int): (r: bool)
    ensures mode == Intended ==> (r <==> key > median)
  {
    match mode
    case AsWritten => CompareTo(key, median) > 1
    case Intended => CompareTo(key, median) > 0
  }

  /** As written, the test at `BTree.java:401` never holds: `compareTo`
      returns at most 1, so after a split the key always goes left. */
  lemma AsWrittenNeverDescendsRight(key: int, median: int)
    ensures !DescendRight(AsWritten, key, median)
  {
  }

  /** What an insertion below the root leaves of the tree's state: the
      arena is still well formed, degree, root and counter are kept, and
      the cursor has not moved back. */
  predicate Grown(tr: BTree, tr': BTree)
  {
    Wf(tr') && tr'.t == tr.t && tr'.root == tr.root && tr'.numKeys == tr.numKeys && tr.next <= tr'.next
    && tr.store.Keys <= tr'.store.Keys
  }

  /** `insert_nonfull(x, key)` for the node `x` held at `xa`: a leaf takes
      the key where the backward scan stops (`BTree.java:386-391`); an
      internal node hands it down (`DescendFrom`). A full leaf is what the
      Java code indexes past the end of its arrays on. `fuel` bounds the
      descent, as for `RSearch`. */
  function InsertNonfull(mode: Comparison, tr: BTree, xa: int, x: Node, key: Entry, fuel: nat): (r: Result<BTree>)
    requires Wf(tr) && WellFormed(tr.t, x)
    ensures r.Success? ==> Grown(tr, r.value)
    decreases fuel, 2
  {
    if !x.leaf then DescendFrom(mode, tr, xa, x, key, fuel)
    else if |x.keys| == 2 * tr.t - 1 then Failure(IndexOutOfBounds)
    else
      var p := ScanDown(x.keys, key.key, |x.keys| - 1);
      Success(DiskWrite(tr, xa, x.(keys := InsertAt(x.keys, p, key))))
  }

  /** The internal-node branch of `insert_nonfull` (`BTree.java:392-397`):
      the backward scan picks child `i`, which is read; a child that is not
      full is descended into, a full one is split first. */
  function DescendFrom(mode: Comparison, tr: BTree, xa: int, x: Node, key: Entry, fuel: nat): (r: Result<BTree>)
    requires Wf(tr) && WellFormed(tr.t, x)
    ensures r.Success? ==> Grown(tr, r.value)
    decreases fuel, 1
  {
    var i := ScanDown(x.keys, key.key, |x.keys| - 1);
    match DiskRead(tr, x.children[i])
    case Failure(e) => Failure(e)
    case Success(c) =>
      if |c.keys| == 2 * tr.t - 1 then SplitThenDescend(mode, tr, xa, x, i, key, fuel)
      else if fuel == 0 then Failure(Exhausted)
      else InsertNonfull(mode, tr, x.children[i], c, key, fuel - 1)
  }

  /** The split branch of `insert_nonfull` (`BTree.java:398-404`): child
      `i` is full, so it is split, the test at line 401 picks the half the
      key goes into, and that half is read and descended into. A full `x`
      is what the Java code indexes past the end of its arrays on; a cursor
      past the 64-bit range is where Java's `long` cursor would have
      wrapped to a negative file position, which the file refuses. */
  function SplitThenDescend(mode: Comparison, tr: BTree, xa: int, x: Node, i: nat, key: Entry, fuel: nat): (r: Result<BTree>)
    requires Wf(tr) && WellFormed(tr.t, x) && i <= |x.keys|
    requires x.children[i] in tr.store && |tr.store[x.children[i]].keys| == 2 * tr.t - 1
    ensures r.Success? ==> Grown(tr, r.value)
    decreases fuel, 0
  {
    if |x.keys| == 2 * tr.t - 1 then Failure(IndexOutOfBounds)
    else if tr.next > MaxInt64 then Failure(IoFailure)
    else
      var (tr2, x2) := SplitChild(tr, xa, x, i);
      var j := if DescendRight(mode, key.key, x2.keys[i].key) then i + 1 else i;
      match DiskRead(tr2, x2.children[j])
      case Failure(e) => Failure(e)
      case Success(c2) =>
        if fuel == 0 then Failure(Exhausted)
        else InsertNonfull(mode, tr2, x2.children[j], c2, key, fuel - 1)
  }

  /** A found entry with its frequency raised by one (`BTree.java:355`). */
  function Bump(e: Entry): (r: Entry)
    ensures r.key == e.key && r.freq != e.freq
    ensures e.freq < MaxInt32 ==> r.freq == e.freq + 1
  {
    e.(freq := IncFreq(e.freq))
  }

  /** `insert(key)`: insert-or-increment. A key already present gets its
      frequency raised by one; an absent key is added with frequency 1,
      after splitting a full root under a new root, and `num_nodes` grows. */
  function InsertWith(mode: Comparison, tr: BTree, key: Int64): (r: Result<BTree>)
    requires Rooted(tr)
    ensures r.Success? ==> Rooted(r.value) && r.value.t == tr.t && tr.next <= r.value.next
  {
    var t := tr.t;
    match Search(tr, key)
    case Failure(e) => Failure(e)
    case Success(Some(h)) =>
      Success(DiskWrite(tr, h.addr, h.node.(keys := h.node.keys[h.index := Bump(h.node.keys[h.index])])))
    case Success(None) =>
      var k := Entry(key, 1);
      var r := tr.store[tr.root];
      if |r.keys| < 2 * t - 1 then
        match InsertNonfull(mode, tr, tr.root, r, k, |tr.store|)
        case Failure(e) => Failure(e)
        case Success(tr4) => Success(tr4.(numKeys := tr4.numKeys + 1))
      else if tr.next + NodeBytes(t) > MaxInt64 then Failure(IoFailure)
      else
        var (tr3, s) := GrowRoot(tr);
        match InsertNonfull(mode, tr3, tr3.root, s, k, |tr.store|)
        case Failure(e) => Failure(e)
        case Success(tr4) => Success(tr4.(numKeys := tr4.numKeys + 1))
  }

  /** The first half of the full-root step of `insert` (`BTree.java:365-375`):
      the old root is rewritten as a non-root, and a new root `s`, with no
      keys and the old root as its only child, takes the cursor's slot and
      becomes `rpos`. `s` itself is written by the split that follows. */
  function NewRoot(tr: BTree): (r: (BTree, Node))
    requires Rooted(tr) && tr.next <= MaxInt64
    ensures Wf(r.0) && r.0.t == tr.t && r.0.numKeys == tr.numKeys
    ensures r.0.root == tr.next && r.0.next == tr.next + NodeBytes(tr.t)
    ensures r.0.store == tr.store[tr.root := tr.store[tr.root].(isRoot := false)]
    ensures WellFormed(tr.t, r.1) && r.1.isRoot && !r.1.leaf && r.1.keys == []
    ensures r.1.children[0] == tr.root && forall j :: 1 <= j < 2 * tr.t ==> r.1.children[j] == NoChild
  {
    var t := tr.t;
    var top := tr.store[tr.root];
    var (sa, tr1) := NextAddress(tr);
    var tr2 := DiskWrite(tr1, tr.root, top.(isRoot := false)).(root := sa);
    (tr2, Node(false, true, [], [tr.root] + NoChildren(2 * t - 1)))
  }

  /** The full-root step of `insert`: after `NewRoot`, the new root's only
      child is split (`BTree.java:373`), so `s` ends with one key and two
      children. */
  function GrowRoot(tr: BTree): (r: (BTree, Node))
    requires Rooted(tr) && |tr.store[tr.root].keys| == 2 * tr.t - 1
    requires tr.next + NodeBytes(tr.t) <= MaxInt64
    ensures Rooted(r.0) && r.0.t == tr.t && r.0.numKeys == tr.numKeys
    ensures r.0.root == tr.next && r.0.next == tr.next + 2 * NodeBytes(tr.t)
    ensures r.0.store[r.0.root] == r.1 && r.1.isRoot && !r.1.leaf && |r.1.keys| == 1
  {
    var (tr2, s) := NewRoot(tr);
    SplitChild(tr2, tr2.root, s, 0)
  }

  /** The engine's `insert`, with the comparison after a split as intended. */
  function Insert(tr: BTree, key: Int64): (r: Result<BTree>)
    requires Rooted(tr)
    ensures r.Success? ==> Rooted(r.value) && r.value.t == tr.t
  {
    InsertWith(Intended, tr, key)
  }

  /** The constructor on a new file: the root is an empty leaf in the first
      slot, right after the 20-byte header, and the cursor is one slot on. */
  function Create(t: int): (r: BTree)
    requires Degree(t)
    ensures Rooted(r) && Allocated(r)
    ensures r.t == t && r.root == HeaderBytes && r.next == HeaderBytes + NodeBytes(t)
    ensures r.store.Keys == {r.root} && r.store[r.root].keys == [] && r.numKeys == 0
  {
    var tr0 := BTree(t, HeaderBytes, HeaderBytes, 0, map[]);
    var (a, tr1) := NextAddress(tr0);
    DiskWrite(tr1, a, Node(true, true, [], NoChildren(2 * t)))
  }
}
