/** The debugging checks of the B-tree: `check_valid_r`
    (`BTree.java:603-666`), which walks the tree and reports, node by node,
    violations of the B-tree rules, and `check_height_r`
    (`BTree.java:668-685`), which measures the height as one more than the
    tallest child. Both read children from the arena; a cyclic arena would
    make the Java recursion run out of stack, which is the `Exhausted`
    failure of the `fuel` bound here. */
module Validator {
  import opened Base
  import opened Nodes
  import opened Engine
  import opened Shapes

  /** The two range comparisons of `check_valid_r` as written
      (`compareTo(...) <= 1` and `compareTo(...) > 1`), or as their comments
      say they are meant (`<= 0` and `> 0`). */
  datatype Checks = AsWritten | Intended

  /** One line `check_valid_r` prints, with the node's address. */
  datatype Report =
    | KeyCount(addr: int)               // a non-root node with fewer than t-1 or more than 2t-1 keys
    | FewChildren(addr: int)            // a non-root internal node with fewer than t children
    | ManyChildren(addr: int)           // a non-root internal node with more than 2t children
    | EmptyTree(addr: int)              // a root without keys
    | LeafChild(addr: int, slot: int)   // a leaf with a child in `slot`
    | KeyOrder(addr: int, index: int)   // key `index` not above key `index - 1`
    | LeftRange(addr: int, index: int)  // child `index`'s key `index` judged above key `index`
    | RightRange(addr: int, index: int) // child `index + 1`'s key `index` judged not above key `index`

  /** The comparison guarding `LeftRange`: `!(c <= 1)` as written. Since
      `compareTo` is -1, 0 or 1, the written test never fires. */
  predicate LeftBad(mode: Checks, c: int)
  {
    match mode
    case AsWritten => !(c <= 1)
    case Intended => !(c <= 0)
  }

  /** The comparison guarding `RightRange`: `!(c > 1)` as written, which
      fires on every comparison `compareTo` can return. */
  predicate RightBad(mode: Checks, c: int)
  {
    match mode
    case AsWritten => !(c > 1)
    case Intended => !(c > 0)
  }

  /** The written tests, on the values `compareTo` returns: the left one
      never reports, the right one always does. */
  lemma AsWrittenComparisons(a: int, b: int)
    ensures !LeftBad(Checks.AsWritten, CompareTo(a, b))
    ensures RightBad(Checks.AsWritten, CompareTo(a, b))
  {
  }

  /** The intended tests report exactly the keys on the wrong side. */
  lemma IntendedComparisons(a: int, b: int)
    ensures LeftBad(Checks.Intended, CompareTo(a, b)) <==> a > b
    ensures RightBad(Checks.Intended, CompareTo(a, b)) <==> a <= b
  {
  }

  /** The key-count checks at the top of `check_valid_r`. */
  function CountReports(t: int, a: int, x: Node): (r: seq<Report>)
  {
    if !x.isRoot then
      (if |x.keys| < t - 1 || |x.keys| > 2 * t - 1 then [KeyCount(a)] else [])
      + (if !x.leaf && NChildren(x.children) < t then [FewChildren(a)] else [])
      + (if !x.leaf && NChildren(x.children) > 2 * t then [ManyChildren(a)] else [])
    else if |x.keys| < 1 then [EmptyTree(a)]
    else []
  }

  /** The loop over the child slots of a leaf, from slot `j` on. */
  function LeafReports(a: int, cs: seq<Int64>, j: nat): (r: seq<Report>)
    decreases |cs| - j
  {
    if j >= |cs| then []
    else (if cs[j] != NoChild then [LeafChild(a, j)] else []) + LeafReports(a, cs, j + 1)
  }

  /** The loop over the keys from index `i` on: key `i` must be above key `i - 1`. */
  function OrderReports(a: int, keys: seq<Entry>, i: nat): (r: seq<Report>)
    requires i >= 1
    decreases |keys| - i
  {
    if i >= |keys| then []
    else (if CompareTo(keys[i].key, keys[i - 1].key) < 1 then [KeyOrder(a, i)] else []) + OrderReports(a, keys, i + 1)
  }

  /** One pass of the range loop: child `i`'s key `i` against key `i`, then
      child `i + 1`'s key `i` against key `i`, each child read from the
      arena. */
  function RangeAt(mode: Checks, tr: BTree, a: int, x: Node, i: nat): (r: Result<seq<Report>>)
    requires Wf(tr) && WellFormed(tr.t, x) && i < |x.keys|
  {
    var left :=
      if x.children[i] == NoChild then Success([])
      else match DiskRead(tr, x.children[i])
        case Failure(e) => Failure(e)
        case Success(y) =>
          Success(if i < |y.keys| && LeftBad(mode, CompareTo(y.keys[i].key, x.keys[i].key)) then [LeftRange(a, i)] else []);
    var right :=
      if x.children[i + 1] == NoChild then Success([])
      else match DiskRead(tr, x.children[i + 1])
        case Failure(e) => Failure(e)
        case Success(z) =>
          Success(if i < |z.keys| && RightBad(mode, CompareTo(z.keys[i].key, x.keys[i].key)) then [RightRange(a, i)] else []);
    if left.Failure? then left
    else if right.Failure? then right
    else Success(left.value + right.value)
  }

  /** The range loop from index `i` on. */
  function RangeReports(mode: Checks, tr: BTree, a: int, x: Node, i: nat): (r: Result<seq<Report>>)
    requires Wf(tr) && WellFormed(tr.t, x)
    decreases |x.keys| - i
  {
    if i >= |x.keys| then Success([])
    else match RangeAt(mode, tr, a, x, i)
      case Failure(e) => Failure(e)
      case Success(r1) =>
        match RangeReports(mode, tr, a, x, i + 1)
        case Failure(e) => Failure(e)
        case Success(r2) => Success(r1 + r2)
  }

  /** The checks of one node `x` at address `a`, before the recursion. */
  function LocalReports(mode: Checks, tr: BTree, a: int, x: Node): (r: Result<seq<Report>>)
    requires Wf(tr) && WellFormed(tr.t, x)
  {
    var counts := CountReports(tr.t, a, x);
    var leaves := if x.leaf then LeafReports(a, x.children, 0) else [];
    var order := OrderReports(a, x.keys, 1);
    match RangeReports(mode, tr, a, x, 0)
    case Failure(e) => Failure(e)
    case Success(ranges) => Success(counts + leaves + order + ranges)
  }

  /** `check_valid_r(x)` for the node `x` at address `a`: its own reports,
      then those of every child in slot order. */
  function CheckValid(mode: Checks, tr: BTree, a: int, x: Node, fuel: nat): (r: Result<seq<Report>>)
    requires Wf(tr) && WellFormed(tr.t, x)
    decreases fuel, 0
  {
    if fuel == 0 then Failure(Exhausted)
    else match LocalReports(mode, tr, a, x)
      case Failure(e) => Failure(e)
      case Success(own) =>
        match CheckKids(mode, tr, x.children, 0, fuel - 1)
        case Failure(e) => Failure(e)
        case Success(below) => Success(own + below)
  }

  /** The recursion loop over the child slots from `j` on. */
  function CheckKids(mode: Checks, tr: BTree, cs: seq<Int64>, j: nat, fuel: nat): (r: Result<seq<Report>>)
    requires Wf(tr)
    decreases fuel, |cs| - j + 1
  {
    if j >= |cs| then Success([])
    else
      var here :=
        if cs[j] == NoChild then Success([])
        else match DiskRead(tr, cs[j])
          case Failure(e) => Failure(e)
          case Success(w) => CheckValid(mode, tr, cs[j], w, fuel);
      match here
      case Failure(e) => Failure(e)
      case Success(r1) =>
        match CheckKids(mode, tr, cs, j + 1, fuel)
        case Failure(e) => Failure(e)
        case Success(r2) => Success(r1 + r2)
  }

  /** The largest of some heights: the last element after `Collections.sort`. */
  function Max(hs: seq<int>): (m: int)
    requires hs != []
    ensures m in hs
    ensures forall i :: 0 <= i < |hs| ==> hs[i] <= m
  {
    if |hs| == 1 then hs[0]
    else
      var m := Max(hs[1..]);
      assert forall i :: 1 <= i < |hs| ==> hs[i] == hs[1..][i - 1];
      if hs[0] > m then hs[0] else m
  }

  /** `check_height_r(x)`: 1 for a leaf, otherwise one more than the
      tallest of the children in the first `nchildren()` slots. An internal
      node without children makes `ch.get(-1)` throw. */
  function CheckHeight(tr: BTree, x: Node, fuel: nat): (r: Result<int>)
    decreases fuel, 0
  {
    if x.leaf then Success(1)
    else if fuel == 0 then Failure(Exhausted)
    else match KidHeights(tr, x.children, 0, NChildren(x.children), fuel - 1)
      case Failure(e) => Failure(e)
      case Success(hs) => if hs == [] then Failure(IndexOutOfBounds) else Success(Max(hs) + 1)
  }

  /** The heights of the children in slots `i` to `n - 1`. */
  function KidHeights(tr: BTree, cs: seq<Int64>, i: nat, n: nat, fuel: nat): (r: Result<seq<int>>)
    requires n <= |cs|
    ensures r.Success? ==> |r.value| == n - i || (i >= n && r.value == [])
    decreases fuel, n - i + 1
  {
    if i >= n then Success([])
    else match DiskRead(tr, cs[i])
      case Failure(e) => Failure(e)
      case Success(y) =>
        match CheckHeight(tr, y, fuel)
        case Failure(e) => Failure(e)
        case Success(h) =>
          match KidHeights(tr, cs, i + 1, n, fuel)
          case Failure(e) => Failure(e)
          case Success(hs) => Success([h] + hs)
  }

  /** A node laid out for a shape keeping the invariant passes the count
      checks, except for the root of an empty tree. */
  lemma CountClean(t: int, a: int, x: Node, T: Shape, h: int, lo: int, hi: int, isRoot: bool)
    requires NodeMatches(x, t, T, isRoot) && BInv(T, t, h, lo, hi, isRoot)
    requires forall j :: 0 <= j < |T.kids| ==> T.kids[j].addr != NoChild
    ensures CountReports(t, a, x) == if isRoot && |T.keys| == 0 then [EmptyTree(a)] else []
  {
    NChildrenOfPrefix(x.children, |T.kids|);
  }

  /** A leaf's empty slots raise nothing. */
  lemma {:induction false} LeafClean(a: int, cs: seq<Int64>, j: nat)
    requires forall i :: j <= i < |cs| ==> cs[i] == NoChild
    ensures LeafReports(a, cs, j) == []
    decreases |cs| - j
  {
    if j < |cs| {
      LeafClean(a, cs, j + 1);
    }
  }

  /** Ascending keys raise nothing. */
  lemma {:induction false} OrderClean(a: int, keys: seq<Entry>, i: nat)
    requires Ascending(keys) && i >= 1
    ensures OrderReports(a, keys, i) == []
    decreases |keys| - i
  {
    if i < |keys| {
      AscendingAt(keys, i - 1, i);
      OrderClean(a, keys, i + 1);
    }
  }

  /** Key order reports are raised exactly where a key is not above the
      one before it. */
  lemma {:induction false} OrderReportsExactly(a: int, keys: seq<Entry>, i: nat, k: int)
    requires i >= 1
    ensures KeyOrder(a, k) in OrderReports(a, keys, i) <==> i <= k < |keys| && keys[k].key <= keys[k - 1].key
    decreases |keys| - i
  {
    if i < |keys| {
      OrderReportsExactly(a, keys, i + 1, k);
    }
  }

  /** What the range checks need of a node laid out for a shape keeping
      the invariant: it is in the arena, its kids are laid out under it,
      and the kid addresses are real addresses. */
  ghost predicate Laid(tr: BTree, T: Shape, h: int, lo: int, hi: int, isRoot: bool)
  {
    && Wf(tr)
    && (forall a :: a in tr.store ==> a >= HeaderBytes)
    && Layout(tr.store, tr.t, T, isRoot)
    && BInv(T, tr.t, h, lo, hi, isRoot)
  }

  /** One pass of the range loop over a node laid out for a shape keeping
      the invariant: the reads succeed, the intended tests report nothing,
      and the written right-hand test reports whenever the right child has
      a key `i`. */
  lemma RangeAtClean(mode: Checks, tr: BTree, T: Shape, h: int, lo: int, hi: int, isRoot: bool, i: nat)
    requires Laid(tr, T, h, lo, hi, isRoot) && i < |T.keys|
    ensures WellFormed(tr.t, tr.store[T.addr])
    ensures RangeAt(mode, tr, T.addr, tr.store[T.addr], i).Success?
    ensures mode == Checks.Intended ==> RangeAt(mode, tr, T.addr, tr.store[T.addr], i).value == []
    ensures mode == Checks.AsWritten && h >= 2 && i < |T.kids[i + 1].keys| ==>
      RightRange(T.addr, i) in RangeAt(mode, tr, T.addr, tr.store[T.addr], i).value
  {
    var t, x := tr.t, tr.store[T.addr];
    if h >= 2 {
      var L, R := T.kids[i], T.kids[i + 1];
      assert Layout(tr.store, t, L, false) && Layout(tr.store, t, R, false);
      assert BInv(L, t, h - 1, Lo(T.keys, lo, i), Hi(T.keys, hi, i), false);
      assert BInv(R, t, h - 1, Lo(T.keys, lo, i + 1), Hi(T.keys, hi, i + 1), false);
      var y, z := tr.store[L.addr], tr.store[R.addr];
      assert x.children[i] == L.addr && x.children[i + 1] == R.addr;
      if i < |y.keys| {
        assert y.keys[i].key < T.keys[i].key;
      }
      if i < |z.keys| {
        assert z.keys[i].key > T.keys[i].key;
      }
    }
  }

  /** The range loop from `i` on, given that each of its passes reads
      successfully: it then succeeds, reports what its first pass reports,
      and reports nothing when no pass does. */
  lemma {:induction false} RangeLoop(mode: Checks, tr: BTree, a: int, x: Node, i: nat)
    requires Wf(tr) && WellFormed(tr.t, x)
    requires forall k :: i <= k < |x.keys| ==> RangeAt(mode, tr, a, x, k).Success?
    ensures RangeReports(mode, tr, a, x, i).Success?
    ensures i < |x.keys| ==> RangeAt(mode, tr, a, x, i).value <= RangeReports(mode, tr, a, x, i).value
    ensures (forall k :: i <= k < |x.keys| ==> RangeAt(mode, tr, a, x, k).value == []) ==>
      RangeReports(mode, tr, a, x, i).value == []
    decreases |x.keys| - i
  {
    if i < |x.keys| {
      RangeLoop(mode, tr, a, x, i + 1);
    }
  }

  /** Every pass of the range loop over a node laid out for a shape keeping
      the invariant reads successfully, the intended tests report nothing,
      and the written tests report the first pass of an internal node. */
  lemma RangesClean(mode: Checks, tr: BTree, T: Shape, h: int, lo: int, hi: int, isRoot: bool)
    requires Laid(tr, T, h, lo, hi, isRoot)
    ensures T.addr in tr.store && WellFormed(tr.t, tr.store[T.addr])
    ensures forall k :: 0 <= k < |tr.store[T.addr].keys| ==>
      RangeAt(mode, tr, T.addr, tr.store[T.addr], k).Success?
      && (mode == Checks.Intended ==> RangeAt(mode, tr, T.addr, tr.store[T.addr], k).value == [])
    ensures mode == Checks.AsWritten && h >= 2 ==>
      1 <= |tr.store[T.addr].keys| && RightRange(T.addr, 0) in RangeAt(mode, tr, T.addr, tr.store[T.addr], 0).value
  {
    LaidFacts(tr, T, h, lo, hi, isRoot);
    forall k | 0 <= k < |tr.store[T.addr].keys|
      ensures RangeAt(mode, tr, T.addr, tr.store[T.addr], k).Success?
      ensures mode == Checks.Intended ==> RangeAt(mode, tr, T.addr, tr.store[T.addr], k).value == []
    {
      RangeAtClean(mode, tr, T, h, lo, hi, isRoot, k);
    }
    if h >= 2 {
      RangeAtClean(mode, tr, T, h, lo, hi, isRoot, 0);
    }
  }

  /** The count, leaf-slot and order checks of a node laid out for a shape
      keeping the invariant report nothing, except for the root of an
      empty tree. */
  lemma LocalClean(tr: BTree, T: Shape, h: int, lo: int, hi: int, isRoot: bool)
    requires Laid(tr, T, h, lo, hi, isRoot)
    ensures T.addr in tr.store && WellFormed(tr.t, tr.store[T.addr])
    ensures CountReports(tr.t, T.addr, tr.store[T.addr]) == if isRoot && |T.keys| == 0 then [EmptyTree(T.addr)] else []
    ensures tr.store[T.addr].leaf ==> LeafReports(T.addr, tr.store[T.addr].children, 0) == []
    ensures OrderReports(T.addr, tr.store[T.addr].keys, 1) == []
  {
    var t, a, x := tr.t, T.addr, tr.store[T.addr];
    LaidFacts(tr, T, h, lo, hi, isRoot);
    hide *;
    CountClean(t, a, x, T, h, lo, hi, isRoot);
    if x.leaf {
      LeafClean(a, x.children, 0);
    }
    OrderClean(a, x.keys, 1);
  }

  /** `check_valid_r` on the child in slot `c` succeeds, and under the
      intended tests reports nothing. */
  predicate KidClean(mode: Checks, tr: BTree, c: Int64, fuel: nat)
    requires Wf(tr)
  {
    c != NoChild ==>
      && c in tr.store
      && CheckValid(mode, tr, c, tr.store[c], fuel).Success?
      && (mode == Checks.Intended ==> CheckValid(mode, tr, c, tr.store[c], fuel).value == [])
  }

  /** The recursion loop from slot `j` on, given that each child passes. */
  lemma {:induction false} KidsLoop(mode: Checks, tr: BTree, cs: seq<Int64>, j: nat, fuel: nat)
    requires Wf(tr)
    requires forall k :: j <= k < |cs| ==> KidClean(mode, tr, cs[k], fuel)
    ensures CheckKids(mode, tr, cs, j, fuel).Success?
    ensures mode == Checks.Intended ==> CheckKids(mode, tr, cs, j, fuel).value == []
    decreases |cs| - j
  {
    if j < |cs| {
      assert KidClean(mode, tr, cs[j], fuel);
      KidsLoop(mode, tr, cs, j + 1, fuel);
    }
  }

  /** `check_valid_r` on a subtree laid out for a shape keeping the
      invariant: every read succeeds; with the intended tests nothing is
      reported except the root of an empty tree; with the written tests an
      internal node is always reported for its second child. */
  lemma {:induction false} SubtreeChecks(mode: Checks, tr: BTree, T: Shape, h: int, lo: int, hi: int, isRoot: bool, fuel: nat)
    requires Laid(tr, T, h, lo, hi, isRoot) && fuel >= h
    ensures T.addr in tr.store && WellFormed(tr.t, tr.store[T.addr])
    ensures CheckValid(mode, tr, T.addr, tr.store[T.addr], fuel).Success?
    ensures mode == Checks.Intended ==>
      CheckValid(mode, tr, T.addr, tr.store[T.addr], fuel).value == if isRoot && |T.keys| == 0 then [EmptyTree(T.addr)] else []
    ensures mode == Checks.AsWritten && h >= 2 ==>
      RightRange(T.addr, 0) in CheckValid(mode, tr, T.addr, tr.store[T.addr], fuel).value
    decreases T, 1
  {
    hide *;
    LaidFacts(tr, T, h, lo, hi, isRoot);
    var a, x := T.addr, tr.store[T.addr];
    LocalClean(tr, T, h, lo, hi, isRoot);
    RangesClean(mode, tr, T, h, lo, hi, isRoot);
    KidsClean(mode, tr, T, h, lo, hi, isRoot, fuel - 1);
    RangeLoop(mode, tr, a, x, 0);
    KidsLoop(mode, tr, x.children, 0, fuel - 1);
    CheckValidStep(mode, tr, a, x, fuel);
  }

  /** Every child slot of a node laid out for a shape keeping the invariant
      passes `check_valid_r` when there is fuel for the subtree's height. */
  lemma KidsClean(mode: Checks, tr: BTree, T: Shape, h: int, lo: int, hi: int, isRoot: bool, fuel: nat)
    requires Laid(tr, T, h, lo, hi, isRoot) && fuel >= h - 1
    ensures Wf(tr) && T.addr in tr.store
    ensures forall k :: 0 <= k < |tr.store[T.addr].children| ==> KidClean(mode, tr, tr.store[T.addr].children[k], fuel)
    decreases T, 0
  {
    var t, x := tr.t, tr.store[T.addr];
    LaidFacts(tr, T, h, lo, hi, isRoot);
    forall k | 0 <= k < |x.children|
      ensures KidClean(mode, tr, x.children[k], fuel)
    {
      if k < |T.kids| {
        var K := T.kids[k];
        assert Layout(tr.store, t, K, false);
        assert BInv(K, t, h - 1, Lo(T.keys, lo, k), Hi(T.keys, hi, k), false);
        SubtreeChecks(mode, tr, K, h - 1, Lo(T.keys, lo, k), Hi(T.keys, hi, k), false, fuel);
      }
    }
  }

  /** What the checks of one node use of its layout. */
  lemma LaidFacts(tr: BTree, T: Shape, h: int, lo: int, hi: int, isRoot: bool)
    requires Laid(tr, T, h, lo, hi, isRoot)
    ensures Wf(tr) && T.addr in tr.store
    ensures NodeMatches(tr.store[T.addr], tr.t, T, isRoot) && BInv(T, tr.t, h, lo, hi, isRoot)
    ensures Ascending(tr.store[T.addr].keys) && WellFormed(tr.t, tr.store[T.addr])
    ensures forall j :: 0 <= j < |T.kids| ==> T.kids[j].addr != NoChild
    ensures tr.store[T.addr].leaf ==> forall i :: 0 <= i < |tr.store[T.addr].children| ==> tr.store[T.addr].children[i] == NoChild
    ensures h >= 1 && (h >= 2 ==> 1 <= |T.kids[1].keys|)
  {
    var t := tr.t;
    forall j | 0 <= j < |T.kids|
      ensures T.kids[j].addr != NoChild
    {
      assert Layout(tr.store, t, T.kids[j], false);
    }
    if h >= 2 {
      assert BInv(T.kids[1], t, h - 1, Lo(T.keys, lo, 1), Hi(T.keys, hi, 1), false);
    }
  }

  /** `check_valid_r` is the node's own checks followed by its children's. */
  lemma CheckValidStep(mode: Checks, tr: BTree, a: int, x: Node, fuel: nat)
    requires Wf(tr) && WellFormed(tr.t, x) && fuel > 0
    requires RangeReports(mode, tr, a, x, 0).Success? && CheckKids(mode, tr, x.children, 0, fuel - 1).Success?
    ensures CheckValid(mode, tr, a, x, fuel) == Success(
      CountReports(tr.t, a, x) + (if x.leaf then LeafReports(a, x.children, 0) else [])
      + OrderReports(a, x.keys, 1) + RangeReports(mode, tr, a, x, 0).value
      + CheckKids(mode, tr, x.children, 0, fuel - 1).value)
  {
  }

  /** The kid in slot `j` of a node laid out for a shape keeping the
      invariant is laid out for the kid's shape, one level lower. */
  lemma LaidKid(tr: BTree, T: Shape, h: int, lo: int, hi: int, isRoot: bool, j: nat)
    requires Laid(tr, T, h, lo, hi, isRoot) && j < |T.kids|
    ensures T.addr in tr.store && WellFormed(tr.t, tr.store[T.addr]) && j < |tr.store[T.addr].children|
    ensures tr.store[T.addr].children[j] == T.kids[j].addr
    ensures Laid(tr, T.kids[j], h - 1, Lo(T.keys, lo, j), Hi(T.keys, hi, j), false)
  {
    assert Layout(tr.store, tr.t, T.kids[j], false);
  }

  /** What `check_height_r` uses of a node laid out for a shape keeping the
      invariant: it is a leaf exactly at height 1, and otherwise its
      children fill its first `|T.kids|` slots. */
  lemma HeightFacts(tr: BTree, T: Shape, h: int, lo: int, hi: int, isRoot: bool)
    requires Laid(tr, T, h, lo, hi, isRoot)
    ensures T.addr in tr.store && WellFormed(tr.t, tr.store[T.addr])
    ensures tr.store[T.addr].leaf <==> h == 1
    ensures h >= 1
    ensures !tr.store[T.addr].leaf ==> 1 <= |T.kids| <= |tr.store[T.addr].children| && NChildren(tr.store[T.addr].children) == |T.kids|
  {
    LaidFacts(tr, T, h, lo, hi, isRoot);
    var x := tr.store[T.addr];
    if !x.leaf {
      NChildrenOfPrefix(x.children, |T.kids|);
    }
  }

  /** `check_height_r` on a subtree laid out for a shape keeping the
      invariant with height `h` returns `h`, given fuel for the depth. */
  lemma {:induction false} HeightChecks(tr: BTree, T: Shape, h: int, lo: int, hi: int, isRoot: bool, fuel: nat)
    requires Laid(tr, T, h, lo, hi, isRoot) && fuel >= h - 1
    ensures T.addr in tr.store
    ensures CheckHeight(tr, tr.store[T.addr], fuel) == Success(h)
    decreases T, 1
  {
    hide Laid, Layout, BInv, NodeMatches;
    HeightFacts(tr, T, h, lo, hi, isRoot);
    var x := tr.store[T.addr];
    if !x.leaf {
      var n := |T.kids|;
      KidHeightsOk(tr, T, h, lo, hi, isRoot, 0, fuel - 1);
      var hs := KidHeights(tr, x.children, 0, n, fuel - 1).value;
      assert Max(hs) in hs;
    }
  }

  /** The children in slots `i` on of such a node all measure `h - 1`. */
  lemma {:induction false} KidHeightsOk(tr: BTree, T: Shape, h: int, lo: int, hi: int, isRoot: bool, i: nat, fuel: nat)
    requires Laid(tr, T, h, lo, hi, isRoot) && h >= 2 && fuel >= h - 2 && i <= |T.kids|
    ensures T.addr in tr.store && |T.kids| <= |tr.store[T.addr].children|
    ensures KidHeights(tr, tr.store[T.addr].children, i, |T.kids|, fuel).Success?
    ensures forall k :: 0 <= k < |KidHeights(tr, tr.store[T.addr].children, i, |T.kids|, fuel).value| ==>
      KidHeights(tr, tr.store[T.addr].children, i, |T.kids|, fuel).value[k] == h - 1
    decreases T, 0, |T.kids| - i
  {
    hide Laid, Layout, BInv, NodeMatches;
    HeightFacts(tr, T, h, lo, hi, isRoot);
    var x := tr.store[T.addr];
    if i < |T.kids| {
      LaidKid(tr, T, h, lo, hi, isRoot, i);
      HeightChecks(tr, T.kids[i], h - 1, Lo(T.keys, lo, i), Hi(T.keys, hi, i), false, fuel);
      KidHeightsOk(tr, T, h, lo, hi, isRoot, i + 1, fuel);
    }
  }

  /** A valid tree is laid out from its root, every node past the header. */
  lemma ValidLaid(tr: BTree, T: Shape)
    requires Valid(tr, T)
    ensures tr.root in tr.store && WellFormed(tr.t, tr.store[tr.root])
    ensures Laid(tr, T, Height(T), Bottom, Top, true)
    ensures Height(T) <= |tr.store|
    ensures tr.store[tr.root].keys == T.keys && (tr.store[tr.root].leaf <==> Height(T) == 1)
  {
    AllocatedBelow(tr);
    ValidHeight(tr, T);
    LaidFacts(tr, T, Height(T), Bottom, Top, true);
  }

  /** `check_valid()` on a valid tree, with the intended range tests:
      every read succeeds and nothing is reported, except that the root of
      an empty tree is reported as empty. */
  lemma ValidChecks(tr: BTree, T: Shape, fuel: nat)
    requires Valid(tr, T) && fuel >= |tr.store|
    ensures tr.root in tr.store && WellFormed(tr.t, tr.store[tr.root])
    ensures CheckValid(Checks.Intended, tr, tr.root, tr.store[tr.root], fuel)
      == Success(if tr.store[tr.root].keys == [] then [EmptyTree(tr.root)] else [])
  {
    ValidLaid(tr, T);
    hide *;
    SubtreeChecks(Checks.Intended, tr, T, Height(T), Bottom, Top, true, fuel);
  }

  /** `check_valid()` as written on a valid tree of more than one level:
      the right-hand range test, which no value of `compareTo` passes,
      reports the root for its second child although the tree is valid. */
  lemma AsWrittenReportsValidTree(tr: BTree, T: Shape, fuel: nat)
    requires Valid(tr, T) && fuel >= |tr.store|
    requires !tr.store[tr.root].leaf
    ensures WellFormed(tr.t, tr.store[tr.root])
    ensures CheckValid(Checks.AsWritten, tr, tr.root, tr.store[tr.root], fuel).Success?
    ensures RightRange(tr.root, 0) in CheckValid(Checks.AsWritten, tr, tr.root, tr.store[tr.root], fuel).value
  {
    ValidLaid(tr, T);
    hide *;
    SubtreeChecks(Checks.AsWritten, tr, T, Height(T), Bottom, Top, true, fuel);
  }

  /** `check_height_r(root)` on a valid tree is its height: one more than
      the tallest child is one more than the first child, since all leaves
      lie at the same depth. */
  lemma ValidCheckHeight(tr: BTree, T: Shape, fuel: nat)
    requires Valid(tr, T) && fuel >= |tr.store|
    ensures tr.root in tr.store
    ensures CheckHeight(tr, tr.store[tr.root], fuel) == Success(Height(T))
  {
    ValidLaid(tr, T);
    hide *;
    HeightChecks(tr, T, Height(T), Bottom, Top, true, fuel);
  }
}
