/** One B-tree node as `BTree.BTreeNode` holds it, and the sizes that the
    degree `t` fixes for every node. */
module Nodes {
  import opened Base

  /** A child slot that holds no child. */
  const NoChild: Int64 := -1

  /** Size of the file header: marker, k, t (four bytes each) and the root address. */
  const HeaderBytes: int := 20

  /** The UTF-16 codes written for the leaf and root flags. */
  const LeafChar: nat := 0x4C       // 'L'
  const InternalChar: nat := 0x49   // 'I'
  const RootChar: nat := 0x52       // 'R'
  const NonRootChar: nat := 0x4E    // 'N'

  /** The pattern `disk_write` puts in an unused key slot:
      `0xadde_eeee_adde_aaaaL` and `0xdead_beef`, as the signed Java values. */
  const SentinelKey: Int64 := 0xadde_eeee_adde_aaaa - 0x1_0000_0000_0000_0000
  const SentinelFreq: Int32 := 0xdead_beef - 0x1_0000_0000

  /** `BTree.Key`: a key and the number of times it was inserted. */
  datatype Entry = Entry(key: Int64, freq: Int32)

  /** `BTree.BTreeNode` without its address (the address is where the node
      sits in the store). `keys` holds the first `n` keys only, so `n` is
      `|keys|`; `children` is the full array of `2t` slots with `NoChild`
      for an empty slot. */
  datatype Node = Node(leaf: bool, isRoot: bool, keys: seq<Entry>, children: seq<Int64>)

  /** A usable minimum degree: a B-tree needs `t >= 2`, and the Java code
      sizes its arrays with the `int` value `2 * t`. */
  predicate Degree(t: int)
  {
    2 <= t < 0x4000_0000
  }

  /** Bytes of one node record: leaf flag (2), root flag (2), n (4),
      2t-1 key slots of 8 + 4 bytes, 2t child addresses of 8 bytes. */
  function NodeBytes(t: int): (r: int)
    ensures r == 40 * t - 4
  {
    2 + 2 + 4 + 12 * (2 * t - 1) + 8 * (2 * t)
  }

  /** Offset, inside a record, of the first child address. */
  function ChildrenOffset(t: int): (r: int)
    ensures r + 16 * t == NodeBytes(t)
  {
    8 + 12 * (2 * t - 1)
  }

  /** Whether `a` is the address of a node slot: the first slot follows
      the header, and each further slot follows the one before it. */
  predicate Aligned(t: int, a: int)
    decreases a
  {
    Degree(t) && (a == HeaderBytes || (a > HeaderBytes && Aligned(t, a - NodeBytes(t))))
  }

  /** The slot after an aligned slot is aligned: the allocator's step. */
  lemma AlignedNext(t: int, a: int)
    requires Aligned(t, a)
    ensures Aligned(t, a + NodeBytes(t))
  {
  }

  /** The slot addresses below `n`, for a slot address `n`. */
  function Slots(t: int, n: int): (r: set<int>)
    requires Degree(t)
    decreases n
  {
    if n <= HeaderBytes then {} else Slots(t, n - NodeBytes(t)) + {n - NodeBytes(t)}
  }

  /** Every address `Slots` lists is a slot below `n`. */
  lemma {:induction false} SlotsBelow(t: int, n: int)
    requires Aligned(t, n)
    ensures forall a :: a in Slots(t, n) ==> Aligned(t, a) && a < n
    decreases n
  {
    if n > HeaderBytes {
      SlotsBelow(t, n - NodeBytes(t));
    }
  }

  /** Two different slot addresses are a whole record apart. */
  lemma {:induction false} SlotGap(t: int, a: int, b: int)
    requires Aligned(t, a) && Aligned(t, b) && a < b
    ensures a + NodeBytes(t) <= b
    decreases a + b
  {
    var b' := b - NodeBytes(t);
    if a < b' {
      SlotGap(t, a, b');
    } else if b' < a {
      SlotGap(t, b', a);
    }
  }

  /** What every node built by the engine or read back by `disk_read`
      satisfies: at most 2t-1 keys and exactly 2t child slots. */
  predicate WellFormed(t: int, x: Node)
  {
    |x.keys| <= 2 * t - 1 && |x.children| == 2 * t
  }

  /** `2t` empty child slots, as the node constructor leaves them. */
  function NoChildren(n: nat): (r: seq<Int64>)
    ensures |r| == n
    ensures forall i :: 0 <= i < n ==> r[i] == NoChild
  {
    seq(n, _ => NoChild)
  }

  /** `BTreeNode.nchildren`: the number of slots that hold a child. */
  function NChildren(cs: seq<Int64>): (r: nat)
    ensures r <= |cs|
    ensures r == 0 <==> forall i :: 0 <= i < |cs| ==> cs[i] == NoChild
  {
    if cs == [] then 0
    else NChildren(cs[..|cs| - 1]) + (if cs[|cs| - 1] != NoChild then 1 else 0)
  }

  /** A node whose first `m` slots hold children and the rest none has
      exactly `m` children. */
  lemma {:induction false} NChildrenOfPrefix(cs: seq<Int64>, m: nat)
    requires m <= |cs|
    requires forall i :: 0 <= i < m ==> cs[i] != NoChild
    requires forall i :: m <= i < |cs| ==> cs[i] == NoChild
    ensures NChildren(cs) == m
  {
    if cs != [] {
      if m == |cs| {
        NChildrenOfPrefix(cs[..|cs| - 1], m - 1);
      } else {
        NChildrenOfPrefix(cs[..|cs| - 1], m);
      }
    }
  }
}
