/** The fixed-width node record of `disk_write` / `disk_read`, and the file
    seen as a header followed by node slots. */
module Record {
  import opened Base
  import opened BigEndian
  import opened Nodes

  /** Concatenation of the parts, in order: the successive writes of one record. */
  function Join(parts: seq<seq<Byte>>): (r: seq<Byte>)
  {
    if parts == [] then [] else Join(parts[..|parts| - 1]) + parts[|parts| - 1]
  }

  /** Parts all `w` bytes long place part `j` at offset `w * j`. */
  lemma {:induction false} JoinSlice(parts: seq<seq<Byte>>, w: nat, j: nat)
    requires forall p :: 0 <= p < |parts| ==> |parts[p]| == w
    requires j < |parts|
    ensures |Join(parts)| == w * |parts| && w * j + w <= |Join(parts)|
    ensures Join(parts)[w * j .. w * j + w] == parts[j]
    decreases |parts|, 1
  {
    JoinLength(parts, w);
    MulStep(w, j, |parts|);
    if j < |parts| - 1 {
      JoinSliceFront(parts, w, j);
    } else {
      JoinSliceLast(parts, w);
    }
  }

  lemma {:induction false} JoinSliceFront(parts: seq<seq<Byte>>, w: nat, j: nat)
    requires forall p :: 0 <= p < |parts| ==> |parts[p]| == w
    requires j < |parts| - 1 && w * j + w <= |Join(parts)|
    ensures Join(parts)[w * j .. w * j + w] == parts[j]
    decreases |parts|, 0
  {
    var front := parts[..|parts| - 1];
    JoinSlice(front, w, j);
    MulStep(w, j, |front|);
    SliceOfFront(Join(front), parts[|parts| - 1], w * j, w * j + w);
  }

  lemma {:induction false} JoinSliceLast(parts: seq<seq<Byte>>, w: nat)
    requires forall p :: 0 <= p < |parts| ==> |parts[p]| == w
    requires parts != [] && |Join(parts)| == w * |parts|
    requires w * (|parts| - 1) + w <= |Join(parts)|
    ensures Join(parts)[w * (|parts| - 1) .. w * (|parts| - 1) + w] == parts[|parts| - 1]
  {
    var front := parts[..|parts| - 1];
    JoinLength(front, w);
    MulStep(w, |parts| - 1, |parts|);
    SliceOfBack(Join(front), parts[|parts| - 1]);
  }

  /** `w * j + w == w * (j + 1)`, and it stays within `w * m` when `j < m`. */
  lemma MulStep(w: nat, j: nat, m: nat)
    requires j < m
    ensures w * j + w == w * (j + 1) <= w * m
  {
    var d: nat := m - (j + 1);
    assert w * m == w * (j + 1) + w * d;
  }

  lemma SliceOfFront(a: seq<Byte>, b: seq<Byte>, lo: nat, hi: nat)
    requires lo <= hi <= |a|
    ensures (a + b)[lo..hi] == a[lo..hi]
  {
  }

  lemma SliceOfBack(a: seq<Byte>, b: seq<Byte>)
    ensures (a + b)[|a|..|a| + |b|] == b
  {
  }

  lemma {:induction false} JoinLength(parts: seq<seq<Byte>>, w: nat)
    requires forall p :: 0 <= p < |parts| ==> |parts[p]| == w
    ensures |Join(parts)| == w * |parts|
  {
    if parts != [] {
      JoinLength(parts[..|parts| - 1], w);
    }
  }

  /** The 12 bytes of key slot `j`: the key and its frequency when `j < n`,
      the sentinel pattern otherwise. */
  function KeySlot(keys: seq<Entry>, j: nat): (r: seq<Byte>)
    ensures |r| == 12
  {
    if j < |keys| then Int64Bytes(keys[j].key) + Int32Bytes(keys[j].freq)
    else Int64Bytes(SentinelKey) + Int32Bytes(SentinelFreq)
  }

  /** The sentinel slot is the byte pattern `ad de ee ee ad de aa aa de ad be ef`. */
  lemma SentinelSlotBytes()
    ensures Int64Bytes(SentinelKey) + Int32Bytes(SentinelFreq)
         == [0xad, 0xde, 0xee, 0xee, 0xad, 0xde, 0xaa, 0xaa, 0xde, 0xad, 0xbe, 0xef]
  {
    SentinelKeyBytes();
    SentinelFreqBytes();
  }

  lemma SentinelKeyBytes()
    ensures Int64Bytes(SentinelKey) == [0xad, 0xde, 0xee, 0xee, 0xad, 0xde, 0xaa, 0xaa]
  {
    assert SentinelKey % 0x1_0000_0000_0000_0000 == 0xadde_eeee_adde_aaaa;
    assert UBytes(0xad, 1) == [0xad];
    assert UBytes(0xadde, 2) == [0xad, 0xde];
    assert UBytes(0xadde_ee, 3) == [0xad, 0xde, 0xee];
    assert UBytes(0xadde_eeee, 4) == [0xad, 0xde, 0xee, 0xee];
    assert UBytes(0xadde_eeee_ad, 5) == [0xad, 0xde, 0xee, 0xee, 0xad];
    assert UBytes(0xadde_eeee_adde, 6) == [0xad, 0xde, 0xee, 0xee, 0xad, 0xde];
    assert UBytes(0xadde_eeee_adde_aa, 7) == [0xad, 0xde, 0xee, 0xee, 0xad, 0xde, 0xaa];
    assert UBytes(0xadde_eeee_adde_aaaa, Width64) == [0xad, 0xde, 0xee, 0xee, 0xad, 0xde, 0xaa, 0xaa];
  }

  lemma SentinelFreqBytes()
    ensures Int32Bytes(SentinelFreq) == [0xde, 0xad, 0xbe, 0xef]
  {
    assert SentinelFreq % 0x1_0000_0000 == 0xdead_beef;
    assert UBytes(0xde, 1) == [0xde];
    assert UBytes(0xdead, 2) == [0xde, 0xad];
    assert UBytes(0xdead_be, 3) == [0xde, 0xad, 0xbe];
    assert UBytes(0xdead_beef, Width32) == [0xde, 0xad, 0xbe, 0xef];
  }

  function KeyParts(t: int, keys: seq<Entry>): (r: seq<seq<Byte>>)
    requires Degree(t)
    ensures |r| == 2 * t - 1
    ensures forall j :: 0 <= j < |r| ==> r[j] == KeySlot(keys, j)
  {
    seq(2 * t - 1, j requires 0 <= j => KeySlot(keys, j))
  }

  function ChildParts(children: seq<Int64>): (r: seq<seq<Byte>>)
    ensures |r| == |children|
    ensures forall j :: 0 <= j < |r| ==> r[j] == Int64Bytes(children[j])
  {
    seq(|children|, j requires 0 <= j < |children| => Int64Bytes(children[j]))
  }

  /** `disk_write`'s record: the flags and count, the `2t-1` key slots, the
      `2t` child addresses, written one after another. */
  function EncodeNode(t: int, x: Node): (r: seq<Byte>)
    requires Degree(t) && WellFormed(t, x)
    ensures |r| == NodeBytes(t)
  {
    JoinLength(KeyParts(t, x.keys), 12);
    JoinLength(ChildParts(x.children), 8);
    Head(x) + Join(KeyParts(t, x.keys)) + Join(ChildParts(x.children))
  }

  /** The first eight bytes of a record: leaf flag, root flag, key count. */
  function Head(x: Node): (r: seq<Byte>)
    requires |x.keys| <= MaxInt32
    ensures |r| == 8
  {
    CharBytes(if x.leaf then LeafChar else InternalChar)
    + CharBytes(if x.isRoot then RootChar else NonRootChar)
    + Int32Bytes(|x.keys|)
  }

  lemma SliceOfConcat(a: seq<Byte>, b: seq<Byte>, c: seq<Byte>, i: nat, j: nat)
    requires i <= j <= |b|
    ensures (a + b + c)[|a| + i .. |a| + j] == b[i..j]
  {
  }

  /** The flags and the count open the record. */
  lemma EncodeHead(t: int, x: Node)
    requires Degree(t) && WellFormed(t, x)
    ensures var r := EncodeNode(t, x);
      && r[0..2] == CharBytes(if x.leaf then LeafChar else InternalChar)
      && r[2..4] == CharBytes(if x.isRoot then RootChar else NonRootChar)
      && r[4..8] == Int32Bytes(|x.keys|)
  {
    var r := EncodeNode(t, x);
    assert r[..8] == Head(x);
  }

  /** Key slot `j` sits at +8+12j. */
  lemma EncodeKeySlot(t: int, x: Node, j: nat)
    requires Degree(t) && WellFormed(t, x) && j < 2 * t - 1
    ensures EncodeNode(t, x)[8 + 12 * j .. 20 + 12 * j] == KeySlot(x.keys, j)
  {
    var parts := KeyParts(t, x.keys);
    var ks := Join(parts);
    JoinSlice(parts, 12, j);
    assert ks[12 * j .. 12 * j + 12] == KeySlot(x.keys, j);
    var h := Head(x);
    var cs := Join(ChildParts(x.children));
    assert EncodeNode(t, x) == h + ks + cs;
    SliceOfConcat(h, ks, cs, 12 * j, 12 * j + 12);
  }

  /** Child `j` sits at +8+12(2t-1)+8j. */
  lemma EncodeChild(t: int, x: Node, j: nat)
    requires Degree(t) && WellFormed(t, x) && j < 2 * t
    ensures EncodeNode(t, x)[ChildrenOffset(t) + 8 * j .. ChildrenOffset(t) + 8 * j + 8] == Int64Bytes(x.children[j])
  {
    var parts := ChildParts(x.children);
    var cs := Join(parts);
    JoinSlice(parts, 8, j);
    assert cs[8 * j .. 8 * j + 8] == Int64Bytes(x.children[j]);
    var hk := Head(x) + Join(KeyParts(t, x.keys));
    assert EncodeNode(t, x) == hk + cs + [];
    SliceOfConcat(hk, cs, [], 8 * j, 8 * j + 8);
  }

  /** `disk_read` of one record. A count outside `0..2t-1` makes the Java
      code fail with a negative array size or an array copy out of bounds. */
  function DecodeNode(t: int, bs: seq<Byte>): (r: Result<Node>)
    requires Degree(t) && |bs| == NodeBytes(t)
    ensures r.Success? ==> WellFormed(t, r.value)
    ensures r.Success? <==> 0 <= ReadInt32(bs[4..8]) <= 2 * t - 1
    ensures r.Failure? ==> r.error == CorruptNode
  {
    var n := ReadInt32(bs[4..8]);
    if n < 0 || n > 2 * t - 1 then Failure(CorruptNode)
    else
      var keys := seq(n, j requires 0 <= j < n => KeyAt(bs, j));
      var children := seq(2 * t, j requires 0 <= j < 2 * t => ChildAt(t, bs, j));
      Success(Node(ReadChar(bs[0..2]) == LeafChar, ReadChar(bs[2..4]) == RootChar, keys, children))
  }

  /** The entry read from key slot `j`. */
  function KeyAt(bs: seq<Byte>, j: nat): Entry
    requires 20 + 12 * j <= |bs|
  {
    SlotEntry(bs[8 + 12 * j .. 20 + 12 * j])
  }

  /** A 12-byte key slot read as a key and its frequency. */
  function SlotEntry(slot: seq<Byte>): Entry
    requires |slot| == 12
  {
    Entry(ReadInt64(slot[..8]), ReadInt32(slot[8..]))
  }

  lemma SlotEntryOfBytes(e: Entry)
    ensures SlotEntry(Int64Bytes(e.key) + Int32Bytes(e.freq)) == e
  {
    var slot := Int64Bytes(e.key) + Int32Bytes(e.freq);
    assert slot[..8] == Int64Bytes(e.key);
    assert slot[8..] == Int32Bytes(e.freq);
  }

  /** The address read from child slot `j`. */
  function ChildAt(t: int, bs: seq<Byte>, j: nat): Int64
    requires Degree(t) && ChildrenOffset(t) + 8 * j + 8 <= |bs|
  {
    ReadInt64(bs[ChildrenOffset(t) + 8 * j .. ChildrenOffset(t) + 8 * j + 8])
  }

  /** Entry `j` of a record is read back from its slot. */
  lemma DecodeKeySlot(t: int, x: Node, j: nat)
    requires Degree(t) && WellFormed(t, x) && j < |x.keys|
    ensures KeyAt(EncodeNode(t, x), j) == x.keys[j]
  {
    EncodeKeySlot(t, x, j);
    SlotEntryOfBytes(x.keys[j]);
  }

  /** Child `j` of a record is read back from its slot. */
  lemma DecodeChildSlot(t: int, x: Node, j: nat)
    requires Degree(t) && WellFormed(t, x) && j < 2 * t
    ensures ChildAt(t, EncodeNode(t, x), j) == x.children[j]
  {
    EncodeChild(t, x, j);
  }

  lemma DecodeKeys(t: int, x: Node)
    requires Degree(t) && WellFormed(t, x)
    ensures DecodeNode(t, EncodeNode(t, x)).Success?
    ensures DecodeNode(t, EncodeNode(t, x)).value.keys == x.keys
  {
    var bs := EncodeNode(t, x);
    EncodeHead(t, x);
    var keys := DecodeNode(t, bs).value.keys;
    assert |keys| == |x.keys|;
    forall j | 0 <= j < |keys|
      ensures keys[j] == x.keys[j]
    {
      DecodeKeySlot(t, x, j);
    }
  }

  lemma DecodeChildren(t: int, x: Node)
    requires Degree(t) && WellFormed(t, x)
    ensures DecodeNode(t, EncodeNode(t, x)).Success?
    ensures DecodeNode(t, EncodeNode(t, x)).value.children == x.children
  {
    EncodeHead(t, x);
    var cs := DecodeNode(t, EncodeNode(t, x)).value.children;
    forall j | 0 <= j < 2 * t
      ensures cs[j] == x.children[j]
    {
      DecodeChildSlot(t, x, j);
    }
  }

  /** Reading back a written record gives the node: flags, count, the first
      `n` entries and all `2t` children. */
  lemma DecodeEncode(t: int, x: Node)
    requires Degree(t) && WellFormed(t, x)
    ensures DecodeNode(t, EncodeNode(t, x)) == Success(x)
  {
    EncodeHead(t, x);
    DecodeKeys(t, x);
    DecodeChildren(t, x);
  }

  /** `disk_read(address)` against a file image. */
  function ReadRecord(file: seq<Byte>, t: int, a: int): (r: Result<Node>)
    requires Degree(t)
    ensures r.Success? ==> 0 <= a && a + NodeBytes(t) <= |file| && WellFormed(t, r.value)
    ensures a < 0 || a + NodeBytes(t) > |file| ==> r == Failure(IoFailure)
  {
    match ReadAt(file, a, NodeBytes(t))
    case None => Failure(IoFailure)
    case Some(bs) => DecodeNode(t, bs)
  }

  /** `disk_write(x)` for a node at address `a` against a file image. */
  function WriteRecord(file: seq<Byte>, t: int, a: int, x: Node): (r: Result<seq<Byte>>)
    requires Degree(t) && WellFormed(t, x)
    ensures r.Success? <==> a >= 0
    ensures r.Success? ==> ReadRecord(r.value, t, a) == Success(x)
  {
    if a < 0 then Failure(IoFailure)
    else
      var f := WriteAt(file, a, EncodeNode(t, x));
      ReadAfterWrite(file, a, EncodeNode(t, x));
      DecodeEncode(t, x);
      Success(f)
  }

  /** The file holds every node of the store, each in its own slot. */
  ghost predicate Represents(file: seq<Byte>, t: int, store: map<int, Node>)
  {
    Degree(t) &&
    forall a :: a in store ==>
      Aligned(t, a) && WellFormed(t, store[a]) && ReadRecord(file, t, a) == Success(store[a])
  }

  /** Writing one node into its slot keeps every other node readable: the
      store of address-to-node pairs is a faithful view of the file. */
  lemma WritePreservesRepresents(file: seq<Byte>, t: int, store: map<int, Node>, a: int, x: Node)
    requires Represents(file, t, store)
    requires Aligned(t, a) && WellFormed(t, x)
    ensures WriteRecord(file, t, a, x).Success?
    ensures Represents(WriteRecord(file, t, a, x).value, t, store[a := x])
  {
    var f := WriteRecord(file, t, a, x).value;
    var s' := store[a := x];
    forall b | b in s'
      ensures Aligned(t, b) && WellFormed(t, s'[b]) && ReadRecord(f, t, b) == Success(s'[b])
    {
      if b != a {
        WriteKeepsSlot(file, t, a, x, b, store[b]);
      }
    }
  }

  /** Writing the slot at `a` leaves the record of another slot `b` as it was. */
  lemma WriteKeepsSlot(file: seq<Byte>, t: int, a: int, x: Node, b: int, y: Node)
    requires Aligned(t, a) && Aligned(t, b) && a != b && WellFormed(t, x)
    requires ReadRecord(file, t, b) == Success(y)
    ensures WriteRecord(file, t, a, x).Success?
    ensures ReadRecord(WriteRecord(file, t, a, x).value, t, b) == Success(y)
  {
    if a < b {
      SlotGap(t, a, b);
    } else {
      SlotGap(t, b, a);
    }
    ReadAfterOtherWrite(file, a, EncodeNode(t, x), b, NodeBytes(t));
  }
}
