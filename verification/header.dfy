/** The file header of `init_metadata` (`BTree.java:198-263`) and what the
    constructor (`BTree.java:18-54`) does with it: a 20-byte header holding
    the marker 1234, the sequence length `k`, the degree `t` (four bytes
    each) and the root address (eight bytes), followed by the node slots. */
module Header {
  import opened Base
  import opened BigEndian
  import opened Nodes
  import opened Engine
  import opened Record

  /** The marker that tells a B-tree file from any other file. */
  const Magic: Int32 := 1234

  /** The four header fields. */
  datatype Header = Header(magic: Int32, k: Int32, t: Int32, root: Int64)

  function EncodeHeader(h: Header): (r: seq<Byte>)
    ensures |r| == HeaderBytes
  {
    Int32Bytes(h.magic) + Int32Bytes(h.k) + Int32Bytes(h.t) + Int64Bytes(h.root)
  }

  function DecodeHeader(bs: seq<Byte>): (h: Header)
    requires |bs| == HeaderBytes
  {
    Header(ReadInt32(bs[0..4]), ReadInt32(bs[4..8]), ReadInt32(bs[8..12]), ReadInt64(bs[12..20]))
  }

  /** The header codec is a bijection between header values and 20-byte
      images. */
  lemma HeaderRoundTrip(h: Header, bs: seq<Byte>)
    requires |bs| == HeaderBytes
    ensures DecodeHeader(EncodeHeader(h)) == h
    ensures EncodeHeader(DecodeHeader(bs)) == bs
  {
    HeaderFields(h);
    Int32BytesOfRead(bs[0..4]);
    Int32BytesOfRead(bs[4..8]);
    Int32BytesOfRead(bs[8..12]);
    Int64BytesOfRead(bs[12..20]);
    assert bs == bs[0..4] + bs[4..8] + bs[8..12] + bs[12..20];
  }

  /** Where each field sits in the header. */
  lemma HeaderFields(h: Header)
    ensures EncodeHeader(h)[0..4] == Int32Bytes(h.magic) && EncodeHeader(h)[4..8] == Int32Bytes(h.k)
    ensures EncodeHeader(h)[8..12] == Int32Bytes(h.t) && EncodeHeader(h)[12..20] == Int64Bytes(h.root)
  {
    hide Int32Bytes, Int64Bytes;
  }

  /** `seek(pos)` then `readInt()` / `readLong()`; `None` past the end. */
  function ReadIntAt(file: seq<Byte>, pos: nat): (r: Option<Int32>)
    ensures r.Some? <==> pos + 4 <= |file|
    ensures r.Some? ==> r.value == ReadInt32(file[pos..pos + 4])
  {
    match ReadAt(file, pos, Width32)
    case None => None
    case Some(bs) => Some(ReadInt32(bs))
  }

  function ReadLongAt(file: seq<Byte>, pos: nat): (r: Option<Int64>)
    ensures r.Some? <==> pos + 8 <= |file|
    ensures r.Some? ==> r.value == ReadInt64(file[pos..pos + 8])
  {
    match ReadAt(file, pos, Width64)
    case None => None
    case Some(bs) => Some(ReadInt64(bs))
  }

  /** The three outcomes of `init_metadata` that do not end the program:
      a new header was written (mode 0), a header with the same `k` and `t`
      was found (mode 1, with the stored root address and the number of
      whole node slots after the header), or a file longer than 4 bytes
      without the marker, which is left as it is (mode 0 with the root
      address still 0). */
  datatype Opened = Created(file: seq<Byte>) | Reopened(rpos: Int64, numNodes: int) | Unmarked

  /** `init_metadata(file, k, t)` on the file image `file`. A read past the
      end is the `IOException` the constructor ends in; a header whose `k`
      or `t` differs is the `System.exit(1)` of the checks. The division is
      Java's `long` division, which agrees with Dafny's here because the
      dividend is never negative. */
  function InitMetadata(file: seq<Byte>, k: Int32, t: Int32): (r: Result<Opened>)
  {
    if |file| > 4 then
      if ReadIntAt(file, 0).value != Magic then Success(Unmarked)
      else match ReadIntAt(file, 4)
        case None => Failure(IoFailure)
        case Some(kr) =>
          if kr != k then Failure(FormatMismatch)
          else match ReadIntAt(file, 8)
            case None => Failure(IoFailure)
            case Some(tr) =>
              if tr != t then Failure(FormatMismatch)
              else match ReadLongAt(file, 12)
                case None => Failure(IoFailure)
                case Some(rpos) => Success(Reopened(rpos, (|file| - HeaderBytes) / NodeBytes(t)))
    else
      var f := WriteAt([], 0, Int32Bytes(Magic));
      var f := WriteAt(f, 4, Int32Bytes(k));
      var f := WriteAt(f, 8, Int32Bytes(t));
      var f := WriteAt(f, 12, Int64Bytes(HeaderBytes));
      Success(Created(f))
  }

  /** A write at the end of the file appends. */
  lemma WriteAtEnd(file: seq<Byte>, data: seq<Byte>)
    ensures WriteAt(file, |file|, data) == file + data
  {
  }

  /** A file of at most 4 bytes is replaced by exactly the header of a new
      tree: the marker, `k`, `t` and the root address 20. */
  lemma InitCreates(file: seq<Byte>, k: Int32, t: Int32)
    requires |file| <= 4
    ensures InitMetadata(file, k, t) == Success(Created(EncodeHeader(Header(Magic, k, t, HeaderBytes))))
  {
    var f0 := WriteAt([], 0, Int32Bytes(Magic));
    WriteAtEnd([], Int32Bytes(Magic));
    WriteAtEnd(f0, Int32Bytes(k));
    var f1 := f0 + Int32Bytes(k);
    WriteAtEnd(f1, Int32Bytes(t));
    var f2 := f1 + Int32Bytes(t);
    WriteAtEnd(f2, Int64Bytes(HeaderBytes));
  }

  /** A file that starts with a header of the requested `k` and `t` is
      reopened with the stored root address and the number of whole
      records after the header; one whose `k` or `t` differs is refused. */
  lemma InitReopens(file: seq<Byte>, h: Header, k: Int32, t: Int32)
    requires |file| >= HeaderBytes && file[..HeaderBytes] == EncodeHeader(h) && h.magic == Magic
    ensures h.k != k || h.t != t ==> InitMetadata(file, k, t) == Failure(FormatMismatch)
    ensures h.k == k && h.t == t ==>
      InitMetadata(file, k, t) == Success(Reopened(h.root, (|file| - HeaderBytes) / NodeBytes(t)))
  {
    HeaderRoundTrip(h, file[..HeaderBytes]);
    var e := EncodeHeader(h);
    assert file[0..4] == e[0..4] && file[4..8] == e[4..8];
    assert file[8..12] == e[8..12] && file[12..20] == e[12..20];
  }

  /** A file longer than 4 bytes whose first four bytes are not the marker
      is neither refused nor recreated: it is left unchanged. */
  lemma InitUnmarked(file: seq<Byte>, k: Int32, t: Int32)
    requires |file| > 4 && ReadInt32(file[0..4]) != Magic
    ensures InitMetadata(file, k, t) == Success(Unmarked)
  {
  }

  /** What the constructor leaves: the root's address and node, the
      allocation cursor `next_address`, and the file. */
  datatype Start = Start(root: int, node: Node, next: int, file: seq<Byte>)

  /** The root a new tree starts with: an empty leaf. */
  function EmptyRoot(t: int): (x: Node)
    requires Degree(t)
    ensures WellFormed(t, x) && x.leaf && x.isRoot && x.keys == []
  {
    Node(true, true, [], NoChildren(2 * t))
  }

  /** The constructor `BTree(k, t, filename)` after `init_metadata`, as
      written: `next_address = rpos`; in mode 0 the new root takes the
      slot at the cursor and is written there, in mode 1 the root is read
      from `rpos` and the cursor stays at `rpos`. */
  function Open(file: seq<Byte>, k: Int32, t: Int32): (r: Result<Start>)
    requires Degree(t)
    ensures r.Success? ==> WellFormed(t, r.value.node) && r.value.next >= r.value.root
  {
    match InitMetadata(file, k, t)
    case Failure(e) => Failure(e)
    case Success(Created(f)) =>
      var f' := WriteRecord(f, t, HeaderBytes, EmptyRoot(t)).value;
      Success(Start(HeaderBytes, EmptyRoot(t), HeaderBytes + NodeBytes(t), f'))
    case Success(Unmarked) =>
      var f' := WriteRecord(file, t, 0, EmptyRoot(t)).value;
      Success(Start(0, EmptyRoot(t), NodeBytes(t), f'))
    case Success(Reopened(rpos, n)) =>
      match ReadRecord(file, t, rpos)
      case Failure(e) => Failure(e)
      case Success(x) => Success(Start(rpos, x, rpos, file))
  }

  /** The same constructor with the cursor after the last record of the
      reopened file, where the next node can go without overwriting one. */
  function OpenIntended(file: seq<Byte>, k: Int32, t: Int32): (r: Result<Start>)
    requires Degree(t)
    ensures r.Success? ==> WellFormed(t, r.value.node)
  {
    match Open(file, k, t)
    case Failure(e) => Failure(e)
    case Success(s) =>
      match InitMetadata(file, k, t)
      case Success(Reopened(_, n)) => Success(s.(next := HeaderBytes + n * NodeBytes(t)))
      case _ => Success(s)
  }

  /** On a file of at most 4 bytes the constructor builds the tree `Create`
      builds, and the file it leaves is the header followed by the root's
      record: a faithful image of that tree's store. */
  lemma OpenCreates(file: seq<Byte>, k: Int32, t: Int32)
    requires Degree(t) && |file| <= 4
    ensures Open(file, k, t).Success?
    ensures Open(file, k, t).value.root == Create(t).root
    ensures Open(file, k, t).value.node == Create(t).store[Create(t).root]
    ensures Open(file, k, t).value.next == Create(t).next
    ensures Open(file, k, t).value.file == EncodeHeader(Header(Magic, k, t, HeaderBytes)) + EncodeNode(t, EmptyRoot(t))
    ensures Represents(Open(file, k, t).value.file, t, Create(t).store)
  {
    InitCreates(file, k, t);
    var hd := EncodeHeader(Header(Magic, k, t, HeaderBytes));
    WriteAtEnd(hd, EncodeNode(t, EmptyRoot(t)));
    var tr := Create(t);
    assert tr.store == map[HeaderBytes := EmptyRoot(t)];
    assert Aligned(t, HeaderBytes);
  }

  /** The file a new tree was written to, read back with the same `k` and
      `t`, is reopened at the root address 20 with one record. */
  lemma CreateThenReopen(file: seq<Byte>, k: Int32, t: Int32)
    requires Degree(t) && |file| <= 4
    ensures InitMetadata(Open(file, k, t).value.file, k, t) == Success(Reopened(HeaderBytes, 1))
  {
    hide *;
    OpenCreates(file, k, t);
    var hd := EncodeHeader(Header(Magic, k, t, HeaderBytes));
    var f := Open(file, k, t).value.file;
    assert f[..HeaderBytes] == hd;
    InitReopens(f, Header(Magic, k, t, HeaderBytes), k, t);
    Records(t, 1);
  }

  /** `m` whole records after the header make `m` records again. */
  lemma Records(t: int, m: nat)
    requires Degree(t)
    ensures (HeaderBytes + m * NodeBytes(t) - HeaderBytes) / NodeBytes(t) == m
  {
    var B := NodeBytes(t);
    assert HeaderBytes + m * B - HeaderBytes == m * B;
    ExactQuotient(m, B);
  }

  lemma ExactQuotient(m: nat, b: int)
    requires b > 0
    ensures (m * b) / b == m
  {
    var q, r := (m * b) / b, (m * b) % b;
    assert (m - q) * b == r;
    if m - q >= 1 {
      assert false;
    } else if m - q <= -1 {
      assert false;
    }
  }

  /** Reopening that file as written: the cursor stands on the root's own
      slot, so the next node allocated overwrites the root. */
  lemma AsWrittenReopenOverwritesRoot(file: seq<Byte>, k: Int32, t: Int32)
    requires Degree(t) && |file| <= 4
    ensures Open(Open(file, k, t).value.file, k, t).Success?
    ensures Open(Open(file, k, t).value.file, k, t).value.next == HeaderBytes
    ensures Open(Open(file, k, t).value.file, k, t).value.root == HeaderBytes
  {
    CreateThenReopen(file, k, t);
    OpenCreates(file, k, t);
    var f := Open(file, k, t).value.file;
    var x := EmptyRoot(t);
    assert ReadRecord(f, t, HeaderBytes) == Success(x);
    hide *;
    OpenReopened(f, k, t, HeaderBytes, 1, x);
  }

  /** An aligned address lies a whole number `m` of records after the
      header. */
  lemma {:induction false} AlignedOffset(t: int, a: int) returns (m: nat)
    requires Aligned(t, a)
    ensures a == HeaderBytes + m * NodeBytes(t)
    decreases a
  {
    if a == HeaderBytes {
      m := 0;
    } else {
      var m' := AlignedOffset(t, a - NodeBytes(t));
      m := m' + 1;
      var B := NodeBytes(t);
      assert m * B == m' * B + B;
    }
  }

  /** Reopening a file the engine wrote for an allocated tree (its header
      names the tree's root, its records are the tree's store, and it ends
      at the cursor): as written the cursor comes back on the root, a live
      slot below the end; as intended it comes back at the tree's own
      cursor, a slot no stored node uses. */
  lemma Reopen(tr: BTree, file: seq<Byte>, k: Int32)
    requires Rooted(tr) && Allocated(tr) && tr.root <= MaxInt64
    requires Represents(file, tr.t, tr.store) && |file| == tr.next
    requires file[..HeaderBytes] == EncodeHeader(Header(Magic, k, tr.t, tr.root))
    ensures Open(file, k, tr.t) == Success(Start(tr.root, tr.store[tr.root], tr.root, file))
    ensures tr.root in tr.store && tr.root < tr.next
    ensures OpenIntended(file, k, tr.t) == Success(Start(tr.root, tr.store[tr.root], tr.next, file))
    ensures tr.next !in tr.store
  {
    AllocatedBelow(tr);
    var t, x := tr.t, tr.store[tr.root];
    assert ReadRecord(file, t, tr.root) == Success(x);
    assert Degree(t) && Aligned(t, tr.next) && |file| >= HeaderBytes;
    hide *;
    InitReopens(file, Header(Magic, k, t, tr.root), k, t);
    var m := AlignedOffset(t, tr.next);
    Records(t, m);
    OpenReopened(file, k, t, tr.root, m, x);
  }

  /** The constructor on a file `init_metadata` reopens. */
  lemma OpenReopened(file: seq<Byte>, k: Int32, t: Int32, rpos: Int64, n: int, x: Node)
    requires Degree(t)
    requires InitMetadata(file, k, t) == Success(Reopened(rpos, n))
    requires ReadRecord(file, t, rpos) == Success(x)
    ensures Open(file, k, t) == Success(Start(rpos, x, rpos, file))
    ensures OpenIntended(file, k, t) == Success(Start(rpos, x, HeaderBytes + n * NodeBytes(t), file))
  {
  }
}
