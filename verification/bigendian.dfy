/** Big-endian byte codecs in the manner of `java.io.DataOutput` /
    `DataInput`, and a file modelled as a byte sequence with positioned
    reads and writes (`RandomAccessFile.seek` followed by a write or read). */
module BigEndian {
  import opened Base

  type Byte = x: int | 0 <= x < 256

  /** Byte widths of `int` and `long`. */
  const Width32: nat := 4
  const Width64: nat := 8

  function Pow256(n: nat): (r: nat)
    ensures r >= 1
  {
    if n == 0 then 1 else 256 * Pow256(n - 1)
  }

  lemma Pow256Of4()
    ensures Pow256(Width32) == 0x1_0000_0000
  {
  }

  lemma Pow256Of8()
    ensures Pow256(Width64) == 0x1_0000_0000_0000_0000
  {
  }

  /** The `n` bytes of `u`, most significant first. */
  function UBytes(u: nat, n: nat): (r: seq<Byte>)
    requires u < Pow256(n)
    ensures |r| == n
  {
    if n == 0 then [] else UBytes(u / 256, n - 1) + [u % 256]
  }

  /** The unsigned value of a big-endian byte sequence. */
  function UValue(bs: seq<Byte>): (r: nat)
    ensures r < Pow256(|bs|)
  {
    if bs == [] then 0 else UValue(bs[..|bs| - 1]) * 256 + bs[|bs| - 1]
  }

  lemma {:induction false} UValueOfUBytes(u: nat, n: nat)
    requires u < Pow256(n)
    ensures UValue(UBytes(u, n)) == u
  {
    if n > 0 {
      var bs := UBytes(u, n);
      assert bs[..n - 1] == UBytes(u / 256, n - 1);
      UValueOfUBytes(u / 256, n - 1);
    }
  }

  lemma {:induction false} UBytesOfUValue(bs: seq<Byte>)
    ensures UBytes(UValue(bs), |bs|) == bs
  {
    if bs != [] {
      var n := |bs|;
      var u := UValue(bs);
      assert u / 256 == UValue(bs[..n - 1]);
      assert u % 256 == bs[n - 1];
      UBytesOfUValue(bs[..n - 1]);
    }
  }

  /** `writeChar`: a UTF-16 code unit (kept as its number), two bytes. */
  function CharBytes(c: nat): (r: seq<Byte>)
    requires c < 0x1_0000
    ensures |r| == 2
    ensures ReadChar(r) == c
  {
    UValueOfUBytes(c, 2);
    UBytes(c, 2)
  }

  /** `readChar`: the UTF-16 code unit in two bytes. */
  function ReadChar(bs: seq<Byte>): (c: nat)
    requires |bs| == 2
    ensures c < 0x1_0000
  {
    UValue(bs)
  }

  /** `writeInt`: the two's complement of `v` in four bytes. */
  function Int32Bytes(v: Int32): (r: seq<Byte>)
    ensures |r| == 4
    ensures ReadInt32(r) == v
  {
    var u := v % 0x1_0000_0000;
    Pow256Of4();
    UValueOfUBytes(u, Width32);
    UBytes(u, Width32)
  }

  /** `readInt`. */
  function ReadInt32(bs: seq<Byte>): (v: Int32)
    requires |bs| == 4
    ensures (v - UValue(bs)) % 0x1_0000_0000 == 0
  {
    var u := UValue(bs);
    Pow256Of4();
    if u < 0x8000_0000 then u else u - 0x1_0000_0000
  }

  /** `writeLong`: the two's complement of `v` in eight bytes. */
  function Int64Bytes(v: Int64): (r: seq<Byte>)
    ensures |r| == 8
    ensures ReadInt64(r) == v
  {
    var u := v % 0x1_0000_0000_0000_0000;
    Pow256Of8();
    UValueOfUBytes(u, Width64);
    UBytes(u, Width64)
  }

  /** `readLong`. */
  function ReadInt64(bs: seq<Byte>): (v: Int64)
    requires |bs| == 8
    ensures (v - UValue(bs)) % 0x1_0000_0000_0000_0000 == 0
  {
    var u := UValue(bs);
    Pow256Of8();
    if u < 0x8000_0000_0000_0000 then u else u - 0x1_0000_0000_0000_0000
  }

  /** Reading a signed value and taking it modulo 2^(8n) again gives back
      the unsigned one. */
  lemma SignedModulo(u: nat, v: int, m: nat)
    requires m > 0 && u < m
    requires v == u || v == u - m
    ensures v % m == u
  {
    if v != u {
      assert v + m == u;
    }
  }

  lemma Int32BytesOfRead(bs: seq<Byte>)
    requires |bs| == 4
    ensures Int32Bytes(ReadInt32(bs)) == bs
  {
    Pow256Of4();
    SignedModulo(UValue(bs), ReadInt32(bs), 0x1_0000_0000);
    UBytesOfUValue(bs);
  }

  lemma Int64BytesOfRead(bs: seq<Byte>)
    requires |bs| == 8
    ensures Int64Bytes(ReadInt64(bs)) == bs
  {
    Pow256Of8();
    SignedModulo(UValue(bs), ReadInt64(bs), 0x1_0000_0000_0000_0000);
    UBytesOfUValue(bs);
  }

  function Zeros(n: nat): (r: seq<Byte>)
    ensures |r| == n
    ensures forall i :: 0 <= i < n ==> r[i] == 0
  {
    seq(n, _ => 0)
  }

  /** `seek(pos)` then a write of `data`: bytes before `pos` and after the
      written range are kept; writing past the end extends the file, and the
      gap (whose contents Java leaves undefined) is modelled as zeros. */
  function WriteAt(file: seq<Byte>, pos: nat, data: seq<Byte>): (r: seq<Byte>)
    ensures |r| == if pos + |data| <= |file| then |file| else pos + |data|
    ensures r[pos..pos + |data|] == data
    ensures forall i :: 0 <= i < |file| && !(pos <= i < pos + |data|) ==> r[i] == file[i]
  {
    if pos <= |file| then
      if pos + |data| <= |file| then file[..pos] + data + file[pos + |data|..]
      else file[..pos] + data
    else file + Zeros(pos - |file|) + data
  }

  /** `seek(pos)` then a read of `n` bytes; `None` models the
      `EOFException` of reading past the end and the `IOException` of a
      negative offset. */
  function ReadAt(file: seq<Byte>, pos: int, n: nat): (r: Option<seq<Byte>>)
    ensures r.Some? <==> 0 <= pos && pos + n <= |file|
    ensures r.Some? ==> |r.value| == n && forall i :: 0 <= i < n ==> r.value[i] == file[pos + i]
  {
    if 0 <= pos && pos + n <= |file| then Some(file[pos..pos + n]) else None
  }

  lemma ReadAfterWrite(file: seq<Byte>, pos: nat, data: seq<Byte>)
    ensures ReadAt(WriteAt(file, pos, data), pos, |data|) == Some(data)
  {
  }

  /** A read of a range that was inside the file and does not meet the
      written range sees the old bytes. */
  lemma ReadAfterOtherWrite(file: seq<Byte>, pos: nat, data: seq<Byte>, q: int, n: nat)
    requires 0 <= q && q + n <= |file|
    requires q + n <= pos || pos + |data| <= q
    ensures ReadAt(WriteAt(file, pos, data), q, n) == ReadAt(file, q, n)
  {
    var f' := WriteAt(file, pos, data);
    assert f'[q..q + n] == file[q..q + n] by {
      forall i | q <= i < q + n
        ensures f'[i] == file[i]
      {
      }
    }
  }
}
