/**
 * The byte cursor of src/spec/reader.rs: a read position over a buffer that
 * is never modified. The original indexes without bounds checks and panics
 * on overrun; here every read states the bytes it needs as a precondition,
 * and the frame decoder checks them before it reads.
 */
module ByteReader {
  import opened Primitives
  import opened Util

  class Reader {
    /** The buffer; `const`, so no operation can change it. */
    const inner: Bytes
    var pos: nat

    constructor (inner: Bytes)
      ensures this.inner == inner && pos == 0
      ensures Remaining() == |inner|
    {
      this.inner := inner;
      pos := 0;
    }

    /** Bytes left after the cursor; `advance` and `set_pos` may move past the end, which this excludes. */
    function Remaining(): (n: nat)
      reads this
      requires pos <= |inner|
      ensures pos + n == |inner|
    {
      |inner| - pos
    }

    function Pos(): nat
      reads this
    {
      pos
    }

    /** The whole buffer, whatever the position. */
    function ToVec(): (v: Bytes)
      ensures |v| == |inner| && forall i :: 0 <= i < |v| ==> v[i] == inner[i]
    {
      inner
    }

    function PeekLen(len: nat): (s: Bytes)
      reads this
      requires pos + len <= |inner|
      ensures |s| == len && forall i :: 0 <= i < len ==> s[i] == inner[pos + i]
    {
      inner[pos..pos + len]
    }

    function PeekLenRev(len: nat): (s: Bytes)
      reads this
      requires pos + len <= |inner|
      ensures |s| == len && forall i :: 0 <= i < len ==> s[i] == inner[pos + len - 1 - i]
    {
      Reversed(inner[pos..pos + len])
    }

    /** The big-endian value of the next `width` bytes; writing it back at that width gives those bytes. */
    function PeekBe(width: nat): (v: nat)
      reads this
      requires pos + width <= |inner|
      ensures v < Pow256(width)
      ensures BeBytes(v, width) == inner[pos..pos + width]
    {
      BeBytesOfBeValue(inner[pos..pos + width]);
      BeValue(inner[pos..pos + width])
    }

    function PeekU8(): (v: u8)
      reads this
      requires pos + 1 <= |inner|
      ensures [v] == inner[pos..pos + 1]
    {
      inner[pos]
    }

    function PeekU16(): (v: u16)
      reads this
      requires pos + 2 <= |inner|
      ensures BeBytes(v, 2) == inner[pos..pos + 2]
    {
      Pow256Widths();
      PeekBe(2)
    }

    function PeekU32(): (v: u32)
      reads this
      requires pos + 4 <= |inner|
      ensures BeBytes(v, 4) == inner[pos..pos + 4]
    {
      Pow256Widths();
      PeekBe(4)
    }

    function PeekU64(): (v: u64)
      reads this
      requires pos + 8 <= |inner|
      ensures BeBytes(v, 8) == inner[pos..pos + 8]
    {
      Pow256Widths();
      PeekBe(8)
    }

    function PeekI8(): (v: i8)
      reads this
      requires pos + 1 <= |inner|
      ensures AsUnsigned(v, 1) == PeekU8()
    {
      Pow256Widths();
      AsSigned(PeekU8(), 1)
    }

    function PeekI16(): (v: i16)
      reads this
      requires pos + 2 <= |inner|
      ensures AsUnsigned(v, 2) == PeekU16()
    {
      Pow256Widths();
      AsSigned(PeekU16(), 2)
    }

    function PeekI32(): (v: i32)
      reads this
      requires pos + 4 <= |inner|
      ensures AsUnsigned(v, 4) == PeekU32()
    {
      Pow256Widths();
      AsSigned(PeekU32(), 4)
    }

    function PeekI64(): (v: i64)
      reads this
      requires pos + 8 <= |inner|
      ensures AsUnsigned(v, 8) == PeekU64()
    {
      Pow256Widths();
      AsSigned(PeekU64(), 8)
    }

    method ReadU8() returns (v: u8)
      requires pos + 1 <= |inner|
      modifies this
      ensures v == old(PeekU8()) && pos == old(pos) + 1
    {
      v := inner[pos];
      pos := pos + 1;
    }

    method ReadU16() returns (v: u16)
      requires pos + 2 <= |inner|
      modifies this
      ensures v == old(PeekU16()) && pos == old(pos) + 2
    {
      v := PeekU16();
      pos := pos + 2;
    }

    method ReadU32() returns (v: u32)
      requires pos + 4 <= |inner|
      modifies this
      ensures v == old(PeekU32()) && pos == old(pos) + 4
    {
      v := PeekU32();
      pos := pos + 4;
    }

    method ReadU64() returns (v: u64)
      requires pos + 8 <= |inner|
      modifies this
      ensures v == old(PeekU64()) && pos == old(pos) + 8
    {
      v := PeekU64();
      pos := pos + 8;
    }

    method ReadI8() returns (v: i8)
      requires pos + 1 <= |inner|
      modifies this
      ensures v == old(PeekI8()) && pos == old(pos) + 1
    {
      var u := ReadU8();
      Pow256Widths();
      v := AsSigned(u, 1);
    }

    method ReadI16() returns (v: i16)
      requires pos + 2 <= |inner|
      modifies this
      ensures v == old(PeekI16()) && pos == old(pos) + 2
    {
      var u := ReadU16();
      Pow256Widths();
      v := AsSigned(u, 2);
    }

    method ReadI32() returns (v: i32)
      requires pos + 4 <= |inner|
      modifies this
      ensures v == old(PeekI32()) && pos == old(pos) + 4
    {
      var u := ReadU32();
      Pow256Widths();
      v := AsSigned(u, 4);
    }

    method ReadI64() returns (v: i64)
      requires pos + 8 <= |inner|
      modifies this
      ensures v == old(PeekI64()) && pos == old(pos) + 8
    {
      var u := ReadU64();
      Pow256Widths();
      v := AsSigned(u, 8);
    }

    /** True exactly when the next byte is nonzero. */
    method ReadBool() returns (v: bool)
      requires pos + 1 <= |inner|
      modifies this
      ensures v == (inner[old(pos)] > 0) && pos == old(pos) + 1
    {
      var b := ReadU8();
      v := b > 0;
    }

    method ReadLen(len: nat) returns (data: Bytes)
      requires pos + len <= |inner|
      modifies this
      ensures data == inner[old(pos)..old(pos) + len] && pos == old(pos) + len
    {
      data := inner[pos..pos + len];
      pos := pos + len;
    }

    /** The bytes of `read_len`; the lossy UTF-8 decoding is not modelled. */
    method ReadString(len: nat) returns (data: Bytes)
      requires pos + len <= |inner|
      modifies this
      ensures data == inner[old(pos)..old(pos) + len] && pos == old(pos) + len
    {
      data := ReadLen(len);
    }

    method ReadRemaining() returns (data: Bytes)
      requires pos <= |inner|
      modifies this
      ensures data == inner[old(pos)..] && pos == |inner|
      ensures Remaining() == 0
    {
      data := inner[pos..];
      pos := pos + Remaining();
    }

    /** Moves the cursor forward without any check. */
    method Advance(count: nat)
      modifies this
      ensures pos == old(pos) + count
    {
      pos := pos + count;
    }

    /** Moves the cursor back; moving before the start is an underflow in the original. */
    method Rewind(count: nat)
      requires count <= pos
      modifies this
      ensures pos == old(pos) - count
    {
      pos := pos - count;
    }

    method SetPos(p: nat)
      modifies this
      ensures pos == p
    {
      pos := p;
    }
  }
}
