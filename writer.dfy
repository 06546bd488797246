/**
 * The append-only byte buffer of src/spec/writer.rs and the frame layout its
 * `into_packet` produces: key, one exponent byte, a big-endian length field
 * that many bytes wide, then the payload.
 */
module ByteWriter {
  import opened Primitives
  import opened Util

  function Max(a: nat, b: nat): nat
  {
    if a < b then b else a
  }

  /**
   * The number of bytes needed to write `n`: how many times `n` can be shifted
   * right by 8 bits before it reaches zero.
   */
  function MinExp(n: nat): (e: nat)
    ensures e == 0 <==> n == 0
  {
    if n == 0 then 0 else 1 + MinExp(n / 256)
  }

  /** `MinExp(n)` bytes hold `n`, and one byte fewer do not. */
  lemma {:induction false} MinExpIsLeast(n: nat)
    ensures n < Pow256(MinExp(n))
    ensures n > 0 ==> Pow256(MinExp(n) - 1) <= n
  {
    if n > 0 {
      MinExpIsLeast(n / 256);
      var e := MinExp(n / 256);
      assert n / 256 < Pow256(e);
      assert n / 256 > 0 ==> Pow256(e - 1) <= n / 256;
    }
  }

  /** Any width that holds `n` is at least `MinExp(n)`. */
  lemma {:induction false} MinExpAtMost(n: nat, width: nat)
    requires n < Pow256(width)
    ensures MinExp(n) <= width
  {
    if n > 0 {
      assert width > 0;
      MinExpAtMost(n / 256, width - 1);
    }
  }

  /** The exponent byte `into_packet` writes: the count kept in a `u8`. */
  function ExpByte(n: nat): u8
  {
    MinExp(n) % 256
  }

  /** For any length a `usize` can hold, the byte is the exponent itself, at most 8. */
  lemma ExpByteIsMinExp(n: nat)
    requires n < Pow256(8)
    ensures ExpByte(n) == MinExp(n) <= 8
  {
    MinExpAtMost(n, 8);
  }

  /**
   * The key as `into_packet` emits it: left-padded with zero bytes up to
   * `keylen`; a key longer than `keylen` is kept whole.
   */
  function PadKey(key: Bytes, keylen: nat): (r: Bytes)
    ensures |r| == Max(|key|, keylen)
    ensures r[|r| - |key|..] == key
    ensures forall i :: 0 <= i < |r| - |key| ==> r[i] == 0
  {
    Zeros(Max(|key|, keylen) - |key|) + key
  }

  /** The frame `into_packet(key, keylen)` returns for a writer holding `payload`. */
  function Frame(key: Bytes, keylen: nat, payload: Bytes): Bytes
  {
    var e := ExpByte(|payload|);
    PadKey(key, keylen) + [e] + BeBytes(|payload|, e) + payload
  }

  /**
   * Layout of a frame: padded key, the exponent byte, a length field of
   * exactly that many bytes that reads back as the payload size, then the payload.
   */
  lemma FrameLayout(key: Bytes, keylen: nat, payload: Bytes)
    requires |payload| < Pow256(8)
    ensures var f, k, e := Frame(key, keylen, payload), Max(|key|, keylen), MinExp(|payload|);
      && |f| == k + 1 + e + |payload|
      && f[..k] == PadKey(key, keylen)
      && f[k] == e
      && f[k + 1..k + 1 + e] == BeBytes(|payload|, e)
      && BeValue(f[k + 1..k + 1 + e]) == |payload|
      && f[k + 1 + e..] == payload
  {
    var f, k, e := Frame(key, keylen, payload), Max(|key|, keylen), MinExp(|payload|);
    ExpByteIsMinExp(|payload|);
    assert f == PadKey(key, keylen) + [e] + BeBytes(|payload|, e) + payload;
    MinExpIsLeast(|payload|);
    BeRoundTrip(|payload|, e);
  }

  class Writer {
    var inner: Bytes

    constructor ()
      ensures inner == []
    {
      inner := [];
    }

    method WriteU8(data: u8)
      modifies this
      ensures inner == old(inner) + [data]
    {
      inner := inner + [data];
    }

    method WriteU16(data: u16)
      modifies this
      ensures inner == old(inner) + BeBytes(data, 2)
    {
      inner := inner + BeBytes(data, 2);
    }

    method WriteU32(data: u32)
      modifies this
      ensures inner == old(inner) + BeBytes(data, 4)
    {
      inner := inner + BeBytes(data, 4);
    }

    method WriteU64(data: u64)
      modifies this
      ensures inner == old(inner) + BeBytes(data, 8)
    {
      inner := inner + BeBytes(data, 8);
    }

    method WriteI8(data: i8)
      modifies this
      ensures inner == old(inner) + BeBytes(AsUnsigned(data, 1), 1)
    {
      Pow256Widths();
      WriteU8(AsUnsigned(data, 1));
      assert BeBytes(AsUnsigned(data, 1), 1) == [AsUnsigned(data, 1)];
    }

    method WriteI16(data: i16)
      modifies this
      ensures inner == old(inner) + BeBytes(AsUnsigned(data, 2), 2)
    {
      Pow256Widths();
      WriteU16(AsUnsigned(data, 2));
    }

    method WriteI32(data: i32)
      modifies this
      ensures inner == old(inner) + BeBytes(AsUnsigned(data, 4), 4)
    {
      Pow256Widths();
      WriteU32(AsUnsigned(data, 4));
    }

    method WriteI64(data: i64)
      modifies this
      ensures inner == old(inner) + BeBytes(AsUnsigned(data, 8), 8)
    {
      Pow256Widths();
      WriteU64(AsUnsigned(data, 8));
    }

    method WriteBool(data: bool)
      modifies this
      ensures inner == old(inner) + [if data then 1 else 0]
    {
      inner := inner + [if data then 1 else 0];
    }

    /** The string's bytes, unchanged. */
    method WriteStr(data: Bytes)
      modifies this
      ensures inner == old(inner) + data
    {
      inner := inner + data;
    }

    /** The string's bytes, or nothing for `None`. */
    method WriteOptionString(data: Option<Bytes>)
      modifies this
      ensures data.None? ==> inner == old(inner)
      ensures data.Some? ==> inner == old(inner) + data.value
    {
      inner := inner + if data.Some? then data.value else [];
    }

    method WriteSlice(data: Bytes)
      modifies this
      ensures inner == old(inner) + data
    {
      inner := inner + data;
    }

    method WriteIter(data: seq<u8>)
      modifies this
      ensures inner == old(inner) + data
    {
      inner := inner + data;
    }

    /**
     * Closes the buffer into a frame. The exponent is counted by shifting the
     * length right by 8 bits until it is zero. A `Vec` never holds 2^64 bytes,
     * hence the bound.
     */
    method IntoPacket(key: Bytes, keylen: u8) returns (frame: Bytes)
      requires |inner| < 0x1_0000_0000_0000_0000
      ensures frame == Frame(key, keylen, inner)
    {
      var resized := Zeros(Max(|key|, keylen) - |key|) + key;
      var tmp: nat := |inner|;
      var exp: nat := 0;
      while tmp > 0
        invariant exp + MinExp(tmp) == MinExp(|inner|)
        decreases tmp
      {
        tmp := tmp / 256;
        exp := exp + 1;
      }
      Pow256Widths();
      ExpByteIsMinExp(|inner|);
      var plen := ToBytes(|inner|, exp);
      frame := resized + [exp] + plen + inner;
    }
  }
}
