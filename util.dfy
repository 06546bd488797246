/** Fixed-width machine integers and the Option/Result wrappers the codec uses. */
module Primitives {

  type u8 = x: int | 0 <= x < 0x100
  type u16 = x: int | 0 <= x < 0x1_0000
  type u32 = x: int | 0 <= x < 0x1_0000_0000
  type u64 = x: int | 0 <= x < 0x1_0000_0000_0000_0000
  /** The codec targets 64-bit hosts, so `usize` is 64 bits wide. */
  type usize = u64
  type i8 = x: int | -0x80 <= x < 0x80
  type i16 = x: int | -0x8000 <= x < 0x8000
  type i32 = x: int | -0x8000_0000 <= x < 0x8000_0000
  type i64 = x: int | -0x8000_0000_0000_0000 <= x < 0x8000_0000_0000_0000

  type Bytes = seq<u8>

  datatype Option<T> = None | Some(value: T)

  datatype Result<T, E> = Ok(value: T) | Err(error: E)

  /** 256^n, the number of values an n-byte field can hold. */
  function Pow256(n: nat): (r: nat)
    ensures r >= 1
  {
    if n == 0 then 1 else 256 * Pow256(n - 1)
  }

  lemma Pow256Widths()
    ensures Pow256(1) == 0x100 && Pow256(2) == 0x1_0000
    ensures Pow256(4) == 0x1_0000_0000 && Pow256(8) == 0x1_0000_0000_0000_0000
  {
    assert Pow256(2) == 256 * Pow256(1);
    assert Pow256(4) == 256 * (256 * Pow256(2));
    assert Pow256(8) == 256 * (256 * (256 * (256 * Pow256(4))));
  }

  lemma {:induction false} Pow256Monotone(a: nat, b: nat)
    requires a <= b
    ensures Pow256(a) <= Pow256(b)
    decreases b
  {
    if a < b {
      Pow256Monotone(a, b - 1);
    }
  }

  /** Whether `v` fits a two's-complement integer of `width` bytes. */
  predicate InSignedRange(v: int, width: nat)
  {
    -(Pow256(width) / 2) <= v < Pow256(width) / 2
  }

  /**
   * The `as iN` cast of an unsigned value `u` of `width` bytes: values with the
   * top bit set become negative.
   */
  function AsSigned(u: nat, width: nat): (v: int)
    requires 0 < width && u < Pow256(width)
    ensures InSignedRange(v, width)
  {
    assert Pow256(width) / 2 == 128 * Pow256(width - 1);
    if u < Pow256(width) / 2 then u else u - Pow256(width)
  }

  /** The `as uN` cast of a signed value `v` of `width` bytes. */
  function AsUnsigned(v: int, width: nat): (u: nat)
    requires 0 < width && InSignedRange(v, width)
    ensures u < Pow256(width)
  {
    if v < 0 then v + Pow256(width) else v
  }

  /** The two casts are mutually inverse, so a bit-cast loses nothing. */
  lemma BitCastInverse(u: nat, v: int, width: nat)
    requires 0 < width && u < Pow256(width) && InSignedRange(v, width)
    ensures AsUnsigned(AsSigned(u, width), width) == u
    ensures AsSigned(AsUnsigned(v, width), width) == v
    ensures AsUnsigned(v, width) == u <==> AsSigned(u, width) == v
  {
  }
}

/** Integer helpers for big-endian conversions: src/util.rs. */
module Util {
  import opened Primitives

  /**
   * The unsigned value of `s` read most significant byte first, as
   * `uN::from_be_bytes` computes it.
   */
  function BeValue(s: Bytes): (n: nat)
    ensures n < Pow256(|s|)
  {
    if |s| == 0 then 0 else BeValue(s[..|s| - 1]) * 256 + s[|s| - 1]
  }

  /** The unsigned value of `s` read least significant byte first. */
  function LeValue(s: Bytes): (n: nat)
    ensures n < Pow256(|s|)
  {
    if |s| == 0 then 0 else s[0] + 256 * LeValue(s[1..])
  }

  /**
   * The bytes `to_bytes(n, width)` returns: the low `width` bytes of `n`, most
   * significant first. Higher bytes of `n` are dropped.
   */
  function BeBytes(n: nat, width: nat): (r: Bytes)
    ensures |r| == width
  {
    if width == 0 then [] else BeBytes(n / 256, width - 1) + [n % 256]
  }

  function Zeros(n: nat): (r: Bytes)
    ensures |r| == n && forall i :: 0 <= i < n ==> r[i] == 0
  {
    if n == 0 then [] else Zeros(n - 1) + [0]
  }

  function Reversed(s: Bytes): (r: Bytes)
    ensures |r| == |s| && forall i :: 0 <= i < |s| ==> r[i] == s[|s| - 1 - i]
  {
    if s == [] then [] else Reversed(s[1..]) + [s[0]]
  }

  lemma {:induction false} MulMonotone(d: int, a: int, b: int)
    requires d >= 0 && a <= b
    ensures d * a <= d * b
    decreases b - a
  {
    if a < b {
      MulMonotone(d, a, b - 1);
      assert d * b == d * (b - 1) + d;
    }
  }

  lemma DivModUnique(n: int, d: int, q: int, r: int)
    requires d > 0 && 0 <= r < d && n == d * q + r
    ensures n / d == q && n % d == r
  {
    var q', r' := n / d, n % d;
    assert n == d * q' + r';
    if q' > q {
      MulMonotone(d, q + 1, q');
      assert false;
    } else if q' < q {
      MulMonotone(d, q' + 1, q);
      assert false;
    }
  }

  /** `n` shifted right by 8 bits `i` times. */
  function Shr8(n: nat, i: nat): nat
  {
    if i == 0 then n else Shr8(n, i - 1) / 256
  }

  lemma {:induction false} Shr8Shift(n: nat, k: nat)
    ensures Shr8(n / 256, k) == Shr8(n, k + 1)
  {
    if k > 0 {
      Shr8Shift(n, k - 1);
    }
  }

  /** Appending is associative; writers rely on it to regroup successive writes. */
  lemma AppendAssoc(a: Bytes, b: Bytes, c: Bytes)
    ensures a + b + c == a + (b + c)
  {
  }

  /** Dropping the low byte, reducing modulo `p`, and putting the byte back reduces modulo `256 * p`. */
  lemma ModOfShifted(n: nat, p: nat)
    requires p > 0
    ensures n % (256 * p) == 256 * ((n / 256) % p) + n % 256
  {
    var a, b := n / 256, n % 256;
    var q, r := a / p, a % p;
    assert n == (256 * p) * q + (256 * r + b) by {
      assert a == p * q + r;
      assert n == 256 * a + b;
    }
    DivModUnique(n, 256 * p, q, 256 * r + b);
  }

  /** Reading back the bytes of `to_bytes(n, width)` gives `n` modulo 256^width. */
  lemma {:induction false} BeValueOfBeBytes(n: nat, width: nat)
    ensures BeValue(BeBytes(n, width)) == n % Pow256(width)
  {
    if width > 0 {
      var s := BeBytes(n, width);
      assert s[..width - 1] == BeBytes(n / 256, width - 1);
      BeValueOfBeBytes(n / 256, width - 1);
      assert BeValue(s) == 256 * ((n / 256) % Pow256(width - 1)) + n % 256;
      ModOfShifted(n, Pow256(width - 1));
    }
  }

  /** Writing the value of `s` back at its own width gives `s` again. */
  lemma {:induction false} BeBytesOfBeValue(s: Bytes)
    ensures BeBytes(BeValue(s), |s|) == s
  {
    if |s| > 0 {
      var init := s[..|s| - 1];
      BeBytesOfBeValue(init);
      assert BeValue(s) / 256 == BeValue(init);
      assert BeValue(s) % 256 == s[|s| - 1];
      assert s == init + [s[|s| - 1]];
    }
  }

  /** Values below 256^width survive the trip through `to_bytes` unchanged. */
  lemma BeRoundTrip(n: nat, width: nat)
    requires n < Pow256(width)
    ensures BeValue(BeBytes(n, width)) == n
  {
    BeValueOfBeBytes(n, width);
    DivModUnique(n, Pow256(width), 0, n);
  }

  /**
   * The loop of `to_bytes` builds its output front-first: one more iteration
   * puts byte `i` of `n` (counted from the least significant) in front.
   */
  lemma {:induction false} BeBytesPrepend(n: nat, i: nat)
    ensures BeBytes(n, i + 1) == [Shr8(n, i) % 256] + BeBytes(n, i)
  {
    if i > 0 {
      BeBytesPrepend(n / 256, i - 1);
      Shr8Shift(n, i - 1);
    }
  }

  /** Leading zero bytes do not change a big-endian value. */
  lemma {:induction false} BeValueLeadingZeros(k: nat, s: Bytes)
    ensures BeValue(Zeros(k) + s) == BeValue(s)
    decreases |s|
  {
    if |s| == 0 {
      BeValueZeros(k);
      assert Zeros(k) + s == Zeros(k);
    } else {
      var init := s[..|s| - 1];
      assert (Zeros(k) + s)[..|Zeros(k) + s| - 1] == Zeros(k) + init;
      BeValueLeadingZeros(k, init);
    }
  }

  lemma {:induction false} BeValueZeros(k: nat)
    ensures BeValue(Zeros(k)) == 0
  {
    if k > 0 {
      assert Zeros(k)[..k - 1] == Zeros(k - 1);
      BeValueZeros(k - 1);
    }
  }

  /** Reading bytes in reverse order big-endian is reading them little-endian. */
  lemma {:induction false} BeValueOfReversed(s: Bytes)
    ensures BeValue(Reversed(s)) == LeValue(s)
  {
    if |s| > 0 {
      var r := Reversed(s);
      assert r[..|r| - 1] == Reversed(s[1..]);
      BeValueOfReversed(s[1..]);
    }
  }

  /** Big-endian and little-endian agree on fields of at most one byte. */
  lemma ShortFieldOrderIrrelevant(s: Bytes)
    requires |s| <= 1
    ensures LeValue(s) == BeValue(s)
  {
    if |s| == 1 {
      assert s[1..] == [];
      assert s[..0] == [];
    }
  }

  /**
   * The bytes of `number` truncated to `length` bytes, most significant first:
   * each iteration puts the low byte (`number & 0xFF`) in front and shifts
   * `number` right by 8 bits.
   */
  method ToBytes(number: usize, length: u8) returns (out: Bytes)
    ensures out == BeBytes(number, length)
  {
    out := [];
    var n: nat := number;
    var i := 0;
    while i < length
      invariant 0 <= i <= length
      invariant n == Shr8(number, i)
      invariant out == BeBytes(number, i)
    {
      BeBytesPrepend(number, i);
      out := [n % 256] + out;
      n := n / 256;
      i := i + 1;
    }
  }

  /**
   * Byte layout of `to_bytes`: the last byte is `n & 0xFF` and each earlier
   * byte is the next-higher byte of `n`.
   */
  lemma {:induction false} BeBytesAt(n: nat, width: nat, k: nat)
    requires k < width
    ensures BeBytes(n, width)[width - 1 - k] == Shr8(n, k) % 256
  {
    if k > 0 {
      BeBytesAt(n / 256, width - 1, k - 1);
      Shr8Shift(n, k - 1);
    }
  }
}
