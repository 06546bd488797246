/**
 * What the frame decoder and the record encoders of src/spec/packets.rs
 * promise each other: which frames decode back to the record that wrote them,
 * which errors come first, and where the two disagree.
 */
module PacketProofs {
  import opened Primitives
  import opened Util
  import opened ByteWriter
  import opened Catalog
  import opened Packets
  import opened PacketEncoding
  import opened PacketDecoding

  // ------------------------------------------------------------ framing

  /**
   * Payload sizes whose length field reads back as written: below 256 when the
   * first length byte is taken as least significant (the field is then at most
   * one byte), any `usize` when the field is read big-endian.
   */
  function LengthBound(order: LengthOrder): nat
  {
    if order == AsWritten then 256 else Pow256(8)
  }

  /** The length field `into_packet` writes reads back as the payload size, within the bound. */
  lemma {:induction false} LengthFieldReadsBack(n: nat, order: LengthOrder)
    requires n < LengthBound(order)
    ensures MinExp(n) <= 8
    ensures LengthValue(BeBytes(n, MinExp(n)), order) == n
  {
    var e := MinExp(n);
    Pow256Widths();
    MinExpAtMost(n, 8);
    MinExpIsLeast(n);
    BeRoundTrip(n, e);
    if order == AsWritten {
      MinExpAtMost(n, 1);
      ShortFieldOrderIrrelevant(BeBytes(n, e));
    }
  }

  /** After the exponent byte: the length field `into_packet` writes, then the payload it announces. */
  lemma {:induction false} PayloadHeaderOfFrame(key: Bytes, payload: Bytes, rest: Bytes, order: LengthOrder)
    requires |payload| < LengthBound(order)
    ensures var e := MinExp(|payload|);
      e <= 8 && PayloadHeader(key, e, BeBytes(|payload|, e) + payload + rest, order)
        == Framed(key, payload, |key| + 1 + e + |payload|)
  {
    var e := MinExp(|payload|);
    LengthFieldReadsBack(|payload|, order);
    var field := BeBytes(|payload|, e);
    var t := field + payload + rest;
    assert t[..e] == field;
    assert t[e..e + |payload|] == payload;
  }

  /**
   * A frame from `into_packet` whose key is exactly `keylen` bytes passes every
   * structural check, whatever follows it, and yields its key and payload.
   */
  lemma {:induction false} HeaderOfFrame(key: Bytes, keylen: nat, payload: Bytes, rest: Bytes, order: LengthOrder)
    requires |key| == keylen && |payload| < LengthBound(order)
    ensures var f := Frame(key, keylen, payload);
      FrameHeader(f + rest, keylen, order) == Framed(key, payload, |f|)
  {
    var e := MinExp(|payload|);
    var f := Frame(key, keylen, payload);
    FrameOfExactKey(key, payload, order);
    PayloadHeaderOfFrame(key, payload, rest, order);
    var head, field := key + [e as u8], BeBytes(|payload|, e);
    var tail := field + payload + rest;
    AppendAssoc(head + field, payload, rest);
    AppendAssoc(head, field, payload + rest);
    AppendAssoc(field, payload, rest);
    assert f + rest == head + tail;
    HeaderAfterKey(key, e as u8, tail, order);
  }

  /** With a key of exactly the key width, a frame is the key, the exponent, the length field and the payload. */
  lemma {:induction false} FrameOfExactKey(key: Bytes, payload: Bytes, order: LengthOrder)
    requires |payload| < LengthBound(order)
    ensures MinExp(|payload|) <= 8
    ensures Frame(key, |key|, payload) == key + [MinExp(|payload|) as u8] + BeBytes(|payload|, MinExp(|payload|)) + payload
  {
    Pow256Widths();
    Pow256Monotone(if order == AsWritten then 1 else 8, 8);
    ExpByteIsMinExp(|payload|);
    assert PadKey(key, |key|) == key by {
      assert Max(|key|, |key|) == |key|;
    }
  }

  /** The structural checks on a key, an exponent byte of at most 8 and a tail that holds the length field. */
  lemma {:induction false} HeaderAfterKey(key: Bytes, e: u8, tail: Bytes, order: LengthOrder)
    requires e <= 8 && e <= |tail|
    ensures FrameHeader(key + [e] + tail, |key|, order) == PayloadHeader(key, e, tail, order)
  {
    var buf := key + [e] + tail;
    assert buf[..|key|] == key;
    assert buf[|key|] == e;
    assert buf[|key| + 1..] == tail;
  }

  /** Decoding a frame is decoding its payload under its key; what follows the frame is not read. */
  lemma {:induction false} DecodeOfFrame(key: Bytes, keylen: nat, payload: Bytes, rest: Bytes, order: LengthOrder)
    requires |key| == keylen && |payload| < LengthBound(order)
    ensures var f := Frame(key, keylen, payload);
      DecodeFrame(f + rest, keylen, order) == Decoded(DecodeBody(key, payload, order), |f|)
  {
    HeaderOfFrame(key, keylen, payload, rest, order);
  }

  /**
   * Once the structural checks pass, bytes appended to the buffer change
   * nothing: a frame's outcome depends only on its own bytes.
   */
  lemma {:induction false} TrailingBytesIgnored(buf: Bytes, extra: Bytes, keylen: nat, order: LengthOrder)
    requires FrameHeader(buf, keylen, order).Framed?
    ensures DecodeFrame(buf + extra, keylen, order) == DecodeFrame(buf, keylen, order)
  {
    var big := buf + extra;
    var exp := buf[keylen];
    assert exp <= 8 && exp <= |buf| - keylen - 1;
    assert big[..keylen] == buf[..keylen];
    assert big[keylen] == exp;
    var t, bt := buf[keylen + 1..], big[keylen + 1..];
    assert bt == t + extra;
    assert bt[..exp] == t[..exp];
    var len := LengthValue(t[..exp], order);
    assert exp + len <= |t|;
    assert bt[exp..exp + len] == t[exp..exp + len];
  }

  // ------------------------------------------------- structural error order

  /**
   * The field-size check comes before the exponent limit: an exponent byte
   * above 8 with fewer than that many bytes after it reports a missing payload
   * length, not an unsupported exponent.
   */
  lemma {:induction false} ShortFieldBeforeExponentLimit(buf: Bytes, keylen: nat, order: LengthOrder)
    requires keylen < |buf| && |buf| - keylen - 1 < buf[keylen]
    ensures DecodeFrame(buf, keylen, order) == Decoded(Err(Error(MissingPayloadLength)), keylen + 1)
  {
  }

  /** The exponent limit: with the field bytes present, only exponents up to 8 get past it. */
  lemma {:induction false} ExponentLimit(buf: Bytes, keylen: nat, order: LengthOrder)
    requires keylen < |buf| && buf[keylen] <= |buf| - keylen - 1
    ensures FrameHeader(buf, keylen, order) == Stopped(Error(UnsupportedExponent(buf[keylen])), keylen + 1)
      <==> buf[keylen] > 8
  {
  }

  /** A length field announcing more bytes than remain ends in the overrun of `read_len`. */
  lemma {:induction false} OverrunWhenShort(buf: Bytes, keylen: nat, order: LengthOrder)
    requires keylen < |buf| && buf[keylen] <= 8 && buf[keylen] <= |buf| - keylen - 1
    ensures var start := keylen + 1 + buf[keylen];
      DecodeFrame(buf, keylen, order).result == Err(Overrun)
      <== |buf| - start < LengthValue(buf[keylen + 1..start], order)
  {
    var start := keylen + 1 + buf[keylen];
    assert buf[keylen + 1..][..buf[keylen]] == buf[keylen + 1..start];
  }

  // ------------------------------------------------------------ field values

  lemma {:induction false} U16OfBytes(v: u16)
    ensures U16(BeBytes(v, 2)) == v
  {
    Pow256Widths();
    BeRoundTrip(v, 2);
  }

  lemma {:induction false} U32OfBytes(v: u32)
    ensures U32(BeBytes(v, 4)) == v
  {
    Pow256Widths();
    BeRoundTrip(v, 4);
  }

  lemma {:induction false} U64OfBytes(v: u64)
    ensures U64(BeBytes(v, 8)) == v
  {
    Pow256Widths();
    BeRoundTrip(v, 8);
  }

  /** `write_i16` then `read_i16` through the bit-cast: the value comes back. */
  lemma {:induction false} I16OfBytes(v: i16)
    ensures I16(I16Bytes(v)) == v
  {
    Pow256Widths();
    var u := AsUnsigned(v, 2);
    BeRoundTrip(u, 2);
    BitCastInverse(u, v, 2);
  }

  lemma {:induction false} I64OfBytes(v: i64)
    ensures I64(I64Bytes(v)) == v
  {
    Pow256Widths();
    var u := AsUnsigned(v, 8);
    BeRoundTrip(u, 8);
    BitCastInverse(u, v, 8);
  }

  /**
   * SnesLatchTrain reads its payload in whole 8-byte chunks: the points come
   * back, and fewer than 8 bytes after them are dropped without an error.
   */
  lemma {:induction false} ChunksOfPoints(points: seq<u64>, tail: Bytes)
    requires |tail| < 8
    ensures Chunks8(Points(points) + tail) == points
  {
    if points == [] {
      assert Points(points) + tail == tail;
    } else {
      var s := Points(points) + tail;
      var head := BeBytes(points[0], 8);
      assert s == head + (Points(points[1..]) + tail);
      assert s[..8] == head;
      assert s[8..] == Points(points[1..]) + tail;
      U64OfBytes(points[0]);
      ChunksOfPoints(points[1..], tail);
    }
  }

  // ------------------------------------------------------------ round trips

  /**
   * The records `encode` writes and `decode` gives back: the key is exactly
   * `keylen` bytes (catalog keys are two bytes; an unsupported record's key
   * must not be one of them), each payload fits the length field as the
   * decoder reads it, and the fields the decoder derives instead of reading
   * hold the values it derives: a custom console name exactly for console
   * kind 0xFF, an empty initial-data block exactly for data type 0xFF, names
   * below 256 bytes, and an embedded record exactly for transition type 0xFF,
   * itself well formed.
   */
  predicate WellFormed(p: Packet, keylen: nat, order: LengthOrder)
    decreases p
  {
    && |Key(p)| == keylen
    && (p.Unsupported? ==> KindOfKey(p.key) == PacketKind.Unsupported)
    && |Fields(p, keylen)| < LengthBound(order)
    && DerivedFieldsAgree(p)
    && ((p.Transition? || p.MovieTransition?) ==>
          && (p.packet.Some? <==> p.transitionType == 0xFF)
          && (p.packet.Some? ==> WellFormed(p.packet.value, keylen, order)))
  }

  /** The fields of one record that the decoder derives rather than reads. */
  predicate DerivedFieldsAgree(p: Packet)
  {
    && (p.ConsoleType? ==> (p.custom.Some? <==> p.kind == 0xFF))
    && (p.MemoryInit? ==>
          |p.name| < 256 && p.initData == if p.dataType == 0xFF then Some([]) else None)
    && (p.MovieFile? ==> |p.name| < 256)
  }

  /** The key of a record selects the record's own kind. */
  lemma {:induction false} KeySelectsKind(p: Packet, keylen: nat, order: LengthOrder)
    requires WellFormed(p, keylen, order)
    ensures KindOfKey(Key(p)) == KindOf(p)
  {
    if !p.Unsupported? {
      KindKeyDispatches(KindOf(p));
    }
  }

  /** A name as MemoryInit and MovieFile write it reads back, with whatever follows. */
  lemma {:induction false} NameFieldReadsBack(name: Bytes, tail: Bytes)
    requires |name| < 256
    ensures var s := NameField(name) + tail;
      s[0] == |name| && s[1..1 + |name|] == name && s[1 + |name|..] == tail
  {
    assert name[..Min(|name|, 256)] == name;
  }

  /** Every well-formed record decodes from the payload its `encode` writes. */
  lemma {:induction false} BodyRoundTrip(p: Packet, keylen: nat, order: LengthOrder)
    requires WellFormed(p, keylen, order)
    ensures DecodeBody(Key(p), Fields(p, keylen), order) == Ok(p)
    decreases p, 1
  {
    KeySelectsKind(p, keylen, order);
    if p.Transition? || p.MovieTransition? {
      EmbeddingRoundTrip(p, keylen, order);
    } else if IsCompound(p) {
      CompoundRoundTrip(p, order);
    } else if IsRun(p) {
      RunRoundTrip(p, order);
    } else {
      ScalarRoundTrip(p, order);
    }
  }

  /**
   * Every well-formed record decodes from the frame its `encode` writes,
   * whatever bytes follow it, and the cursor moves past exactly that frame.
   */
  lemma {:induction false} FrameRoundTrip(p: Packet, keylen: nat, order: LengthOrder, rest: Bytes)
    requires WellFormed(p, keylen, order)
    ensures DecodeFrame(Encode(p, keylen) + rest, keylen, order) == Decoded(Ok(p), |Encode(p, keylen)|)
    decreases p, 2
  {
    DecodeOfFrame(Key(p), keylen, Fields(p, keylen), rest, order);
    BodyRoundTrip(p, keylen, order);
  }

  lemma {:induction false} RunRoundTrip(p: Packet, order: LengthOrder)
    requires IsRun(p) && DerivedFieldsAgree(p) && KindOfKey(Key(p)) == KindOf(p)
    ensures DecodeBody(Key(p), RunFields(p), order) == Ok(p)
  {
    RunKind(p);
    assert DecodeBody(Key(p), RunFields(p), order) == DecodeRun(KindOf(p), Key(p), RunFields(p));
    RunDecodes(p, KindOf(p), Key(p));
  }

  /** The kind of a run record is one `DecodeRun` handles. */
  lemma {:induction false} RunKind(p: Packet)
    requires IsRun(p)
    ensures var kind := KindOf(p); !kind.Transition? && !kind.MovieTransition? && !IsCompoundKind(kind) && IsRunKind(kind)
  {
  }

  /**
   * `DecodeRun` reads back each run record from the bytes its `encode`
   * writes; an unsupported record needs the key it was read under.
   */
  lemma {:induction false} RunDecodes(p: Packet, kind: PacketKind, key: Bytes)
    requires IsRun(p) && kind == KindOf(p) && IsRunKind(kind)
    requires p.Unsupported? ==> p.key == key
    ensures DecodeRun(kind, key, RunFields(p)) == Ok(p)
  {
    if p.SnesLatchTrain? {
      LatchTrainDecodes(p.points, key);
    }
  }

  /** The points `SnesLatchTrain::encode` writes are read back whole. */
  lemma {:induction false} LatchTrainDecodes(points: seq<u64>, key: Bytes)
    ensures DecodeRun(PacketKind.SnesLatchTrain, key, Points(points)) == Ok(Packet.SnesLatchTrain(points))
  {
    ChunksOfPoints(points, []);
    assert Points(points) + [] == Points(points);
  }

  lemma {:induction false} ScalarRoundTrip(p: Packet, order: LengthOrder)
    requires IsScalar(p) && DerivedFieldsAgree(p) && KindOfKey(Key(p)) == KindOf(p)
    ensures DecodeBody(Key(p), ScalarFields(p), order) == Ok(p)
  {
    ScalarKind(p);
    assert DecodeBody(Key(p), ScalarFields(p), order) == DecodeScalar(KindOf(p), Key(p), ScalarFields(p));
    ScalarDecodes(p, KindOf(p), Key(p));
  }

  /** The kind of a scalar record is one `DecodeScalar` handles. */
  lemma {:induction false} ScalarKind(p: Packet)
    requires IsScalar(p)
    ensures var kind := KindOf(p); !kind.Transition? && !kind.MovieTransition? && !IsCompoundKind(kind) && !IsRunKind(kind)
  {
  }

  /** `DecodeScalar` reads back each scalar record from the bytes its `encode` writes. */
  lemma {:induction false} ScalarDecodes(p: Packet, kind: PacketKind, key: Bytes)
    requires IsScalar(p) && kind == KindOf(p)
    requires !kind.Transition? && !kind.MovieTransition? && !IsCompoundKind(kind) && !IsRunKind(kind)
    ensures DecodeScalar(kind, key, ScalarFields(p)) == Ok(p)
  {
    match p
    case TasLastModified(epoch) => I64OfBytes(epoch);
    case DumpCreated(epoch) => I64OfBytes(epoch);
    case DumpLastModified(epoch) => I64OfBytes(epoch);
    case TotalFrames(frames) => U32OfBytes(frames);
    case Rerecords(rerecords) => U32OfBytes(rerecords);
    case BlankFrames(frames) => I16OfBytes(frames);
    case NesLatchFilter(time) => U16OfBytes(time);
    case _ =>
  }

  lemma {:induction false} CompoundRoundTrip(p: Packet, order: LengthOrder)
    requires IsCompound(p) && DerivedFieldsAgree(p) && KindOfKey(Key(p)) == KindOf(p)
    ensures DecodeBody(Key(p), CompoundFields(p), order) == Ok(p)
  {
    CompoundKind(p);
    assert DecodeBody(Key(p), CompoundFields(p), order) == DecodeCompound(KindOf(p), Key(p), CompoundFields(p));
    CompoundDecodes(p, Key(p));
  }

  /** The kind of a compound record is one `DecodeCompound` handles. */
  lemma {:induction false} CompoundKind(p: Packet)
    requires IsCompound(p)
    ensures var kind := KindOf(p); !kind.Transition? && !kind.MovieTransition? && IsCompoundKind(kind)
  {
  }

  /** `DecodeCompound` reads back each compound record from the bytes its `encode` writes. */
  lemma {:induction false} CompoundDecodes(p: Packet, key: Bytes)
    requires IsCompound(p) && DerivedFieldsAgree(p)
    ensures IsCompoundKind(KindOf(p)) && DecodeCompound(KindOf(p), key, CompoundFields(p)) == Ok(p)
  {
    match p
    case ConsoleType(_, _) => ConsoleTypeRoundTrip(p, key);
    case Attribution(_, _) => AttributionRoundTrip(p, key);
    case MemoryInit(_, _, _, _, _) => MemoryInitRoundTrip(p, key);
    case GameIdentifier(_, _, _) => GameIdentifierRoundTrip(p, key);
    case MovieFile(_, _) => MovieFileRoundTrip(p, key);
    case PortController(_, _) => PortControllerRoundTrip(p, key);
    case InputChunk(_, _) => InputChunkRoundTrip(p, key);
    case InputMoment(_, _, _, _) => InputMomentRoundTrip(p, key);
    case LagFrameChunk(_, _) => LagFrameChunkRoundTrip(p, key);
  }

  lemma {:induction false} ConsoleTypeRoundTrip(p: Packet, key: Bytes)
    requires p.ConsoleType? && DerivedFieldsAgree(p)
    ensures DecodeCompound(PacketKind.ConsoleType, key, CompoundFields(p)) == Ok(p)
  {
    assert CompoundFields(p)[1..] == OptionBytes(p.custom);
  }

  lemma {:induction false} AttributionRoundTrip(p: Packet, key: Bytes)
    requires p.Attribution? && DerivedFieldsAgree(p)
    ensures DecodeCompound(PacketKind.Attribution, key, CompoundFields(p)) == Ok(p)
  {
    assert CompoundFields(p)[1..] == p.name;
  }

  lemma {:induction false} MemoryInitRoundTrip(p: Packet, key: Bytes)
    requires p.MemoryInit? && DerivedFieldsAgree(p)
    ensures DecodeCompound(PacketKind.MemoryInit, key, CompoundFields(p)) == Ok(p)
  {
    var f := CompoundFields(p);
    var head := [p.dataType] + BeBytes(p.device, 2) + [BoolByte(p.required)];
    var n := |p.name|;
    assert f == head + (NameField(p.name) + []);
    NameFieldReadsBack(p.name, []);
    assert f[4..] == NameField(p.name) + [];
    assert f[0] == p.dataType && f[3] == BoolByte(p.required) && f[4] == n;
    assert f[5..5 + n] == p.name && f[5 + n..] == [];
    assert f[1..3] == BeBytes(p.device, 2);
    U16OfBytes(p.device);
  }

  lemma {:induction false} GameIdentifierRoundTrip(p: Packet, key: Bytes)
    requires p.GameIdentifier? && DerivedFieldsAgree(p)
    ensures DecodeCompound(PacketKind.GameIdentifier, key, CompoundFields(p)) == Ok(p)
  {
    assert CompoundFields(p)[2..] == p.identifier;
  }

  lemma {:induction false} MovieFileRoundTrip(p: Packet, key: Bytes)
    requires p.MovieFile? && DerivedFieldsAgree(p)
    ensures DecodeCompound(PacketKind.MovieFile, key, CompoundFields(p)) == Ok(p)
  {
    NameFieldReadsBack(p.name, p.data);
  }

  lemma {:induction false} PortControllerRoundTrip(p: Packet, key: Bytes)
    requires p.PortController? && DerivedFieldsAgree(p)
    ensures DecodeCompound(PacketKind.PortController, key, CompoundFields(p)) == Ok(p)
  {
    assert CompoundFields(p)[1..] == BeBytes(p.controllerKind, 2);
    U16OfBytes(p.controllerKind);
  }

  lemma {:induction false} InputChunkRoundTrip(p: Packet, key: Bytes)
    requires p.InputChunk? && DerivedFieldsAgree(p)
    ensures DecodeCompound(PacketKind.InputChunk, key, CompoundFields(p)) == Ok(p)
  {
    assert CompoundFields(p)[1..] == p.inputs;
  }

  lemma {:induction false} InputMomentRoundTrip(p: Packet, key: Bytes)
    requires p.InputMoment? && DerivedFieldsAgree(p)
    ensures DecodeCompound(PacketKind.InputMoment, key, CompoundFields(p)) == Ok(p)
  {
    var f := CompoundFields(p);
    U64OfBytes(p.index);
    assert |f| >= 10 && f[0] == p.port && f[1] == p.indexType;
    assert f[2..10] == BeBytes(p.index, 8);
    assert f[10..] == p.inputs;
  }

  lemma {:induction false} LagFrameChunkRoundTrip(p: Packet, key: Bytes)
    requires p.LagFrameChunk? && DerivedFieldsAgree(p)
    ensures DecodeCompound(PacketKind.LagFrameChunk, key, CompoundFields(p)) == Ok(p)
  {
    var f := CompoundFields(p);
    U32OfBytes(p.movieFrame);
    U32OfBytes(p.count);
    assert |f| == 8;
    assert f[..4] == BeBytes(p.movieFrame, 4);
    assert f[4..] == BeBytes(p.count, 4);
  }

  lemma {:induction false} EmbeddingRoundTrip(p: Packet, keylen: nat, order: LengthOrder)
    requires (p.Transition? || p.MovieTransition?) && WellFormed(p, keylen, order)
    requires KindOfKey(Key(p)) == KindOf(p)
    ensures DecodeBody(Key(p), EmbeddingFields(p, keylen), order) == Ok(p)
    decreases p, 0
  {
    var key := Key(p);
    var tail := if p.packet.Some? then Encode(p.packet.value, keylen) else [];
    assert |key| == keylen;
    if p.packet.Some? {
      FrameRoundTrip(p.packet.value, keylen, order, []);
      assert tail + [] == tail;
    }
    if p.Transition? {
      assert EmbeddingFields(p, keylen) == [p.indexType] + BeBytes(p.index, 8) + [p.transitionType] + tail;
      TransitionRoundTrip(key, p.indexType, p.index, p.transitionType, p.packet, keylen, order);
    } else {
      assert EmbeddingFields(p, keylen) == BeBytes(p.movieFrame, 4) + [p.transitionType] + tail;
      MovieTransitionRoundTrip(key, p.movieFrame, p.transitionType, p.packet, keylen, order);
    }
  }

  /** Where the fields of a Transition lie in its payload. */
  lemma {:induction false} SplitAt(indexType: u8, index: Bytes, transitionType: u8, tail: Bytes)
    requires |index| == 8
    ensures var f := [indexType] + index + [transitionType] + tail;
      f[0] == indexType && f[1..9] == index && f[9] == transitionType && f[10..] == tail
  {
    var f := [indexType] + index + [transitionType] + tail;
    assert f[1..9] == index;
    assert f[10..] == tail;
  }

  /**
   * The fixed fields of a Transition read back, and so does the embedded
   * record, given that its own frame does.
   */
  lemma {:induction false} TransitionRoundTrip(key: Bytes, indexType: u8, index: u64, transitionType: u8,
                                                packet: Option<Packet>, keylen: nat, order: LengthOrder)
    requires KindOfKey(key) == PacketKind.Transition && |key| == keylen
    requires packet.Some? <==> transitionType == 0xFF
    requires packet.Some? ==> DecodeFrame(Encode(packet.value, keylen), keylen, order).result == Ok(packet.value)
    ensures var tail := if packet.Some? then Encode(packet.value, keylen) else [];
      DecodeBody(key, [indexType] + BeBytes(index, 8) + [transitionType] + tail, order)
        == Ok(Packet.Transition(indexType, index, transitionType, packet))
  {
    var tail := if packet.Some? then Encode(packet.value, keylen) else [];
    SplitAt(indexType, BeBytes(index, 8), transitionType, tail);
    U64OfBytes(index);
  }

  lemma {:induction false} MovieTransitionRoundTrip(key: Bytes, movieFrame: u32, transitionType: u8,
                                                     packet: Option<Packet>, keylen: nat, order: LengthOrder)
    requires KindOfKey(key) == PacketKind.MovieTransition && |key| == keylen
    requires packet.Some? <==> transitionType == 0xFF
    requires packet.Some? ==> DecodeFrame(Encode(packet.value, keylen), keylen, order).result == Ok(packet.value)
    ensures var tail := if packet.Some? then Encode(packet.value, keylen) else [];
      DecodeBody(key, BeBytes(movieFrame, 4) + [transitionType] + tail, order)
        == Ok(Packet.MovieTransition(movieFrame, transitionType, packet))
  {
    var tail := if packet.Some? then Encode(packet.value, keylen) else [];
    var f := BeBytes(movieFrame, 4) + [transitionType] + tail;
    assert f[..4] == BeBytes(movieFrame, 4);
    assert f[5..] == tail;
    U32OfBytes(movieFrame);
  }

  /**
   * Any key outside the catalog, of any length, passes through with its
   * payload untouched, and encoding the record rebuilds the same frame.
   */
  lemma {:induction false} UnsupportedVerbatim(key: Bytes, payload: Bytes, rest: Bytes, order: LengthOrder)
    requires KindOfKey(key) == PacketKind.Unsupported && |payload| < LengthBound(order)
    ensures var f := Frame(key, |key|, payload);
      && DecodeFrame(f + rest, |key|, order) == Decoded(Ok(Packet.Unsupported(key, payload)), |f|)
      && Encode(Packet.Unsupported(key, payload), |key|) == f
  {
    UnsupportedEncodes(key, payload);
    UnsupportedDecodes(key, payload, order);
    DecodeOfFrame(key, |key|, payload, rest, order);
  }

  /** An unsupported record's frame is its own key and payload. */
  lemma {:induction false} UnsupportedEncodes(key: Bytes, payload: Bytes)
    ensures Encode(Packet.Unsupported(key, payload), |key|) == Frame(key, |key|, payload)
  {
    var p := Packet.Unsupported(key, payload);
    assert Key(p) == key;
    assert Fields(p, |key|) == payload;
  }

  /** A key outside the catalog decodes to an unsupported record holding the whole payload. */
  lemma {:induction false} UnsupportedDecodes(key: Bytes, payload: Bytes, order: LengthOrder)
    requires KindOfKey(key) == PacketKind.Unsupported
    ensures DecodeBody(key, payload, order) == Ok(Packet.Unsupported(key, payload))
  {
    assert DecodeBody(key, payload, order) == DecodeRun(PacketKind.Unsupported, key, payload);
  }

  /**
   * The fixed-width kinds accept exactly payloads of their width and reject
   * every other size with `InvalidPayload`, carrying the key and the payload.
   */
  lemma {:induction false} FixedWidthPayloads(kind: PacketKind, payload: Bytes, order: LengthOrder)
    requires FixedWidth(kind) > 0
    ensures var key := KindKey(kind);
      && (DecodeBody(key, payload, order).Ok? <==> |payload| == FixedWidth(kind))
      && (|payload| != FixedWidth(kind) ==> DecodeBody(key, payload, order) == Invalid(key, payload))
  {
    KindKeyDispatches(kind);
    match kind
    case ConsoleRegion | Verified | NesClockFilter | NesOverread | SnesClockFilter | SnesOverread | Experimental =>
    case BlankFrames | NesLatchFilter =>
    case PortController =>
    case TotalFrames | Rerecords =>
    case TasLastModified | DumpCreated | DumpLastModified | LagFrameChunk =>
    case _ =>
      assert false;
  }

  // ------------------------------------------------------------ edge cases

  /**
   * A console record of kind 0xFF without a custom name writes the payload
   * [0xFF], which reads back with an empty custom name.
   */
  lemma {:induction false} ConsoleTypeWithoutCustomName(keylen: nat, order: LengthOrder)
    ensures var p := Packet.ConsoleType(0xFF, None);
      && Fields(p, keylen) == [0xFF]
      && DecodeBody(Key(p), Fields(p, keylen), order) == Ok(Packet.ConsoleType(0xFF, Some([])))
  {
    KindKeyDispatches(PacketKind.ConsoleType);
  }

  /**
   * A transition whose discriminant is 0xFF fails with the fault of its
   * embedded frame, not with an error of its own.
   */
  lemma {:induction false} EmbeddedFaultPropagates(key: Bytes, payload: Bytes, order: LengthOrder)
    requires KindOfKey(key) == PacketKind.Transition && |payload| >= 10 && payload[9] == 0xFF
    requires DecodeFrame(payload[10..], |key|, order).result.Err?
    ensures DecodeBody(key, payload, order) == DecodeFrame(payload[10..], |key|, order).result
  {
  }

  /**
   * Bytes after the embedded frame of a transition are ignored: appending to
   * the payload decodes to the same record, or fails the same way.
   */
  lemma {:induction false} EmbeddedTrailingBytesIgnored(key: Bytes, payload: Bytes, extra: Bytes, order: LengthOrder)
    requires KindOfKey(key) == PacketKind.Transition && |payload| >= 10 && payload[9] == 0xFF
    requires FrameHeader(payload[10..], |key|, order).Framed?
    ensures DecodeBody(key, payload + extra, order) == DecodeBody(key, payload, order)
  {
    var big := payload + extra;
    assert big[10..] == payload[10..] + extra;
    assert big[1..9] == payload[1..9];
    TrailingBytesIgnored(payload[10..], extra, |key|, order);
  }

  // ------------------------------------------------------------ findings

  /**
   * The length field is written big-endian but assembled with its first byte
   * least significant: any 256-byte payload is announced by the field [1, 0],
   * which reads back as 1, so the frame decodes to a one-byte record and the
   * cursor stops inside the payload.
   */
  lemma {:induction false} LengthOrderMisread(z: Bytes)
    requires |z| == 256
    ensures DecodeFrame(Encode(Packet.Unspecified(z), 2), 2, AsWritten) == Decoded(Ok(Packet.Unspecified([z[0]])), 6)
  {
    UnspecifiedFrame(z);
    KindKeyDispatches(PacketKind.Unspecified);
    ShortReadFrame([0xFF, 0xFF], z);
  }

  /** A frame with exponent 2 and the field [1, 0] under the Unspecified key, read as written. */
  lemma {:induction false} ShortReadFrame(key: Bytes, z: Bytes)
    requires |key| == 2 && KindOfKey(key) == PacketKind.Unspecified && |z| == 256
    ensures DecodeFrame(key + [2] + ([1, 0] + z), 2, AsWritten) == Decoded(Ok(Packet.Unspecified([z[0]])), 6)
  {
    var tail := [1, 0] + z;
    HeaderAfterKey(key, 2, tail, AsWritten);
    LeadingOneLe();
    assert tail[..2] == [1, 0];
    assert tail[2..3] == [z[0]];
    assert PayloadHeader(key, 2, tail, AsWritten) == Framed(key, [z[0]], 6);
    UnspecifiedBody(key, [z[0]]);
  }

  /** The field [1, 0] read least significant byte first. */
  lemma {:induction false} LeadingOneLe()
    ensures LeValue([1, 0]) == 1
  {
    assert [1, 0][1..] == [0];
    assert [0][1..] == [];
  }

  /** The frame of an Unspecified record with a 256-byte payload. */
  lemma {:induction false} UnspecifiedFrame(z: Bytes)
    requires |z| == 256
    ensures Encode(Packet.Unspecified(z), 2) == [0xFF, 0xFF] + [2] + ([1, 0] + z)
  {
    var p := Packet.Unspecified(z);
    assert Key(p) == [0xFF, 0xFF] && Fields(p, 2) == z;
    FrameOf256([0xFF, 0xFF], z);
  }

  lemma {:induction false} UnspecifiedBody(key: Bytes, payload: Bytes)
    requires KindOfKey(key) == PacketKind.Unspecified
    ensures DecodeBody(key, payload, AsWritten) == Ok(Packet.Unspecified(payload))
  {
  }

  /** The frame of a 256-byte payload: exponent 2 and the length field [1, 0]. */
  lemma {:induction false} FrameOf256(key: Bytes, z: Bytes)
    requires |key| == 2 && |z| == 256
    ensures Frame(key, 2, z) == key + [2] + ([1, 0] + z)
  {
    Pow256Widths();
    FrameOfExactKey(key, z, Corrected);
    MinExpIsLeast(256);
    MinExpAtMost(256, 2);
    assert Pow256(1) <= 256;
    assert MinExp(256) == 2;
    BeRoundTrip(256, 2);
    var field := BeBytes(256, 2);
    assert field == [1, 0] by {
      assert BeValue(field) == 256 * (field[0] as int) + field[1] by {
        assert field[..1] == [field[0]];
        assert [field[0]][..0] == [];
      }
    }
    AppendAssoc(key + [2], [1, 0], z);
  }

  /**
   * The name field as the encoders of MovieFile and MemoryInit evidently
   * mean it: the length byte and the name bytes both stop at 255, so the
   * byte always announces exactly the bytes that follow.
   */
  function CappedNameField(name: Bytes): (r: Bytes)
    ensures |r| == 1 + Min(|name|, 255) && r[0] == Min(|name|, 255)
    ensures r[1..] == name[..Min(|name|, 255)]
  {
    [Min(|name|, 255)] + name[..Min(|name|, 255)]
  }

  /**
   * With a 256-byte name the length byte wraps to 0 while all 256 name bytes
   * are written: the record reads back with an empty name and the name in
   * front of its data.
   */
  lemma {:induction false} NameLengthWraps(name: Bytes, data: Bytes)
    requires |name| == 256
    ensures var p := Packet.MovieFile(name, data);
      DecodeBody(Key(p), Fields(p, 2), AsWritten) == Ok(Packet.MovieFile([], name + data))
  {
    var b := [0] + name + data;
    MovieFileFields(name, data);
    KindKeyDispatches(PacketKind.MovieFile);
    assert b[1..1] == [] && b[1..] == name + data;
  }

  /** The key and the payload MovieFile writes for a 256-byte name. */
  lemma {:induction false} MovieFileFields(name: Bytes, data: Bytes)
    requires |name| == 256
    ensures var p := Packet.MovieFile(name, data);
      Key(p) == KindKey(PacketKind.MovieFile) && Fields(p, 2) == [0] + name + data
  {
    var p := Packet.MovieFile(name, data);
    assert IsCompound(p);
    assert Fields(p, 2) == CompoundFields(p);
    assert name[..Min(256, 256)] == name;
  }

  /** The capped name field agrees with the written one for every name that fits its byte. */
  lemma {:induction false} CappedNameAgrees(name: Bytes)
    requires |name| < 256
    ensures CappedNameField(name) == NameField(name)
  {
    assert Min(|name|, 255) == |name| == Min(|name|, 256) == |name| % 256;
    assert name[..|name|] == name;
  }

  /**
   * A MovieFile payload with the capped name field reads back, for every name
   * and every data, with the name cut to 255 bytes and the data intact.
   */
  lemma {:induction false} CappedNameReadsBack(name: Bytes, data: Bytes, order: LengthOrder)
    ensures var n := Min(|name|, 255);
      DecodeBody(KindKey(PacketKind.MovieFile), CappedNameField(name) + data, order)
        == Ok(Packet.MovieFile(name[..n], data))
  {
    var n := Min(|name|, 255);
    var c := CappedNameField(name);
    var b := c + data;
    KindKeyDispatches(PacketKind.MovieFile);
    assert b[0] == n;
    assert b[1..1 + n] == name[..n];
    assert b[1 + n..] == data;
  }

  /**
   * MemoryInit writes its name the same way: with a 256-byte name and a data
   * type other than 0xFF, the length byte is 0 and the record reads back with
   * an empty name.
   */
  lemma {:induction false} MemoryInitNameWraps(dataType: u8, device: u16, required: bool, name: Bytes)
    requires |name| == 256 && dataType != 0xFF
    ensures var p := Packet.MemoryInit(dataType, device, required, name, None);
      DecodeBody(Key(p), Fields(p, 2), AsWritten) == Ok(Packet.MemoryInit(dataType, device, required, [], None))
  {
    var head := [dataType] + BeBytes(device, 2) + [BoolByte(required)];
    var b := head + [0] + name;
    MemoryInitFields(dataType, device, required, name);
    KindKeyDispatches(PacketKind.MemoryInit);
    assert b[0] == dataType && b[4] == 0 && b[5..5] == [];
    assert b[1..3] == BeBytes(device, 2);
    U16OfBytes(device);
  }

  /** The key and the payload MemoryInit writes for a 256-byte name. */
  lemma {:induction false} MemoryInitFields(dataType: u8, device: u16, required: bool, name: Bytes)
    requires |name| == 256
    ensures var p := Packet.MemoryInit(dataType, device, required, name, None);
      Key(p) == KindKey(PacketKind.MemoryInit)
      && Fields(p, 2) == [dataType] + BeBytes(device, 2) + [BoolByte(required)] + [0] + name
  {
    var p := Packet.MemoryInit(dataType, device, required, name, None);
    assert IsCompound(p);
    assert Fields(p, 2) == CompoundFields(p);
    assert name[..Min(256, 256)] == name;
  }

  /**
   * A MemoryInit payload with the capped name field reads back, for every
   * name, with the name cut to 255 bytes and the other fields intact.
   */
  lemma {:induction false} CappedMemoryInitReadsBack(dataType: u8, device: u16, required: bool, name: Bytes, order: LengthOrder)
    ensures var n := Min(|name|, 255);
      DecodeBody(KindKey(PacketKind.MemoryInit),
                 [dataType] + BeBytes(device, 2) + [BoolByte(required)] + CappedNameField(name), order)
        == Ok(Packet.MemoryInit(dataType, device, required, name[..n], if dataType == 0xFF then Some([]) else None))
  {
    var n := Min(|name|, 255);
    var cut := name[..n];
    var p := Packet.MemoryInit(dataType, device, required, cut, if dataType == 0xFF then Some([]) else None);
    CappedNameOfCut(name);
    assert CompoundFields(p) == [dataType] + BeBytes(device, 2) + [BoolByte(required)] + CappedNameField(name);
    MemoryInitRoundTrip(p, KindKey(PacketKind.MemoryInit));
    KindKeyDispatches(PacketKind.MemoryInit);
    CompoundBody(KindKey(PacketKind.MemoryInit), CompoundFields(p), order);
  }

  /** The capped field of a name is the written field of the name cut to 255 bytes. */
  lemma {:induction false} CappedNameOfCut(name: Bytes)
    ensures CappedNameField(name) == NameField(name[..Min(|name|, 255)])
  {
    var cut := name[..Min(|name|, 255)];
    CappedNameAgrees(cut);
    assert cut[..|cut|] == cut;
  }
}
