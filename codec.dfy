/**
 * The record decoder and encoder of src/spec/packets.rs as they run: the
 * frame decoder moves a `Reader` over the buffer, each kind's `decode` reads
 * its fields from a fresh `Reader` over the payload, and each `encode` appends
 * its fields to a `Writer` and closes it into a frame. Every method is proved
 * equal to the specification functions of module Packets.
 */
module PacketCodec {
  import opened Primitives
  import opened Util
  import opened ByteReader
  import opened ByteWriter
  import opened Catalog
  import opened Packets
  import opened PacketEncoding
  import opened PacketDecoding

  /** The 8-byte array `with_reader` assembles the length field into, zeros first. */
  function PlenArray(field: Bytes): (r: Bytes)
    requires |field| <= 8
    ensures |r| == 8
  {
    Zeros(8 - |field|) + Reversed(field)
  }

  /** Reading the array big-endian reads the field little-endian. */
  lemma PlenArrayValue(field: Bytes)
    requires |field| <= 8
    ensures BeValue(PlenArray(field)) == LengthValue(field, AsWritten)
  {
    BeValueLeadingZeros(8 - |field|, Reversed(field));
    BeValueOfReversed(field);
  }

  /**
   * One more length byte, stored as the decoder stores it: byte `i` of the
   * field goes to position 7 - i of the array.
   */
  lemma PlenArrayPush(field: Bytes, b: u8)
    requires |field| < 8
    ensures PlenArray(field + [b]) == PlenArray(field)[8 - |field| - 1 := b]
  {
    var lhs, rhs := PlenArray(field + [b]), PlenArray(field)[8 - |field| - 1 := b];
    forall i | 0 <= i < 8
      ensures lhs[i] == rhs[i]
    {
      var k := 8 - |field| - 1;
      if i > k {
        assert lhs[i] == Reversed(field + [b])[i - k];
        assert rhs[i] == Reversed(field)[i - k - 1];
      }
    }
  }

  /**
   * The length field of `with_reader`: `exp` bytes, each stored into an 8-byte
   * array from the end backwards, then read as a big-endian `u64`.
   */
  method ReadPayloadLength(r: Reader, exp: u8) returns (len: u64)
    requires exp <= 8 && r.pos + exp <= |r.inner|
    modifies r
    ensures r.pos == old(r.pos) + exp
    ensures len == LengthValue(r.inner[old(r.pos)..r.pos], AsWritten)
  {
    var plen := new u8[8](_ => 0);
    ghost var field := r.inner[r.pos..r.pos + exp];
    ghost var fieldStart := r.pos;
    assert plen[..] == PlenArray(field[..0]);
    for i := 0 to exp
      invariant r.pos == fieldStart + i
      invariant plen[..] == PlenArray(field[..i])
    {
      var b := r.ReadU8();
      assert b == field[i];
      PlenArrayPush(field[..i], b);
      assert field[..i + 1] == field[..i] + [b];
      ghost var before := plen[..];
      plen[8 - i - 1] := b;
      assert plen[..] == before[8 - i - 1 := b];
    }
    assert field[..exp] == field;
    PlenArrayValue(field);
    len := U64(plen[..]);
  }

  /**
   * The rest of a frame once its exponent byte is read: the length field, then
   * the payload if the buffer holds all of it.
   */
  method ReadPayload(r: Reader, key: Bytes, exp: u8) returns (h: Header)
    requires exp <= 8 && r.pos + exp <= |r.inner|
    modifies r
    ensures h == PayloadHeader(key, exp, r.inner[old(r.pos)..], AsWritten)
    ensures r.pos == old(r.pos) + h.consumed - |key| - 1
  {
    ghost var rest, p0 := r.inner[r.pos..], r.pos;
    var len := ReadPayloadLength(r, exp);
    assert r.inner[old(r.pos)..r.pos] == rest[..exp];
    var start: nat := |key| + 1 + exp as nat;
    if r.Remaining() < len {
      return Stopped(Overrun, start);
    }
    assert r.pos == p0 + exp;
    var payload := r.ReadLen(len);
    assert payload == r.inner[p0 + exp..p0 + exp + len] == rest[exp..exp + len];
    h := Framed(key, payload, start + len);
  }

  /**
   * The structural checks of `Packet::with_reader` as they run on the cursor:
   * key, exponent byte, length field, payload, each checked before it is read.
   */
  method ReadFrameHeader(r: Reader, keylen: u8) returns (h: Header)
    requires r.pos <= |r.inner|
    modifies r
    ensures h == FrameHeader(r.inner[old(r.pos)..], keylen, AsWritten)
    ensures r.pos == old(r.pos) + h.consumed
  {
    ghost var buf := r.inner[r.pos..];
    if r.Remaining() < keylen as nat {
      return Stopped(Error(MissingKey), 0);
    }
    var key := r.ReadLen(keylen);
    if r.Remaining() < 1 {
      return Stopped(Error(MissingPayloadLength), keylen);
    }
    var exp := r.ReadU8();
    assert exp == buf[keylen];
    if r.Remaining() < exp as nat {
      return Stopped(Error(MissingPayloadLength), keylen + 1);
    }
    if exp > 8 {
      return Stopped(Error(UnsupportedExponent(exp)), keylen + 1);
    }
    assert r.inner[r.pos..] == buf[keylen + 1..];
    assert key == buf[..keylen];
    h := ReadPayload(r, key, exp);
  }

  /**
   * `Packet::with_reader`: reads one frame at the cursor. On every outcome the
   * result and the cursor movement are those of `DecodeFrame` with the length
   * field read first byte least significant.
   */
  method WithReader(r: Reader, keylen: u8) returns (res: Result<Packet, Fault>)
    requires r.pos <= |r.inner|
    modifies r
    ensures var d := DecodeFrame(r.inner[old(r.pos)..], keylen, AsWritten);
      res == d.result && r.pos == old(r.pos) + d.consumed
    decreases |r.inner| - r.pos, 2
  {
    var h := ReadFrameHeader(r, keylen);
    match h
    case Stopped(f, _) =>
      res := Err(f);
    case Framed(key, payload, _) =>
      var payloadReader := new Reader(payload);
      res := DecodeKind(key, payloadReader);
  }

  /** The dispatch on the key: the `decode` of the kind it selects. */
  method DecodeKind(key: Bytes, payload: Reader) returns (res: Result<Packet, Fault>)
    requires payload.pos == 0 && |key| < 256
    modifies payload
    ensures res == DecodeBody(key, payload.inner, AsWritten)
    decreases |payload.inner|, 1
  {
    var kind := KindOfKey(key);
    if IsTextKind(kind) {
      res := DecodeText(key, payload);
    } else if IsByteKind(kind) {
      res := DecodeByteField(key, payload);
    } else if IsFlagKind(kind) {
      res := DecodeFlag(key, payload);
    } else if IsEpochKind(kind) {
      res := DecodeEpoch(key, payload);
    } else if kind == PacketKind.TotalFrames || kind == PacketKind.Rerecords {
      res := DecodeCount(key, payload);
    } else {
      match kind
      case ConsoleType => res := DecodeConsoleType(key, payload);
      case Attribution => res := DecodeAttribution(key, payload);
      case BlankFrames => res := DecodeBlankFrames(key, payload);
      case MemoryInit => res := DecodeMemoryInit(key, payload);
      case GameIdentifier => res := DecodeGameIdentifier(key, payload);
      case MovieFile => res := DecodeMovieFile(key, payload);
      case PortController => res := DecodePortController(key, payload);
      case NesLatchFilter => res := DecodeNesLatchFilter(key, payload);
      case SnesLatchTrain => res := DecodeSnesLatchTrain(key, payload);
      case InputChunk => res := DecodeInputChunk(key, payload);
      case InputMoment => res := DecodeInputMoment(key, payload);
      case Transition => res := DecodeTransition(key, payload);
      case LagFrameChunk => res := DecodeLagFrameChunk(key, payload);
      case MovieTransition => res := DecodeMovieTransition(key, payload);
      case Unspecified => res := DecodeUnspecified(key, payload);
      case _ => res := DecodeUnsupported(key, payload);
    }
  }

  // ---------------------------------------------------- kinds with one shape

  /** Kinds whose payload is one string. */
  predicate IsTextKind(kind: PacketKind)
  {
    kind in {PacketKind.GameTitle, PacketKind.RomName, PacketKind.Category, PacketKind.EmulatorName,
             PacketKind.EmulatorVersion, PacketKind.EmulatorCore, PacketKind.SourceLink,
             PacketKind.MovieLicense, PacketKind.NesGameGenieCode, PacketKind.SnesGameGenieCode,
             PacketKind.GenesisGameGenieCode, PacketKind.Comment}
  }

  function TextRecord(kind: PacketKind, s: Bytes): Packet
    requires IsTextKind(kind)
  {
    match kind
    case GameTitle => Packet.GameTitle(s)
    case RomName => Packet.RomName(s)
    case Category => Packet.Category(s)
    case EmulatorName => Packet.EmulatorName(s)
    case EmulatorVersion => Packet.EmulatorVersion(s)
    case EmulatorCore => Packet.EmulatorCore(s)
    case SourceLink => Packet.SourceLink(s)
    case MovieLicense => Packet.MovieLicense(s)
    case NesGameGenieCode => Packet.NesGameGenieCode(s)
    case SnesGameGenieCode => Packet.SnesGameGenieCode(s)
    case GenesisGameGenieCode => Packet.GenesisGameGenieCode(s)
    case _ => Packet.Comment(s)
  }

  /** Kinds whose payload is exactly one plain byte. */
  predicate IsByteKind(kind: PacketKind)
  {
    kind in {PacketKind.ConsoleRegion, PacketKind.NesClockFilter, PacketKind.SnesClockFilter}
  }

  function ByteRecord(kind: PacketKind, b: u8): Packet
    requires IsByteKind(kind)
  {
    match kind
    case ConsoleRegion => Packet.ConsoleRegion(b)
    case NesClockFilter => Packet.NesClockFilter(b)
    case _ => Packet.SnesClockFilter(b)
  }

  /** Kinds whose payload is exactly one boolean byte. */
  predicate IsFlagKind(kind: PacketKind)
  {
    kind in {PacketKind.Verified, PacketKind.NesOverread, PacketKind.SnesOverread, PacketKind.Experimental}
  }

  function FlagRecord(kind: PacketKind, b: bool): Packet
    requires IsFlagKind(kind)
  {
    match kind
    case Verified => Packet.Verified(b)
    case NesOverread => Packet.NesOverread(b)
    case SnesOverread => Packet.SnesOverread(b)
    case _ => Packet.Experimental(b)
  }

  /** Kinds whose payload is exactly one signed 64-bit timestamp. */
  predicate IsEpochKind(kind: PacketKind)
  {
    kind in {PacketKind.TasLastModified, PacketKind.DumpCreated, PacketKind.DumpLastModified}
  }

  function EpochRecord(kind: PacketKind, epoch: i64): Packet
    requires IsEpochKind(kind)
  {
    match kind
    case TasLastModified => Packet.TasLastModified(epoch)
    case DumpCreated => Packet.DumpCreated(epoch)
    case _ => Packet.DumpLastModified(epoch)
  }

  method DecodeText(key: Bytes, payload: Reader) returns (res: Result<Packet, Fault>)
    requires payload.pos == 0 && IsTextKind(KindOfKey(key))
    modifies payload
    ensures res == DecodeBody(key, payload.inner, AsWritten)
  {
    var s := payload.ReadString(payload.Remaining());
    assert s == payload.inner;
    res := Ok(TextRecord(KindOfKey(key), s));
  }

  method DecodeByteField(key: Bytes, payload: Reader) returns (res: Result<Packet, Fault>)
    requires payload.pos == 0 && IsByteKind(KindOfKey(key))
    modifies payload
    ensures res == DecodeBody(key, payload.inner, AsWritten)
  {
    if payload.Remaining() != 1 {
      return Err(Error(InvalidPayload(key, payload.ToVec())));
    }
    var b := payload.ReadU8();
    res := Ok(ByteRecord(KindOfKey(key), b));
  }

  method DecodeFlag(key: Bytes, payload: Reader) returns (res: Result<Packet, Fault>)
    requires payload.pos == 0 && IsFlagKind(KindOfKey(key))
    modifies payload
    ensures res == DecodeBody(key, payload.inner, AsWritten)
  {
    if payload.Remaining() != 1 {
      return Err(Error(InvalidPayload(key, payload.ToVec())));
    }
    var b := payload.ReadBool();
    res := Ok(FlagRecord(KindOfKey(key), b));
  }

  method DecodeEpoch(key: Bytes, payload: Reader) returns (res: Result<Packet, Fault>)
    requires payload.pos == 0 && IsEpochKind(KindOfKey(key))
    modifies payload
    ensures res == DecodeBody(key, payload.inner, AsWritten)
  {
    if payload.Remaining() != 8 {
      return Err(Error(InvalidPayload(key, payload.ToVec())));
    }
    var epoch := payload.ReadI64();
    assert payload.inner[0..8] == payload.inner;
    res := Ok(EpochRecord(KindOfKey(key), epoch));
  }

  method DecodeCount(key: Bytes, payload: Reader) returns (res: Result<Packet, Fault>)
    requires payload.pos == 0
    requires KindOfKey(key) == PacketKind.TotalFrames || KindOfKey(key) == PacketKind.Rerecords
    modifies payload
    ensures res == DecodeBody(key, payload.inner, AsWritten)
  {
    if payload.Remaining() != 4 {
      return Err(Error(InvalidPayload(key, payload.ToVec())));
    }
    var count := payload.ReadU32();
    assert payload.inner[0..4] == payload.inner;
    if KindOfKey(key) == PacketKind.TotalFrames {
      res := Ok(Packet.TotalFrames(count));
    } else {
      res := Ok(Packet.Rerecords(count));
    }
  }

  // ------------------------------------------------- kinds with their own shape

  method DecodeConsoleType(key: Bytes, payload: Reader) returns (res: Result<Packet, Fault>)
    requires payload.pos == 0 && KindOfKey(key) == PacketKind.ConsoleType
    modifies payload
    ensures res == DecodeBody(key, payload.inner, AsWritten)
  {
    if payload.Remaining() < 1 {
      return Err(Error(InvalidPayload(key, payload.ToVec())));
    }
    var kind := payload.ReadU8();
    var custom: Option<Bytes> := None;
    if kind == 0xFF {
      var rest := payload.ReadRemaining();
      custom := Some(rest);
    }
    res := Ok(Packet.ConsoleType(kind, custom));
  }

  method DecodeAttribution(key: Bytes, payload: Reader) returns (res: Result<Packet, Fault>)
    requires payload.pos == 0 && KindOfKey(key) == PacketKind.Attribution
    modifies payload
    ensures res == DecodeBody(key, payload.inner, AsWritten)
  {
    if payload.Remaining() < 1 {
      return Err(Error(InvalidPayload(key, payload.ToVec())));
    }
    var kind := payload.ReadU8();
    var name := payload.ReadString(payload.Remaining());
    assert name == payload.inner[1..];
    res := Ok(Packet.Attribution(kind, name));
  }

  method DecodeBlankFrames(key: Bytes, payload: Reader) returns (res: Result<Packet, Fault>)
    requires payload.pos == 0 && KindOfKey(key) == PacketKind.BlankFrames
    modifies payload
    ensures res == DecodeBody(key, payload.inner, AsWritten)
  {
    if payload.Remaining() != 2 {
      return Err(Error(InvalidPayload(key, payload.ToVec())));
    }
    var frames := payload.ReadI16();
    assert payload.inner[0..2] == payload.inner;
    res := Ok(Packet.BlankFrames(frames));
  }

  method DecodeMemoryInit(key: Bytes, payload: Reader) returns (res: Result<Packet, Fault>)
    requires payload.pos == 0 && KindOfKey(key) == PacketKind.MemoryInit
    modifies payload
    ensures res == DecodeBody(key, payload.inner, AsWritten)
  {
    if payload.Remaining() < 5 {
      return Err(Error(InvalidPayload(key, payload.ToVec())));
    }
    var dataType := payload.ReadU8();
    var device := payload.ReadU16();
    var required := payload.ReadBool();
    var nlen := payload.ReadU8();
    if payload.Remaining() < nlen as nat {
      return Err(Error(InvalidPayload(key, payload.ToVec())));
    }
    var name := payload.ReadString(nlen);
    var data: Option<Bytes> := None;
    if dataType == 0xFF {
      var rest := payload.ReadRemaining();
      data := Some(rest);
    }
    res := Ok(Packet.MemoryInit(dataType, device, required, name, data));
  }

  method DecodeGameIdentifier(key: Bytes, payload: Reader) returns (res: Result<Packet, Fault>)
    requires payload.pos == 0 && KindOfKey(key) == PacketKind.GameIdentifier
    modifies payload
    ensures res == DecodeBody(key, payload.inner, AsWritten)
  {
    if payload.Remaining() < 2 {
      return Err(Error(InvalidPayload(key, payload.ToVec())));
    }
    var kind := payload.ReadU8();
    var encoding := payload.ReadU8();
    var identifier := payload.ReadRemaining();
    res := Ok(Packet.GameIdentifier(kind, encoding, identifier));
  }

  method DecodeMovieFile(key: Bytes, payload: Reader) returns (res: Result<Packet, Fault>)
    requires payload.pos == 0 && KindOfKey(key) == PacketKind.MovieFile
    modifies payload
    ensures res == DecodeBody(key, payload.inner, AsWritten)
  {
    if payload.Remaining() < 1 {
      return Err(Error(InvalidPayload(key, payload.ToVec())));
    }
    var nlen := payload.ReadU8();
    if payload.Remaining() < nlen as nat {
      return Err(Error(InvalidPayload(key, payload.ToVec())));
    }
    var name := payload.ReadString(nlen);
    var data := payload.ReadRemaining();
    res := Ok(Packet.MovieFile(name, data));
  }

  method DecodePortController(key: Bytes, payload: Reader) returns (res: Result<Packet, Fault>)
    requires payload.pos == 0 && KindOfKey(key) == PacketKind.PortController
    modifies payload
    ensures res == DecodeBody(key, payload.inner, AsWritten)
  {
    if payload.Remaining() != 3 {
      return Err(Error(InvalidPayload(key, payload.ToVec())));
    }
    var port := payload.ReadU8();
    var kind := payload.ReadU16();
    assert payload.inner[1..3] == payload.inner[1..];
    res := Ok(Packet.PortController(port, kind));
  }

  method DecodeNesLatchFilter(key: Bytes, payload: Reader) returns (res: Result<Packet, Fault>)
    requires payload.pos == 0 && KindOfKey(key) == PacketKind.NesLatchFilter
    modifies payload
    ensures res == DecodeBody(key, payload.inner, AsWritten)
  {
    if payload.Remaining() != 2 {
      return Err(Error(InvalidPayload(key, payload.ToVec())));
    }
    var time := payload.ReadU16();
    assert payload.inner[0..2] == payload.inner;
    res := Ok(Packet.NesLatchFilter(time));
  }

  /** The whole remaining payload cut into 8-byte big-endian points. */
  method DecodeSnesLatchTrain(key: Bytes, payload: Reader) returns (res: Result<Packet, Fault>)
    requires payload.pos == 0 && KindOfKey(key) == PacketKind.SnesLatchTrain
    modifies payload
    ensures res == DecodeBody(key, payload.inner, AsWritten)
  {
    var rest := payload.ReadRemaining();
    res := Ok(Packet.SnesLatchTrain(Chunks8(rest)));
  }

  method DecodeInputChunk(key: Bytes, payload: Reader) returns (res: Result<Packet, Fault>)
    requires payload.pos == 0 && KindOfKey(key) == PacketKind.InputChunk
    modifies payload
    ensures res == DecodeBody(key, payload.inner, AsWritten)
  {
    if payload.Remaining() < 1 {
      return Err(Error(InvalidPayload(key, payload.ToVec())));
    }
    var port := payload.ReadU8();
    var inputs := payload.ReadRemaining();
    res := Ok(Packet.InputChunk(port, inputs));
  }

  method DecodeInputMoment(key: Bytes, payload: Reader) returns (res: Result<Packet, Fault>)
    requires payload.pos == 0 && KindOfKey(key) == PacketKind.InputMoment
    modifies payload
    ensures res == DecodeBody(key, payload.inner, AsWritten)
  {
    CompoundBody(key, payload.inner, AsWritten);
    if payload.Remaining() < 10 {
      return Err(Error(InvalidPayload(key, payload.ToVec())));
    }
    var port, indexType, index, inputs := ReadInputMomentFields(payload);
    res := Ok(Packet.InputMoment(port, indexType, index, inputs));
  }

  /** The reads of `InputMoment::decode` once the length check has passed. */
  method ReadInputMomentFields(payload: Reader) returns (port: u8, indexType: u8, index: u64, inputs: Bytes)
    requires payload.pos == 0 && 10 <= |payload.inner|
    modifies payload
    ensures port == payload.inner[0] && indexType == payload.inner[1]
    ensures index == U64(payload.inner[2..10]) && inputs == payload.inner[10..]
  {
    port := payload.ReadU8();
    indexType := payload.ReadU8();
    index := payload.ReadU64();
    assert index == U64(payload.inner[2..10]);
    inputs := payload.ReadRemaining();
  }

  method DecodeLagFrameChunk(key: Bytes, payload: Reader) returns (res: Result<Packet, Fault>)
    requires payload.pos == 0 && KindOfKey(key) == PacketKind.LagFrameChunk
    modifies payload
    ensures res == DecodeBody(key, payload.inner, AsWritten)
  {
    if payload.Remaining() != 8 {
      return Err(Error(InvalidPayload(key, payload.ToVec())));
    }
    var movieFrame := payload.ReadU32();
    var count := payload.ReadU32();
    assert payload.inner[0..4] == payload.inner[..4];
    assert payload.inner[4..8] == payload.inner[4..];
    res := Ok(Packet.LagFrameChunk(movieFrame, count));
  }

  method DecodeUnspecified(key: Bytes, payload: Reader) returns (res: Result<Packet, Fault>)
    requires KindOfKey(key) == PacketKind.Unspecified
    ensures res == DecodeBody(key, payload.inner, AsWritten)
  {
    res := Ok(Packet.Unspecified(payload.ToVec()));
  }

  /** Any key outside the catalog: the key and the payload, verbatim. */
  method DecodeUnsupported(key: Bytes, payload: Reader) returns (res: Result<Packet, Fault>)
    requires KindOfKey(key) == PacketKind.Unsupported
    ensures res == DecodeBody(key, payload.inner, AsWritten)
  {
    res := Ok(Packet.Unsupported(key, payload.ToVec()));
  }

  // --------------------------------------------------- kinds that embed a frame

  /**
   * After the fixed fields, the rest of the payload holds an embedded frame,
   * read with the key width of this frame when the discriminant is 0xFF.
   */
  method DecodeTransition(key: Bytes, payload: Reader) returns (res: Result<Packet, Fault>)
    requires payload.pos == 0 && |key| < 256 && KindOfKey(key) == PacketKind.Transition
    modifies payload
    ensures res == DecodeBody(key, payload.inner, AsWritten)
    decreases |payload.inner|, 0
  {
    if payload.Remaining() < 10 {
      return Err(Error(InvalidPayload(key, payload.ToVec())));
    }
    var indexType := payload.ReadU8();
    var index := payload.ReadU64();
    var transitionType := payload.ReadU8();
    var packetData := payload.ReadRemaining();
    var packetReader := new Reader(packetData);
    assert payload.inner[1..9] == payload.inner[1..][..8];
    if transitionType == 0xFF {
      var inner := WithReader(packetReader, |key|);
      if inner.Err? {
        return Err(inner.error);
      }
      res := Ok(Packet.Transition(indexType, index, transitionType, Some(inner.value)));
    } else {
      res := Ok(Packet.Transition(indexType, index, transitionType, None));
    }
  }

  method DecodeMovieTransition(key: Bytes, payload: Reader) returns (res: Result<Packet, Fault>)
    requires payload.pos == 0 && |key| < 256 && KindOfKey(key) == PacketKind.MovieTransition
    modifies payload
    ensures res == DecodeBody(key, payload.inner, AsWritten)
    decreases |payload.inner|, 0
  {
    if payload.Remaining() < 5 {
      return Err(Error(InvalidPayload(key, payload.ToVec())));
    }
    var movieFrame := payload.ReadU32();
    var transitionType := payload.ReadU8();
    var packetData := payload.ReadRemaining();
    var packetReader := new Reader(packetData);
    assert payload.inner[0..4] == payload.inner[..4];
    if transitionType == 0xFF {
      var inner := WithReader(packetReader, |key|);
      if inner.Err? {
        return Err(inner.error);
      }
      res := Ok(Packet.MovieTransition(movieFrame, transitionType, Some(inner.value)));
    } else {
      res := Ok(Packet.MovieTransition(movieFrame, transitionType, None));
    }
  }

  // ---------------------------------------------------------------- encode

  /**
   * `Encode::encode`: the fields appended to a fresh writer, closed into a
   * frame under the record's key. A `Vec` never holds 2^64 bytes, hence the bound.
   */
  method EncodePacket(p: Packet, keylen: u8) returns (frame: Bytes)
    requires |Fields(p, keylen)| < 0x1_0000_0000_0000_0000
    ensures frame == Encode(p, keylen)
    decreases p, 3
  {
    var w := new Writer();
    WriteFields(w, p, keylen);
    frame := w.IntoPacket(Key(p), keylen);
  }

  /** The `write_*` calls of each kind's `encode`, in order. */
  method WriteFields(w: Writer, p: Packet, keylen: u8)
    requires |Fields(p, keylen)| < 0x1_0000_0000_0000_0000
    modifies w
    ensures w.inner == old(w.inner) + Fields(p, keylen)
    decreases p, 2
  {
    if p.Transition? || p.MovieTransition? {
      WriteEmbedding(w, p, keylen);
    } else if IsCompound(p) {
      WriteCompound(w, p);
    } else if IsRun(p) {
      WriteRun(w, p);
    } else {
      WriteScalar(w, p);
    }
  }

  /** The kinds whose `encode` is one `write_str` or `write_slice` call. */
  method WriteRun(w: Writer, p: Packet)
    requires IsRun(p)
    modifies w
    ensures w.inner == old(w.inner) + RunFields(p)
  {
    match p
    case GameTitle(title) => w.WriteStr(title);
    case RomName(name) => w.WriteStr(name);
    case Category(category) => w.WriteStr(category);
    case EmulatorName(name) => w.WriteStr(name);
    case EmulatorVersion(version) => w.WriteStr(version);
    case EmulatorCore(core) => w.WriteStr(core);
    case SourceLink(link) => w.WriteStr(link);
    case MovieLicense(license) => w.WriteStr(license);
    case NesGameGenieCode(code) => w.WriteStr(code);
    case SnesGameGenieCode(code) => w.WriteStr(code);
    case GenesisGameGenieCode(code) => w.WriteStr(code);
    case Comment(comment) => w.WriteStr(comment);
    case SnesLatchTrain(points) => w.WriteSlice(Points(points));
    case Unspecified(payload) => w.WriteSlice(payload);
    case Unsupported(_, payload) => w.WriteSlice(payload);
  }

  /** The kinds whose `encode` writes one number or flag. */
  method WriteScalar(w: Writer, p: Packet)
    requires IsScalar(p)
    modifies w
    ensures w.inner == old(w.inner) + ScalarFields(p)
  {
    match p
    case ConsoleRegion(region) => w.WriteU8(region);
    case TasLastModified(epoch) => w.WriteI64(epoch);
    case DumpCreated(epoch) => w.WriteI64(epoch);
    case DumpLastModified(epoch) => w.WriteI64(epoch);
    case TotalFrames(frames) => w.WriteU32(frames);
    case Rerecords(rerecords) => w.WriteU32(rerecords);
    case BlankFrames(frames) => w.WriteI16(frames);
    case Verified(verified) => w.WriteBool(verified);
    case NesLatchFilter(time) => w.WriteU16(time);
    case NesClockFilter(time) => w.WriteU8(time);
    case NesOverread(overread) => w.WriteBool(overread);
    case SnesClockFilter(time) => w.WriteU8(time);
    case SnesOverread(overread) => w.WriteBool(overread);
    case Experimental(experimental) => w.WriteBool(experimental);
  }

  /** The kinds whose `encode` writes several fields one after the other. */
  method WriteCompound(w: Writer, p: Packet)
    requires IsCompound(p)
    modifies w
    ensures w.inner == old(w.inner) + CompoundFields(p)
  {
    ghost var s := w.inner;
    match p
    case ConsoleType(kind, custom) =>
      w.WriteU8(kind);
      w.WriteOptionString(custom);
      AppendAssoc(s, [kind], OptionBytes(custom));
    case Attribution(kind, name) =>
      w.WriteU8(kind);
      w.WriteStr(name);
      AppendAssoc(s, [kind], name);
    case MemoryInit(dataType, device, required, name, _) =>
      w.WriteU8(dataType);
      w.WriteU16(device);
      w.WriteBool(required);
      ghost var head := [dataType] + BeBytes(device, 2) + [BoolByte(required)];
      AppendAssoc(s, [dataType], BeBytes(device, 2));
      AppendAssoc(s, [dataType] + BeBytes(device, 2), [BoolByte(required)]);
      w.WriteU8(|name| % 256);
      w.WriteStr(name[..Min(|name|, 256)]);
      AppendAssoc(s + head, [|name| % 256], name[..Min(|name|, 256)]);
      AppendAssoc(s, head, NameField(name));
    case GameIdentifier(kind, encoding, identifier) =>
      w.WriteU8(kind);
      w.WriteU8(encoding);
      AppendAssoc(s, [kind], [encoding]);
      w.WriteSlice(identifier);
      AppendAssoc(s, [kind, encoding], identifier);
    case MovieFile(name, data) =>
      w.WriteU8(|name| % 256);
      w.WriteStr(name[..Min(|name|, 256)]);
      AppendAssoc(s, [|name| % 256], name[..Min(|name|, 256)]);
      w.WriteSlice(data);
      AppendAssoc(s, NameField(name), data);
    case PortController(port, kind) =>
      w.WriteU8(port);
      w.WriteU16(kind);
      AppendAssoc(s, [port], BeBytes(kind, 2));
    case InputChunk(port, inputs) =>
      w.WriteU8(port);
      w.WriteSlice(inputs);
      AppendAssoc(s, [port], inputs);
    case InputMoment(port, indexType, index, inputs) =>
      w.WriteU8(port);
      w.WriteU8(indexType);
      AppendAssoc(s, [port], [indexType]);
      w.WriteU64(index);
      AppendAssoc(s, [port, indexType], BeBytes(index, 8));
      w.WriteSlice(inputs);
      AppendAssoc(s, [port, indexType] + BeBytes(index, 8), inputs);
    case LagFrameChunk(movieFrame, count) =>
      w.WriteU32(movieFrame);
      w.WriteU32(count);
      AppendAssoc(s, BeBytes(movieFrame, 4), BeBytes(count, 4));
  }

  /** The two kinds that end with another record's whole frame, when there is one. */
  method WriteEmbedding(w: Writer, p: Packet, keylen: u8)
    requires p.Transition? || p.MovieTransition?
    requires |EmbeddingFields(p, keylen)| < 0x1_0000_0000_0000_0000
    modifies w
    ensures w.inner == old(w.inner) + EmbeddingFields(p, keylen)
    decreases p, 0
  {
    ghost var head := if p.Transition? then [p.indexType] + BeBytes(p.index, 8) else BeBytes(p.movieFrame, 4);
    if p.Transition? {
      w.WriteU8(p.indexType);
      w.WriteU64(p.index);
    } else {
      w.WriteU32(p.movieFrame);
    }
    w.WriteU8(p.transitionType);
    ghost var front := w.inner;
    assert front == old(w.inner) + (head + [p.transitionType]);
    ghost var tail: Bytes := [];
    if p.packet.Some? {
      var inner := EncodePacket(p.packet.value, keylen);
      w.WriteSlice(inner);
      tail := inner;
    }
    assert EmbeddingFields(p, keylen) == head + [p.transitionType] + tail;
    assert w.inner == front + tail;
    AppendAssoc(old(w.inner), head + [p.transitionType], tail);
  }
}
