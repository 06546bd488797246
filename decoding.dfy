/**
 * `Packet::with_reader` and each record's `decode`, as specification
 * functions on the bytes from the cursor on: src/spec/packets.rs.
 */
module PacketDecoding {
  import opened Primitives
  import opened Util
  import opened Catalog
  import opened Packets

  /**
   * The payload length a length field announces: read little-endian as the
   * decoder assembles it (`AsWritten`), big-endian as the writer means it
   * (`Corrected`).
   */
  function LengthValue(field: Bytes, order: LengthOrder): nat
  {
    if order == AsWritten then LeValue(field) else BeValue(field)
  }

  function Invalid(key: Bytes, payload: Bytes): Result<Packet, Fault>
  {
    Err(Error(InvalidPayload(key, payload)))
  }

  /**
   * The structural checks of `Packet::with_reader`, in their order, on the
   * bytes from the cursor on: the key, the exponent byte, then the rest.
   */
  function FrameHeader(buf: Bytes, keylen: nat, order: LengthOrder): (h: Header)
    ensures h.consumed <= |buf|
    ensures h.Framed? ==> |h.key| == keylen < |buf| && h.consumed == keylen + 1 + buf[keylen] + |h.payload|
  {
    if |buf| < keylen then Stopped(Error(MissingKey), 0)
    else if |buf| - keylen < 1 then Stopped(Error(MissingPayloadLength), keylen)
    else
      var exp := buf[keylen];
      if |buf| - (keylen + 1) < exp then Stopped(Error(MissingPayloadLength), keylen + 1)
      else if exp > 8 then Stopped(Error(UnsupportedExponent(exp)), keylen + 1)
      else PayloadHeader(buf[..keylen], exp, buf[keylen + 1..], order)
  }

  /**
   * The end of a frame after its exponent byte: the length field of `exp`
   * bytes, then a payload of the size it announces if `rest` holds that many.
   */
  function PayloadHeader(key: Bytes, exp: u8, rest: Bytes, order: LengthOrder): (h: Header)
    requires exp <= 8 && exp <= |rest|
    ensures h.consumed <= |key| + 1 + |rest|
    ensures h.Framed? ==> h.key == key && h.consumed == |key| + 1 + exp + |h.payload|
  {
    var len := LengthValue(rest[..exp], order);
    var start := |key| + 1 + exp;
    if |rest| - exp < len then Stopped(Overrun, start)
    else Framed(key, rest[exp..exp + len], start + len)
  }

  /** `Packet::with_reader`: the structural checks, then the record the key selects. */
  function DecodeFrame(buf: Bytes, keylen: nat, order: LengthOrder): (d: Decoded)
    ensures d.consumed <= |buf|
    decreases |buf|, 2
  {
    match FrameHeader(buf, keylen, order)
    case Stopped(f, n) => Decoded(Err(f), n)
    case Framed(key, payload, n) => Decoded(DecodeBody(key, payload, order), n)
  }

  /**
   * The `decode` of the kind `key` selects, on the whole payload. Embedded
   * frames are decoded with the key width of the enclosing frame.
   */
  function DecodeBody(key: Bytes, p: Bytes, order: LengthOrder): Result<Packet, Fault>
    decreases |p|, 1
  {
    var kind := KindOfKey(key);
    if kind.Transition? || kind.MovieTransition? then DecodeEmbedding(kind, key, p, order)
    else if IsCompoundKind(kind) then DecodeCompound(kind, key, p)
    else if IsRunKind(kind) then DecodeRun(kind, key, p)
    else DecodeScalar(kind, key, p)
  }

  /** A key of a record with several fields dispatches to that record's decoder. */
  lemma CompoundBody(key: Bytes, p: Bytes, order: LengthOrder)
    requires IsCompoundKind(KindOfKey(key))
    ensures DecodeBody(key, p, order) == DecodeCompound(KindOfKey(key), key, p)
  {
  }

  /** The kinds of the records `IsRun` names, plus the unsupported fall-through. */
  predicate IsRunKind(kind: PacketKind)
  {
    || kind.GameTitle? || kind.RomName? || kind.Category? || kind.EmulatorName? || kind.EmulatorVersion?
    || kind.EmulatorCore? || kind.SourceLink? || kind.MovieLicense? || kind.NesGameGenieCode?
    || kind.SnesGameGenieCode? || kind.GenesisGameGenieCode? || kind.Comment? || kind.SnesLatchTrain?
    || kind.Unspecified? || kind.Unsupported?
  }

  /** The kinds of the records `IsCompound` names. */
  predicate IsCompoundKind(kind: PacketKind)
  {
    || kind.ConsoleType? || kind.Attribution? || kind.MemoryInit? || kind.GameIdentifier?
    || kind.MovieFile? || kind.PortController? || kind.InputChunk? || kind.InputMoment?
    || kind.LagFrameChunk?
  }

  /** Kinds whose payload is taken whole: they never fail. */
  function DecodeRun(kind: PacketKind, key: Bytes, p: Bytes): (r: Result<Packet, Fault>)
    requires IsRunKind(kind)
    ensures r.Ok?
  {
    match kind
    case GameTitle => Ok(Packet.GameTitle(p))
    case RomName => Ok(Packet.RomName(p))
    case Category => Ok(Packet.Category(p))
    case EmulatorName => Ok(Packet.EmulatorName(p))
    case EmulatorVersion => Ok(Packet.EmulatorVersion(p))
    case EmulatorCore => Ok(Packet.EmulatorCore(p))
    case SourceLink => Ok(Packet.SourceLink(p))
    case MovieLicense => Ok(Packet.MovieLicense(p))
    case NesGameGenieCode => Ok(Packet.NesGameGenieCode(p))
    case SnesGameGenieCode => Ok(Packet.SnesGameGenieCode(p))
    case GenesisGameGenieCode => Ok(Packet.GenesisGameGenieCode(p))
    case Comment => Ok(Packet.Comment(p))
    case SnesLatchTrain => Ok(Packet.SnesLatchTrain(Chunks8(p)))
    case Unspecified => Ok(Packet.Unspecified(p))
    case _ => Ok(Packet.Unsupported(key, p))
  }

  /**
   * Kinds whose payload is one number or flag of a fixed width: any other
   * size is rejected with the key and the whole payload.
   */
  function DecodeScalar(kind: PacketKind, key: Bytes, p: Bytes): (r: Result<Packet, Fault>)
    requires !kind.Transition? && !kind.MovieTransition? && !IsCompoundKind(kind) && !IsRunKind(kind)
    ensures r.Err? ==> r.error == Error(InvalidPayload(key, p))
  {
    match kind
    case ConsoleRegion => if |p| != 1 then Invalid(key, p) else Ok(Packet.ConsoleRegion(p[0]))
    case TasLastModified => if |p| != 8 then Invalid(key, p) else Ok(Packet.TasLastModified(I64(p)))
    case DumpCreated => if |p| != 8 then Invalid(key, p) else Ok(Packet.DumpCreated(I64(p)))
    case DumpLastModified => if |p| != 8 then Invalid(key, p) else Ok(Packet.DumpLastModified(I64(p)))
    case TotalFrames => if |p| != 4 then Invalid(key, p) else Ok(Packet.TotalFrames(U32(p)))
    case Rerecords => if |p| != 4 then Invalid(key, p) else Ok(Packet.Rerecords(U32(p)))
    case BlankFrames => if |p| != 2 then Invalid(key, p) else Ok(Packet.BlankFrames(I16(p)))
    case Verified => if |p| != 1 then Invalid(key, p) else Ok(Packet.Verified(p[0] > 0))
    case NesLatchFilter => if |p| != 2 then Invalid(key, p) else Ok(Packet.NesLatchFilter(U16(p)))
    case NesClockFilter => if |p| != 1 then Invalid(key, p) else Ok(Packet.NesClockFilter(p[0]))
    case NesOverread => if |p| != 1 then Invalid(key, p) else Ok(Packet.NesOverread(p[0] > 0))
    case SnesClockFilter => if |p| != 1 then Invalid(key, p) else Ok(Packet.SnesClockFilter(p[0]))
    case SnesOverread => if |p| != 1 then Invalid(key, p) else Ok(Packet.SnesOverread(p[0] > 0))
    case Experimental => if |p| != 1 then Invalid(key, p) else Ok(Packet.Experimental(p[0] > 0))
    case _ => Invalid(key, p)
  }

  /** Kinds with several fields; each rejects a payload too short for its fixed part. */
  function DecodeCompound(kind: PacketKind, key: Bytes, p: Bytes): (r: Result<Packet, Fault>)
    requires IsCompoundKind(kind)
    ensures r.Err? ==> r.error == Error(InvalidPayload(key, p))
  {
    match kind
    case ConsoleType =>
      if |p| < 1 then Invalid(key, p)
      else Ok(Packet.ConsoleType(p[0], if p[0] == 0xFF then Some(p[1..]) else None))
    case Attribution => if |p| < 1 then Invalid(key, p) else Ok(Packet.Attribution(p[0], p[1..]))
    case MemoryInit =>
      if |p| < 5 || |p| - 5 < p[4] then Invalid(key, p)
      else
        var nameEnd: nat := 5 + p[4] as nat;
        Ok(Packet.MemoryInit(p[0], U16(p[1..3]), p[3] > 0, p[5..nameEnd],
                             if p[0] == 0xFF then Some(p[nameEnd..]) else None))
    case GameIdentifier => if |p| < 2 then Invalid(key, p) else Ok(Packet.GameIdentifier(p[0], p[1], p[2..]))
    case MovieFile =>
      if |p| < 1 || |p| - 1 < p[0] then Invalid(key, p)
      else Ok(Packet.MovieFile(p[1..1 + p[0] as nat], p[1 + p[0] as nat..]))
    case PortController => if |p| != 3 then Invalid(key, p) else Ok(Packet.PortController(p[0], U16(p[1..])))
    case InputChunk => if |p| < 1 then Invalid(key, p) else Ok(Packet.InputChunk(p[0], p[1..]))
    case InputMoment =>
      if |p| < 10 then Invalid(key, p)
      else Ok(Packet.InputMoment(p[0], p[1], U64(p[2..10]), p[10..]))
    case LagFrameChunk =>
      if |p| != 8 then Invalid(key, p) else Ok(Packet.LagFrameChunk(U32(p[..4]), U32(p[4..])))
    case _ => Invalid(key, p)
  }

  /**
   * Transition and MovieTransition: the fixed fields, then, for the
   * discriminant 0xFF, the frame that follows them, whose fault becomes the
   * record's own.
   */
  function DecodeEmbedding(kind: PacketKind, key: Bytes, p: Bytes, order: LengthOrder): Result<Packet, Fault>
    requires kind.Transition? || kind.MovieTransition?
    decreases |p|, 0
  {
    if kind.Transition? then
      if |p| < 10 then Invalid(key, p)
      else if p[9] != 0xFF then Ok(Packet.Transition(p[0], U64(p[1..9]), p[9], None))
      else
        (match DecodeFrame(p[10..], |key|, order).result
         case Err(f) => Err(f)
         case Ok(q) => Ok(Packet.Transition(p[0], U64(p[1..9]), p[9], Some(q))))
    else
      if |p| < 5 then Invalid(key, p)
      else if p[4] != 0xFF then Ok(Packet.MovieTransition(U32(p[..4]), p[4], None))
      else
        (match DecodeFrame(p[5..], |key|, order).result
         case Err(f) => Err(f)
         case Ok(q) => Ok(Packet.MovieTransition(U32(p[..4]), p[4], Some(q))))
  }
}
