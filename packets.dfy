/**
 * Records of the TASD format, the errors of the frame decoder, and the field
 * encodings records share: src/spec/packets.rs. A frame is a key, an exponent
 * byte, a length field that many bytes wide, then the payload; each kind of
 * record lays out its fields in the payload.
 */
module Packets {
  import opened Primitives
  import opened Util
  import opened Catalog

  datatype PacketError =
    | MissingKey
    | MismatchedKey
    | MissingPayloadLength
    | UnsupportedExponent(exp: u8)
      /** Carries the frame's key and its whole payload. */
    | InvalidPayload(key: Bytes, payload: Bytes)

  /**
   * How decoding fails: with an error the decoder returns, or by slicing past
   * the end of the buffer, where the original panics.
   */
  datatype Fault = Error(error: PacketError) | Overrun

  /**
   * One record. Strings are their bytes. Fields that share a name across kinds
   * share a type here, so four are renamed: `controllerKind` (PortController),
   * `latchTime` (NesLatchFilter), `blankFrames` (BlankFrames) and `initData`
   * (MemoryInit).
   */
  datatype Packet =
    | ConsoleType(kind: u8, custom: Option<Bytes>)
    | ConsoleRegion(region: u8)
    | GameTitle(title: Bytes)
    | RomName(name: Bytes)
    | Attribution(kind: u8, name: Bytes)
    | Category(category: Bytes)
    | EmulatorName(name: Bytes)
    | EmulatorVersion(version: Bytes)
    | EmulatorCore(core: Bytes)
    | TasLastModified(epoch: i64)
    | DumpCreated(epoch: i64)
    | DumpLastModified(epoch: i64)
    | TotalFrames(frames: u32)
    | Rerecords(rerecords: u32)
    | SourceLink(link: Bytes)
    | BlankFrames(blankFrames: i16)
    | Verified(verified: bool)
    | MemoryInit(dataType: u8, device: u16, required: bool, name: Bytes, initData: Option<Bytes>)
    | GameIdentifier(kind: u8, encoding: u8, identifier: Bytes)
    | MovieLicense(license: Bytes)
    | MovieFile(name: Bytes, data: Bytes)
    | PortController(port: u8, controllerKind: u16)
    | NesLatchFilter(latchTime: u16)
    | NesClockFilter(time: u8)
    | NesOverread(overread: bool)
    | NesGameGenieCode(code: Bytes)
    | SnesClockFilter(time: u8)
    | SnesOverread(overread: bool)
    | SnesGameGenieCode(code: Bytes)
    | SnesLatchTrain(points: seq<u64>)
    | GenesisGameGenieCode(code: Bytes)
    | InputChunk(port: u8, inputs: Bytes)
    | InputMoment(port: u8, indexType: u8, index: u64, inputs: Bytes)
    | Transition(indexType: u8, index: u64, transitionType: u8, packet: Option<Packet>)
    | LagFrameChunk(movieFrame: u32, count: u32)
    | MovieTransition(movieFrame: u32, transitionType: u8, packet: Option<Packet>)
    | Comment(comment: Bytes)
    | Experimental(experimental: bool)
    | Unspecified(payload: Bytes)
    | Unsupported(key: Bytes, payload: Bytes)

  /** The outcome of decoding one frame, and how far the cursor moved. */
  datatype Decoded = Decoded(result: Result<Packet, Fault>, consumed: nat)

  /**
   * The byte order in which the length field is read. `AsWritten` is the
   * decoder's: the first length byte is the least significant. `Corrected` is
   * big-endian, the order the writer uses.
   */
  datatype LengthOrder = AsWritten | Corrected

  /**
   * The structural part of a frame: either the fault that stops it, with the
   * bytes consumed so far, or its key and payload, with the frame's size.
   */
  datatype Header =
    | Stopped(fault: Fault, consumed: nat)
    | Framed(key: Bytes, payload: Bytes, consumed: nat)

  // ---------------------------------------------------------------- fields

  function BoolByte(b: bool): u8
  {
    if b then 1 else 0
  }

  function U16(s: Bytes): u16
    requires |s| == 2
  {
    Pow256Widths();
    BeValue(s)
  }

  function U32(s: Bytes): u32
    requires |s| == 4
  {
    Pow256Widths();
    BeValue(s)
  }

  function U64(s: Bytes): u64
    requires |s| == 8
  {
    Pow256Widths();
    BeValue(s)
  }

  function I16(s: Bytes): i16
    requires |s| == 2
  {
    Pow256Widths();
    AsSigned(BeValue(s), 2)
  }

  function I64(s: Bytes): i64
    requires |s| == 8
  {
    Pow256Widths();
    AsSigned(BeValue(s), 8)
  }

  /** The bytes `write_i16` appends: those of the bit-cast value. */
  function I16Bytes(v: i16): Bytes
  {
    Pow256Widths();
    BeBytes(AsUnsigned(v, 2), 2)
  }

  function I64Bytes(v: i64): Bytes
  {
    Pow256Widths();
    BeBytes(AsUnsigned(v, 8), 8)
  }

  function OptionBytes(s: Option<Bytes>): Bytes
  {
    if s.Some? then s.value else []
  }

  function Min(a: nat, b: nat): nat
  {
    if a < b then a else b
  }

  /**
   * A name as MemoryInit and MovieFile write it: its length cast to a byte,
   * then at most 256 of its bytes.
   */
  function NameField(name: Bytes): Bytes
  {
    [|name| % 256] + name[..Min(|name|, 256)]
  }

  /** The payload of SnesLatchTrain: each point as 8 big-endian bytes. */
  function Points(points: seq<u64>): (r: Bytes)
    ensures |r| == 8 * |points|
  {
    if points == [] then [] else BeBytes(points[0], 8) + Points(points[1..])
  }

  /** Whole 8-byte chunks read big-endian; a trailing partial chunk is dropped. */
  function Chunks8(s: Bytes): seq<u64>
    decreases |s|
  {
    if |s| < 8 then [] else [U64(s[..8])] + Chunks8(s[8..])
  }

  // ------------------------------------------------------ kind and key

  /** `Packet::kind`. */
  function KindOf(p: Packet): PacketKind
  {
    match p
    case ConsoleType(_, _) => PacketKind.ConsoleType
    case ConsoleRegion(_) => PacketKind.ConsoleRegion
    case GameTitle(_) => PacketKind.GameTitle
    case RomName(_) => PacketKind.RomName
    case Attribution(_, _) => PacketKind.Attribution
    case Category(_) => PacketKind.Category
    case EmulatorName(_) => PacketKind.EmulatorName
    case EmulatorVersion(_) => PacketKind.EmulatorVersion
    case EmulatorCore(_) => PacketKind.EmulatorCore
    case TasLastModified(_) => PacketKind.TasLastModified
    case DumpCreated(_) => PacketKind.DumpCreated
    case DumpLastModified(_) => PacketKind.DumpLastModified
    case TotalFrames(_) => PacketKind.TotalFrames
    case Rerecords(_) => PacketKind.Rerecords
    case SourceLink(_) => PacketKind.SourceLink
    case BlankFrames(_) => PacketKind.BlankFrames
    case Verified(_) => PacketKind.Verified
    case MemoryInit(_, _, _, _, _) => PacketKind.MemoryInit
    case GameIdentifier(_, _, _) => PacketKind.GameIdentifier
    case MovieLicense(_) => PacketKind.MovieLicense
    case MovieFile(_, _) => PacketKind.MovieFile
    case PortController(_, _) => PacketKind.PortController
    case NesLatchFilter(_) => PacketKind.NesLatchFilter
    case NesClockFilter(_) => PacketKind.NesClockFilter
    case NesOverread(_) => PacketKind.NesOverread
    case NesGameGenieCode(_) => PacketKind.NesGameGenieCode
    case SnesClockFilter(_) => PacketKind.SnesClockFilter
    case SnesOverread(_) => PacketKind.SnesOverread
    case SnesGameGenieCode(_) => PacketKind.SnesGameGenieCode
    case SnesLatchTrain(_) => PacketKind.SnesLatchTrain
    case GenesisGameGenieCode(_) => PacketKind.GenesisGameGenieCode
    case InputChunk(_, _) => PacketKind.InputChunk
    case InputMoment(_, _, _, _) => PacketKind.InputMoment
    case Transition(_, _, _, _) => PacketKind.Transition
    case LagFrameChunk(_, _) => PacketKind.LagFrameChunk
    case MovieTransition(_, _, _) => PacketKind.MovieTransition
    case Comment(_) => PacketKind.Comment
    case Experimental(_) => PacketKind.Experimental
    case Unspecified(_) => PacketKind.Unspecified
    case Unsupported(_, _) => PacketKind.Unsupported
  }

  /** `Encode::key`: the catalog key of the kind, or the key an unsupported record carries. */
  function Key(p: Packet): Bytes
  {
    if p.Unsupported? then p.key else KindKey(KindOf(p))
  }
}
