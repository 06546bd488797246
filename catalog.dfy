/**
 * The record catalog of src/spec/packets.rs: the kinds of record a TASD file
 * can hold, the two-byte key of each, and the key lookup the frame decoder
 * dispatches on.
 */
module Catalog {
  import opened Primitives

  datatype PacketKind =
    | ConsoleType | ConsoleRegion | GameTitle | RomName | Attribution | Category
    | EmulatorName | EmulatorVersion | EmulatorCore | TasLastModified | DumpCreated
    | DumpLastModified | TotalFrames | Rerecords | SourceLink | BlankFrames | Verified
    | MemoryInit | GameIdentifier | MovieLicense | MovieFile | PortController
    | NesLatchFilter | NesClockFilter | NesOverread | NesGameGenieCode
    | SnesClockFilter | SnesOverread | SnesGameGenieCode | SnesLatchTrain
    | GenesisGameGenieCode | InputChunk | InputMoment | Transition | LagFrameChunk
    | MovieTransition | Comment | Experimental | Unspecified | Unsupported

  /** The key of each catalog kind; `Unsupported` has no key of its own. */
  function KindKey(kind: PacketKind): (key: Bytes)
    ensures kind != Unsupported <==> |key| == 2
  {
    match kind
    case ConsoleType => [0x00, 0x01]
    case ConsoleRegion => [0x00, 0x02]
    case GameTitle => [0x00, 0x03]
    case RomName => [0x00, 0x04]
    case Attribution => [0x00, 0x05]
    case Category => [0x00, 0x06]
    case EmulatorName => [0x00, 0x07]
    case EmulatorVersion => [0x00, 0x08]
    case EmulatorCore => [0x00, 0x09]
    case TasLastModified => [0x00, 0x0A]
    case DumpCreated => [0x00, 0x0B]
    case DumpLastModified => [0x00, 0x0C]
    case TotalFrames => [0x00, 0x0D]
    case Rerecords => [0x00, 0x0E]
    case SourceLink => [0x00, 0x0F]
    case BlankFrames => [0x00, 0x10]
    case Verified => [0x00, 0x11]
    case MemoryInit => [0x00, 0x12]
    case GameIdentifier => [0x00, 0x13]
    case MovieLicense => [0x00, 0x14]
    case MovieFile => [0x00, 0x15]
    case PortController => [0x00, 0xF0]
    case NesLatchFilter => [0x01, 0x01]
    case NesClockFilter => [0x01, 0x02]
    case NesOverread => [0x01, 0x03]
    case NesGameGenieCode => [0x01, 0x04]
    case SnesClockFilter => [0x02, 0x02]
    case SnesOverread => [0x02, 0x03]
    case SnesGameGenieCode => [0x02, 0x04]
    case SnesLatchTrain => [0x02, 0x05]
    case GenesisGameGenieCode => [0x08, 0x04]
    case InputChunk => [0xFE, 0x01]
    case InputMoment => [0xFE, 0x02]
    case Transition => [0xFE, 0x03]
    case LagFrameChunk => [0xFE, 0x04]
    case MovieTransition => [0xFE, 0x05]
    case Comment => [0xFF, 0x01]
    case Experimental => [0xFF, 0xFE]
    case Unspecified => [0xFF, 0xFF]
    case Unsupported => []
  }

  /** The kind a two-byte key selects; every other pair is unsupported. */
  function KindOfCode(hi: u8, lo: u8): PacketKind
  {
    match (hi, lo)
    case (0x00, 0x01) => ConsoleType
    case (0x00, 0x02) => ConsoleRegion
    case (0x00, 0x03) => GameTitle
    case (0x00, 0x04) => RomName
    case (0x00, 0x05) => Attribution
    case (0x00, 0x06) => Category
    case (0x00, 0x07) => EmulatorName
    case (0x00, 0x08) => EmulatorVersion
    case (0x00, 0x09) => EmulatorCore
    case (0x00, 0x0A) => TasLastModified
    case (0x00, 0x0B) => DumpCreated
    case (0x00, 0x0C) => DumpLastModified
    case (0x00, 0x0D) => TotalFrames
    case (0x00, 0x0E) => Rerecords
    case (0x00, 0x0F) => SourceLink
    case (0x00, 0x10) => BlankFrames
    case (0x00, 0x11) => Verified
    case (0x00, 0x12) => MemoryInit
    case (0x00, 0x13) => GameIdentifier
    case (0x00, 0x14) => MovieLicense
    case (0x00, 0x15) => MovieFile
    case (0x00, 0xF0) => PortController
    case (0x01, 0x01) => NesLatchFilter
    case (0x01, 0x02) => NesClockFilter
    case (0x01, 0x03) => NesOverread
    case (0x01, 0x04) => NesGameGenieCode
    case (0x02, 0x02) => SnesClockFilter
    case (0x02, 0x03) => SnesOverread
    case (0x02, 0x04) => SnesGameGenieCode
    case (0x02, 0x05) => SnesLatchTrain
    case (0x08, 0x04) => GenesisGameGenieCode
    case (0xFE, 0x01) => InputChunk
    case (0xFE, 0x02) => InputMoment
    case (0xFE, 0x03) => Transition
    case (0xFE, 0x04) => LagFrameChunk
    case (0xFE, 0x05) => MovieTransition
    case (0xFF, 0x01) => Comment
    case (0xFF, 0xFE) => Experimental
    case (0xFF, 0xFF) => Unspecified
    case _ => Unsupported
  }

  /**
   * The dispatch of the frame decoder: keys are compared as whole slices, so a
   * key that is not two bytes long never matches a catalog entry.
   */
  function KindOfKey(key: Bytes): PacketKind
  {
    if |key| != 2 then Unsupported else KindOfCode(key[0], key[1])
  }

  /** Each catalog key dispatches to its own kind. */
  lemma KindKeyDispatches(kind: PacketKind)
    requires kind != Unsupported
    ensures KindOfKey(KindKey(kind)) == kind
  {
    match kind
    case ConsoleType =>
    case ConsoleRegion =>
    case GameTitle =>
    case RomName =>
    case Attribution =>
    case Category =>
    case EmulatorName =>
    case EmulatorVersion =>
    case EmulatorCore =>
    case TasLastModified =>
    case DumpCreated =>
    case DumpLastModified =>
    case TotalFrames =>
    case Rerecords =>
    case SourceLink =>
    case BlankFrames =>
    case Verified =>
    case MemoryInit =>
    case GameIdentifier =>
    case MovieLicense =>
    case MovieFile =>
    case PortController =>
    case NesLatchFilter =>
    case NesClockFilter =>
    case NesOverread =>
    case NesGameGenieCode =>
    case SnesClockFilter =>
    case SnesOverread =>
    case SnesGameGenieCode =>
    case SnesLatchTrain =>
    case GenesisGameGenieCode =>
    case InputChunk =>
    case InputMoment =>
    case Transition =>
    case LagFrameChunk =>
    case MovieTransition =>
    case Comment =>
    case Experimental =>
    case Unspecified =>
    case Unsupported =>
      assert false;
  }

  /**
   * A key that dispatches to a catalog kind is that kind's key, so every other
   * key, of any length, falls through to `Unsupported`.
   */
  lemma DispatchedKeyIsKindKey(key: Bytes)
    requires KindOfKey(key) != Unsupported
    ensures key == KindKey(KindOfKey(key))
  {
    var kind := KindOfKey(key);
    assert |key| == 2;
    assert key == [key[0], key[1]];
  }

  /**
   * The payload size a fixed-width kind demands, as the reference table of
   * widths: 0 for kinds whose payload size varies.
   */
  function FixedWidth(kind: PacketKind): nat
  {
    match kind
    case ConsoleRegion | Verified | NesClockFilter | NesOverread
      | SnesClockFilter | SnesOverread | Experimental => 1
    case BlankFrames | NesLatchFilter => 2
    case PortController => 3
    case TotalFrames | Rerecords => 4
    case TasLastModified | DumpCreated | DumpLastModified | LagFrameChunk => 8
    case _ => 0
  }
}
