/**
 * The payload each record's `encode` writes, and the frame `into_packet`
 * closes around it: src/spec/packets.rs.
 */
module PacketEncoding {
  import opened Primitives
  import opened Util
  import opened ByteWriter
  import opened Catalog
  import opened Packets

  /**
   * The payload each `encode` writes before closing the frame, by the shape
   * of its `write_*` calls.
   */
  function Fields(p: Packet, keylen: nat): Bytes
    decreases p, 1
  {
    if p.Transition? || p.MovieTransition? then EmbeddingFields(p, keylen)
    else if IsCompound(p) then CompoundFields(p)
    else if IsRun(p) then RunFields(p)
    else ScalarFields(p)
  }

  /** Records whose `encode` is one `write_str` or `write_slice` call. */
  predicate IsRun(p: Packet)
  {
    || p.GameTitle? || p.RomName? || p.Category? || p.EmulatorName? || p.EmulatorVersion?
    || p.EmulatorCore? || p.SourceLink? || p.MovieLicense? || p.NesGameGenieCode?
    || p.SnesGameGenieCode? || p.GenesisGameGenieCode? || p.Comment? || p.SnesLatchTrain?
    || p.Unspecified? || p.Unsupported?
  }

  /** Records whose `encode` writes several fields, none of them another record. */
  predicate IsCompound(p: Packet)
  {
    || p.ConsoleType? || p.Attribution? || p.MemoryInit? || p.GameIdentifier?
    || p.MovieFile? || p.PortController? || p.InputChunk? || p.InputMoment?
    || p.LagFrameChunk?
  }

  /** Records whose `encode` writes one number or flag. */
  predicate IsScalar(p: Packet)
  {
    !p.Transition? && !p.MovieTransition? && !IsCompound(p) && !IsRun(p)
  }

  function RunFields(p: Packet): Bytes
    requires IsRun(p)
  {
    match p
    case GameTitle(title) => title
    case RomName(name) => name
    case Category(category) => category
    case EmulatorName(name) => name
    case EmulatorVersion(version) => version
    case EmulatorCore(core) => core
    case SourceLink(link) => link
    case MovieLicense(license) => license
    case NesGameGenieCode(code) => code
    case SnesGameGenieCode(code) => code
    case GenesisGameGenieCode(code) => code
    case Comment(comment) => comment
    case SnesLatchTrain(points) => Points(points)
    case Unspecified(payload) => payload
    case Unsupported(_, payload) => payload
  }

  function ScalarFields(p: Packet): Bytes
    requires IsScalar(p)
  {
    match p
    case ConsoleRegion(region) => [region]
    case TasLastModified(epoch) => I64Bytes(epoch)
    case DumpCreated(epoch) => I64Bytes(epoch)
    case DumpLastModified(epoch) => I64Bytes(epoch)
    case TotalFrames(frames) => BeBytes(frames, 4)
    case Rerecords(rerecords) => BeBytes(rerecords, 4)
    case BlankFrames(frames) => I16Bytes(frames)
    case Verified(verified) => [BoolByte(verified)]
    case NesLatchFilter(time) => BeBytes(time, 2)
    case NesClockFilter(time) => [time]
    case NesOverread(overread) => [BoolByte(overread)]
    case SnesClockFilter(time) => [time]
    case SnesOverread(overread) => [BoolByte(overread)]
    case Experimental(experimental) => [BoolByte(experimental)]
  }

  function CompoundFields(p: Packet): Bytes
    requires IsCompound(p)
  {
    match p
    case ConsoleType(kind, custom) => [kind] + OptionBytes(custom)
    case Attribution(kind, name) => [kind] + name
    case MemoryInit(dataType, device, required, name, _) =>
      [dataType] + BeBytes(device, 2) + [BoolByte(required)] + NameField(name)
    case GameIdentifier(kind, encoding, identifier) => [kind, encoding] + identifier
    case MovieFile(name, data) => NameField(name) + data
    case PortController(port, kind) => [port] + BeBytes(kind, 2)
    case InputChunk(port, inputs) => [port] + inputs
    case InputMoment(port, indexType, index, inputs) => [port, indexType] + BeBytes(index, 8) + inputs
    case LagFrameChunk(movieFrame, count) => BeBytes(movieFrame, 4) + BeBytes(count, 4)
  }

  /** The two kinds that end with the whole frame of the record they carry, if any. */
  function EmbeddingFields(p: Packet, keylen: nat): Bytes
    requires p.Transition? || p.MovieTransition?
    decreases p, 0
  {
    var head := if p.Transition? then [p.indexType] + BeBytes(p.index, 8) else BeBytes(p.movieFrame, 4);
    head + [p.transitionType] + if p.packet.Some? then Encode(p.packet.value, keylen) else []
  }

  /** `Encode::encode(keylen)`: the record's fields closed into a frame under its key. */
  function Encode(p: Packet, keylen: nat): Bytes
    decreases p, 2
  {
    Frame(Key(p), keylen, Fields(p, keylen))
  }
}
