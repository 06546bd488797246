/**
 * The key dispatch of the frame decoder (src/spec/packets.rs): every record
 * it decodes is of the kind its key selects and reports that key back.
 */
module PacketDispatch {
  import opened Primitives
  import opened Catalog
  import opened Packets
  import opened PacketDecoding

  /**
   * A decoded record is of the kind its key selects and reports that key
   * back: catalog kinds by their constant, unsupported records verbatim.
   */
  lemma {:induction false} DecodedRecordKeepsKey(key: Bytes, payload: Bytes, order: LengthOrder)
    requires DecodeBody(key, payload, order).Ok?
    ensures var q := DecodeBody(key, payload, order).value;
      KindOf(q) == KindOfKey(key) && Key(q) == key
  {
    var kind := KindOfKey(key);
    if kind.Transition? || kind.MovieTransition? {
      EmbeddingKinds(kind, key, payload, order);
    } else if IsCompoundKind(kind) {
      CompoundKinds(kind, key, payload);
    } else if IsRunKind(kind) {
      RunKinds(kind, key, payload);
    } else {
      ScalarKinds(kind, key, payload);
    }
    if !kind.Unsupported? {
      DispatchedKeyIsKindKey(key);
    }
  }

  lemma {:induction false} RunKinds(kind: PacketKind, key: Bytes, p: Bytes)
    requires IsRunKind(kind)
    ensures var r := DecodeRun(kind, key, p);
      r.Ok? ==> KindOf(r.value) == kind && (r.value.Unsupported? ==> r.value.key == key)
  {
    if kind.GameTitle? || kind.RomName? || kind.Category? || kind.EmulatorName? || kind.EmulatorVersion? || kind.EmulatorCore? {
      TextKinds(kind, key, p);
    } else if kind.SourceLink? || kind.MovieLicense? || kind.NesGameGenieCode? || kind.SnesGameGenieCode? || kind.GenesisGameGenieCode? || kind.Comment? {
      CodeKinds(kind, key, p);
    }
  }

  /** The text records of the run kinds. */
  lemma {:induction false} TextKinds(kind: PacketKind, key: Bytes, p: Bytes)
    requires kind.GameTitle? || kind.RomName? || kind.Category? || kind.EmulatorName? || kind.EmulatorVersion? || kind.EmulatorCore?
    ensures IsRunKind(kind) && KindOf(DecodeRun(kind, key, p).value) == kind
  {
  }

  /** The link, licence, cheat-code and comment records of the run kinds. */
  lemma {:induction false} CodeKinds(kind: PacketKind, key: Bytes, p: Bytes)
    requires kind.SourceLink? || kind.MovieLicense? || kind.NesGameGenieCode? || kind.SnesGameGenieCode? || kind.GenesisGameGenieCode? || kind.Comment?
    ensures IsRunKind(kind) && KindOf(DecodeRun(kind, key, p).value) == kind
  {
  }

  lemma {:induction false} ScalarKinds(kind: PacketKind, key: Bytes, p: Bytes)
    requires !kind.Transition? && !kind.MovieTransition? && !IsCompoundKind(kind) && !IsRunKind(kind)
    ensures var r := DecodeScalar(kind, key, p);
      r.Ok? ==> KindOf(r.value) == kind
  {
    match kind
    case ConsoleRegion =>
    case TasLastModified =>
    case DumpCreated =>
    case DumpLastModified =>
    case TotalFrames =>
    case Rerecords =>
    case BlankFrames =>
    case Verified =>
    case NesLatchFilter =>
    case NesClockFilter =>
    case NesOverread =>
    case SnesClockFilter =>
    case SnesOverread =>
    case _ =>
  }

  lemma {:induction false} CompoundKinds(kind: PacketKind, key: Bytes, p: Bytes)
    requires IsCompoundKind(kind)
    ensures var r := DecodeCompound(kind, key, p);
      r.Ok? ==> KindOf(r.value) == kind
  {
    match kind
    case ConsoleType =>
    case Attribution =>
    case MemoryInit =>
    case GameIdentifier =>
    case MovieFile =>
    case PortController =>
    case InputChunk =>
    case InputMoment =>
    case _ =>
  }

  lemma {:induction false} EmbeddingKinds(kind: PacketKind, key: Bytes, p: Bytes, order: LengthOrder)
    requires kind.Transition? || kind.MovieTransition?
    ensures var r := DecodeEmbedding(kind, key, p, order);
      r.Ok? ==> KindOf(r.value) == kind
  {
    if kind.Transition? {
      TransitionKind(key, p, order);
    } else {
      MovieTransitionKind(key, p, order);
    }
  }

  lemma {:induction false} TransitionKind(key: Bytes, p: Bytes, order: LengthOrder)
    ensures var r := DecodeEmbedding(PacketKind.Transition, key, p, order);
      r.Ok? ==> r.value.Transition?
  {
  }

  lemma {:induction false} MovieTransitionKind(key: Bytes, p: Bytes, order: LengthOrder)
    ensures var r := DecodeEmbedding(PacketKind.MovieTransition, key, p, order);
      r.Ok? ==> r.value.MovieTransition?
  {
  }
}
