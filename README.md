# TASD codec in Dafny

A model of the codec for the TASD container, a binary record format for
tool-assisted speedrun replays. A file is a 7-byte header (magic `TASD`, a
big-endian version, the key width) followed by type-length-value frames. Each
frame is a key, one exponent byte, a length field that many bytes wide, and
then the payload.

The project models:

- `util.dfy`, modules `Primitives` and `Util`: `to_bytes`, the fixed-width big-endian integer
  writer. It is a loop (`Util.ToBytes`) proved against the specification
  function `BeBytes`. Beside it are the big-endian and little-endian values of
  a byte string, and the two's-complement casts.
- `reader.dfy`, module `ByteReader`: the byte cursor `Reader`, a class. Its
  buffer is a constant and `pos` is the only mutable field. The `peek_*`
  queries are functions and the `read_*` and positioning operations are
  methods.
- `writer.dfy`, module `ByteWriter`: the append-only `Writer`, a class with a
  `seq` field. `IntoPacket` holds the exponent-counting loop. It is proved
  against `Frame`: padded key, minimal exponent, big-endian length field,
  payload.
- `catalog.dfy`, `packets.dfy`, `encoding.dfy`, `decoding.dfy`: the 39
  catalog keys and the `Unsupported` fallback, the record datatype, each
  record's `encode`, and `Packet::with_reader` with each record's `decode`.
  These are specification functions on byte sequences.
  - `DecodeFrame` takes the byte order of the length field as a parameter.
    `AsWritten` is the order the code uses; `Corrected` is big-endian, the
    order the writer uses.
- `codec.dfy`, module `PacketCodec`: the imperative decoder and encoder.
  - `WithReader` and one `Decode…` method per record shape drive a `Reader`
    step by step, and the encoders append into a `Writer`.
  - Each method is proved equal to the specification functions.
- `packet_proofs.dfy` and `dispatch.dfy`: the round trips and the structural
  error order, plus the guarantee that every decoded record keeps the key it
  was read under.
- `container.dfy` and `container_proofs.dfy`: the older container in
  `src/spec.rs`. Each record is held as its two-byte key and the payload its
  `raw()` frames.
  - The model covers `dump`, `parse_file` (a loop proved against
    `ParseFrames`), `parse_packet`, `payload_to_raw`, `search_by_key` and the
    last-modified refresh inside `save`.
  - `save` appears twice: as written, and in the canonical form it evidently
    intends.

Panics that file content can reach become explicit outcomes:
- a frame that runs past the buffer in `with_reader` gives `Fault.Overrun`;
- a cut that runs past the end in `parse_file` gives `None`;
- an index out of range in `save` gives `Removal.panicked`.

Panics that only a caller can cause (reading past the end of a `Reader`)
become preconditions.

## Model

| member | source | states |
|---|---|---|
| Util.ToBytes | src/util.rs:1-10 | the loop returns exactly `length` bytes, equal to `BeBytes(number, length)` |
| Util.BeValueOfBeBytes | src/util.rs:1-10 | reading `to_bytes(n, w)` back big-endian gives `n mod 256^w`: high bytes are dropped silently |
| Util.BeRoundTrip | src/util.rs:1-10 | for `n < 256^w`, reading `to_bytes(n, w)` back big-endian gives `n` |
| Util.BeBytesOfBeValue | src/util.rs:1-10 | the inverse direction: writing the big-endian value of any `s` in `|s|` bytes gives `s` back |
| Util.BeBytesAt | src/util.rs:4-7 | byte `w-1-k` of the output is `(n >> 8k) & 0xFF`: the last byte is the low byte, each earlier byte the next higher one |
| Util.BeBytesPrepend | src/util.rs:4-7 | one more loop iteration puts the next higher byte in front of the bytes already produced |
| Util.BeBytes | src/util.rs:1-10 | the `to_bytes` specification: exactly `width` bytes; `BeValueOfBeBytes`, `BeRoundTrip` and `BeBytesAt` state its value and its bytes |
| Primitives.AsSigned | src/spec/reader.rs:84-98 | the `as iN` cast of a `w`-byte unsigned value lands in the signed range of that width |
| Primitives.AsUnsigned | src/spec/writer.rs:30-44 | the `as uN` cast of a signed value lands below `256^w` |
| Primitives.BitCastInverse | src/spec/writer.rs:30-44 | the two casts are mutual inverses, and `AsUnsigned(v) == u` exactly when `AsSigned(u) == v` |
| Util.BeValueOfReversed | src/spec/packets.rs:162-166 | reading a field with its first byte least significant is reading its reversal big-endian |
| Util.ShortFieldOrderIrrelevant | src/spec/packets.rs:162-166 | a field of at most one byte has the same value in both byte orders |
| Util.BeValueLeadingZeros | src/spec.rs:215-219 | left-padding a length field with zero bytes does not change its big-endian value |
| ByteReader.Reader.constructor | src/spec/reader.rs:8-13 | a new cursor is at position 0 over the given buffer, so `remaining()` is the buffer length |
| ByteReader.Reader.Remaining | src/spec/reader.rs:138-140 | position plus remaining is the buffer length, provided the position is inside the buffer |
| ByteReader.Reader.ToVec | src/spec/reader.rs:126-128 | the whole buffer, whatever the position |
| ByteReader.Reader.PeekLen | src/spec/reader.rs:47-49 | the `len` bytes from the position on |
| ByteReader.Reader.PeekLenRev | src/spec/reader.rs:51-53 | those `len` bytes in reverse order |
| ByteReader.Reader.PeekBe | src/spec/reader.rs:19-29 | the unsigned value whose big-endian bytes are the next `width` bytes |
| ByteReader.Reader.PeekU8 | src/spec/reader.rs:15-17 | the byte at the position |
| ByteReader.Reader.PeekU16 | src/spec/reader.rs:19-21 | the value whose 2 big-endian bytes are the next 2 bytes |
| ByteReader.Reader.PeekU32 | src/spec/reader.rs:23-25 | the value whose 4 big-endian bytes are the next 4 bytes |
| ByteReader.Reader.PeekU64 | src/spec/reader.rs:27-29 | the value whose 8 big-endian bytes are the next 8 bytes |
| ByteReader.Reader.PeekI8 | src/spec/reader.rs:31-33 | the signed value whose bit pattern is `peek_u8` |
| ByteReader.Reader.PeekI16 | src/spec/reader.rs:35-37 | the signed value whose bit pattern is `peek_u16` |
| ByteReader.Reader.PeekI32 | src/spec/reader.rs:39-41 | the signed value whose bit pattern is `peek_u32` |
| ByteReader.Reader.PeekI64 | src/spec/reader.rs:43-45 | the signed value whose bit pattern is `peek_u64` |
| ByteReader.Reader.ReadU8 | src/spec/reader.rs:56-61 | returns what `peek_u8` returned and advances by 1 |
| ByteReader.Reader.ReadU16 | src/spec/reader.rs:63-68 | returns what `peek_u16` returned and advances by 2 |
| ByteReader.Reader.ReadU32 | src/spec/reader.rs:70-75 | returns what `peek_u32` returned and advances by 4 |
| ByteReader.Reader.ReadU64 | src/spec/reader.rs:77-82 | returns what `peek_u64` returned and advances by 8 |
| ByteReader.Reader.ReadI8 | src/spec/reader.rs:84-86 | returns what `peek_i8` returned and advances by 1 |
| ByteReader.Reader.ReadI16 | src/spec/reader.rs:88-90 | returns what `peek_i16` returned and advances by 2 |
| ByteReader.Reader.ReadI32 | src/spec/reader.rs:92-94 | returns what `peek_i32` returned and advances by 4 |
| ByteReader.Reader.ReadI64 | src/spec/reader.rs:96-98 | returns what `peek_i64` returned and advances by 8 |
| ByteReader.Reader.ReadBool | src/spec/reader.rs:101-103 | true exactly when the next byte is nonzero; advances by 1 |
| ByteReader.Reader.ReadLen | src/spec/reader.rs:105-110 | returns `inner[pos..pos+len]` and advances by `len` |
| ByteReader.Reader.ReadString | src/spec/reader.rs:112-114 | the same bytes and the same advance as `read_len` |
| ByteReader.Reader.ReadRemaining | src/spec/reader.rs:116-121 | returns `inner[pos..]` and leaves nothing remaining |
| ByteReader.Reader.Advance | src/spec/reader.rs:130-132 | the position moves forward by `count`, unchecked |
| ByteReader.Reader.Rewind | src/spec/reader.rs:134-136 | the position moves back by `count`, which must not exceed it |
| ByteReader.Reader.SetPos | src/spec/reader.rs:146-148 | the position becomes `pos`, unchecked |
| ByteReader.Reader.Pos | src/spec/reader.rs:142-144 | the cursor position; `SetPos`, `Advance`, `Rewind` and the reads state how it moves |
| ByteWriter.MinExp | src/spec/writer.rs:73-81 | the exponent is 0 exactly for an empty payload |
| ByteWriter.MinExpIsLeast | src/spec/writer.rs:73-81 | the exponent is minimal: `n < 256^e`, and `256^(e-1) <= n` when `n > 0` |
| ByteWriter.MinExpAtMost | src/spec/writer.rs:73-81 | a length below `256^w` needs at most `w` length bytes |
| ByteWriter.ExpByteIsMinExp | src/spec/writer.rs:73-81 | for any `usize` length, the `u8` counter does not wrap and is at most 8 |
| ByteWriter.PadKey | src/spec/writer.rs:67-71 | `max(|key|, keylen) - |key|` zero bytes, then the key itself, never truncated |
| ByteWriter.FrameLayout | src/spec/writer.rs:66-90 | a frame is padded key, exponent byte, `to_bytes(len, exp)` and payload; its length is the sum, and the length field reads back big-endian as the payload size |
| ByteWriter.Frame | src/spec/writer.rs:66-90 | the frame `into_packet` returns; `FrameLayout` states its layout and `IntoPacket` is proved to build it |
| ByteWriter.Writer.constructor | src/spec/writer.rs:8-12 | a new writer holds no bytes |
| ByteWriter.Writer.WriteU8 | src/spec/writer.rs:14-16 | appends the byte, leaving earlier content unchanged |
| ByteWriter.Writer.WriteU16 | src/spec/writer.rs:18-20 | appends exactly the 2 big-endian bytes of the value |
| ByteWriter.Writer.WriteU32 | src/spec/writer.rs:22-24 | appends exactly the 4 big-endian bytes of the value |
| ByteWriter.Writer.WriteU64 | src/spec/writer.rs:26-28 | appends exactly the 8 big-endian bytes of the value |
| ByteWriter.Writer.WriteI8 | src/spec/writer.rs:30-32 | appends the byte of the bit-cast value |
| ByteWriter.Writer.WriteI16 | src/spec/writer.rs:34-36 | appends the 2 bytes `write_u16` writes for the bit-cast value |
| ByteWriter.Writer.WriteI32 | src/spec/writer.rs:38-40 | appends the 4 bytes `write_u32` writes for the bit-cast value |
| ByteWriter.Writer.WriteI64 | src/spec/writer.rs:42-44 | appends the 8 bytes `write_u64` writes for the bit-cast value |
| ByteWriter.Writer.WriteBool | src/spec/writer.rs:46-48 | appends 1 for true and 0 for false |
| ByteWriter.Writer.WriteStr | src/spec/writer.rs:50-52 | appends the string's bytes |
| ByteWriter.Writer.WriteOptionString | src/spec/writer.rs:54-56 | appends the string's bytes, or nothing for `None` |
| ByteWriter.Writer.WriteSlice | src/spec/writer.rs:58-60 | appends the slice |
| ByteWriter.Writer.WriteIter | src/spec/writer.rs:62-64 | appends the items in order |
| ByteWriter.Writer.IntoPacket | src/spec/writer.rs:66-90 | the exponent loop and the pushes build exactly `Frame(key, keylen, inner)` |
| Catalog.KindKey | src/spec.rs:16-60 | every catalog kind has a two-byte key |
| Catalog.KindKeyDispatches | src/spec/packets.rs:172-213 | each of the 39 catalog keys dispatches to its own kind |
| Catalog.DispatchedKeyIsKindKey | src/spec/packets.rs:172-213 | a key that does not fall through to `Unsupported` is exactly its kind's catalog constant |
| Catalog.KindOfKey | src/spec/packets.rs:172-213 | the key match of `with_reader`; `KindKeyDispatches` and `DispatchedKeyIsKindKey` state both directions between keys and kinds |
| PacketDecoding.FrameHeader | src/spec/packets.rs:144-160 | the structural checks never consume more than the buffer; a framed result has a key of exactly `keylen` bytes and spans key, exponent, field and payload |
| PacketDecoding.PayloadHeader | src/spec/packets.rs:162-169 | the cursor ends inside the buffer; when the payload is present the frame spans exactly key, exponent, field and payload |
| PacketDecoding.DecodeFrame | src/spec/packets.rs:144-215 | the cursor never moves past the buffer |
| PacketDecoding.DecodeRun | src/spec/packets.rs:556-561 | the string, code and latch-train kinds, `Unspecified` and `Unsupported` never fail; GameTitle's decode is cited, and the other fourteen run kinds share its body of one read of the whole remaining payload (`read_string`, `read_remaining` or `to_vec`) |
| PacketDecoding.DecodeScalar | src/spec/packets.rs:520-529 | a fixed-width kind fails only with `InvalidPayload` carrying the key and the whole payload |
| PacketDecoding.DecodeCompound | src/spec/packets.rs:74-79 | a record with several fields fails only with `InvalidPayload` carrying the key and the whole payload |
| PacketDecoding.DecodeBody | src/spec/packets.rs:172-213 | decoding a payload under a key; `BodyRoundTrip` proves it inverts `Fields`, and `DecodedRecordKeepsKey` that the record keeps the key |
| PacketDecoding.DecodeEmbedding | src/spec/packets.rs:1656-1676 | the Transition and MovieTransition decoders; `EmbeddingRoundTrip`, `EmbeddedFaultPropagates` and `EmbeddedTrailingBytesIgnored` state what they do |
| PacketDecoding.CompoundBody | src/spec/packets.rs:172-213 | a key of a record with several fields dispatches to that record's decoder |
| PacketEncoding.Encode | src/spec/packets.rs:262-307 | `Packet::encode`: the frame of the record's key and fields; `FrameRoundTrip` proves `DecodeFrame` inverts it |
| PacketEncoding.Fields | src/spec/packets.rs:262-307 | the payload each record's `encode` writes; `BodyRoundTrip` proves `DecodeBody` inverts it for every well-formed record |
| PacketEncoding.RunFields | src/spec/packets.rs:566-573 | the payload of a kind that writes one byte run (GameTitle's `encode` cited, the other run kinds alike); `RunDecodes` and `RunRoundTrip` prove `DecodeRun` gives the record back |
| PacketEncoding.ScalarFields | src/spec/packets.rs:1000-1008 | the payload of a fixed-width kind (BlankFrames' `encode` cited, the other scalar kinds alike); `ScalarDecodes` and `ScalarRoundTrip` prove `DecodeScalar` gives the value back |
| PacketEncoding.CompoundFields | src/spec/packets.rs:1088-1097 | the payload of a kind with several fields (MemoryInit's `encode` cited, the other compound kinds alike); `CompoundDecodes` and `CompoundRoundTrip` prove `DecodeCompound` gives the fields back |
| PacketEncoding.EmbeddingFields | src/spec/packets.rs:1678-1690 | the Transition payload, ending with the embedded record's whole frame (MovieTransition alike); `EmbeddingRoundTrip` proves `DecodeEmbedding` gives the record and the embedded record back |
| Packets.Points | src/spec/packets.rs:1516-1526 | the SnesLatchTrain payload, 8 bytes per point; `ChunksOfPoints` proves the decoder reads the points back |
| Packets.Chunks8 | src/spec/packets.rs:1503-1510 | one point per whole 8-byte chunk of the payload; `ChunksOfPoints` proves it inverts `Points` and drops a trailing partial chunk |
| Packets.Key | src/spec/packets.rs:308-351 | `Packet::key`; `KeySelectsKind` proves it dispatches back to the record's kind |
| Packets.KindOf | src/spec/packets.rs:217-260 | `Packet::kind`; `DecodedRecordKeepsKey` proves a decoded record has the kind of its key |
| Packets.NameField | src/spec/packets.rs:1209-1210 | the name field as written; `NameFieldReadsBack` proves it reads back below 256 bytes, and `NameLengthWraps` and `MemoryInitNameWraps` show the wrap at 256 |
| PacketCodec.PlenArrayValue | src/spec/packets.rs:162-166 | the 8-byte `plen` array read big-endian is the field read with its first byte least significant |
| PacketCodec.PlenArrayPush | src/spec/packets.rs:163-165 | each loop iteration stores the next field byte at index `8 - i - 1` |
| PacketCodec.ReadPayloadLength | src/spec/packets.rs:162-166 | the loop reads `exp` bytes and returns their value with the first byte least significant |
| PacketCodec.ReadPayload | src/spec/packets.rs:162-169 | the length field, then the payload or `Overrun`, as `PayloadHeader` states |
| PacketCodec.ReadFrameHeader | src/spec/packets.rs:144-160 | the key and exponent checks in the source's order, with the cursor where the source leaves it |
| PacketCodec.WithReader | src/spec/packets.rs:144-215 | the outcome and the cursor advance are those of `DecodeFrame` under the source's byte order |
| PacketCodec.DecodeKind | src/spec/packets.rs:172-213 | dispatch on the key gives the outcome of `DecodeBody` |
| PacketCodec.DecodeText | src/spec/packets.rs:556-561 | the string kinds read the remaining payload, as `DecodeBody` states |
| PacketCodec.DecodeByteField | src/spec/packets.rs:521-530 | ConsoleRegion and the clock filters accept exactly one byte |
| PacketCodec.DecodeFlag | src/spec/packets.rs:1021-1030 | Verified, the overreads and Experimental accept exactly one byte, read as a boolean |
| PacketCodec.DecodeEpoch | src/spec/packets.rs:780-789 | the three timestamps accept exactly 8 bytes, read as a signed value |
| PacketCodec.DecodeCount | src/spec/packets.rs:885-894 | TotalFrames and Rerecords accept exactly 4 bytes |
| PacketCodec.DecodeConsoleType | src/spec/packets.rs:483-494 | at least one byte; the custom name is present exactly for kind 0xFF |
| PacketCodec.DecodeAttribution | src/spec/packets.rs:619-629 | at least one byte, then the name |
| PacketCodec.DecodeBlankFrames | src/spec/packets.rs:986-995 | exactly 2 bytes, read as a signed value |
| PacketCodec.DecodeMemoryInit | src/spec/packets.rs:1060-1082 | the fixed part, a name whose length byte must fit, and data only for type 0xFF |
| PacketCodec.DecodeGameIdentifier | src/spec/packets.rs:1114-1125 | two bytes, then the identifier |
| PacketCodec.DecodeMovieFile | src/spec/packets.rs:1185-1203 | a name length byte that must fit, the name, then the data |
| PacketCodec.DecodePortController | src/spec/packets.rs:1229-1242 | exactly 3 bytes: the port and a 2-byte kind |
| PacketCodec.DecodeNesLatchFilter | src/spec/packets.rs:1266-1278 | exactly 2 bytes |
| PacketCodec.DecodeSnesLatchTrain | src/spec/packets.rs:1503-1514 | whole 8-byte chunks, with a trailing partial chunk dropped |
| PacketCodec.DecodeInputChunk | src/spec/packets.rs:1572-1585 | at least one byte: the port, then the inputs |
| PacketCodec.DecodeInputMoment | src/spec/packets.rs:1612-1627 | the reader steps give that outcome |
| PacketCodec.ReadInputMomentFields | src/spec/packets.rs:1617-1622 | once ten bytes are present, the reads give the port, the index type, the 8-byte big-endian index and the remaining inputs |
| PacketCodec.DecodeLagFrameChunk | src/spec/packets.rs:1705-1718 | exactly 8 bytes: two 4-byte values |
| PacketCodec.DecodeUnspecified | src/spec/packets.rs:1855-1863 | the whole payload, never failing |
| PacketCodec.DecodeUnsupported | src/spec/packets.rs:449-456 | the key and the whole payload verbatim |
| PacketCodec.DecodeTransition | src/spec/packets.rs:1656-1676 | 10 bytes at least; an embedded frame decoded with the same key width exactly for discriminant 0xFF, its fault propagated |
| PacketCodec.DecodeMovieTransition | src/spec/packets.rs:1744-1762 | 5 bytes at least; the same embedded-frame rule |
| PacketCodec.EncodePacket | src/spec/packets.rs:262-307 | the writer steps produce `Encode(p, keylen)` |
| PacketCodec.WriteFields | src/spec/packets.rs:262-307 | the fields each record's `encode` appends, dispatched on the kind |
| PacketCodec.WriteRun | src/spec/packets.rs:1517-1530 | the string, code, latch-train, `Unspecified` and `Unsupported` encoders append their payload |
| PacketCodec.WriteScalar | src/spec/packets.rs:899-906 | the fixed-width encoders append their field at the width it is read at |
| PacketCodec.WriteCompound | src/spec/packets.rs:1206-1218 | the encoders of records with several fields append them in order |
| PacketCodec.WriteEmbedding | src/spec/packets.rs:1679-1694 | Transition and MovieTransition append their fixed fields, then the whole frame of the record they carry |
| PacketProofs.LengthFieldReadsBack | src/spec/packets.rs:162-166 | the length field `into_packet` writes reads back as the payload size: below 256 under the source's order, for any `usize` big-endian |
| PacketProofs.PayloadHeaderOfFrame | src/spec/packets.rs:162-169 | after the exponent, a written frame yields its payload and spans exactly its own bytes |
| PacketProofs.HeaderOfFrame | src/spec/packets.rs:144-169 | a frame with a key of exactly `keylen` bytes passes every structural check, whatever follows it |
| PacketProofs.FrameOfExactKey | src/spec/writer.rs:66-90 | with a key of exactly the key width, no padding is added |
| PacketProofs.HeaderAfterKey | src/spec/packets.rs:144-160 | with the key, an exponent of at most 8 and enough bytes present, the structural checks pass to the length field |
| PacketProofs.DecodeOfFrame | src/spec/packets.rs:144-215 | decoding a written frame decodes its payload under its key and consumes exactly the frame |
| PacketProofs.TrailingBytesIgnored | src/spec/packets.rs:144-169 | once the structural checks pass, appended bytes change neither the record nor the cursor |
| PacketProofs.ShortFieldBeforeExponentLimit | src/spec/packets.rs:155-160 | an exponent above the remaining bytes gives `MissingPayloadLength` even when it is above 8 |
| PacketProofs.ExponentLimit | src/spec/packets.rs:155-160 | with the field bytes present, `UnsupportedExponent(exp)` comes exactly when `exp > 8` |
| PacketProofs.OverrunWhenShort | src/spec/packets.rs:168 | a length beyond the remaining bytes ends in the overrun of `read_len` |
| PacketProofs.U16OfBytes | src/spec/reader.rs:63-68 | reading 2 bytes back gives the `u16` `write_u16` wrote |
| PacketProofs.U32OfBytes | src/spec/reader.rs:70-75 | reading 4 bytes back gives the `u32` `write_u32` wrote |
| PacketProofs.U64OfBytes | src/spec/reader.rs:77-82 | reading 8 bytes back gives the `u64` `write_u64` wrote |
| PacketProofs.I16OfBytes | src/spec/reader.rs:88-90 | reading 2 bytes back gives the `i16` `write_i16` wrote |
| PacketProofs.I64OfBytes | src/spec/reader.rs:96-98 | reading 8 bytes back gives the `i64` `write_i64` wrote |
| PacketProofs.ChunksOfPoints | src/spec/packets.rs:1503-1525 | the latch points read back from their 8-byte encoding, and fewer than 8 trailing bytes are dropped |
| PacketProofs.KeySelectsKind | src/spec/packets.rs:308-351 | the key a record writes dispatches back to the record's own kind |
| PacketProofs.NameFieldReadsBack | src/spec/packets.rs:1187-1193 | a name under 256 bytes reads back from its length byte, with whatever follows left intact |
| PacketProofs.BodyRoundTrip | src/spec/packets.rs:262-307 | every well-formed record decodes from the payload its `encode` writes |
| PacketProofs.FrameRoundTrip | src/spec/packets.rs:144-215 | every well-formed record decodes from its own frame, whatever follows, and the cursor moves past exactly that frame |
| PacketProofs.RunRoundTrip | src/spec/packets.rs:1503-1525 | the string, code, latch-train, `Unspecified` and `Unsupported` records round-trip |
| PacketProofs.RunDecodes | src/spec/packets.rs:1503-1525 | `DecodeRun` reads each such record back from the bytes it writes |
| PacketProofs.LatchTrainDecodes | src/spec/packets.rs:1503-1525 | `decode(encode(points)) == points` for SnesLatchTrain |
| PacketProofs.ScalarRoundTrip | src/spec/packets.rs:899-906 | the fixed-width records round-trip, each field read at the width it is written at |
| PacketProofs.ScalarDecodes | src/spec/packets.rs:884-906 | `DecodeScalar` reads each fixed-width record back |
| PacketProofs.CompoundRoundTrip | src/spec/packets.rs:1629-1639 | the records with several fields round-trip when their derived fields agree |
| PacketProofs.CompoundDecodes | src/spec/packets.rs:1629-1639 | `DecodeCompound` reads each of them back |
| PacketProofs.ConsoleTypeRoundTrip | src/spec/packets.rs:483-507 | ConsoleType round-trips when the custom name is present exactly for kind 0xFF |
| PacketProofs.AttributionRoundTrip | src/spec/packets.rs:619-643 | Attribution round-trips |
| PacketProofs.MemoryInitRoundTrip | src/spec/packets.rs:1060-1097 | MemoryInit round-trips for names under 256 bytes, with no data and a type other than 0xFF, or empty data for 0xFF |
| PacketProofs.GameIdentifierRoundTrip | src/spec/packets.rs:1114-1140 | GameIdentifier round-trips |
| PacketProofs.MovieFileRoundTrip | src/spec/packets.rs:1185-1213 | MovieFile round-trips for names under 256 bytes |
| PacketProofs.PortControllerRoundTrip | src/spec/packets.rs:1244-1251 | PortController round-trips |
| PacketProofs.InputChunkRoundTrip | src/spec/packets.rs:1572-1599 | InputChunk round-trips |
| PacketProofs.InputMomentRoundTrip | src/spec/packets.rs:1629-1639 | InputMoment round-trips |
| PacketProofs.LagFrameChunkRoundTrip | src/spec/packets.rs:1720-1728 | LagFrameChunk round-trips |
| PacketProofs.EmbeddingRoundTrip | src/spec/packets.rs:1656-1690 | Transition and MovieTransition round-trip when the record is present exactly for discriminant 0xFF and is itself well-formed |
| PacketProofs.TransitionRoundTrip | src/spec/packets.rs:1656-1694 | Transition reads back its fixed fields and the frame it carries |
| PacketProofs.MovieTransitionRoundTrip | src/spec/packets.rs:1744-1779 | MovieTransition reads back its fixed fields and the frame it carries |
| PacketProofs.UnsupportedVerbatim | src/spec/packets.rs:449-473 | an unknown key decodes to `Unsupported{key, payload}` verbatim, and that record re-encodes to the identical frame |
| PacketProofs.UnsupportedEncodes | src/spec/packets.rs:461-472 | `Unsupported` encodes to the frame of its own key and payload |
| PacketProofs.UnsupportedDecodes | src/spec/packets.rs:449-456 | an unknown key decodes to `Unsupported` with that key and the whole payload |
| PacketProofs.FixedWidthPayloads | src/spec/packets.rs:520-529 | a fixed-width kind accepts exactly its width, and otherwise fails with `InvalidPayload{key, payload}` |
| PacketProofs.ConsoleTypeWithoutCustomName | src/spec/packets.rs:483-507 | `{0xFF, None}` encodes to `[0xFF]`, which reads back with an empty custom name |
| PacketProofs.EmbeddedFaultPropagates | src/spec/packets.rs:1656-1676 | a fault of the embedded frame becomes the Transition's own outcome |
| PacketProofs.EmbeddedTrailingBytesIgnored | src/spec/packets.rs:1656-1676 | bytes after the embedded frame do not change the outcome |
| PacketProofs.LengthOrderMisread | src/spec/packets.rs:162-166 | a 256-byte Unspecified payload written by `into_packet` reads back as a one-byte record, and the cursor stops 6 bytes in |
| PacketProofs.ShortReadFrame | src/spec/packets.rs:162-169 | the field `[1, 0]` announces one byte under the source's order |
| PacketProofs.UnspecifiedFrame | src/spec/packets.rs:1866-1876 | the frame of a 256-byte Unspecified record has exponent 2 and the field `[1, 0]` |
| PacketProofs.UnspecifiedBody | src/spec/packets.rs:1855-1863 | the Unspecified key reads any payload back whole |
| PacketProofs.CappedNameField | src/spec/packets.rs:1209-1210 | the corrected name field: its length byte announces exactly the name bytes that follow, at most 255 |
| PacketProofs.NameLengthWraps | src/spec/packets.rs:1209-1210 | a 256-byte name is written with length byte 0, so it reads back as an empty name followed by the name in the data |
| PacketProofs.MovieFileFields | src/spec/packets.rs:1206-1218 | the payload MovieFile writes for a 256-byte name |
| PacketProofs.CappedNameAgrees | src/spec/packets.rs:1209-1210 | for names under 256 bytes the corrected field is the field the code writes |
| PacketProofs.CappedNameReadsBack | src/spec/packets.rs:1185-1203 | with the corrected field every name reads back, cut to 255 bytes, with the data intact |
| PacketProofs.MemoryInitNameWraps | src/spec/packets.rs:1094-1095 | a MemoryInit with a 256-byte name and a type other than 0xFF gets length byte 0 and reads back with an empty name |
| PacketProofs.MemoryInitFields | src/spec/packets.rs:1089-1097 | the payload MemoryInit writes for a 256-byte name |
| PacketProofs.CappedMemoryInitReadsBack | src/spec/packets.rs:1060-1082 | with the corrected name field every MemoryInit name reads back, cut to 255 bytes, with the other fields intact |
| PacketDispatch.DecodedRecordKeepsKey | src/spec/packets.rs:217-260 | a record decoded under a key has that key's kind, and `key()` returns that same key |
| PacketDispatch.RunKinds | src/spec/packets.rs:217-260 | a decoded string, code, latch-train, `Unspecified` or `Unsupported` record has the kind it was decoded as |
| PacketDispatch.TextKinds | src/spec/packets.rs:217-260 | the six name and emulator string kinds decode to their own kind |
| PacketDispatch.CodeKinds | src/spec/packets.rs:217-260 | source link, licence, cheat codes and comment decode to their own kind |
| PacketDispatch.ScalarKinds | src/spec/packets.rs:217-260 | a decoded fixed-width record has the kind it was decoded as |
| PacketDispatch.CompoundKinds | src/spec/packets.rs:217-260 | a decoded record with several fields has the kind it was decoded as |
| PacketDispatch.EmbeddingKinds | src/spec/packets.rs:217-260 | a decoded Transition or MovieTransition has the kind it was decoded as |
| PacketDispatch.TransitionKind | src/spec/packets.rs:1656-1676 | the Transition decoder yields only Transition records |
| PacketDispatch.MovieTransitionKind | src/spec/packets.rs:1744-1762 | the MovieTransition decoder yields only MovieTransition records |
| Container.RawAllSnoc | src/spec.rs:167-169 | one more record appends exactly its `raw()` to the body |
| Container.RawAllPrefix | src/spec.rs:167-169 | the body of the first `k+1` records is the body of the first `k` followed by record `k`'s frame |
| Container.PayloadToRaw | src/spec.rs:290-307 | the exponent loop builds the legacy frame, which is empty exactly for an empty payload |
| Container.ParsePrefixLen | src/spec.rs:281-283 | the prefix is 3 bytes plus the exponent, so between 3 and 258 |
| Container.ParsePayload | src/spec.rs:285-288 | the chunk is its prefix followed by the payload |
| Container.ParsePacket | src/spec.rs:233-288 | the record's key is the chunk's first two bytes and its payload everything after the prefix; key, length field and payload make up the whole chunk |
| Container.FromBeBytes | src/spec.rs:219 | the 8-byte big-endian value is below `2^64` |
| Container.FrameAt | src/spec.rs:212-221 | a frame cut at `i` holds its 3-byte prefix and length field and lies inside the buffer |
| Container.RecordAtParses | src/spec.rs:221-227 | the record read in place at `i` is `parse_packet` of the cut chunk |
| Container.ParseFramesStep | src/spec.rs:212-228 | one loop step: cut the frame at `i`, append its record, continue after the frame |
| Container.ParseFile | src/spec.rs:208-231 | the loop from offset 7 yields `ParseFrames(data, 7, [])`, or `None` where a cut would panic |
| Container.ParseFrames | src/spec.rs:208-231 | the frames `parse_file` reads; `FramesReadBack` and `DumpReadsBack` prove it inverts `dump` up to empty payloads |
| Container.Raw | src/spec.rs:350-352 | `Packet::raw` of a record: `payload_to_raw` of its key and payload; `RawLayout` states the frame's parts and `RawReadsBack` that `parse_packet` reads it back |
| Container.RawAll | src/spec.rs:167-169 | the body `dump` appends, every record's `raw()` in list order; `RawAllCons` and `RawAllSnoc` split it and `FramesReadBack` reads it back |
| Container.LastModified | src/spec.rs:705-709 | `DumpLastModified::new(epoch)`: a record with the last-modified key and the epoch as its 8-byte payload; `CanonicalLastModified` and `TidyFresh` state where `save` puts it |
| Container.RecordAt | src/spec.rs:221-227 | the record read in place; `RecordAtParses` equates it with `parse_packet` of the cut chunk |
| Container.LegacyRaw | src/spec.rs:290-307 | the legacy `raw()` frame; `RawLayout` states its layout and `LegacyRawIsFrame` equates it with `into_packet` |
| Container.DumpOf | src/spec.rs:162-172 | the bytes `dump` returns; `DumpReadsBack` proves `parse_file` reads them back |
| Container.Refresh | src/spec.rs:176-189 | the first pass of `save` keeps the list length; `RefreshAt` states each index |
| Container.Later | src/spec.rs:176-189 | the removal indices that pass collects lie inside the list; `LaterAt` states which indices they are, `LaterAscends` their order and `LaterCount` how many |
| Container.RemoveInOrder | src/spec.rs:191 | when no `remove` panics, one record is gone per index |
| Container.SaveAsWritten | src/spec.rs:174-200 | the list `save` leaves; `SaveAgreesUpToTwo` equates it with `Canonical` for up to two last-modified records, and `SaveDropsOtherRecord` and `SavePanics` show where it departs |
| Container.Tidy | src/spec.rs:176-191 | the corrected pass; `TidyInPlace`, `TidyCount`, `TidyFresh` and `TidyKeepsOthers` state what it leaves |
| Container.Canonical | src/spec.rs:174-197 | the corrected save; `CanonicalLastModified` states the list it leaves and `CanonicalIdempotent` that it is idempotent |
| Container.Select | src/spec.rs:203-205 | at most the list's records; a record is selected exactly when it is in the list and its key is one of `keys` |
| Container.RawRecords | src/spec.rs:167-169 | the loop appends every record's `raw()`, giving `RawAll(ps)` |
| Container.ScanLastModified | src/spec.rs:176-189 | the loop over the records yields the refreshed list, the removal indices, and whether a last-modified record exists |
| Container.RemoveEach | src/spec.rs:191 | the removals applied one after another, as `RemoveInOrder` states |
| Container.TasdMovie.Default | src/spec.rs:131-138 | version 1, key width 2, no records |
| Container.TasdMovie.Dump | src/spec.rs:162-172 | magic, big-endian version, `0x02`, then every record's frame in order |
| Container.TasdMovie.Save | src/spec.rs:174-200 | the list becomes `SaveAsWritten(old, epoch)`; nothing is written when a removal panics, and otherwise the dump of the new list is written |
| Container.TasdMovie.SaveCanonical | src/spec.rs:174-200 | the corrected save: the list becomes `Canonical(old, epoch)` and its dump is written |
| Container.TasdMovie.SearchByKey | src/spec.rs:203-205 | exactly the records whose key is in `keys` |
| ContainerProofs.DefaultDump | src/spec.rs:10-12 | the dump of the default movie is `NEW_TASD_FILE`, 7 bytes |
| ContainerProofs.LastModifiedKeyInCatalog | src/spec.rs:27 | the legacy last-modified key is the catalog's DumpLastModified key, and it dispatches to that kind |
| ContainerProofs.FramedMembers | src/spec.rs:292-294 | the records that survive a dump and re-parse are exactly those with a non-empty payload |
| ContainerProofs.FramedAll | src/spec.rs:292-294 | with no empty payload, every record survives |
| ContainerProofs.RawAllCons | src/spec.rs:167-169 | the body of a list is the first record's frame followed by the body of the rest |
| ContainerProofs.RawLayout | src/spec.rs:290-307 | a legacy frame is the two key bytes, the minimal exponent, the big-endian length and the payload |
| ContainerProofs.LengthFieldReadsBack | src/spec.rs:215-219 | the length field `payload_to_raw` writes, left-padded to 8 bytes, reads back as the payload size |
| ContainerProofs.FrameCutsBack | src/spec.rs:212-221 | `parse_file` cuts a written frame at exactly its own length |
| ContainerProofs.FrameReadsBack | src/spec.rs:212-227 | and reads back the record that wrote it |
| ContainerProofs.FramesReadBack | src/spec.rs:208-231 | a concatenation of frames parses back to the records with non-empty payloads, in order |
| ContainerProofs.DumpReadsBack | src/spec.rs:162-231 | `parse_file(dump())` is the record list with empty-payload records dropped |
| ContainerProofs.RawReadsBack | src/spec.rs:233-307 | `parse_packet(raw())` gives the record back when its payload is non-empty |
| ContainerProofs.TwoByteFrame | src/spec/writer.rs:66-90 | with a two-byte key, `into_packet` writes key, exponent, length field and payload |
| ContainerProofs.LegacyRawIsFrame | src/spec.rs:290-307 | for a non-empty payload, `payload_to_raw` writes the same frame as `into_packet` with key width 2 |
| ContainerProofs.LegacyRawIsEncode | src/spec.rs:346-352 | the legacy `Unsupported::raw` agrees with the new encoder except for an empty payload, which it drops |
| ContainerProofs.NoLastModified | src/spec.rs:176-189 | without a last-modified record the first pass changes nothing and collects no index |
| ContainerProofs.RefreshAt | src/spec.rs:176-189 | at each index, the first pass of `save` puts the fresh record where the first last-modified record stood and keeps every other record where it was |
| ContainerProofs.TidyInPlace | src/spec.rs:176-191 | where `j` is the first last-modified record, the corrected pass keeps the records before `j` in place, puts the fresh record at `j`, and keeps the other records after `j` in order |
| ContainerProofs.TidyKeepsOthers | src/spec.rs:176-191 | the corrected pass keeps every record other than a last-modified one, in order; where they stand is `TidyInPlace` |
| ContainerProofs.TidyCount | src/spec.rs:176-191 | it leaves one last-modified record if there was any, none otherwise |
| ContainerProofs.TidyFresh | src/spec.rs:176-189 | every last-modified record it leaves carries the new epoch |
| ContainerProofs.CanonicalLastModified | src/spec.rs:174-197 | the corrected save leaves exactly one last-modified record, with the new epoch, at the index of the first one (or appended at the end when there was none), and every other record untouched and in order |
| ContainerProofs.TidyFixed | src/spec.rs:176-191 | a list that is already canonical for the epoch is left as it is |
| ContainerProofs.CanonicalIdempotent | src/spec.rs:174-197 | saving twice with the same epoch gives the same list as saving once |
| ContainerProofs.TidyIsRefreshAndRemove | src/spec.rs:176-191 | with at most one later last-modified record, removing it from the refreshed list is the corrected pass |
| ContainerProofs.SaveAgreesWhenFew | src/spec.rs:174-197 | with at most one collected removal index, `save` as written gives the corrected list and never panics |
| ContainerProofs.LaterAt | src/spec.rs:176-189 | an index is collected for removal exactly when its record is last-modified and an earlier record is too |
| ContainerProofs.LaterAscends | src/spec.rs:176-189 | the indices are collected in ascending order, the order in which `save` then removes them |
| ContainerProofs.LaterCount | src/spec.rs:176-189 | the pass collects every last-modified record but the first: the count of indices plus one (when any exists) is the number of last-modified records |
| ContainerProofs.SaveAgreesUpToTwo | src/spec.rs:174-197 | with at most two last-modified records, `save` as written gives the corrected list and never panics |
| ContainerProofs.SaveSnoc | src/spec.rs:176-189 | one more record: what each pass does with it |
| ContainerProofs.ScanThreeThenOther | src/spec.rs:176-189 | the first pass over three last-modified records and one other: refreshed list and removal indices `[1, 2]` |
| ContainerProofs.ScanOneOtherTwo | src/spec.rs:176-189 | the first pass over last-modified, other, last-modified, last-modified: removal indices `[2, 3]` |
| ContainerProofs.ScanThree | src/spec.rs:176-189 | the first pass over three last-modified records: the first refreshed, removal indices `[1, 2]` |
| ContainerProofs.SaveDropsOtherRecord | src/spec.rs:191 | with three last-modified records before another record, `save` removes that other record and keeps a stale last-modified one |
| ContainerProofs.SavePanics | src/spec.rs:191 | with last-modified, other, last-modified, last-modified, the second `remove` is out of range |
| ContainerProofs.SelectAppend | src/spec.rs:203-205 | search keeps list order: selecting from `a + b` is selecting from `a`, then from `b` |

## Left out

- src/lookup.rs, the `Display` impls, the `strum` kind names, `print_slice`, `format_slice_hex` and `format_slice_bin`: presentation only.
- `TasdMovie::new`: it reads files and prints. The version and key width it sets are the constants `Container.TasdMovie.Default` uses.
- Container.TasdMovie.Save: the clock (`Utc::now`) is an `epoch` parameter, and `std::fs::write` is replaced by returning the bytes it would write. A failed write is not modelled.
- ByteReader.Reader.ReadString: returns the raw bytes. The lossy UTF-8 replacement of `String::from_utf8_lossy` is not modelled, so strings round-trip as byte sequences.
- Packets.NameField: the name is a byte sequence, so the panic of slicing a `String` at byte 256 when that byte falls inside a multi-byte UTF-8 character is not modelled; the encoders return bytes for every name.
- The per-kind `parse` bodies of the legacy records in src/spec.rs are not modelled. They duplicate the record catalog with unchecked indexing, and each legacy record is held as its key and raw payload. So the panics of those bodies are absent: a `DumpLastModified` payload other than 8 bytes, and the NesLatchFilter parse.
- Container.TasdMovie.SearchByKey: returns the records as values, not references into the list.
- Container.ParseFile: `usize` overflow of `i + len` is not modelled; buffers are bounded below `2^64`.
- `as_any`, `dyn_clone`, `Debug` and the `impl_from_packet!` conversions: language plumbing with no codec behaviour.
- The `keylen` field of `TasdMovie` is kept but never read, as in the source.

## Findings

| source | as written | input that shows it | evidently intended | confidence | as-written member | corrected member |
|---|---|---|---|---|---|---|
| src/spec/packets.rs:162-166 | the length field is assembled with its first byte least significant, while `into_packet` writes it big-endian | any record with a 256-byte payload: the field `[1, 0]` reads as 1 | read the field big-endian, so every frame `into_packet` writes decodes back | not executed | PacketProofs.LengthOrderMisread | PacketProofs.FrameRoundTrip |
| src/spec/packets.rs:1209-1210 | the name length is written as `len as u8`, but up to 256 name bytes follow it | a MovieFile with a 256-byte name: length byte 0, read back with an empty name | cap the name and its length byte at 255 | not executed | PacketProofs.NameLengthWraps | PacketProofs.CappedNameReadsBack |
| src/spec/packets.rs:1094-1095 | MemoryInit writes its name length as `len as u8` too | a MemoryInit with a 256-byte name and type 0: length byte 0, read back with an empty name | cap the name and its length byte at 255 | not executed | PacketProofs.MemoryInitNameWraps | PacketProofs.CappedMemoryInitReadsBack |
| src/spec.rs:191 | the collected indices are removed in ascending order, each from the list the earlier removals already shortened | three last-modified records then another record: the other record is removed; last-modified, other, last-modified, last-modified: index 3 is out of range | keep the first last-modified record, refreshed, and drop every later one | not executed | ContainerProofs.SaveDropsOtherRecord | ContainerProofs.CanonicalLastModified |

The corrected byte order is the `Corrected` argument of `DecodeFrame`:
`FrameRoundTrip` holds under it for every payload below `2^64` bytes, and under
the source's order only below 256 bytes. The imperative decoder follows the
code as written. `Container.TasdMovie.SaveCanonical` is the corrected save, and
`ContainerProofs.SavePanics` is the second counterexample for the save finding.
