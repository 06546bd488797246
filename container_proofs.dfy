/**
 * Properties of the legacy container of src/spec.rs: `parse_file` reads
 * back what `dump` writes, a default movie is the empty file, and the list
 * `save` leaves, as written and as evidently intended.
 */
module ContainerProofs {
  import opened Primitives
  import opened Util
  import opened ByteWriter
  import opened Container
  import Catalog
  import Packets
  import PacketEncoding

  // ------------------------------------------------------------ the empty file

  /** A default movie dumps to the seven bytes of a file with no record. */
  lemma {:induction false} DefaultDump()
    ensures DumpOf(1, []) == NewTasdFile
    ensures |NewTasdFile| == 7
  {
    assert BeBytes(1, 2) == [0x00, 0x01] by {
      assert BeBytes(0, 1) == [0x00];
    }
  }

  /** The key `save` refreshes is the catalog's DUMP_LAST_MODIFIED key. */
  lemma {:induction false} LastModifiedKeyInCatalog()
    ensures DumpLastModifiedKey == Catalog.KindKey(Catalog.PacketKind.DumpLastModified)
    ensures Catalog.KindOfKey(DumpLastModifiedKey) == Catalog.PacketKind.DumpLastModified
  {
    Catalog.KindKeyDispatches(Catalog.PacketKind.DumpLastModified);
  }

  // ------------------------------------------------------------- framing

  /** The records whose frame `dump` writes at all: those with a payload, in list order. */
  function Framed(ps: seq<LegacyPacket>): (r: seq<LegacyPacket>)
    ensures |r| <= |ps|
  {
    if ps == [] then [] else (if |ps[0].payload| > 0 then [ps[0]] else []) + Framed(ps[1..])
  }

  /** `Framed` drops exactly the records with an empty payload. */
  lemma {:induction false} FramedMembers(ps: seq<LegacyPacket>, q: LegacyPacket)
    ensures q in Framed(ps) <==> q in ps && |q.payload| > 0
    decreases |ps|
  {
    if ps != [] {
      FramedMembers(ps[1..], q);
      assert ps == [ps[0]] + ps[1..];
    }
  }

  /** A list whose every record has a payload is framed whole. */
  lemma {:induction false} FramedAll(ps: seq<LegacyPacket>)
    requires forall k :: 0 <= k < |ps| ==> |ps[k].payload| > 0
    ensures Framed(ps) == ps
    decreases |ps|
  {
    if ps != [] {
      FramedAll(ps[1..]);
      assert ps == [ps[0]] + ps[1..];
    }
  }

  lemma {:induction false} RawAllCons(p: LegacyPacket, ps: seq<LegacyPacket>)
    ensures RawAll([p] + ps) == Raw(p) + RawAll(ps)
    decreases |ps|
  {
    var q := [p] + ps;
    if ps == [] {
      assert q[..0] == [];
    } else {
      var init, last := ps[..|ps| - 1], ps[|ps| - 1];
      assert q[..|q| - 1] == [p] + init;
      assert q[|q| - 1] == last;
      assert RawAll(q) == RawAll([p] + init) + Raw(last);
      RawAllCons(p, init);
      assert RawAll(ps) == RawAll(init) + Raw(last);
      AppendAssoc(Raw(p), RawAll(init), Raw(last));
    }
  }

  lemma {:induction false} SliceOfSlice(data: Bytes, i: nat, j: nat, a: nat, b: nat)
    requires i <= j <= |data| && a <= b <= j - i
    ensures data[i..j][a..b] == data[i + a..i + b]
  {
    assert forall k | 0 <= k < b - a :: data[i..j][a..b][k] == data[i + a + k];
  }

  /** The parts of the frame `payload_to_raw` writes for a record with a payload. */
  lemma {:induction false} RawLayout(p: LegacyPacket)
    requires |p.payload| > 0
    ensures MinExp(|p.payload|) <= 8
    ensures |Raw(p)| == 3 + MinExp(|p.payload|) + |p.payload|
    ensures Raw(p)[0] == p.key[0] && Raw(p)[1] == p.key[1]
    ensures Raw(p)[2] as nat == MinExp(|p.payload|)
    ensures Raw(p)[3..3 + MinExp(|p.payload|)] == BeBytes(|p.payload|, MinExp(|p.payload|))
    ensures Raw(p)[3 + MinExp(|p.payload|)..] == p.payload
  {
    var n := |p.payload|;
    Pow256Widths();
    ExpByteIsMinExp(n);
    var e := MinExp(n);
    var head, field := [p.key[0], p.key[1], e as u8], BeBytes(n, e);
    assert Raw(p) == head + field + p.payload;
  }

  /** The length field `payload_to_raw` writes, padded as `parse_file` pads it, is the length. */
  lemma {:induction false} LengthFieldReadsBack(n: nat)
    requires 0 < n < 0x1_0000_0000_0000_0000
    ensures MinExp(n) <= 8
    ensures var field := BeBytes(n, MinExp(n));
      var padded := if |field| < 8 then Zeros(8 - |field|) + field else field;
      |padded| == 8 && FromBeBytes(padded) == n
  {
    Pow256Widths();
    ExpByteIsMinExp(n);
    var e := MinExp(n);
    var field := BeBytes(n, e);
    MinExpIsLeast(n);
    BeRoundTrip(n, e);
    if |field| < 8 {
      BeValueLeadingZeros(8 - |field|, field);
    }
  }

  /**
   * Where the frame `payload_to_raw` writes for a record with a payload sits
   * at offset `i` of the data, `parse_file` cuts exactly that frame there.
   */
  lemma {:induction false} FrameCutsBack(data: Bytes, i: nat, p: LegacyPacket)
    requires |p.payload| > 0 && |data| < 0x1_0000_0000_0000_0000
    requires i + |Raw(p)| <= |data| && data[i..i + |Raw(p)|] == Raw(p)
    ensures i < |data|
    ensures FrameAt(data, i) == Some(|Raw(p)|)
  {
    var n := |p.payload|;
    RawLayout(p);
    LengthFieldReadsBack(n);
    var e, raw := MinExp(n), data[i..i + |Raw(p)|];
    assert data[i + 2] == raw[2];
    SliceOfSlice(data, i, i + |raw|, 3, 3 + e);
  }

  /** The record read in place from that frame is the record written. */
  lemma {:induction false} FrameReadsBack(data: Bytes, i: nat, p: LegacyPacket)
    requires |p.payload| > 0 && |data| < 0x1_0000_0000_0000_0000
    requires i + |Raw(p)| <= |data| && data[i..i + |Raw(p)|] == Raw(p)
    ensures i < |data|
    ensures FrameAt(data, i) == Some(|Raw(p)|)
    ensures RecordAt(data, i, |Raw(p)|) == p
  {
    FrameCutsBack(data, i, p);
    RawLayout(p);
    var e, raw := MinExp(|p.payload|), data[i..i + |Raw(p)|];
    assert data[i] == raw[0] && data[i + 1] == raw[1] && data[i + 2] == raw[2];
    SliceOfSlice(data, i, i + |raw|, 3 + e, |raw|);
    assert raw[3 + e..|raw|] == raw[3 + e..];
  }

  /**
   * Where the data from offset `i` on is `RawAll(ps)`, `parse_file` from
   * there reads back every record that has a payload, in order, after
   * those already parsed.
   */
  lemma {:induction false} FramesReadBack(data: Bytes, i: nat, ps: seq<LegacyPacket>, acc: seq<LegacyPacket>)
    requires i <= |data| < 0x1_0000_0000_0000_0000 && data[i..] == RawAll(ps)
    ensures ParseFrames(data, i, acc) == Some(acc + Framed(ps))
    decreases |ps|, 2
  {
    if ps == [] {
      assert |data[i..]| == 0;
      assert acc + Framed(ps) == acc;
    } else if |ps[0].payload| == 0 {
      SkipUnframed(data, i, ps, acc);
    } else {
      ReadFirstFrame(data, i, ps, acc);
    }
  }

  /** A first record with an empty payload has no frame: `parse_file` goes on with the others. */
  lemma {:induction false} SkipUnframed(data: Bytes, i: nat, ps: seq<LegacyPacket>, acc: seq<LegacyPacket>)
    requires i <= |data| < 0x1_0000_0000_0000_0000 && data[i..] == RawAll(ps)
    requires ps != [] && |ps[0].payload| == 0
    ensures ParseFrames(data, i, acc) == Some(acc + Framed(ps))
    decreases |ps|, 1
  {
    FirstFrame(data, i, ps);
    assert |Raw(ps[0])| == 0;
    FramesReadBack(data, i, ps[1..], acc);
    assert Framed(ps) == Framed(ps[1..]);
  }

  /** A first record with a payload: `parse_file` cuts its frame, reads it back, then goes on with the others. */
  lemma {:induction false} ReadFirstFrame(data: Bytes, i: nat, ps: seq<LegacyPacket>, acc: seq<LegacyPacket>)
    requires i <= |data| < 0x1_0000_0000_0000_0000 && data[i..] == RawAll(ps)
    requires ps != [] && |ps[0].payload| > 0
    ensures ParseFrames(data, i, acc) == Some(acc + Framed(ps))
    decreases |ps|, 1
  {
    var p, rest := ps[0], ps[1..];
    FirstFrame(data, i, ps);
    FrameReadsBack(data, i, p);
    FramesReadBackPast(data, i, |Raw(p)|, rest, acc);
    assert Framed(ps) == [p] + Framed(rest);
    assert acc + [p] + Framed(rest) == acc + Framed(ps);
  }

  /** The step of `FramesReadBack` over a frame that `parse_file` cuts and reads. */
  lemma {:induction false} FramesReadBackPast(data: Bytes, i: nat, len: nat, rest: seq<LegacyPacket>, acc: seq<LegacyPacket>)
    requires i < |data| < 0x1_0000_0000_0000_0000 && FrameAt(data, i) == Some(len)
    requires data[i + len..] == RawAll(rest)
    ensures ParseFrames(data, i, acc) == Some(acc + [RecordAt(data, i, len)] + Framed(rest))
    decreases |rest| + 1, 0
  {
    ParseFramesStep(data, i, len, acc);
    FramesReadBack(data, i + len, rest, acc + [RecordAt(data, i, len)]);
  }

  /** Where the data from offset `i` on is `RawAll(ps)`, the first record's frame comes first, then the others'. */
  lemma {:induction false} FirstFrame(data: Bytes, i: nat, ps: seq<LegacyPacket>)
    requires i <= |data| && ps != [] && data[i..] == RawAll(ps)
    ensures i + |Raw(ps[0])| <= |data|
    ensures data[i..i + |Raw(ps[0])|] == Raw(ps[0])
    ensures data[i + |Raw(ps[0])|..] == RawAll(ps[1..])
  {
    var p, rest := ps[0], ps[1..];
    var raw := Raw(p);
    assert ps == [p] + rest;
    RawAllCons(p, rest);
    assert data[i..i + |raw|] == data[i..][..|raw|];
    assert data[i + |raw|..] == data[i..][|raw|..];
  }

  /**
   * What `dump` writes, `parse_file` reads back: every record with a
   * payload, in order. A record with an empty payload has no frame at all.
   */
  lemma {:induction false} DumpReadsBack(version: u16, ps: seq<LegacyPacket>)
    requires |DumpOf(version, ps)| < 0x1_0000_0000_0000_0000
    ensures ParseFrames(DumpOf(version, ps), 7, []) == Some(Framed(ps))
  {
    var header := MagicNumber + BeBytes(version, 2) + [0x02];
    var data := DumpOf(version, ps);
    assert |header| == 7;
    assert data == header + RawAll(ps);
    assert data[7..] == RawAll(ps);
    FramesReadBack(data, 7, ps, []);
    assert [] + Framed(ps) == Framed(ps);
  }

  /** `parse_packet` of the frame `payload_to_raw` writes gives the record back. */
  lemma {:induction false} RawReadsBack(p: LegacyPacket)
    requires |p.payload| > 0 && |Raw(p)| < 0x1_0000_0000_0000_0000
    ensures 3 <= |Raw(p)| && ParsePrefixLen(Raw(p)) <= |Raw(p)|
    ensures ParsePacket(Raw(p)) == p
  {
    var raw := Raw(p);
    assert raw[0..|raw|] == raw;
    FrameReadsBack(raw, 0, p);
    RecordAtParses(raw, 0, |raw|);
  }

  /** Under a two-byte key, `into_packet` pads nothing. */
  lemma {:induction false} TwoByteFrame(key: Key, payload: Bytes)
    ensures var e := ExpByte(|payload|);
      Frame(key, 2, payload) == [key[0], key[1], e] + BeBytes(|payload|, e) + payload
  {
    var e := ExpByte(|payload|);
    assert PadKey(key, 2) == key by {
      assert Max(|key|, 2) - |key| == 0;
    }
    assert key + [e] == [key[0], key[1], e];
  }

  /** A legacy frame with a payload is the frame `into_packet` closes under a two-byte key. */
  lemma {:induction false} LegacyRawIsFrame(key: Key, payload: Payload)
    requires |payload| > 0
    ensures LegacyRaw(key, payload) == Frame(key, 2, payload)
  {
    TwoByteFrame(key, payload);
  }

  /**
   * A legacy record's frame is the frame packets.rs writes for an
   * unsupported record under two-byte keys, except that an empty payload
   * gets no frame at all where packets.rs writes key and a zero exponent.
   */
  lemma {:induction false} LegacyRawIsEncode(key: Key, payload: Payload)
    ensures |payload| > 0 ==> LegacyRaw(key, payload) == PacketEncoding.Encode(Packets.Unsupported(key, payload), 2)
    ensures |payload| == 0 ==> LegacyRaw(key, payload) == [] && PacketEncoding.Encode(Packets.Unsupported(key, payload), 2) == key + [0]
  {
    var p := Packets.Unsupported(key, payload);
    assert PacketEncoding.Fields(p, 2) == payload;
    assert Packets.Key(p) == key;
    if |payload| == 0 {
      TwoByteFrame(key, payload);
      assert BeBytes(0, 0) == [];
    } else {
      LegacyRawIsFrame(key, payload);
    }
  }

  // ------------------------------------------------------------------ save

  /** How many last-modified records `ps` holds. */
  function CountLastModified(ps: seq<LegacyPacket>): nat
  {
    if ps == [] then 0 else CountLastModified(Init(ps)) + if IsLastModified(Last(ps)) then 1 else 0
  }

  /** The records of `ps` other than last-modified ones, in list order. */
  function Others(ps: seq<LegacyPacket>): seq<LegacyPacket>
  {
    if ps == [] then [] else Others(Init(ps)) + if IsLastModified(Last(ps)) then [] else [Last(ps)]
  }

  lemma {:induction false} Snoc(ps: seq<LegacyPacket>, x: LegacyPacket)
    ensures Init(ps + [x]) == ps && Last(ps + [x]) == x
  {
    assert (ps + [x])[..|ps|] == ps;
  }

  /** A list holds a last-modified record exactly when it counts at least one. */
  lemma {:induction false} CountIsHas(ps: seq<LegacyPacket>)
    ensures CountLastModified(ps) > 0 <==> HasLastModified(ps)
    decreases |ps|
  {
    if ps == [] {
      assert !HasLastModified(ps);
    } else {
      CountIsHas(Init(ps));
      HasLastModifiedSnoc(ps);
    }
  }

  /** A list with no last-modified record goes through the first loop of `save` unchanged. */
  lemma {:induction false} NoLastModified(ps: seq<LegacyPacket>, epoch: i64)
    requires !HasLastModified(ps)
    ensures Refresh(ps, epoch) == ps && Tidy(ps, epoch) == ps && Later(ps) == []
  {
    RefreshNone(ps, epoch);
    TidyNone(ps, epoch);
    LaterNone(ps);
  }

  lemma {:induction false} RefreshNone(ps: seq<LegacyPacket>, epoch: i64)
    requires !HasLastModified(ps)
    ensures Refresh(ps, epoch) == ps
    decreases |ps|
  {
    if ps != [] {
      HasLastModifiedSnoc(ps);
      RefreshNone(Init(ps), epoch);
      assert ps == Init(ps) + [Last(ps)];
    }
  }

  lemma {:induction false} TidyNone(ps: seq<LegacyPacket>, epoch: i64)
    requires !HasLastModified(ps)
    ensures Tidy(ps, epoch) == ps
    decreases |ps|
  {
    if ps != [] {
      HasLastModifiedSnoc(ps);
      TidyNone(Init(ps), epoch);
      assert ps == Init(ps) + [Last(ps)];
    }
  }

  lemma {:induction false} LaterNone(ps: seq<LegacyPacket>)
    requires !HasLastModified(ps)
    ensures Later(ps) == []
    decreases |ps|
  {
    if ps != [] {
      HasLastModifiedSnoc(ps);
      LaterNone(Init(ps));
    }
  }

  /**
   * The indices the first loop of `save` collects are exactly those of the
   * last-modified records that have an earlier last-modified record.
   */
  lemma {:induction false} LaterAt(ps: seq<LegacyPacket>, k: nat)
    ensures k in Later(ps) <==> k < |ps| && IsLastModified(ps[k]) && HasLastModified(ps[..k])
    decreases |ps|
  {
    if ps != [] {
      var init := Init(ps);
      LaterAt(init, k);
      if k < |init| {
        assert init[k] == ps[k] && init[..k] == ps[..k];
      } else if k == |init| {
        assert init == ps[..k];
        assert k !in Later(init);
      }
    }
  }

  /** The collected indices ascend, so `save` removes them front to back. */
  lemma {:induction false} LaterAscends(ps: seq<LegacyPacket>)
    ensures forall i, j :: 0 <= i < j < |Later(ps)| ==> Later(ps)[i] < Later(ps)[j]
    decreases |ps|
  {
    if ps != [] {
      LaterAscends(Init(ps));
    }
  }

  /** Every last-modified record but the first is collected for removal. */
  lemma {:induction false} LaterCount(ps: seq<LegacyPacket>)
    ensures |Later(ps)| + (if HasLastModified(ps) then 1 else 0) == CountLastModified(ps)
    decreases |ps|
  {
    if ps != [] {
      LaterCount(Init(ps));
      HasLastModifiedSnoc(ps);
    }
  }

  /**
   * The first loop of `save`, record by record: the first last-modified
   * record is replaced at its own index by the fresh one, and every other
   * record stays where it was.
   */
  lemma {:induction false} RefreshAt(ps: seq<LegacyPacket>, epoch: i64, k: nat)
    requires k < |ps|
    ensures Refresh(ps, epoch)[k]
      == if IsLastModified(ps[k]) && !HasLastModified(ps[..k]) then LastModified(epoch) else ps[k]
    decreases |ps|
  {
    var init := Init(ps);
    if k < |init| {
      RefreshAt(init, epoch, k);
      assert init[k] == ps[k] && init[..k] == ps[..k];
    } else {
      assert init == ps[..k];
    }
  }

  /**
   * Where `j` is the first last-modified record, the corrected pass keeps the
   * records before it in place, puts the fresh record at `j`, and keeps the
   * other records after it in order.
   */
  lemma {:induction false} TidyInPlace(ps: seq<LegacyPacket>, epoch: i64, j: nat)
    requires j < |ps| && IsLastModified(ps[j]) && !HasLastModified(ps[..j])
    ensures Tidy(ps, epoch) == ps[..j] + [LastModified(epoch)] + Others(ps[j + 1..])
    decreases |ps|
  {
    if j + 1 == |ps| {
      TidyInPlaceLast(ps, epoch, j);
    } else {
      var init := Init(ps);
      assert init[j] == ps[j] && init[..j] == ps[..j];
      TidyInPlace(init, epoch, j);
      TidyInPlaceStep(ps, epoch, j);
    }
  }

  /** The first last-modified record is the last one: the fresh record ends the list. */
  lemma {:induction false} TidyInPlaceLast(ps: seq<LegacyPacket>, epoch: i64, j: nat)
    requires j + 1 == |ps| && IsLastModified(ps[j]) && !HasLastModified(ps[..j])
    ensures Tidy(ps, epoch) == ps[..j] + [LastModified(epoch)] + Others(ps[j + 1..])
  {
    assert ps == ps[..j] + [ps[j]];
    TidyFreshAtEnd(ps[..j], ps[j], epoch);
    assert ps[j + 1..] == [];
  }

  /** A first last-modified record at the end of the list becomes the fresh one. */
  lemma {:induction false} TidyFreshAtEnd(init: seq<LegacyPacket>, x: LegacyPacket, epoch: i64)
    requires !HasLastModified(init) && IsLastModified(x)
    ensures Tidy(init + [x], epoch) == init + [LastModified(epoch)]
  {
    SaveSnoc(init, x, epoch);
    TidyNone(init, epoch);
  }

  /** One record past the fresh one: the corrected pass extends the other records after `j`. */
  lemma {:induction false} TidyInPlaceStep(ps: seq<LegacyPacket>, epoch: i64, j: nat)
    requires j + 1 < |ps| && IsLastModified(ps[j])
    requires Tidy(Init(ps), epoch) == ps[..j] + [LastModified(epoch)] + Others(Init(ps)[j + 1..])
    ensures Tidy(ps, epoch) == ps[..j] + [LastModified(epoch)] + Others(ps[j + 1..])
  {
    var init, x := Init(ps), Last(ps);
    assert HasLastModified(init) by { assert IsLastModified(init[j]); }
    var tail := if IsLastModified(x) then [] else [x];
    assert Tidy(ps, epoch) == Tidy(init, epoch) + tail;
    var rest := ps[j + 1..];
    assert Init(rest) == init[j + 1..] && Last(rest) == x;
    assert Others(rest) == Others(init[j + 1..]) + tail;
  }

  /** The corrected pass keeps every other record, in order. */
  lemma {:induction false} TidyKeepsOthers(ps: seq<LegacyPacket>, epoch: i64)
    ensures Others(Tidy(ps, epoch)) == Others(ps)
    decreases |ps|
  {
    if ps != [] {
      var init, x := Init(ps), Last(ps);
      TidyKeepsOthers(init, epoch);
      var t := Tidy(init, epoch);
      if !IsLastModified(x) {
        Snoc(t, x);
      } else if !HasLastModified(init) {
        Snoc(t, LastModified(epoch));
      } else {
        assert t + [] == t;
      }
    }
  }

  /** The corrected pass leaves one last-modified record if there was any, none otherwise. */
  lemma {:induction false} TidyCount(ps: seq<LegacyPacket>, epoch: i64)
    ensures CountLastModified(Tidy(ps, epoch)) == if HasLastModified(ps) then 1 else 0
    decreases |ps|
  {
    if ps == [] {
      assert !HasLastModified(ps);
    } else {
      var init, x := Init(ps), Last(ps);
      TidyCount(init, epoch);
      HasLastModifiedSnoc(ps);
      var t := Tidy(init, epoch);
      if !IsLastModified(x) {
        Snoc(t, x);
      } else if !HasLastModified(init) {
        Snoc(t, LastModified(epoch));
      } else {
        assert t + [] == t;
      }
    }
  }

  /** The last-modified record the corrected pass leaves carries `epoch`. */
  lemma {:induction false} TidyFresh(ps: seq<LegacyPacket>, epoch: i64)
    ensures forall x :: x in Tidy(ps, epoch) && IsLastModified(x) ==> x == LastModified(epoch)
    decreases |ps|
  {
    if ps != [] {
      TidyFresh(Init(ps), epoch);
    }
  }

  /**
   * What `save` evidently means to leave: exactly one last-modified record,
   * the fresh one, standing where the first one stood (or appended when there
   * was none), and every other record as it was, in order.
   */
  lemma {:induction false} CanonicalLastModified(ps: seq<LegacyPacket>, epoch: i64)
    ensures CountLastModified(Canonical(ps, epoch)) == 1
    ensures forall x :: x in Canonical(ps, epoch) && IsLastModified(x) ==> x == LastModified(epoch)
    ensures Others(Canonical(ps, epoch)) == Others(ps)
    ensures forall j :: 0 <= j < |ps| && IsLastModified(ps[j]) && !HasLastModified(ps[..j]) ==>
      Canonical(ps, epoch) == ps[..j] + [LastModified(epoch)] + Others(ps[j + 1..])
    ensures !HasLastModified(ps) ==> Canonical(ps, epoch) == ps + [LastModified(epoch)]
  {
    if HasLastModified(ps) {
      TidyCount(ps, epoch);
      TidyFresh(ps, epoch);
      TidyKeepsOthers(ps, epoch);
    } else {
      CountIsHas(ps);
      Snoc(ps, LastModified(epoch));
    }
    forall j | 0 <= j < |ps| && IsLastModified(ps[j]) && !HasLastModified(ps[..j])
      ensures Canonical(ps, epoch) == ps[..j] + [LastModified(epoch)] + Others(ps[j + 1..])
    {
      assert HasLastModified(ps);
      TidyInPlace(ps, epoch, j);
    }
  }

  /** A list that already has at most one last-modified record, the fresh one, is left as it is. */
  lemma {:induction false} TidyFixed(ps: seq<LegacyPacket>, epoch: i64)
    requires CountLastModified(ps) <= 1
    requires forall x :: x in ps && IsLastModified(x) ==> x == LastModified(epoch)
    ensures Tidy(ps, epoch) == ps
    decreases |ps|
  {
    if ps != [] {
      var init, x := Init(ps), Last(ps);
      assert ps == init + [x];
      assert forall y :: y in init ==> y in ps;
      TidyFixed(init, epoch);
      if IsLastModified(x) {
        CountIsHas(init);
      }
    }
  }

  /** Saving twice in a row, with the same clock reading, leaves what saving once left. */
  lemma {:induction false} CanonicalIdempotent(ps: seq<LegacyPacket>, epoch: i64)
    ensures Canonical(Canonical(ps, epoch), epoch) == Canonical(ps, epoch)
  {
    var c := Canonical(ps, epoch);
    CanonicalLastModified(ps, epoch);
    CountIsHas(c);
    TidyFixed(c, epoch);
  }

  /** `Vec::remove(j)`: the list without its element at `j`. */
  function RemoveAt(ps: seq<LegacyPacket>, j: nat): (r: seq<LegacyPacket>)
    requires j < |ps|
    ensures |r| == |ps| - 1
  {
    ps[..j] + ps[j + 1..]
  }

  lemma {:induction false} RemoveAtSnoc(ps: seq<LegacyPacket>, y: LegacyPacket, j: nat)
    requires j <= |ps|
    ensures j < |ps| ==> RemoveAt(ps + [y], j) == RemoveAt(ps, j) + [y]
    ensures j == |ps| ==> RemoveAt(ps + [y], j) == ps
  {
    assert (ps + [y])[..j] == ps[..j];
    if j < |ps| {
      assert (ps + [y])[j + 1..] == ps[j + 1..] + [y];
    }
  }

  /**
   * With at most one later last-modified record, the corrected pass is the
   * refreshed list with that record removed.
   */
  lemma {:induction false} TidyIsRefreshAndRemove(ps: seq<LegacyPacket>, epoch: i64)
    requires |Later(ps)| <= 1
    ensures Later(ps) == [] ==> Tidy(ps, epoch) == Refresh(ps, epoch)
    ensures Later(ps) != [] ==> Later(ps)[0] < |ps| && Tidy(ps, epoch) == RemoveAt(Refresh(ps, epoch), Later(ps)[0])
    decreases |ps|
  {
    if ps != [] {
      var init, x := Init(ps), Last(ps);
      var r := Refresh(init, epoch);
      TidyIsRefreshAndRemove(init, epoch);
      if IsLastModified(x) && HasLastModified(init) {
        assert Later(init) == [] && Later(ps) == [|init|];
        assert Refresh(ps, epoch) == r + [x];
        RemoveAtSnoc(r, x, |init|);
      } else {
        var y := if IsLastModified(x) then LastModified(epoch) else x;
        assert Later(ps) == Later(init);
        assert Refresh(ps, epoch) == r + [y];
        assert Tidy(ps, epoch) == Tidy(init, epoch) + [y];
        if Later(init) != [] {
          RemoveAtSnoc(r, y, Later(init)[0]);
        }
      }
    }
  }

  /**
   * Where no record is removed at a shifted index (at most one later
   * last-modified record), `save` as written leaves the canonical list.
   */
  lemma {:induction false} SaveAgreesWhenFew(ps: seq<LegacyPacket>, epoch: i64)
    requires |Later(ps)| <= 1
    ensures SaveAsWritten(ps, epoch) == Removal(Canonical(ps, epoch), false)
  {
    if HasLastModified(ps) {
      TidyIsRefreshAndRemove(ps, epoch);
      var r := Refresh(ps, epoch);
      if Later(ps) != [] {
        var j := Later(ps)[0];
        assert Later(ps)[1..] == [];
        assert RemoveInOrder(r, Later(ps)) == RemoveInOrder(RemoveAt(r, j), []);
      }
    } else {
      NoLastModified(ps, epoch);
    }
  }

  /** With at most two last-modified records, `save` as written leaves the canonical list. */
  lemma {:induction false} SaveAgreesUpToTwo(ps: seq<LegacyPacket>, epoch: i64)
    requires CountLastModified(ps) <= 2
    ensures SaveAsWritten(ps, epoch) == Removal(Canonical(ps, epoch), false)
  {
    LaterCount(ps);
    if !HasLastModified(ps) {
      CountIsHas(ps);
    }
    SaveAgreesWhenFew(ps, epoch);
  }

  // ------------------------------------------ save as written: two lists it gets wrong

  /** The list functions of `save`, one record further on. */
  lemma {:induction false} SaveSnoc(ps: seq<LegacyPacket>, x: LegacyPacket, epoch: i64)
    ensures Refresh(ps + [x], epoch) == Refresh(ps, epoch) + [if IsLastModified(x) && !HasLastModified(ps) then LastModified(epoch) else x]
    ensures Later(ps + [x]) == Later(ps) + if IsLastModified(x) && HasLastModified(ps) then [|ps|] else []
    ensures Tidy(ps + [x], epoch) == Tidy(ps, epoch) + if !IsLastModified(x) then [x] else if HasLastModified(ps) then [] else [LastModified(epoch)]
    ensures HasLastModified(ps + [x]) <==> HasLastModified(ps) || IsLastModified(x)
  {
    Snoc(ps, x);
    HasLastModifiedSnoc(ps + [x]);
  }

  /** The first index `save` removes is in range: the second removal sees the shifted list. */
  lemma {:induction false} RemoveFirst(ps: seq<LegacyPacket>, j: nat, rest: seq<nat>)
    requires j < |ps|
    ensures RemoveInOrder(ps, [j] + rest) == RemoveInOrder(RemoveAt(ps, j), rest)
  {
    assert ([j] + rest)[1..] == rest;
  }

  /** The first loop of `save` over three last-modified records. */
  lemma {:induction false} ScanThree(d1: LegacyPacket, d2: LegacyPacket, d3: LegacyPacket, epoch: i64)
    requires IsLastModified(d1) && IsLastModified(d2) && IsLastModified(d3)
    ensures HasLastModified([d1, d2, d3])
    ensures Refresh([d1, d2, d3], epoch) == [LastModified(epoch), d2, d3]
    ensures Later([d1, d2, d3]) == [1, 2]
    ensures Tidy([d1, d2, d3], epoch) == [LastModified(epoch)]
  {
    var l := LastModified(epoch);
    var a1 := [] + [d1];
    var a2 := a1 + [d2];
    var a3 := a2 + [d3];
    assert !HasLastModified([]);
    SaveSnoc([], d1, epoch);
    assert HasLastModified(a1) && Later(a1) == [];
    assert Refresh(a1, epoch) == [l];
    assert Tidy(a1, epoch) == [l];
    SaveSnoc(a1, d2, epoch);
    assert Later(a2) == [1];
    assert Refresh(a2, epoch) == [l, d2];
    assert Tidy(a2, epoch) == [l];
    SaveSnoc(a2, d3, epoch);
    assert a3 == [d1, d2, d3];
  }

  /** The first loop of `save` over three last-modified records and then another record. */
  lemma {:induction false} ScanThreeThenOther(d1: LegacyPacket, d2: LegacyPacket, d3: LegacyPacket, x: LegacyPacket, epoch: i64)
    requires IsLastModified(d1) && IsLastModified(d2) && IsLastModified(d3) && !IsLastModified(x)
    ensures HasLastModified([d1, d2, d3, x])
    ensures Refresh([d1, d2, d3, x], epoch) == [LastModified(epoch), d2, d3, x]
    ensures Later([d1, d2, d3, x]) == [1, 2]
    ensures Tidy([d1, d2, d3, x], epoch) == [LastModified(epoch), x]
  {
    ScanThree(d1, d2, d3, epoch);
    SaveSnoc([d1, d2, d3], x, epoch);
    assert [d1, d2, d3] + [x] == [d1, d2, d3, x];
  }

  /** The first loop of `save` over a last-modified record, another record, then two more last-modified ones. */
  lemma {:induction false} ScanOneOtherTwo(d1: LegacyPacket, x: LegacyPacket, d2: LegacyPacket, d3: LegacyPacket, epoch: i64)
    requires IsLastModified(d1) && IsLastModified(d2) && IsLastModified(d3) && !IsLastModified(x)
    ensures HasLastModified([d1, x, d2, d3])
    ensures Refresh([d1, x, d2, d3], epoch) == [LastModified(epoch), x, d2, d3]
    ensures Later([d1, x, d2, d3]) == [2, 3]
    ensures Tidy([d1, x, d2, d3], epoch) == [LastModified(epoch), x]
  {
    var l := LastModified(epoch);
    var a1 := [] + [d1];
    var a2 := a1 + [x];
    var a3 := a2 + [d2];
    var a4 := a3 + [d3];
    assert !HasLastModified([]);
    SaveSnoc([], d1, epoch);
    assert HasLastModified(a1) && Later(a1) == [];
    assert Refresh(a1, epoch) == [l];
    assert Tidy(a1, epoch) == [l];
    SaveSnoc(a1, x, epoch);
    assert Later(a2) == [];
    assert Refresh(a2, epoch) == [l, x];
    assert Tidy(a2, epoch) == [l, x];
    SaveSnoc(a2, d2, epoch);
    assert Later(a3) == [2];
    assert Refresh(a3, epoch) == [l, x, d2];
    assert Tidy(a3, epoch) == [l, x];
    SaveSnoc(a3, d3, epoch);
    assert a4 == [d1, x, d2, d3];
  }

  /**
   * Three last-modified records and then another record `x`: `save` removes
   * index 1 and then index 2 of the shrinking list, so it drops `x` and
   * keeps the stale third last-modified record.
   */
  lemma {:induction false} SaveDropsOtherRecord(d1: LegacyPacket, d2: LegacyPacket, d3: LegacyPacket, x: LegacyPacket, epoch: i64)
    requires IsLastModified(d1) && IsLastModified(d2) && IsLastModified(d3) && !IsLastModified(x)
    ensures SaveAsWritten([d1, d2, d3, x], epoch) == Removal([LastModified(epoch), d3], false)
    ensures x !in SaveAsWritten([d1, d2, d3, x], epoch).packets
    ensures Canonical([d1, d2, d3, x], epoch) == [LastModified(epoch), x]
  {
    var l := LastModified(epoch);
    ScanThreeThenOther(d1, d2, d3, x, epoch);
    assert RemoveAt([l, d2, d3, x], 1) == [l, d3, x];
    RemoveFirst([l, d2, d3, x], 1, [2]);
    assert RemoveAt([l, d3, x], 2) == [l, d3];
    RemoveFirst([l, d3, x], 2, []);
  }

  /**
   * A last-modified record, another record `x`, then two more
   * last-modified records: after removing index 2, index 3 is past the end
   * of the list and `Vec::remove` panics.
   */
  lemma {:induction false} SavePanics(d1: LegacyPacket, x: LegacyPacket, d2: LegacyPacket, d3: LegacyPacket, epoch: i64)
    requires IsLastModified(d1) && IsLastModified(d2) && IsLastModified(d3) && !IsLastModified(x)
    ensures SaveAsWritten([d1, x, d2, d3], epoch).panicked
    ensures Canonical([d1, x, d2, d3], epoch) == [LastModified(epoch), x]
  {
    var l := LastModified(epoch);
    ScanOneOtherTwo(d1, x, d2, d3, epoch);
    assert RemoveAt([l, x, d2, d3], 2) == [l, x, d3];
    RemoveFirst([l, x, d2, d3], 2, [3]);
  }

  // ---------------------------------------------------------- search_by_key

  /** `search_by_key` over two lists one after the other keeps their order. */
  lemma {:induction false} SelectAppend(a: seq<LegacyPacket>, b: seq<LegacyPacket>, keys: seq<Key>)
    ensures Select(a + b, keys) == Select(a, keys) + Select(b, keys)
    decreases |a|
  {
    if a == [] {
      assert a + b == b;
    } else {
      assert (a + b)[0] == a[0] && (a + b)[1..] == a[1..] + b;
      SelectAppend(a[1..], b, keys);
    }
  }
}
