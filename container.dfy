/**
 * The older container of src/spec.rs: a 7-byte header, then one frame per
 * record with a two-byte key. Each legacy record is kept as its key and the
 * payload bytes its `raw()` frames; the per-kind field parsing of that file
 * is not part of this model.
 */
module Container {
  import opened Primitives
  import opened Util
  import opened ByteWriter
  import Packets

  /** A legacy key is always two bytes. */
  type Key = k: Bytes | |k| == 2 witness [0, 0]

  /** A payload held in a `Vec`, which never reaches 2^64 bytes. */
  type Payload = s: Bytes | |s| < 0x1_0000_0000_0000_0000

  const LatestVersion: Bytes := [0x00, 0x01]
  const MagicNumber: Bytes := [0x54, 0x41, 0x53, 0x44]
  /** The bytes of a file that holds no record yet: magic, version, key width 2. */
  const NewTasdFile: Bytes := MagicNumber + LatestVersion + [0x02]
  const DumpLastModifiedKey: Key := [0x00, 0x0C]

  /** A legacy record, seen through its `key()` and the payload its `raw()` frames. */
  datatype LegacyPacket = LegacyPacket(key: Key, payload: Payload)

  // ------------------------------------------------------------------ framing

  /**
   * `payload_to_raw`: an empty payload yields no bytes at all; any other is
   * the two key bytes, the exponent, the length in that many big-endian
   * bytes, then the payload.
   */
  function LegacyRaw(key: Key, payload: Payload): Bytes
  {
    if |payload| == 0 then []
    else
      var e := ExpByte(|payload|);
      [key[0], key[1], e] + BeBytes(|payload|, e) + payload
  }

  /** `Packet::raw` of a legacy record. */
  function Raw(p: LegacyPacket): Bytes
  {
    LegacyRaw(p.key, p.payload)
  }

  /** The records' frames, one after the other in list order. */
  function RawAll(ps: seq<LegacyPacket>): Bytes
  {
    if ps == [] then [] else RawAll(ps[..|ps| - 1]) + Raw(ps[|ps| - 1])
  }

  lemma {:induction false} RawAllSnoc(ps: seq<LegacyPacket>, p: LegacyPacket)
    ensures RawAll(ps + [p]) == RawAll(ps) + Raw(p)
  {
    assert (ps + [p])[..|ps|] == ps;
  }

  lemma {:induction false} RawAllPrefix(ps: seq<LegacyPacket>, k: nat)
    requires k < |ps|
    ensures RawAll(ps[..k + 1]) == RawAll(ps[..k]) + LegacyRaw(ps[k].key, ps[k].payload)
  {
    assert ps[..k + 1][..k] == ps[..k];
  }

  /** `TasdMovie::dump`: magic, the version big-endian, the key width 2, then every record's frame. */
  function DumpOf(version: u16, ps: seq<LegacyPacket>): Bytes
  {
    MagicNumber + BeBytes(version, 2) + [0x02] + RawAll(ps)
  }

  /**
   * `payload_to_raw`: the exponent is counted by shifting the length right
   * by 8 bits until it is zero, then key, exponent, length field and payload
   * are put together.
   */
  method PayloadToRaw(key: Key, payload: Payload) returns (raw: Bytes)
    ensures raw == LegacyRaw(key, payload)
    ensures |payload| == 0 <==> raw == []
  {
    var tmp: nat := |payload|;
    if tmp == 0 {
      return [];
    }
    var exp: nat := 0;
    while tmp > 0
      invariant exp + MinExp(tmp) == MinExp(|payload|)
      decreases tmp
    {
      tmp := tmp / 256;
      exp := exp + 1;
    }
    ExpByteIsMinExp(|payload|);
    var len := ToBytes(|payload|, exp);
    raw := [key[0], key[1], exp] + len + payload;
  }

  // ------------------------------------------------------------------ parsing

  /** `parse_prefix_len`: key, exponent byte and length field together. */
  function ParsePrefixLen(chunk: Bytes): (n: nat)
    requires |chunk| >= 3
    ensures 3 <= n <= 3 + 255
  {
    3 + chunk[2] as nat
  }

  /** `parse_payload`: what follows the prefix. */
  function ParsePayload(chunk: Bytes): (payload: Bytes)
    requires |chunk| >= 3 && ParsePrefixLen(chunk) <= |chunk|
    ensures chunk == chunk[..ParsePrefixLen(chunk)] + payload
  {
    chunk[ParsePrefixLen(chunk)..]
  }

  /** `parse_packet`, with the record seen as its key and payload. */
  function ParsePacket(chunk: Bytes): (p: LegacyPacket)
    requires 3 <= |chunk| < 0x1_0000_0000_0000_0000 && ParsePrefixLen(chunk) <= |chunk|
    ensures p.key == chunk[..2]
    ensures p.payload == chunk[ParsePrefixLen(chunk)..]
    ensures chunk == p.key + chunk[2..ParsePrefixLen(chunk)] + p.payload
  {
    LegacyPacket([chunk[0], chunk[1]], ParsePayload(chunk))
  }

  /** `u64::from_be_bytes`. */
  function FromBeBytes(b: Bytes): (n: nat)
    requires |b| == 8
    ensures n < 0x1_0000_0000_0000_0000
  {
    Pow256Widths();
    BeValue(b)
  }

  /**
   * The length of the frame `parse_file` cuts at `i`: three bytes, the length
   * field, and the payload length that field holds once left-padded with
   * zero bytes to eight. `None` where the source panics: fewer than three
   * bytes left, a length field past the end, a field wider than eight bytes
   * (the conversion to `[u8; 8]` fails), or a frame longer than what is left.
   */
  function FrameAt(data: Bytes, i: nat): (len: Option<nat>)
    requires i < |data|
    ensures len.Some? ==> i + 3 <= |data| && 3 + data[i + 2] as nat <= len.value <= |data| - i
  {
    if |data| - i < 3 then None
    else
      var exp: nat := data[i + 2];
      if |data| - (i + 3) < exp then None
      else
        var field := data[i + 3..i + 3 + exp];
        var padded := if |field| < 8 then Zeros(8 - |field|) + field else field;
        if |padded| != 8 then None
        else
          var len := 3 + exp + FromBeBytes(padded);
          if |data| - i < len then None else Some(len)
  }

  /** The record of the frame `FrameAt` cuts at offset `i`, read in place. */
  function RecordAt(data: Bytes, i: nat, len: nat): (p: LegacyPacket)
    requires i < |data| < 0x1_0000_0000_0000_0000 && FrameAt(data, i) == Some(len)
  {
    LegacyPacket([data[i], data[i + 1]], data[i + 3 + data[i + 2] as nat..i + len])
  }

  /** Reading the record in place is `parse_packet` of the cut-out chunk. */
  lemma {:induction false} RecordAtParses(data: Bytes, i: nat, len: nat)
    requires i < |data| < 0x1_0000_0000_0000_0000 && FrameAt(data, i) == Some(len)
    ensures i + len <= |data|
    ensures 3 <= |data[i..i + len]| && ParsePrefixLen(data[i..i + len]) <= len
    ensures RecordAt(data, i, len) == ParsePacket(data[i..i + len])
  {
    var chunk := data[i..i + len];
    assert chunk[2] == data[i + 2];
    assert chunk[0] == data[i] && chunk[1] == data[i + 1];
    assert chunk[ParsePrefixLen(chunk)..] == data[i + 3 + data[i + 2] as nat..i + len];
  }

  /**
   * `parse_file` from offset `i` on, with `acc` the records already parsed:
   * one more record per frame, or `None` if any step panics.
   */
  function ParseFrames(data: Bytes, i: nat, acc: seq<LegacyPacket>): Option<seq<LegacyPacket>>
    requires |data| < 0x1_0000_0000_0000_0000
    decreases |data| - i
  {
    if i >= |data| then Some(acc)
    else
      match FrameAt(data, i)
      case None => None
      case Some(len) => ParseFrames(data, i + len, acc + [RecordAt(data, i, len)])
  }

  /** One frame of `parse_file`: the record it cuts joins those already parsed. */
  lemma {:induction false} ParseFramesStep(data: Bytes, i: nat, len: nat, acc: seq<LegacyPacket>)
    requires i < |data| < 0x1_0000_0000_0000_0000 && FrameAt(data, i) == Some(len)
    ensures ParseFrames(data, i, acc) == ParseFrames(data, i + len, acc + [RecordAt(data, i, len)])
  {
  }

  /**
   * `parse_file`: from offset 7, cut frame after frame and parse each; the
   * header bytes are never looked at. `None` stands for the panic.
   */
  method ParseFile(data: Bytes) returns (packets: Option<seq<LegacyPacket>>)
    requires |data| < 0x1_0000_0000_0000_0000
    ensures packets == ParseFrames(data, 7, [])
  {
    var acc: seq<LegacyPacket> := [];
    var i: nat := 7;
    while i < |data|
      invariant ParseFrames(data, i, acc) == ParseFrames(data, 7, [])
      decreases |data| - i
    {
      var frame := FrameAt(data, i);
      if frame.None? {
        return None;
      }
      var len := frame.value;
      ParseFramesStep(data, i, len, acc);
      acc := acc + [RecordAt(data, i, len)];
      i := i + len;
    }
    return Some(acc);
  }

  // ------------------------------------------------------- last-modified refresh

  predicate IsLastModified(p: LegacyPacket)
  {
    p.key == DumpLastModifiedKey
  }

  /** The record `DumpLastModified::new(epoch)` stands for: the epoch as 8 big-endian bytes. */
  function LastModified(epoch: i64): (r: LegacyPacket)
    ensures IsLastModified(r) && |r.payload| == 8
  {
    LegacyPacket(DumpLastModifiedKey, Packets.I64Bytes(epoch))
  }

  /** Some record of `ps` carries the last-modified key. */
  predicate HasLastModified(ps: seq<LegacyPacket>)
  {
    exists k :: 0 <= k < |ps| && IsLastModified(ps[k])
  }

  function Init(ps: seq<LegacyPacket>): seq<LegacyPacket>
    requires ps != []
  {
    ps[..|ps| - 1]
  }

  function Last(ps: seq<LegacyPacket>): LegacyPacket
    requires ps != []
  {
    ps[|ps| - 1]
  }

  /**
   * The first loop of `save`, over the list `ps`: the first last-modified
   * record replaced by a fresh one, every other record as it was.
   */
  function Refresh(ps: seq<LegacyPacket>, epoch: i64): (r: seq<LegacyPacket>)
    ensures |r| == |ps|
  {
    if ps == [] then []
    else
      var x := Last(ps);
      Refresh(Init(ps), epoch) + [if IsLastModified(x) && !HasLastModified(Init(ps)) then LastModified(epoch) else x]
  }

  /** The indices that first loop collects: the last-modified records after the first, ascending. */
  function Later(ps: seq<LegacyPacket>): (r: seq<nat>)
    ensures forall k :: 0 <= k < |r| ==> r[k] < |ps|
  {
    if ps == [] then []
    else Later(Init(ps)) + if IsLastModified(Last(ps)) && HasLastModified(Init(ps)) then [|ps| - 1] else []
  }

  lemma {:induction false} HasLastModifiedSnoc(ps: seq<LegacyPacket>)
    requires ps != []
    ensures HasLastModified(ps) <==> HasLastModified(Init(ps)) || IsLastModified(Last(ps))
  {
    if HasLastModified(ps) && !IsLastModified(Last(ps)) {
      var k :| 0 <= k < |ps| && IsLastModified(ps[k]);
      assert Init(ps)[k] == ps[k];
    }
    if HasLastModified(Init(ps)) {
      var k :| 0 <= k < |Init(ps)| && IsLastModified(Init(ps)[k]);
      assert ps[k] == Init(ps)[k];
    }
  }

  /** One more record scanned by the first loop of `save`: what it does to the list. */
  lemma {:induction false} RefreshStep(ps: seq<LegacyPacket>, i: nat, epoch: i64)
    requires i < |ps|
    ensures var x := ps[i];
      Refresh(ps[..i + 1], epoch)
        == Refresh(ps[..i], epoch) + [if IsLastModified(x) && !HasLastModified(ps[..i]) then LastModified(epoch) else x]
  {
    assert Init(ps[..i + 1]) == ps[..i] && Last(ps[..i + 1]) == ps[i];
  }

  /** One more record scanned by the first loop of `save`: what it adds to the removals. */
  lemma {:induction false} LaterStep(ps: seq<LegacyPacket>, i: nat)
    requires i < |ps|
    ensures Later(ps[..i + 1]) == Later(ps[..i]) + if IsLastModified(ps[i]) && HasLastModified(ps[..i]) then [i] else []
  {
    assert Init(ps[..i + 1]) == ps[..i] && Last(ps[..i + 1]) == ps[i];
  }

  /** One more record scanned by the corrected pass. */
  lemma {:induction false} TidyStep(ps: seq<LegacyPacket>, i: nat, epoch: i64)
    requires i < |ps|
    ensures var x := ps[i];
      Tidy(ps[..i + 1], epoch)
        == Tidy(ps[..i], epoch) + if !IsLastModified(x) then [x] else if HasLastModified(ps[..i]) then [] else [LastModified(epoch)]
  {
    assert Init(ps[..i + 1]) == ps[..i] && Last(ps[..i + 1]) == ps[i];
  }

  /** Whether a last-modified record has been seen, one record further on. */
  lemma {:induction false} FoundStep(ps: seq<LegacyPacket>, i: nat)
    requires i < |ps|
    ensures HasLastModified(ps[..i + 1]) <==> HasLastModified(ps[..i]) || IsLastModified(ps[i])
  {
    assert Init(ps[..i + 1]) == ps[..i] && Last(ps[..i + 1]) == ps[i];
    HasLastModifiedSnoc(ps[..i + 1]);
  }

  /** Where `Vec::remove` stopped: the list as it was left, and whether an index was out of range. */
  datatype Removal = Removal(packets: seq<LegacyPacket>, panicked: bool)

  /** `Vec::remove` at each index in turn, on the list as the earlier removals left it. */
  function RemoveInOrder(ps: seq<LegacyPacket>, indices: seq<nat>): (r: Removal)
    ensures !r.panicked ==> |r.packets| == |ps| - |indices|
    decreases |indices|
  {
    if indices == [] then Removal(ps, false)
    else if indices[0] >= |ps| then Removal(ps, true)
    else RemoveInOrder(ps[..indices[0]] + ps[indices[0] + 1..], indices[1..])
  }

  /**
   * The list `save` leaves, as written: refresh the first last-modified
   * record, remove the later ones at their original indices in ascending
   * order, or append a fresh record if there was none.
   */
  function SaveAsWritten(ps: seq<LegacyPacket>, epoch: i64): Removal
  {
    var r := RemoveInOrder(Refresh(ps, epoch), Later(ps));
    if r.panicked || HasLastModified(ps) then r
    else Removal(r.packets + [LastModified(epoch)], false)
  }

  /** The list with its first last-modified record refreshed and every later one dropped. */
  function Tidy(ps: seq<LegacyPacket>, epoch: i64): seq<LegacyPacket>
  {
    if ps == [] then []
    else
      var x := Last(ps);
      Tidy(Init(ps), epoch) + if !IsLastModified(x) then [x] else if HasLastModified(Init(ps)) then [] else [LastModified(epoch)]
  }

  /**
   * What `save` evidently means to leave: exactly one last-modified record,
   * carrying `epoch`, in the place of the first one or appended at the end.
   */
  function Canonical(ps: seq<LegacyPacket>, epoch: i64): seq<LegacyPacket>
  {
    if HasLastModified(ps) then Tidy(ps, epoch) else ps + [LastModified(epoch)]
  }

  /** `search_by_key`: the records whose key is one of `keys`, in list order. */
  function Select(ps: seq<LegacyPacket>, keys: seq<Key>): (r: seq<LegacyPacket>)
    ensures |r| <= |ps|
    ensures forall q :: q in r <==> q in ps && q.key in keys
  {
    if ps == [] then []
    else (if ps[0].key in keys then [ps[0]] else []) + Select(ps[1..], keys)
  }

  /** The loop of `dump`: every record's `raw()`, appended in list order. */
  method RawRecords(ps: seq<LegacyPacket>) returns (body: Bytes)
    ensures body == RawAll(ps)
  {
    body := [];
    var k := 0;
    while k < |ps|
      invariant 0 <= k <= |ps|
      invariant body == RawAll(ps[..k])
    {
      var raw := PayloadToRaw(ps[k].key, ps[k].payload);
      RawAllPrefix(ps, k);
      body := body + raw;
      k := k + 1;
    }
    assert ps[..|ps|] == ps;
  }

  /**
   * The first loop of `save`: the first last-modified record replaced in
   * place, the indices of the later ones collected in ascending order.
   */
  method ScanLastModified(start: seq<LegacyPacket>, epoch: i64)
      returns (ps: seq<LegacyPacket>, removals: seq<nat>, found: bool)
    ensures ps == Refresh(start, epoch) && removals == Later(start)
    ensures found <==> HasLastModified(start)
  {
    ps := start;
    found := false;
    removals := [];
    var i := 0;
    while i < |ps|
      invariant 0 <= i <= |ps| == |start|
      invariant ps[..i] == Refresh(start[..i], epoch)
      invariant ps[i..] == start[i..]
      invariant removals == Later(start[..i])
      invariant found <==> HasLastModified(start[..i])
    {
      assert ps[i] == start[i] by {
        assert ps[i..][0] == start[i..][0];
      }
      RefreshStep(start, i, epoch);
      LaterStep(start, i);
      FoundStep(start, i);
      ghost var before := ps;
      if IsLastModified(ps[i]) {
        if found {
          removals := removals + [i];
        } else {
          ps := ps[i := LastModified(epoch)];
          found := true;
        }
      }
      assert ps[..i + 1] == before[..i] + [ps[i]];
      assert ps[i + 1..] == before[i + 1..] by {
        assert before[i + 1..] == before[i..][1..];
      }
      i := i + 1;
    }
    assert start[..i] == start && ps[..i] == ps;
  }

  /** The second loop of `save`: `Vec::remove` at each collected index, in order. */
  method RemoveEach(start: seq<LegacyPacket>, removals: seq<nat>) returns (r: Removal)
    ensures r == RemoveInOrder(start, removals)
  {
    var ps := start;
    var k := 0;
    while k < |removals|
      invariant 0 <= k <= |removals|
      invariant RemoveInOrder(ps, removals[k..]) == RemoveInOrder(start, removals)
    {
      if removals[k] >= |ps| {
        return Removal(ps, true);
      }
      assert removals[k..][1..] == removals[k + 1..];
      ps := ps[..removals[k]] + ps[removals[k] + 1..];
      k := k + 1;
    }
    assert removals[k..] == [];
    return Removal(ps, false);
  }

  // ------------------------------------------------------------------ the movie

  class TasdMovie {
    var version: u16
    var keylen: u8
    var packets: seq<LegacyPacket>

    /** `TasdMovie::default`: the latest version, two-byte keys, no record. */
    constructor Default()
      ensures version == 1 && keylen == 2 && packets == []
    {
      version := 1;
      keylen := 2;
      packets := [];
    }

    /** `dump`: the header, then each record's `raw()` appended in list order. */
    method Dump() returns (out: Bytes)
      ensures out == DumpOf(version, packets)
    {
      var body := RawRecords(packets);
      out := MagicNumber + BeBytes(version, 2) + [0x02] + body;
    }

    /**
     * `save` as written, with the clock reading passed in as `epoch`: the
     * bytes it would write, or `None` where `Vec::remove` panics.
     */
    method Save(epoch: i64) returns (written: Option<Bytes>)
      modifies this
      ensures version == old(version) && keylen == old(keylen)
      ensures packets == SaveAsWritten(old(packets), epoch).packets
      ensures written.None? <==> SaveAsWritten(old(packets), epoch).panicked
      ensures written.Some? ==> written.value == DumpOf(version, packets)
    {
      var refreshed, removals, found := ScanLastModified(packets, epoch);
      var r := RemoveEach(refreshed, removals);
      if r.panicked {
        packets := r.packets;
        return None;
      }
      if !found {
        packets := r.packets + [LastModified(epoch)];
      } else {
        packets := r.packets;
      }
      var out := Dump();
      written := Some(out);
    }

    /**
     * `save` with the later last-modified records dropped in one pass, so
     * that no removal shifts another: the bytes it would write.
     */
    method SaveCanonical(epoch: i64) returns (written: Bytes)
      modifies this
      ensures version == old(version) && keylen == old(keylen)
      ensures packets == Canonical(old(packets), epoch)
      ensures written == DumpOf(version, packets)
    {
      ghost var start := packets;
      var found := false;
      var kept: seq<LegacyPacket> := [];
      var i := 0;
      while i < |packets|
        invariant 0 <= i <= |packets|
        invariant packets == start && version == old(version) && keylen == old(keylen)
        invariant kept == Tidy(start[..i], epoch)
        invariant found <==> HasLastModified(start[..i])
      {
        TidyStep(start, i, epoch);
        FoundStep(start, i);
        if !IsLastModified(packets[i]) {
          kept := kept + [packets[i]];
        } else if !found {
          kept := kept + [LastModified(epoch)];
          found := true;
        }
        i := i + 1;
      }
      assert start[..i] == start;
      if !found {
        kept := packets + [LastModified(epoch)];
      }
      packets := kept;
      written := Dump();
    }

    /** `search_by_key`: exactly the records whose key is listed, in list order. */
    function SearchByKey(keys: seq<Key>): (r: seq<LegacyPacket>)
      reads this
      ensures forall q :: q in r <==> q in packets && q.key in keys
    {
      Select(packets, keys)
    }
  }
}
