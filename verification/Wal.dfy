/**
  The byte formats of the store directory (crates/tst-core/src/persistence.rs):
  log frames of a big-endian length, a CRC and a payload, and the snapshot file.
  MessagePack and CRC-32 are some codec of which only the round trip is known;
  an encoder may refuse an event, as `rmp_serde` may.
 */
module Wal {
  import opened Wrappers
  import opened History

  newtype byte = x: int | 0 <= x < 0x100
  newtype uint32 = x: int | 0 <= x < 0x1_0000_0000

  datatype Snapshot = Snapshot(schema: nat, records: Records)

  datatype RawCodec = RawCodec(
    encodeEvent: WalEvent -> Option<seq<byte>>,
    decodeEvent: seq<byte> -> Option<WalEvent>,
    encodeSnapshot: Snapshot -> Option<seq<byte>>,
    decodeSnapshot: seq<byte> -> Option<Snapshot>,
    crc32: seq<byte> -> uint32
  )

  ghost predicate IsCodec(codec: RawCodec) {
    && (forall e :: codec.encodeEvent(e).Some? ==>
          |codec.encodeEvent(e).value| > 0 && codec.decodeEvent(codec.encodeEvent(e).value) == Some(e))
    && (forall s :: codec.encodeSnapshot(s).Some? ==> codec.decodeSnapshot(codec.encodeSnapshot(s).value) == Some(s))
  }

  type Codec = codec: RawCodec | IsCodec(codec)
    witness RawCodec(_ => None, _ => None, _ => None, _ => None, _ => 0)

  /** Some codec; nothing below depends on which one it is. */
  const CODEC: Codec

  const MAX_FRAME_BYTES: nat := 16 * 1024 * 1024
  const MAX_SNAPSHOT_BYTES: nat := MAX_FRAME_BYTES * 16
  const SNAPSHOT_MAGIC: seq<byte> := [67, 85, 80, 84, 83, 84, 48, 49]
  const SNAPSHOT_SCHEMA_VERSION: nat := 1

  // ---------- big-endian words ----------

  function Pow256(width: nat): nat {
    if width == 0 then 1 else 256 * Pow256(width - 1)
  }

  /** The low `width` bytes of a number, most significant first. */
  function ToBigEndian(n: nat, width: nat): (bytes: seq<byte>)
    ensures |bytes| == width
  {
    if width == 0 then [] else ToBigEndian(n / 256, width - 1) + [(n % 256) as byte]
  }

  function FromBigEndian(bytes: seq<byte>): nat {
    if bytes == [] then 0 else 256 * FromBigEndian(bytes[..|bytes| - 1]) + bytes[|bytes| - 1] as nat
  }

  lemma {:induction false} BigEndianRoundTrip(n: nat, width: nat)
    requires n < Pow256(width)
    ensures FromBigEndian(ToBigEndian(n, width)) == n
  {
    if width > 0 {
      BigEndianRoundTrip(n / 256, width - 1);
      assert ToBigEndian(n, width)[..width - 1] == ToBigEndian(n / 256, width - 1);
    }
  }

  lemma {:induction false} BigEndianOfNumber(bytes: seq<byte>)
    ensures FromBigEndian(bytes) < Pow256(|bytes|)
    ensures ToBigEndian(FromBigEndian(bytes), |bytes|) == bytes
  {
    if bytes != [] {
      var last := |bytes| - 1;
      BigEndianOfNumber(bytes[..last]);
      assert bytes == bytes[..last] + [bytes[last]];
    }
  }

  function ToBe32(n: uint32): (bytes: seq<byte>)
    ensures |bytes| == 4
  {
    ToBigEndian(n as nat, 4)
  }

  function FromBe32(bytes: seq<byte>): uint32
    requires |bytes| == 4
  {
    BigEndianOfNumber(bytes);
    Word();
    FromBigEndian(bytes) as uint32
  }

  lemma Word()
    ensures Pow256(4) == 0x1_0000_0000
  {
    assert Pow256(2) == 0x1_0000;
  }

  lemma Be32RoundTrip(n: uint32)
    ensures FromBe32(ToBe32(n)) == n
  {
    Word();
    BigEndianRoundTrip(n as nat, 4);
  }

  lemma Be32OfWord(bytes: seq<byte>)
    requires |bytes| == 4
    ensures ToBe32(FromBe32(bytes)) == bytes
  {
    BigEndianOfNumber(bytes);
  }

  lemma BigEndianSnoc(front: seq<byte>, last: byte)
    ensures FromBigEndian(front + [last]) == 256 * FromBigEndian(front) + last as nat
  {
    assert (front + [last])[..|front|] == front;
  }

  lemma ShiftedSum(x: nat, power: nat, y: nat, z: nat)
    ensures 256 * (x * power + y) + z == x * (256 * power) + (256 * y + z)
  {
    assert 256 * (x * power) == x * (256 * power);
  }

  /** The first byte counts most. */
  lemma {:induction false} BigEndianConcat(a: seq<byte>, b: seq<byte>)
    ensures FromBigEndian(a + b) == FromBigEndian(a) * Pow256(|b|) + FromBigEndian(b)
  {
    if b == [] {
      assert a + b == a;
    } else {
      var front, last := b[..|b| - 1], b[|b| - 1];
      assert Pow256(|b|) == 256 * Pow256(|front|);
      hide FromBigEndian, Pow256;
      assert a + b == (a + front) + [last] && b == front + [last];
      BigEndianConcat(a, front);
      BigEndianSnoc(a + front, last);
      BigEndianSnoc(front, last);
      ShiftedSum(FromBigEndian(a), Pow256(|front|), FromBigEndian(front), last as nat);
    }
  }

  lemma BigEndianByte(b: byte)
    ensures FromBigEndian([b]) == b as nat
    ensures Pow256(1) == 256
  {
    assert [b][..0] == [];
  }

  // ---------- frames ----------

  function Frame(payload: seq<byte>): seq<byte>
    requires |payload| <= MAX_FRAME_BYTES
  {
    ToBe32(|payload| as uint32) + ToBe32(CODEC.crc32(payload)) + payload
  }

  /** The frame `append` writes for an event; there is none if it cannot be encoded or is too long. */
  function FrameOf(event: WalEvent): (frame: Option<seq<byte>>)
    ensures frame.Some? ==> |frame.value| > 8
  {
    match CODEC.encodeEvent(event)
    case None => None
    case Some(payload) => if |payload| > MAX_FRAME_BYTES then None else Some(Frame(payload))
  }

  /** What one turn of the replay loop finds at the start of `bytes`. */
  datatype FrameRead =
    | Stop
    | Undecodable
    | Decoded(event: WalEvent, size: nat)

  function NextFrame(bytes: seq<byte>): (next: FrameRead)
    ensures next.Decoded? ==> 8 < next.size <= |bytes|
  {
    if |bytes| < 8 then Stop
    else
      var length := FromBe32(bytes[0..4]) as nat;
      var expectedCrc := FromBe32(bytes[4..8]);
      if length == 0 || length > MAX_FRAME_BYTES then Stop
      else if |bytes| - 8 < length then Stop
      else
        var payload := bytes[8..8 + length];
        if CODEC.crc32(payload) != expectedCrc then Stop
        else
          match CODEC.decodeEvent(payload)
          case None => Undecodable
          case Some(event) => Decoded(event, 8 + length)
  }

  /** The events of the valid frames at the start of `bytes`, their total size, and whether all could be decoded. */
  datatype LogScan = LogScan(events: seq<WalEvent>, size: nat, ok: bool)

  function Scan(bytes: seq<byte>): (r: LogScan)
    ensures r.size <= |bytes|
    ensures r.size == 0 ==> r.events == []
    decreases |bytes|
  {
    match NextFrame(bytes)
    case Stop => LogScan([], 0, true)
    case Undecodable => LogScan([], 0, false)
    case Decoded(event, size) =>
      var rest := Scan(bytes[size..]);
      LogScan([event] + rest.events, size + rest.size, rest.ok)
  }

  // ---------- logs ----------

  predicate Loggable(events: seq<WalEvent>) {
    forall i :: 0 <= i < |events| ==> FrameOf(events[i]).Some?
  }

  function Log(events: seq<WalEvent>): seq<byte>
    requires Loggable(events)
  {
    if events == [] then [] else FrameOf(events[0]).value + Log(events[1..])
  }

  /** What an interrupted append leaves behind: a proper prefix of a frame, possibly empty. */
  ghost predicate Torn(tail: seq<byte>) {
    tail == [] || exists e: WalEvent :: FrameOf(e).Some? && tail < FrameOf(e).value
  }

  lemma {:induction false} LogConcat(a: seq<WalEvent>, b: seq<WalEvent>)
    requires Loggable(a) && Loggable(b)
    ensures Loggable(a + b) && Log(a + b) == Log(a) + Log(b)
  {
    hide FrameOf;
    if a == [] {
      assert a + b == b;
    } else {
      assert (a + b)[1..] == a[1..] + b;
      LogConcat(a[1..], b);
    }
  }

  lemma LogSnoc(events: seq<WalEvent>, event: WalEvent)
    requires Loggable(events) && FrameOf(event).Some?
    ensures Loggable(events + [event]) && Log(events + [event]) == Log(events) + FrameOf(event).value
  {
    LogConcat(events, [event]);
  }

  // ---------- framing round trips ----------

  /** A whole frame is read back as its event, whatever follows it. */
  lemma NextOfFrame(event: WalEvent, rest: seq<byte>)
    requires FrameOf(event).Some?
    ensures NextFrame(FrameOf(event).value + rest) == Decoded(event, |FrameOf(event).value|)
  {
    var payload := CODEC.encodeEvent(event).value;
    var bytes := FrameOf(event).value + rest;
    Be32RoundTrip(|payload| as uint32);
    Be32RoundTrip(CODEC.crc32(payload));
    assert bytes[0..4] == ToBe32(|payload| as uint32);
    assert bytes[4..8] == ToBe32(CODEC.crc32(payload));
    assert bytes[8..8 + |payload|] == payload;
  }

  /** Less than a whole frame is never read as one. */
  lemma NextOfTorn(tail: seq<byte>)
    requires Torn(tail)
    ensures NextFrame(tail) == Stop
  {
    if |tail| >= 8 {
      var event: WalEvent :| FrameOf(event).Some? && tail < FrameOf(event).value;
      var payload := CODEC.encodeEvent(event).value;
      Be32RoundTrip(|payload| as uint32);
      assert tail[0..4] == FrameOf(event).value[0..4] == ToBe32(|payload| as uint32);
    }
  }

  /** A frame is four bytes of length, four of checksum, and the payload; there is one up to 16 MiB. */
  lemma FrameLayout(event: WalEvent)
    ensures FrameOf(event).Some?
       <==> CODEC.encodeEvent(event).Some? && |CODEC.encodeEvent(event).value| <= 16777216
    ensures FrameOf(event).Some? ==>
              var frame, payload := FrameOf(event).value, CODEC.encodeEvent(event).value;
              && |frame| == 8 + |payload| && FromBigEndian(frame[..4]) == |payload|
              && FromBigEndian(frame[4..8]) == CODEC.crc32(payload) as nat && frame[8..] == payload
  {
    if FrameOf(event).Some? {
      var frame, payload := FrameOf(event).value, CODEC.encodeEvent(event).value;
      Word();
      BigEndianRoundTrip(|payload|, 4);
      BigEndianRoundTrip(CODEC.crc32(payload) as nat, 4);
      assert frame[..4] == ToBe32(|payload| as uint32) && frame[4..8] == ToBe32(CODEC.crc32(payload));
    }
  }

  /** The bytes begin with this payload under its length and checksum. */
  ghost predicate BeginsWithFrame(bytes: seq<byte>, payload: seq<byte>) {
    && 0 < |payload| <= 16777216 && |bytes| >= 8 + |payload| && bytes[8..8 + |payload|] == payload
    && FromBigEndian(bytes[..4]) == |payload| && FromBigEndian(bytes[4..8]) == CODEC.crc32(payload) as nat
  }

  /**
    One turn of the replay loop on any bytes: a frame with its checksum is decoded
    or found undecodable, and everything else ends the log, be it too short, of
    length zero, over the limit, incomplete or damaged.
   */
  lemma NextFrameReads(bytes: seq<byte>)
    ensures NextFrame(bytes).Stop? <==> forall payload :: !BeginsWithFrame(bytes, payload)
    ensures forall payload :: BeginsWithFrame(bytes, payload) ==>
              NextFrame(bytes) == match CODEC.decodeEvent(payload)
                                  case None => Undecodable
                                  case Some(event) => Decoded(event, 8 + |payload|)
  {
    hide FromBigEndian;
    if |bytes| >= 8 {
      assert bytes[0..4] == bytes[..4];
      var length := FromBigEndian(bytes[..4]);
      if NextFrame(bytes) != Stop {
        assert BeginsWithFrame(bytes, bytes[8..8 + length]);
      }
    }
  }

  /** A zero-filled tail ends the log; it is not taken for an event that cannot be decoded. */
  lemma ZerosEndLog(bytes: seq<byte>)
    requires forall i :: 0 <= i < |bytes| ==> bytes[i] == 0
    ensures NextFrame(bytes) == Stop
  {
    NextFrameReads(bytes);
    if |bytes| >= 8 {
      var zeros := bytes[..4];
      BigEndianByte(0);
      BigEndianConcat(zeros[..3], [0]);
      BigEndianConcat(zeros[..2], [0]);
      BigEndianConcat(zeros[..1], [0]);
      assert zeros == zeros[..3] + [0] && zeros[..3] == zeros[..2] + [0] && zeros[..2] == zeros[..1] + [0];
      assert zeros[..1] == [0];
    }
  }

  /** A scan goes on to the first bytes that no event can be decoded from, and fails only if those are a frame. */
  lemma {:induction false} ScanEnds(bytes: seq<byte>)
    ensures var scanned := Scan(bytes);
            && !NextFrame(bytes[scanned.size..]).Decoded?
            && (scanned.ok <==> NextFrame(bytes[scanned.size..]).Stop?)
    decreases |bytes|
  {
    hide NextFrame;
    var next := NextFrame(bytes);
    if next.Decoded? {
      var rest := Scan(bytes[next.size..]);
      ScanEnds(bytes[next.size..]);
      assert bytes[next.size..][rest.size..] == bytes[next.size + rest.size..];
    } else {
      assert bytes[0..] == bytes;
    }
  }

  /** Only frames are read as frames: length, checksum and payload all hold, and the payload decodes to the event. */
  lemma DecodedIsFrame(bytes: seq<byte>)
    requires NextFrame(bytes).Decoded?
    ensures var next := NextFrame(bytes);
            var payload := bytes[8..next.size];
            && 0 < |payload| <= MAX_FRAME_BYTES
            && bytes[..next.size] == Frame(payload)
            && CODEC.decodeEvent(payload) == Some(next.event)
  {
    var size := NextFrame(bytes).size;
    Be32OfWord(bytes[0..4]);
    Be32OfWord(bytes[4..8]);
    assert bytes[..size] == bytes[0..4] + bytes[4..8] + bytes[8..size];
  }

  /** Scanning a log finds its events and the end of its last whole frame, if what follows is no frame. */
  lemma {:induction false} ScanUntil(events: seq<WalEvent>, rest: seq<byte>)
    requires Loggable(events) && !NextFrame(rest).Decoded?
    ensures Scan(Log(events) + rest) == LogScan(events, |Log(events)|, NextFrame(rest).Stop?)
  {
    hide FrameOf, NextFrame;
    if events == [] {
      assert Log(events) + rest == rest;
    } else {
      var frame, later := FrameOf(events[0]).value, Log(events[1..]) + rest;
      assert Log(events) + rest == frame + later;
      NextOfFrame(events[0], later);
      assert (frame + later)[|frame|..] == later;
      ScanUntil(events[1..], rest);
      assert [events[0]] + events[1..] == events;
    }
  }

  /** Scanning a log, with or without a torn tail, finds its events and the end of its last whole frame. */
  lemma ScanLog(events: seq<WalEvent>, tail: seq<byte>)
    requires Loggable(events) && Torn(tail)
    ensures Scan(Log(events) + tail) == LogScan(events, |Log(events)|, true)
  {
    NextOfTorn(tail);
    ScanUntil(events, tail);
  }

  /** A frame whose payload no longer has its checksum ends the log, even when whole frames follow it. */
  lemma DamagedFrameEndsLog(events: seq<WalEvent>, event: WalEvent, damaged: seq<byte>, rest: seq<byte>)
    requires Loggable(events) && FrameOf(event).Some?
    requires var payload := CODEC.encodeEvent(event).value;
             |damaged| == |payload| && CODEC.crc32(damaged) != CODEC.crc32(payload)
    ensures var frame := FrameOf(event).value[..8] + damaged;
            Scan(Log(events) + (frame + rest)) == LogScan(events, |Log(events)|, true)
  {
    DamagedFrameStops(event, damaged, rest);
    ScanUntil(events, FrameOf(event).value[..8] + damaged + rest);
  }

  lemma DamagedFrameStops(event: WalEvent, damaged: seq<byte>, rest: seq<byte>)
    requires FrameOf(event).Some?
    requires var payload := CODEC.encodeEvent(event).value;
             |damaged| == |payload| && CODEC.crc32(damaged) != CODEC.crc32(payload)
    ensures NextFrame(FrameOf(event).value[..8] + damaged + rest) == Stop
  {
    var payload := CODEC.encodeEvent(event).value;
    var bytes := FrameOf(event).value[..8] + damaged + rest;
    Be32RoundTrip(|payload| as uint32);
    Be32RoundTrip(CODEC.crc32(payload));
    assert bytes[0..4] == ToBe32(|payload| as uint32);
    assert bytes[4..8] == ToBe32(CODEC.crc32(payload));
    assert bytes[8..8 + |damaged|] == damaged;
  }

  /** Scanning from any frame boundary of a log finds the remaining events. */
  lemma ScanFromBoundary(events: seq<WalEvent>, done: nat, tail: seq<byte>)
    requires Loggable(events) && Torn(tail) && done <= |events|
    ensures |Log(events[..done])| <= |Log(events)|
    ensures Scan((Log(events) + tail)[|Log(events[..done])|..])
         == LogScan(events[done..], |Log(events)| - |Log(events[..done])|, true)
  {
    hide FrameOf, NextFrame;
    assert events == events[..done] + events[done..];
    LogConcat(events[..done], events[done..]);
    assert (Log(events) + tail)[|Log(events[..done])|..] == Log(events[done..]) + tail;
    ScanLog(events[done..], tail);
  }

  // ---------- a log cut anywhere ----------

  /** How many whole frames fit into the first `length` bytes. */
  function Fitting(events: seq<WalEvent>, length: nat): (count: nat)
    requires Loggable(events)
    ensures count <= |events|
  {
    if events == [] || length < |FrameOf(events[0]).value| then 0
    else 1 + Fitting(events[1..], length - |FrameOf(events[0]).value|)
  }

  /** `Fitting` is the longest prefix whose frames fit. */
  lemma {:induction false} FittingIsLongest(events: seq<WalEvent>, length: nat)
    requires Loggable(events)
    ensures var count := Fitting(events, length);
            && |Log(events[..count])| <= length
            && (count < |events| ==> length < |Log(events[..count + 1])|)
  {
    hide FrameOf;
    if events != [] {
      var size := |FrameOf(events[0]).value|;
      assert events[..1] == [events[0]] && Log([events[0]]) == FrameOf(events[0]).value + Log([]);
      if size <= length {
        var rest := events[1..];
        FittingIsLongest(rest, length - size);
        var count := Fitting(rest, length - size);
        assert events[..count + 1][1..] == rest[..count];
        if count < |rest| {
          assert events[..count + 2][1..] == rest[..count + 1];
        }
      }
    }
  }

  lemma SliceConcat(a: seq<byte>, b: seq<byte>, length: nat)
    requires |a| <= length <= |a| + |b|
    ensures (a + b)[..length] == a + b[..length - |a|]
  {
  }

  lemma LogHead(events: seq<WalEvent>, count: nat)
    requires Loggable(events) && events != [] && count < |events|
    ensures Log(events[..count + 1]) == FrameOf(events[0]).value + Log(events[1..][..count])
  {
    assert events[..count + 1][1..] == events[1..][..count];
  }

  /** Cutting a log at any byte leaves the frames that fit and a torn tail. */
  lemma {:induction false} CutLog(events: seq<WalEvent>, length: nat) returns (tail: seq<byte>)
    requires Loggable(events) && length <= |Log(events)|
    ensures Torn(tail) && Log(events)[..length] == Log(events[..Fitting(events, length)]) + tail
  {
    hide FrameOf;
    if events == [] {
      tail := [];
    } else {
      var frame, rest := FrameOf(events[0]).value, events[1..];
      if length < |frame| {
        tail := frame[..length];
        assert Log(events)[..length] == tail;
        assert Log(events[..0]) + tail == tail;
      } else {
        tail := CutLog(rest, length - |frame|);
        var count := Fitting(rest, length - |frame|);
        SliceConcat(frame, Log(rest), length);
        LogHead(events, count);
        assert frame + (Log(rest[..count]) + tail) == (frame + Log(rest[..count])) + tail;
      }
    }
  }

  // ---------- snapshot files ----------

  function SnapshotFile(payload: seq<byte>): seq<byte> {
    SNAPSHOT_MAGIC + ToBe32(CODEC.crc32(payload)) + ToBe32((|payload| % 0x1_0000_0000) as uint32) + payload
  }

  /** The payload of a snapshot file, if its header and checksum hold. */
  function SnapshotPayload(file: seq<byte>): Result<seq<byte>> {
    if |file| < 16 then Err
    else if file[0..8] != SNAPSHOT_MAGIC then Err
    else
      var expectedCrc := FromBe32(file[8..12]);
      var length := FromBe32(file[12..16]) as nat;
      if length > MAX_SNAPSHOT_BYTES then Err
      else if |file| - 16 < length then Err
      else
        var payload := file[16..16 + length];
        if CODEC.crc32(payload) != expectedCrc then Err else Ok(payload)
  }

  /** The file begins with the magic of the format and this payload under its checksum and length. */
  ghost predicate BeginsWithSnapshot(file: seq<byte>, payload: seq<byte>) {
    && |payload| <= 268435456 && |file| >= 16 + |payload| && file[16..16 + |payload|] == payload
    && file[..8] == [67, 85, 80, 84, 83, 84, 48, 49]
    && FromBigEndian(file[8..12]) == CODEC.crc32(payload) as nat && FromBigEndian(file[12..16]) == |payload|
  }

  /** A snapshot file is read exactly if it begins so; anything else is unreadable. */
  lemma SnapshotPayloadReads(file: seq<byte>, payload: seq<byte>)
    ensures SnapshotPayload(file) == Ok(payload) <==> BeginsWithSnapshot(file, payload)
  {
    if |file| >= 16 {
      assert file[0..8] == file[..8];
    }
  }

  /** A written snapshot can be read back exactly when its payload is within the limit that only the reader checks. */
  lemma SnapshotFileRoundTrip(payload: seq<byte>)
    ensures SnapshotPayload(SnapshotFile(payload)) == Ok(payload) <==> |payload| <= MAX_SNAPSHOT_BYTES
  {
    var file := SnapshotFile(payload);
    var length := (|payload| % 0x1_0000_0000) as uint32;
    Be32RoundTrip(CODEC.crc32(payload));
    Be32RoundTrip(length);
    assert file[0..8] == SNAPSHOT_MAGIC;
    assert file[8..12] == ToBe32(CODEC.crc32(payload));
    assert file[12..16] == ToBe32(length);
    if |payload| < 0x1_0000_0000 {
      assert file[16..16 + |payload|] == payload;
    }
  }

  /** The length field of the file wraps to a size within the limit, and the checksum of that many bytes collides. */
  predicate WrapsToValid(payload: seq<byte>) {
    var length := |payload| % 0x1_0000_0000;
    length <= MAX_SNAPSHOT_BYTES && CODEC.crc32(payload[..length]) == CODEC.crc32(payload)
  }

  /** A payload over the limit is refused, unless its length wraps and the checksum collides; then its start is read. */
  lemma OversizedIsUnreadable(payload: seq<byte>)
    requires |payload| > MAX_SNAPSHOT_BYTES
    ensures SnapshotPayload(SnapshotFile(payload))
         == if WrapsToValid(payload) then Ok(payload[..|payload| % 0x1_0000_0000]) else Err
  {
    var file := SnapshotFile(payload);
    var length := |payload| % 0x1_0000_0000;
    Be32RoundTrip(CODEC.crc32(payload));
    Be32RoundTrip(length as uint32);
    assert file[0..8] == SNAPSHOT_MAGIC;
    assert file[8..12] == ToBe32(CODEC.crc32(payload));
    assert file[12..16] == ToBe32(length as uint32);
    assert file[16..16 + length] == payload[..length];
  }
}
