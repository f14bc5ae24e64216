// A receiver for the mirroring packets, and the round trip through it.
module Reassembly {
  import opened Wrappers
  import opened Bytes
  import opened CounterMode
  import opened Mirroring

  datatype Received = Received(
    payloadType: nat, seqNo: nat, timestamp: nat, ssrc: nat, marker: bool, sendTime: nat,
    frameId: nat, packetId: nat, maxPacketId: nat, reference: Option<nat>, payload: seq<byte>)

  function ParsePacket(pkt: seq<byte>): Option<Received> {
    if |pkt| < 29 || pkt[0] != 0x90 || pkt[12..17] != [0xBE, 0xDE, 0x00, 0x01, 0x32] then None
    else if pkt[20] == 0x40 && |pkt| < 33 then None
    else if pkt[20] != 0x80 && pkt[20] != 0x40 then None
    else
      var marker := pkt[1] >= 128;
      var headerEnd := if pkt[20] == 0x80 then 29 else 33;
      Some(Received(
        if marker then pkt[1] as nat - 128 else pkt[1] as nat,
        FromBigEndian(pkt[2..4]), FromBigEndian(pkt[4..8]), FromBigEndian(pkt[8..12]), marker,
        FromBigEndian(pkt[17..20]), FromBigEndian(pkt[21..25]), FromBigEndian(pkt[25..27]),
        FromBigEndian(pkt[27..29]),
        if headerEnd == 33 then Some(FromBigEndian(pkt[29..33])) else None,
        pkt[headerEnd..]))
  }

  predicate Fits(p: Received) {
    && p.payloadType < 128 && p.seqNo < U16_COUNT && p.timestamp < U32_COUNT && p.ssrc < U32_COUNT
    && p.sendTime < 0x100_0000 && p.frameId < U32_COUNT && p.packetId < U16_COUNT && p.maxPacketId < U16_COUNT
    && (p.reference.Some? ==> p.reference.value < U32_COUNT)
  }

  function Serialize(p: Received): seq<byte>
    requires p.payloadType < 128
  {
    Packet(p.payloadType, p.seqNo, p.timestamp, p.ssrc, p.marker, p.sendTime,
           p.frameId, p.packetId, p.maxPacketId, p.reference, p.payload)
  }

  // A slice of one part of a packet.
  lemma SliceOf(before: seq<byte>, part: seq<byte>, after: seq<byte>, i: nat, j: nat)
    requires i <= j <= |part|
    ensures |before| + j <= |before + part + after|
    ensures (before + part + after)[|before| + i..|before| + j] == part[i..j]
  {
  }

  lemma HeaderParts(p: Received)
    requires p.payloadType < 128
    ensures var h := RtpHeader(p.payloadType, p.seqNo, p.timestamp, p.ssrc, p.marker);
      && h[0] == 0x90 && h[1] as nat == p.payloadType + (if p.marker then 128 else 0)
      && h[2..4] == BigEndian(p.seqNo, 2) && h[4..8] == BigEndian(p.timestamp, 4) && h[8..12] == BigEndian(p.ssrc, 4)
    ensures var e := RtpExtension(p.sendTime);
      e[..5] == [0xBE, 0xDE, 0x00, 0x01, 0x32] && e[5..8] == BigEndian(p.sendTime, 3)
  {
    hide BigEndian;
  }

  lemma CastParts(p: Received)
    ensures var c := CastHeader(p.frameId, p.packetId, p.maxPacketId, p.reference);
      && |c| == (if p.reference.Some? then 13 else 9) && c[0] == (if p.reference.None? then 0x80 else 0x40)
      && c[1..5] == BigEndian(p.frameId, 4) && c[5..7] == BigEndian(p.packetId, 2)
      && c[7..9] == BigEndian(p.maxPacketId, 2)
      && (p.reference.Some? ==> c[9..13] == BigEndian(p.reference.value, 4))
  {
    hide BigEndian;
  }

  lemma Layout(p: Received)
    requires p.payloadType < 128
    ensures var pkt := Serialize(p);
      && |pkt| == (if p.reference.Some? then 33 else 29) + |p.payload|
      && pkt[0] == 0x90 && pkt[1] as nat == p.payloadType + (if p.marker then 128 else 0)
      && pkt[2..4] == BigEndian(p.seqNo, 2) && pkt[4..8] == BigEndian(p.timestamp, 4)
      && pkt[8..12] == BigEndian(p.ssrc, 4)
      && pkt[12..17] == [0xBE, 0xDE, 0x00, 0x01, 0x32] && pkt[17..20] == BigEndian(p.sendTime, 3)
      && pkt[20] == (if p.reference.None? then 0x80 else 0x40)
      && pkt[21..25] == BigEndian(p.frameId, 4) && pkt[25..27] == BigEndian(p.packetId, 2)
      && pkt[27..29] == BigEndian(p.maxPacketId, 2)
      && (p.reference.Some? ==> pkt[29..33] == BigEndian(p.reference.value, 4))
      && pkt[if p.reference.Some? then 33 else 29..] == p.payload
  {
    hide BigEndian, RtpHeader, RtpExtension, CastHeader;
    var h := RtpHeader(p.payloadType, p.seqNo, p.timestamp, p.ssrc, p.marker);
    var e, c := RtpExtension(p.sendTime), CastHeader(p.frameId, p.packetId, p.maxPacketId, p.reference);
    HeaderParts(p);
    CastParts(p);
    InHeader(h, e + c + p.payload);
    InExtension(h, e, c + p.payload);
    InCastHeader(h + e, c, p.payload);
    assert Serialize(p) == h + (e + c + p.payload) && Serialize(p) == h + e + (c + p.payload);
  }

  lemma InHeader(h: seq<byte>, rest: seq<byte>)
    requires |h| == 12
    ensures var pkt := h + rest;
      && pkt[0] == h[0] && pkt[1] == h[1] && pkt[2..4] == h[2..4] && pkt[4..8] == h[4..8] && pkt[8..12] == h[8..12]
  {
  }

  lemma InExtension(h: seq<byte>, e: seq<byte>, rest: seq<byte>)
    requires |h| == 12 && |e| == 8
    ensures (h + e + rest)[12..17] == e[..5] && (h + e + rest)[17..20] == e[5..8]
  {
    SliceOf(h, e, rest, 0, 5);
    SliceOf(h, e, rest, 5, 8);
    assert e[0..5] == e[..5];
  }

  lemma InCastHeader(before: seq<byte>, c: seq<byte>, payload: seq<byte>)
    requires |before| == 20 && |c| >= 9
    ensures var pkt := before + c + payload;
      && |pkt| == 20 + |c| + |payload| && pkt[20] == c[0]
      && pkt[21..25] == c[1..5] && pkt[25..27] == c[5..7] && pkt[27..29] == c[7..9]
      && (|c| >= 13 ==> pkt[29..33] == c[9..13]) && pkt[20 + |c|..] == payload
  {
    SliceOf(before, c, payload, 1, 5);
    SliceOf(before, c, payload, 5, 7);
    SliceOf(before, c, payload, 7, 9);
    if |c| >= 13 {
      SliceOf(before, c, payload, 9, 13);
    }
  }

  // Every packet the sender builds is read back field by field.
  lemma PacketRoundTrip(p: Received)
    requires Fits(p)
    ensures ParsePacket(Serialize(p)) == Some(p)
  {
    hide BigEndian, FromBigEndian, Serialize;
    Layout(p);
    Widths();
    assert Power256(3) == 0x100_0000;
    BigEndianRoundTrip(p.seqNo, 2);
    BigEndianRoundTrip(p.timestamp, 4);
    BigEndianRoundTrip(p.ssrc, 4);
    BigEndianRoundTrip(p.sendTime, 3);
    BigEndianRoundTrip(p.frameId, 4);
    BigEndianRoundTrip(p.packetId, 2);
    BigEndianRoundTrip(p.maxPacketId, 2);
    if p.reference.Some? {
      BigEndianRoundTrip(p.reference.value, 4);
    }
  }

  // ---------------------------------------------------------------------
  // What the packets of one frame say.
  // ---------------------------------------------------------------------

  predicate InRange(keys: Keys, c: Counters) {
    keys.ssrc < U32_COUNT && c.seqNo < U16_COUNT && c.frameId < U32_COUNT
  }

  function SentAt(keys: Keys, c: Counters, frame: Frame, clock: nat -> nat, i: nat): Received
    requires i < ChunkCount(|frame.data|)
  {
    var n := ChunkCount(|frame.data|);
    Received(VIDEO_PAYLOAD_TYPE, Wrap16(c.seqNo + i), VideoTimestamp(frame.timestampUs), keys.ssrc, i + 1 == n,
             AbsSendTime(clock(i)), c.frameId, Wrap16(i), Wrap16(n - 1), Reference(frame, c.frameId),
             Encrypt(keys.cipher, keys.key, CastIv(keys.mask, keys.ssrc, c.frameId, Wrap16(i)), Chunk(frame.data, i)))
  }

  // Packet `i` of a frame carries the frame's number, its own index, the
  // index of the last packet, and the marker on the last packet only.
  lemma FramePacketReads(keys: Keys, c: Counters, frame: Frame, clock: nat -> nat, i: nat)
    requires InRange(keys, c) && i < ChunkCount(|frame.data|)
    ensures ParsePacket(FramePackets(keys, c, frame, clock)[i]) == Some(SentAt(keys, c, frame, clock, i))
  {
    hide Packet, VideoTimestamp, AbsSendTime, Wrap16, Wrap32, Encrypt, CastIv, ChunkCount, ParsePacket;
    TimestampFits(frame.timestampUs);
    PacketRoundTrip(SentAt(keys, c, frame, clock, i));
  }

  lemma TimestampFits(us: nat)
    ensures VideoTimestamp(us) < U32_COUNT
  {
  }

  // ---------------------------------------------------------------------
  // Putting a frame back together.
  // ---------------------------------------------------------------------

  // The first packet to arrive with this index.
  function FindPacket(arrived: seq<seq<byte>>, packetId: nat): Option<Received> {
    if arrived == [] then None
    else
      var p := ParsePacket(arrived[0]);
      if p.Some? && p.value.packetId == packetId then p else FindPacket(arrived[1..], packetId)
  }

  function Decrypt(keys: Keys, p: Received): seq<byte> {
    Encrypt(keys.cipher, keys.key, CastIv(keys.mask, p.ssrc, p.frameId, p.packetId), p.payload)
  }

  // The contents of packets 0 up to `count`, in index order.
  function Join(keys: Keys, arrived: seq<seq<byte>>, count: nat): Option<seq<byte>> {
    if count == 0 then Some([])
    else
      var before, p := Join(keys, arrived, count - 1), FindPacket(arrived, count - 1);
      if before.Some? && p.Some? then Some(before.value + Decrypt(keys, p.value)) else None
  }

  function Reassemble(keys: Keys, arrived: seq<seq<byte>>): Option<seq<byte>> {
    if arrived == [] then None
    else match ParsePacket(arrived[0])
      case None => None
      case Some(p) => Join(keys, arrived, p.maxPacketId + 1)
  }

  // Every packet that arrived belongs to the frame.
  ghost predicate Genuine(keys: Keys, c: Counters, frame: Frame, clock: nat -> nat, arrived: seq<seq<byte>>) {
    forall a :: a in arrived ==> a in FramePackets(keys, c, frame, clock)
  }

  lemma {:induction false} FindSent(keys: Keys, c: Counters, frame: Frame, clock: nat -> nat,
                                    arrived: seq<seq<byte>>, k: nat)
    requires InRange(keys, c) && Genuine(keys, c, frame, clock, arrived)
    requires k < ChunkCount(|frame.data|) <= U16_COUNT
    requires FramePackets(keys, c, frame, clock)[k] in arrived
    ensures FindPacket(arrived, k) == Some(SentAt(keys, c, frame, clock, k))
  {
    hide ParsePacket, FramePackets, FramePacket;
    var packets := FramePackets(keys, c, frame, clock);
    assert arrived[0] in packets;
    var j :| 0 <= j < |packets| && packets[j] == arrived[0];
    FramePacketReads(keys, c, frame, clock, j);
    if j != k {
      FramePacketReads(keys, c, frame, clock, k);
      assert packets[k] in arrived[1..];
      FindSent(keys, c, frame, clock, arrived[1..], k);
    }
  }

  lemma DecryptSent(keys: Keys, c: Counters, frame: Frame, clock: nat -> nat, i: nat)
    requires i < ChunkCount(|frame.data|)
    ensures Decrypt(keys, SentAt(keys, c, frame, clock, i)) == Chunk(frame.data, i)
  {
    EncryptCancels(keys.cipher, keys.key, CastIv(keys.mask, keys.ssrc, c.frameId, Wrap16(i)), Chunk(frame.data, i));
  }

  function ChunkEnd(data: seq<byte>, count: nat): (end: nat)
    ensures end <= |data|
  {
    if count * MAX_RTP_PAYLOAD <= |data| then count * MAX_RTP_PAYLOAD else |data|
  }

  lemma {:induction false} JoinSent(keys: Keys, c: Counters, frame: Frame, clock: nat -> nat,
                                    arrived: seq<seq<byte>>, count: nat)
    requires InRange(keys, c) && Genuine(keys, c, frame, clock, arrived)
    requires forall p :: p in FramePackets(keys, c, frame, clock) ==> p in arrived
    requires count <= ChunkCount(|frame.data|) <= U16_COUNT
    ensures Join(keys, arrived, count) == Some(frame.data[..ChunkEnd(frame.data, count)])
  {
    hide ParsePacket, FramePackets, FramePacket, FindPacket, Decrypt, Genuine;
    if count > 0 {
      JoinSent(keys, c, frame, clock, arrived, count - 1);
      FindSent(keys, c, frame, clock, arrived, count - 1);
      DecryptSent(keys, c, frame, clock, count - 1);
      assert frame.data[..ChunkEnd(frame.data, count)]
          == frame.data[..ChunkEnd(frame.data, count - 1)] + Chunk(frame.data, count - 1);
    }
  }

  lemma {:induction false} FoundIsShort(keys: Keys, c: Counters, frame: Frame, clock: nat -> nat,
                                        arrived: seq<seq<byte>>, k: nat)
    requires InRange(keys, c) && Genuine(keys, c, frame, clock, arrived)
    ensures FindPacket(arrived, k).Some? ==> |FindPacket(arrived, k).value.payload| <= MAX_RTP_PAYLOAD
  {
    hide ParsePacket, FramePackets, FramePacket, Encrypt, CastIv;
    if arrived != [] {
      var packets := FramePackets(keys, c, frame, clock);
      assert arrived[0] in packets;
      var j :| 0 <= j < |packets| && packets[j] == arrived[0];
      FramePacketReads(keys, c, frame, clock, j);
      FoundIsShort(keys, c, frame, clock, arrived[1..], k);
    }
  }

  lemma {:induction false} JoinIsShort(keys: Keys, c: Counters, frame: Frame, clock: nat -> nat,
                                       arrived: seq<seq<byte>>, count: nat)
    requires InRange(keys, c) && Genuine(keys, c, frame, clock, arrived)
    ensures Join(keys, arrived, count).Some? ==>
              |Join(keys, arrived, count).value| <= MAX_RTP_PAYLOAD * count
  {
    if count > 0 {
      JoinIsShort(keys, c, frame, clock, arrived, count - 1);
      FoundIsShort(keys, c, frame, clock, arrived, count - 1);
    }
  }

  // Whatever the order and repetition in which all packets of a frame arrive,
  // they give back exactly the frame's bytes if and only if the frame has at
  // least one and at most 65536 chunks.
  lemma RoundTripInAnyOrder(keys: Keys, c: Counters, frame: Frame, clock: nat -> nat, arrived: seq<seq<byte>>)
    requires InRange(keys, c)
    requires forall p :: p in arrived <==> p in FramePackets(keys, c, frame, clock)
    ensures Reassemble(keys, arrived) == Some(frame.data) <==> 1 <= ChunkCount(|frame.data|) <= U16_COUNT
  {
    hide ParsePacket, FramePackets, FramePacket, Join;
    var packets, n := FramePackets(keys, c, frame, clock), ChunkCount(|frame.data|);
    assert n > 0 ==> packets[0] in packets;
    if arrived != [] {
      assert arrived[0] in packets;
      var j :| 0 <= j < |packets| && packets[j] == arrived[0];
      FramePacketReads(keys, c, frame, clock, j);
      if n <= U16_COUNT {
        JoinSent(keys, c, frame, clock, arrived, n);
        assert frame.data[..ChunkEnd(frame.data, n)] == frame.data;
      } else {
        JoinIsShort(keys, c, frame, clock, arrived, Wrap16(n - 1) + 1);
      }
    }
  }

  // ---------------------------------------------------------------------
  // Whole streams.
  // ---------------------------------------------------------------------

  lemma {:induction false} CountersInRange(keys: Keys, shots: seq<Shot>)
    requires keys.ssrc < U32_COUNT
    ensures InRange(keys, AfterAll(keys, START, shots))
  {
    if shots != [] {
      hide FramePackets, VideoTimestamp;
      CountersInRange(keys, shots[..|shots| - 1]);
    }
  }

  // The k-th packet of a stream carries sequence number k modulo 2^16.
  lemma {:induction false} SequenceNumbersRun(keys: Keys, shots: seq<Shot>, k: nat)
    requires keys.ssrc < U32_COUNT && k < |AllPackets(keys, START, shots)|
    ensures var p := ParsePacket(AllPackets(keys, START, shots)[k]);
      p.Some? && p.value.seqNo == Wrap16(k)
  {
    hide ParsePacket, FramePackets, Totals, SentAt, AfterFrame, CountedOctets, Wrap16;
    var init, last := shots[..|shots| - 1], shots[|shots| - 1];
    var sentBefore := |AllPackets(keys, START, init)|;
    if k < sentBefore {
      SequenceNumbersRun(keys, init, k);
    } else {
      CountersInRange(keys, init);
      CountersAreTotals(keys, init);
      SeqFromTotals(AfterAll(keys, START, init), sentBefore, CountedOctets(init), |init|);
      FramePacketReads(keys, AfterAll(keys, START, init), last.frame, last.clock, k - sentBefore);
      SentSeq(keys, AfterAll(keys, START, init), last.frame, last.clock, k - sentBefore);
      Wrap16Add(sentBefore, k - sentBefore);
    }
  }

  lemma SentSeq(keys: Keys, c: Counters, frame: Frame, clock: nat -> nat, i: nat)
    requires i < ChunkCount(|frame.data|)
    ensures SentAt(keys, c, frame, clock, i).seqNo == Wrap16(c.seqNo + i)
  {
  }

  lemma SeqFromTotals(c: Counters, packets: nat, octets: nat, frames: nat)
    requires Totals(c, packets, octets, frames)
    ensures c.seqNo == Wrap16(packets) && c.frameId == Wrap32(frames)
  {
  }

  function IvOf(keys: Keys, shots: seq<Shot>, f: nat, i: nat): Block
    requires f < |shots|
  {
    CastIv(keys.mask, keys.ssrc, AfterAll(keys, START, shots[..f]).frameId, Wrap16(i))
  }

  // In a stream of at most 2^32 frames of at most 65536 packets, two packets
  // that share a counter value are one packet at one block.
  lemma StreamCountersDisjoint(keys: Keys, shots: seq<Shot>, f: nat, i: nat, j: nat, f': nat, i': nat, j': nat)
    requires |shots| <= U32_COUNT && f < |shots| && f' < |shots|
    requires i < ChunkCount(|shots[f].frame.data|) <= U16_COUNT
    requires i' < ChunkCount(|shots[f'].frame.data|) <= U16_COUNT
    requires 16 * j < MAX_RTP_PAYLOAD && 16 * j' < MAX_RTP_PAYLOAD
    requires CounterAt(IvOf(keys, shots, f, i), j) == CounterAt(IvOf(keys, shots, f', i'), j')
    ensures f == f' && i == i' && j == j'
  {
    hide CounterAt, CastIv, ChunkCount;
    CountersAreTotals(keys, shots[..f]);
    CountersAreTotals(keys, shots[..f']);
    CountersDisjoint(keys.mask, keys.ssrc, Wrap32(f), Wrap16(i), j, Wrap32(f'), Wrap16(i'), j');
  }

  // One frame more would start over: its packets repeat frame 0's counters.
  lemma CountersRepeatAfterWrap(keys: Keys, shots: seq<Shot>, i: nat)
    requires |shots| == U32_COUNT + 1
    ensures IvOf(keys, shots, U32_COUNT, i) == IvOf(keys, shots, 0, i)
  {
    CountersAreTotals(keys, shots[..U32_COUNT]);
    CountersAreTotals(keys, shots[..0]);
  }

  // ---------------------------------------------------------------------
  // A receiver for whole streams.
  // ---------------------------------------------------------------------

  // The packets that say they belong to this frame, as they arrived.
  function OfFrame(arrived: seq<seq<byte>>, frameId: nat): seq<seq<byte>> {
    if arrived == [] then []
    else
      var p, rest := ParsePacket(arrived[0]), OfFrame(arrived[1..], frameId);
      if p.Some? && p.value.frameId == frameId then [arrived[0]] + rest else rest
  }

  lemma {:induction false} OfFrameExactly(arrived: seq<seq<byte>>, frameId: nat, pkt: seq<byte>)
    ensures pkt in OfFrame(arrived, frameId)
       <==> pkt in arrived && ParsePacket(pkt).Some? && ParsePacket(pkt).value.frameId == frameId
  {
    hide ParsePacket;
    if arrived != [] {
      OfFrameExactly(arrived[1..], frameId, pkt);
      assert pkt in arrived <==> pkt == arrived[0] || pkt in arrived[1..];
    }
  }

  // The packets of frame `f` of a stream.
  function PacketsOf(keys: Keys, shots: seq<Shot>, f: nat): seq<seq<byte>>
    requires f < |shots|
  {
    FramePackets(keys, AfterAll(keys, START, shots[..f]), shots[f].frame, shots[f].clock)
  }

  lemma {:induction false} SentByOne(keys: Keys, shots: seq<Shot>, pkt: seq<byte>)
    ensures pkt in AllPackets(keys, START, shots)
       <==> exists f :: 0 <= f < |shots| && pkt in PacketsOf(keys, shots, f)
  {
    hide FramePackets, AfterFrame;
    if shots != [] {
      var n := |shots| - 1;
      var init := shots[..n];
      SentByOne(keys, init, pkt);
      forall f | 0 <= f < n ensures PacketsOf(keys, init, f) == PacketsOf(keys, shots, f) {
        assert init[..f] == shots[..f] && init[f] == shots[f];
      }
      if pkt in AllPackets(keys, START, shots) && pkt in AllPackets(keys, START, init) {
        var f :| 0 <= f < |init| && pkt in PacketsOf(keys, init, f);
        assert pkt in PacketsOf(keys, shots, f);
      } else if pkt in AllPackets(keys, START, shots) {
        assert pkt in PacketsOf(keys, shots, n);
      }
    }
  }

  // Packets of frame `f` say `f`, in a stream of up to 2^32 frames.
  lemma SaysItsFrame(keys: Keys, shots: seq<Shot>, f: nat, pkt: seq<byte>)
    requires keys.ssrc < U32_COUNT && f < |shots| <= U32_COUNT && pkt in PacketsOf(keys, shots, f)
    ensures ParsePacket(pkt).Some? && ParsePacket(pkt).value.frameId == f
  {
    hide ParsePacket, FramePackets, AfterFrame;
    var c := AfterAll(keys, START, shots[..f]);
    CountersInRange(keys, shots[..f]);
    CountersAreTotals(keys, shots[..f]);
    SeqFromTotals(c, |AllPackets(keys, START, shots[..f])|, CountedOctets(shots[..f]), f);
    var i :| 0 <= i < |PacketsOf(keys, shots, f)| && PacketsOf(keys, shots, f)[i] == pkt;
    FramePacketReads(keys, c, shots[f].frame, shots[f].clock, i);
  }

  // The receiver sorts what arrives by frame. Whatever packets of a stream of
  // up to 2^32 frames arrive, in whatever order and however often, a frame
  // all of whose packets are among them comes back as its exact bytes if and
  // only if it has at least one and at most 65536 chunks.
  lemma StreamRoundTrip(keys: Keys, shots: seq<Shot>, arrived: seq<seq<byte>>, f: nat)
    requires keys.ssrc < U32_COUNT && f < |shots| <= U32_COUNT
    requires forall p :: p in arrived ==> p in AllPackets(keys, START, shots)
    requires forall p :: p in PacketsOf(keys, shots, f) ==> p in arrived
    ensures Reassemble(keys, OfFrame(arrived, f)) == Some(shots[f].frame.data)
       <==> 1 <= ChunkCount(|shots[f].frame.data|) <= U16_COUNT
  {
    hide ParsePacket, FramePackets, AfterFrame, Reassemble, ChunkCount, OfFrame;
    var mine := OfFrame(arrived, f);
    forall p ensures p in mine <==> p in PacketsOf(keys, shots, f) {
      OfFrameExactly(arrived, f, p);
      if p in PacketsOf(keys, shots, f) {
        SaysItsFrame(keys, shots, f, p);
      } else if p in mine {
        SentByOne(keys, shots, p);
        var g :| 0 <= g < |shots| && p in PacketsOf(keys, shots, g);
        SaysItsFrame(keys, shots, g, p);
      }
    }
    CountersInRange(keys, shots[..f]);
    RoundTripInAnyOrder(keys, AfterAll(keys, START, shots[..f]), shots[f].frame, shots[f].clock, mine);
  }

  // ---------------------------------------------------------------------
  // Every packet of a stream, field by field.
  // ---------------------------------------------------------------------

  lemma ChunkIs(data: seq<byte>, i: nat, x: nat)
    requires i < ChunkCount(|data|)
    ensures ChunkCount(|data|) == (|data| + 1399) / 1400
    ensures |Chunk(data, i)| == if i + 1 < ChunkCount(|data|) then 1400 else |data| - 1400 * i
    ensures x < |Chunk(data, i)| ==> 1400 * i + x < |data| && Chunk(data, i)[x] == data[1400 * i + x]
  {
  }

  // What packet `i` of frame `f` of a stream says, read from its octets: the
  // fields told from the stream alone, and a payload that is 1400 octets of
  // the frame, fewer only in the last packet, under the cipher's keystream
  // for this stream, frame and packet number.
  lemma EveryPacketSays(keys: Keys, shots: seq<Shot>, f: nat, i: nat)
    requires keys.ssrc < U32_COUNT && f < |shots| && i < |PacketsOf(keys, shots, f)|
    ensures var frame, clock, n := shots[f].frame, shots[f].clock, |PacketsOf(keys, shots, f)|;
      var p := ParsePacket(PacketsOf(keys, shots, f)[i]);
      var iv := CastIv(keys.mask, keys.ssrc, f % 0x1_0000_0000, i % 0x1_0000);
      && n == (|frame.data| + 1399) / 1400
      && p.Some? && p.value.payloadType == 96 && p.value.ssrc == keys.ssrc
      && p.value.seqNo == (|AllPackets(keys, START, shots[..f])| + i) % 0x1_0000
      && p.value.timestamp == frame.timestampUs * 9 % 0x1_0000_0000_0000_0000 / 100 % 0x1_0000_0000
      && p.value.sendTime == clock(i) * 9 % 0x1_0000_0000_0000_0000 / 100 % 0x1_0000_0000 % 0x100_0000
      && (p.value.marker <==> i + 1 == n)
      && p.value.frameId == f % 0x1_0000_0000
      && p.value.packetId == i % 0x1_0000 && p.value.maxPacketId == (n - 1) % 0x1_0000
      && p.value.reference == (if frame.isKeyFrame then None else Some((f + 0xFFFF_FFFF) % 0x1_0000_0000))
      && |p.value.payload| == (if i + 1 < n then 1400 else |frame.data| - 1400 * i)
      && forall x :: 0 <= x < |p.value.payload| ==>
           1400 * i + x < |frame.data|
           && Xor(p.value.payload[x], frame.data[1400 * i + x]) == Keystream(keys.cipher, keys.key, iv, 88)[x]
  {
    hide ParsePacket, FramePackets, AfterFrame, Chunk, ChunkCount, Encrypt, CastIv, Keystream, Wrap16;
    var frame, c := shots[f].frame, AfterAll(keys, START, shots[..f]);
    CountersInRange(keys, shots[..f]);
    CountersAreTotals(keys, shots[..f]);
    SeqFromTotals(c, |AllPackets(keys, START, shots[..f])|, CountedOctets(shots[..f]), f);
    FramePacketReads(keys, c, frame, shots[f].clock, i);
    WrapIs(|AllPackets(keys, START, shots[..f])|, i, f, ChunkCount(|frame.data|));
    ChunkIs(frame.data, i, 0);
    var iv, chunk := CastIv(keys.mask, keys.ssrc, c.frameId, Wrap16(i)), Chunk(frame.data, i);
    EncryptIsKeystream(keys.cipher, keys.key, iv, 88, chunk);
    forall x | 0 <= x < |chunk| ensures 1400 * i + x < |frame.data| && chunk[x] == frame.data[1400 * i + x] {
      ChunkIs(frame.data, i, x);
    }
  }

  lemma WrapIs(packets: nat, i: nat, f: nat, n: nat)
    ensures Wrap16(Wrap16(packets) + i) == (packets + i) % 0x1_0000 && Wrap16(i) == i % 0x1_0000
    ensures n > 0 ==> Wrap16(n - 1) == (n - 1) % 0x1_0000
    ensures Wrap32(f) == f % 0x1_0000_0000
    ensures Wrap32(Wrap32(f) + U32_COUNT - 1) == (f + 0xFFFF_FFFF) % 0x1_0000_0000
  {
  }

  // The octets of a packet's header, most significant first: version 2 with an
  // extension, the send-time extension, and the key-frame or reference flag.
  lemma HeaderOctetsAre(keys: Keys, shots: seq<Shot>, f: nat, i: nat)
    requires keys.ssrc < U32_COUNT && f < |shots| && i < |PacketsOf(keys, shots, f)|
    ensures var pkt, n := PacketsOf(keys, shots, f)[i], |PacketsOf(keys, shots, f)|;
      var seqNo, frameId := (|AllPackets(keys, START, shots[..f])| + i) % 0x1_0000, f % 0x1_0000_0000;
      && |pkt| >= 29 && pkt[0] == 0x90 && pkt[1] == (if i + 1 == n then 224 else 96)
      && 0x100 * pkt[2] as nat + pkt[3] as nat == seqNo
      && pkt[12..17] == [0xBE, 0xDE, 0x00, 0x01, 0x32]
      && pkt[20] == (if shots[f].frame.isKeyFrame then 0x80 else 0x40)
      && 0x100_0000 * pkt[21] as nat + 0x1_0000 * pkt[22] as nat + 0x100 * pkt[23] as nat + pkt[24] as nat == frameId
      && 0x100 * pkt[25] as nat + pkt[26] as nat == i % 0x1_0000
      && 0x100 * pkt[27] as nat + pkt[28] as nat == (n - 1) % 0x1_0000
  {
    hide FramePackets, AfterFrame, FromBigEndian, ChunkCount, ParsePacket, CastIv, Keystream;
    EveryPacketSays(keys, shots, f, i);
    ReadFromOctets(PacketsOf(keys, shots, f)[i]);
  }

  // Where a packet that can be read has its fields.
  lemma ReadFromOctets(pkt: seq<byte>)
    requires ParsePacket(pkt).Some?
    ensures var p := ParsePacket(pkt).value;
      && |pkt| >= 29 && pkt[0] == 0x90 && pkt[1] as nat == p.payloadType + (if p.marker then 128 else 0)
      && 0x100 * pkt[2] as nat + pkt[3] as nat == p.seqNo
      && pkt[12..17] == [0xBE, 0xDE, 0x00, 0x01, 0x32]
      && pkt[20] == (if p.reference.None? then 0x80 else 0x40)
      && 0x100_0000 * pkt[21] as nat + 0x1_0000 * pkt[22] as nat + 0x100 * pkt[23] as nat + pkt[24] as nat == p.frameId
      && 0x100 * pkt[25] as nat + pkt[26] as nat == p.packetId
      && 0x100 * pkt[27] as nat + pkt[28] as nat == p.maxPacketId
  {
    hide FromBigEndian;
    NumbersAt(pkt);
  }

  lemma NumbersAt(pkt: seq<byte>)
    requires |pkt| >= 29
    ensures FromBigEndian(pkt[2..4]) == 0x100 * pkt[2] as nat + pkt[3] as nat
    ensures FromBigEndian(pkt[21..25])
         == 0x100_0000 * pkt[21] as nat + 0x1_0000 * pkt[22] as nat + 0x100 * pkt[23] as nat + pkt[24] as nat
    ensures FromBigEndian(pkt[25..27]) == 0x100 * pkt[25] as nat + pkt[26] as nat
    ensures FromBigEndian(pkt[27..29]) == 0x100 * pkt[27] as nat + pkt[28] as nat
  {
    hide FromBigEndian, BigEndian;
    BigEndianIs(pkt[2], pkt[3], 0, 0);
    BigEndianIs(pkt[21], pkt[22], pkt[23], pkt[24]);
    BigEndianIs(pkt[25], pkt[26], 0, 0);
    BigEndianIs(pkt[27], pkt[28], 0, 0);
    assert pkt[2..4] == [pkt[2], pkt[3]] && pkt[21..25] == [pkt[21], pkt[22], pkt[23], pkt[24]];
    assert pkt[25..27] == [pkt[25], pkt[26]] && pkt[27..29] == [pkt[27], pkt[28]];
  }
}
