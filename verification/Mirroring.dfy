// The Cast Streaming sender: cutting frames into encrypted packets and
// keeping the sender-report counters.
module Mirroring {
  import opened Wrappers
  import opened Bytes
  import opened CounterMode

  const MAX_RTP_PAYLOAD := 1400
  const VIDEO_PAYLOAD_TYPE: nat := 96
  const AUDIO_PAYLOAD_TYPE: nat := 97

  // ---------------------------------------------------------------------
  // Packet layout (sections 5.1 and 5.3.1 of RFC 3550).
  // ---------------------------------------------------------------------

  function RtpHeader(payloadType: nat, seqNo: nat, timestamp: nat, ssrc: nat, marker: bool): (h: seq<byte>)
    requires payloadType < 128
    ensures |h| == 12
  {
    [0x90, (payloadType + if marker then 128 else 0) as byte]
    + BigEndian(seqNo, 2) + BigEndian(timestamp, 4) + BigEndian(ssrc, 4)
  }

  function RtpExtension(sendTime: nat): (e: seq<byte>)
    ensures |e| == 8
  {
    [0xBE, 0xDE, 0x00, 0x01, 0x32] + BigEndian(sendTime, 3)
  }

  function CastHeader(frameId: nat, packetId: nat, maxPacketId: nat, reference: Option<nat>): seq<byte> {
    [if reference.None? then 0x80 else 0x40]
    + BigEndian(frameId, 4) + BigEndian(packetId, 2) + BigEndian(maxPacketId, 2)
    + (if reference.Some? then BigEndian(reference.value, 4) else [])
  }

  function Packet(payloadType: nat, seqNo: nat, timestamp: nat, ssrc: nat, marker: bool, sendTime: nat,
                  frameId: nat, packetId: nat, maxPacketId: nat, reference: Option<nat>,
                  payload: seq<byte>): seq<byte>
    requires payloadType < 128
  {
    RtpHeader(payloadType, seqNo, timestamp, ssrc, marker) + RtpExtension(sendTime)
    + CastHeader(frameId, packetId, maxPacketId, reference) + payload
  }

  // Machine counters wrap at their width.
  function Wrap16(n: nat): (w: nat)
    ensures w < U16_COUNT && (n < U16_COUNT ==> w == n)
  {
    n % U16_COUNT
  }

  function Wrap32(n: nat): (w: nat)
    ensures w < U32_COUNT && (n < U32_COUNT ==> w == n)
  {
    n % U32_COUNT
  }

  lemma Wrap16Add(a: nat, k: nat)
    ensures Wrap16(Wrap16(a) + k) == Wrap16(a + k)
  {
  }

  lemma Wrap32Add(a: nat, k: nat)
    ensures Wrap32(Wrap32(a) + k) == Wrap32(a + k)
  {
  }

  // ---------------------------------------------------------------------
  // The sender.
  // ---------------------------------------------------------------------

  datatype Keys = Keys(cipher: Cipher, ssrc: nat, key: Block, mask: Block)

  datatype Frame = Frame(data: seq<byte>, isKeyFrame: bool, timestampUs: nat)

  // The video counters of a stream; each wraps at its own width.
  datatype Counters = Counters(seqNo: nat, frameId: nat, packets: nat, octets: nat, timestamp: nat)

  const START := Counters(0, 0, 0, 0, 0)

  // Microseconds to 90 kHz ticks, in the machine's widths.
  function VideoTimestamp(us: nat): nat {
    Wrap32((us * 9) % U64_COUNT / 100)
  }

  // Wall-clock microseconds to the low 24 bits of the 90 kHz tick count.
  function AbsSendTime(us: nat): (t: nat)
    ensures t < 0x100_0000
  {
    VideoTimestamp(us) % 0x100_0000
  }

  // 90 000 ticks to the second, from zero on, until the product leaves 64 bits.
  lemma NinetyKilohertz(us: nat)
    requires (us + 1_000_000) * 9 < U64_COUNT
    ensures VideoTimestamp(0) == 0 && VideoTimestamp(us) * 100 <= us * 9
    ensures VideoTimestamp(us + 1_000_000) == (VideoTimestamp(us) + 90_000) % 0x1_0000_0000
    ensures us * 9 < 100 * U32_COUNT ==> us * 9 < (VideoTimestamp(us) + 1) * 100
  {
    hide VideoTimestamp, Wrap32;
    VideoTicks(0);
    VideoTicks(us);
    VideoTicks(us + 1_000_000);
    SecondOfTicks(us);
    Wrap32Add(us * 9 / 100, 90_000);
    Wrap32Below(us * 9 / 100);
    Wrap32Below(0);
    Wrap32Is(Wrap32(us * 9 / 100) + 90_000);
  }

  lemma VideoTicks(us: nat)
    requires us * 9 < U64_COUNT
    ensures VideoTimestamp(us) == Wrap32(us * 9 / 100)
  {
    hide Wrap32;
    Below(us * 9, U64_COUNT);
  }

  lemma Below(n: nat, bound: nat)
    requires n < bound
    ensures n % bound == n
  {
  }

  lemma SecondOfTicks(us: nat)
    ensures (us + 1_000_000) * 9 / 100 == us * 9 / 100 + 90_000
    ensures us * 9 / 100 * 100 <= us * 9 < (us * 9 / 100 + 1) * 100
  {
  }

  lemma Wrap32Below(n: nat)
    ensures Wrap32(n) <= n && (n < U32_COUNT ==> Wrap32(n) == n)
  {
  }

  lemma Wrap32Is(n: nat)
    ensures Wrap32(n) == n % 0x1_0000_0000
  {
  }

  function ChunkCount(length: nat): nat {
    (length + MAX_RTP_PAYLOAD - 1) / MAX_RTP_PAYLOAD
  }

  function Chunk(data: seq<byte>, i: nat): seq<byte>
    requires i < ChunkCount(|data|)
  {
    var from := i * MAX_RTP_PAYLOAD;
    if from + MAX_RTP_PAYLOAD <= |data| then data[from..from + MAX_RTP_PAYLOAD] else data[from..]
  }

  function Reference(frame: Frame, frameId: nat): Option<nat> {
    if frame.isKeyFrame then None else Some(Wrap32(frameId + U32_COUNT - 1))
  }

  // Packet `i` of a frame that starts at counters `c`.
  function FramePacket(keys: Keys, c: Counters, frame: Frame, clock: nat -> nat, i: nat): seq<byte>
    requires i < ChunkCount(|frame.data|)
  {
    var n := ChunkCount(|frame.data|);
    var packetId := Wrap16(i);
    Packet(VIDEO_PAYLOAD_TYPE, Wrap16(c.seqNo + i), VideoTimestamp(frame.timestampUs), keys.ssrc, i + 1 == n,
           AbsSendTime(clock(i)), c.frameId, packetId, Wrap16(n - 1), Reference(frame, c.frameId),
           Encrypt(keys.cipher, keys.key, CastIv(keys.mask, keys.ssrc, c.frameId, packetId), Chunk(frame.data, i)))
  }

  function FramePackets(keys: Keys, c: Counters, frame: Frame, clock: nat -> nat): (packets: seq<seq<byte>>)
    ensures |packets| == ChunkCount(|frame.data|)
  {
    seq(ChunkCount(|frame.data|), i requires 0 <= i < ChunkCount(|frame.data|) =>
      FramePacket(keys, c, frame, clock, i))
  }

  function TotalLength(packets: seq<seq<byte>>): nat {
    if packets == [] then 0 else TotalLength(packets[..|packets| - 1]) + |packets[|packets| - 1]|
  }

  function AfterFrame(keys: Keys, c: Counters, frame: Frame, clock: nat -> nat): Counters {
    var packets := FramePackets(keys, c, frame, clock);
    Counters(Wrap16(c.seqNo + |packets|), Wrap32(c.frameId + 1),
             Wrap32(c.packets + |packets|), Wrap32(c.octets + TotalLength(packets)),
             VideoTimestamp(frame.timestampUs))
  }

  lemma TotalLengthStep(packets: seq<seq<byte>>, i: nat)
    requires i < |packets|
    ensures TotalLength(packets[..i + 1]) == TotalLength(packets[..i]) + |packets[i]|
  {
    assert packets[..i + 1][..i] == packets[..i];
  }

  lemma FramePacketAt(keys: Keys, c: Counters, frame: Frame, clock: nat -> nat, i: nat)
    requires i < ChunkCount(|frame.data|)
    ensures FramePackets(keys, c, frame, clock)[i] == FramePacket(keys, c, frame, clock, i)
  {
  }

  lemma TotalLengthEnds(packets: seq<seq<byte>>)
    ensures TotalLength(packets[..0]) == 0 && packets[..|packets|] == packets
  {
  }

  class MirrorStream {
    const keys: Keys
    var seqNo: nat
    var frameId: nat
    var packets: nat
    var octets: nat
    var timestamp: nat

    ghost function Value(): Counters
      reads this
    {
      Counters(seqNo, frameId, packets, octets, timestamp)
    }

    ghost predicate Valid()
      reads this
    {
      seqNo < U16_COUNT && packets < U32_COUNT && octets < U32_COUNT
    }

    constructor (keys: Keys)
      ensures this.keys == keys && Value() == START && Valid()
    {
      this.keys := keys;
      seqNo, frameId, packets, octets, timestamp := 0, 0, 0, 0, 0;
    }

    // Build packet `i` of a frame and count it.
    method SendPacket(frame: Frame, i: nat, n: nat, ts: nat, clock: nat -> nat, ghost c: Counters)
      returns (packet: seq<byte>)
      requires i < n == ChunkCount(|frame.data|) && ts == VideoTimestamp(frame.timestampUs)
      requires frameId == c.frameId && seqNo == Wrap16(c.seqNo + i)
      modifies this`seqNo, this`packets, this`octets
      ensures packet == FramePacket(keys, c, frame, clock, i)
      ensures seqNo == Wrap16(c.seqNo + i + 1)
      ensures packets == Wrap32(old(packets) + 1) && octets == Wrap32(old(octets) + |packet|)
    {
      hide Packet, CastIv, Encrypt, Chunk, VideoTimestamp, AbsSendTime, Reference, ChunkCount;
      var packetId := Wrap16(i);
      var iv := CastIv(keys.mask, keys.ssrc, frameId, packetId);
      packet := Packet(VIDEO_PAYLOAD_TYPE, seqNo, ts, keys.ssrc, i + 1 == n, AbsSendTime(clock(i)), frameId, packetId,
                       Wrap16(n - 1), Reference(frame, frameId),
                       Encrypt(keys.cipher, keys.key, iv, Chunk(frame.data, i)));
      Wrap16Add(c.seqNo + i, 1);
      packets := Wrap32(packets + 1);
      octets := Wrap32(octets + |packet|);
      seqNo := Wrap16(seqNo + 1);
    }

    // Send one frame: the packets handed to the socket, in order.
    method SendFrame(frame: Frame, clock: nat -> nat) returns (sent: seq<seq<byte>>)
      requires Valid()
      modifies this
      ensures Valid()
      ensures sent == FramePackets(keys, old(Value()), frame, clock)
      ensures Value() == AfterFrame(keys, old(Value()), frame, clock)
    {
      hide FramePacket, FramePackets, VideoTimestamp, ChunkCount, Wrap16, Wrap32, TotalLength;
      var ts := VideoTimestamp(frame.timestampUs);
      var n := ChunkCount(|frame.data|);
      ghost var c := Value();
      ghost var all := FramePackets(keys, c, frame, clock);
      TotalLengthEnds(all);
      sent := [];
      var i := 0;
      while i < n
        invariant 0 <= i <= n
        invariant |sent| == i && forall k :: 0 <= k < i ==> sent[k] == all[k]
        invariant frameId == c.frameId && Valid()
        invariant seqNo == Wrap16(c.seqNo + i)
        invariant packets == Wrap32(c.packets + i)
        invariant octets == Wrap32(c.octets + TotalLength(all[..i]))
      {
        TotalLengthStep(all, i);
        FramePacketAt(keys, c, frame, clock, i);
        Wrap32Add(c.packets + i, 1);
        Wrap32Add(c.octets + TotalLength(all[..i]), |all[i]|);
        var packet := SendPacket(frame, i, n, ts, clock, c);
        sent := sent + [packet];
        i := i + 1;
      }
      assert sent == all;
      timestamp := ts;
      frameId := Wrap32(frameId + 1);
    }
  }

  // ---------------------------------------------------------------------
  // Whole runs.
  // ---------------------------------------------------------------------

  datatype Shot = Shot(frame: Frame, clock: nat -> nat)

  function AfterAll(keys: Keys, c: Counters, shots: seq<Shot>): Counters {
    if shots == [] then c
    else AfterFrame(keys, AfterAll(keys, c, shots[..|shots| - 1]), shots[|shots| - 1].frame, shots[|shots| - 1].clock)
  }

  // Everything sent, in order.
  function AllPackets(keys: Keys, c: Counters, shots: seq<Shot>): seq<seq<byte>> {
    if shots == [] then []
    else
      var last := shots[|shots| - 1];
      AllPackets(keys, c, shots[..|shots| - 1])
      + FramePackets(keys, AfterAll(keys, c, shots[..|shots| - 1]), last.frame, last.clock)
  }

  // The header octets of `n` packets of a frame.
  function HeaderOctets(frame: Frame, n: nat): nat {
    if frame.isKeyFrame then 29 * n else 33 * n
  }

  // The octets of a run as the code counts them: every payload octet and the
  // headers of every packet.
  function CountedOctets(shots: seq<Shot>): nat {
    if shots == [] then 0
    else
      var frame := shots[|shots| - 1].frame;
      CountedOctets(shots[..|shots| - 1]) + |frame.data| + HeaderOctets(frame, ChunkCount(|frame.data|))
  }

  lemma FramePacketLength(keys: Keys, c: Counters, frame: Frame, clock: nat -> nat, i: nat)
    requires i < ChunkCount(|frame.data|)
    ensures |FramePacket(keys, c, frame, clock, i)| == HeaderOctets(frame, 1) + |Chunk(frame.data, i)|
  {
    hide Encrypt, CastIv, VideoTimestamp, BigEndian;
  }

  lemma {:induction false} FramePrefixLength(keys: Keys, c: Counters, frame: Frame, clock: nat -> nat, i: nat)
    requires i <= ChunkCount(|frame.data|)
    ensures TotalLength(FramePackets(keys, c, frame, clock)[..i])
         == HeaderOctets(frame, i) + (if i == ChunkCount(|frame.data|) then |frame.data| else MAX_RTP_PAYLOAD * i)
  {
    hide FramePacket;
    var packets := FramePackets(keys, c, frame, clock);
    if i > 0 {
      FramePrefixLength(keys, c, frame, clock, i - 1);
      assert packets[..i][..i - 1] == packets[..i - 1];
      FramePacketLength(keys, c, frame, clock, i - 1);
    }
  }

  ghost predicate Totals(c: Counters, packets: nat, octets: nat, frames: nat) {
    && c.packets == Wrap32(packets) && c.seqNo == Wrap16(packets)
    && c.octets == Wrap32(octets) && c.frameId == Wrap32(frames)
  }

  lemma FrameTotals(keys: Keys, c: Counters, shot: Shot, packets: nat, octets: nat, frames: nat)
    requires Totals(c, packets, octets, frames)
    ensures var n := ChunkCount(|shot.frame.data|);
      Totals(AfterFrame(keys, c, shot.frame, shot.clock),
             packets + n, octets + |shot.frame.data| + HeaderOctets(shot.frame, n), frames + 1)
  {
    hide FramePackets, VideoTimestamp, HeaderOctets, ChunkCount, Wrap16, Wrap32, TotalLength;
    var sent := FramePackets(keys, c, shot.frame, shot.clock);
    FramePrefixLength(keys, c, shot.frame, shot.clock, |sent|);
    assert sent[..|sent|] == sent;
    Wrap32Add(packets, |sent|);
    Wrap16Add(packets, |sent|);
    Wrap32Add(octets, TotalLength(sent));
    Wrap32Add(frames, 1);
  }

  // After any run the counters hold the totals, each modulo its width; the
  // octet count includes all headers, unlike section 6.4.1 of RFC 3550.
  lemma {:induction false} CountersAreTotals(keys: Keys, shots: seq<Shot>)
    ensures Totals(AfterAll(keys, START, shots), |AllPackets(keys, START, shots)|, CountedOctets(shots), |shots|)
  {
    hide AfterFrame, ChunkCount, HeaderOctets, FramePackets;
    if shots == [] {
      assert Wrap32(0) == 0 && Wrap16(0) == 0;
    } else {
      hide Totals;
      var init := shots[..|shots| - 1];
      CountersAreTotals(keys, init);
      FrameTotals(keys, AfterAll(keys, START, init), shots[|shots| - 1],
                  |AllPackets(keys, START, init)|, CountedOctets(init), |init|);
    }
  }
}
