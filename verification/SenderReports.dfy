// Sender reports: when a stream's two tracks are reported, and what the
// reports say about the packets sent before them (section 6.4.1 of RFC 3550).
module SenderReports {
  import opened Wrappers
  import opened Bytes
  import opened CounterMode
  import opened Mirroring
  import Reassembly
  import Calendar

  const RTCP_INTERVAL := 1_000_000_000 // nanoseconds
  const NTP_UNIX_OFFSET_S := 2_208_988_800
  const NANOS := 1_000_000_000

  datatype Report = Report(ssrc: nat, ntpSec: nat, ntpFrac: nat, timestamp: nat, packets: nat, octets: nat)

  // What goes to the socket, in order. `at` is the monotonic time of a report.
  datatype Datagram =
    | VideoData(bytes: seq<byte>)
    | AudioData(bytes: seq<byte>)
    | VideoReport(report: Report, at: int)
    | AudioReport(report: Report, at: int)

  // ---------------------------------------------------------------------
  // One report.
  // ---------------------------------------------------------------------

  function ReportBytes(r: Report): seq<byte> {
    [0x80, 200, 0x00, 0x06] + BigEndian(r.ssrc, 4) + BigEndian(r.ntpSec, 4) + BigEndian(r.ntpFrac, 4)
    + BigEndian(r.timestamp, 4) + BigEndian(r.packets, 4) + BigEndian(r.octets, 4)
  }

  function ParseReport(pkt: seq<byte>): Option<Report> {
    if |pkt| != 28 || pkt[..4] != [0x80, 200, 0x00, 0x06] then None
    else Some(Report(FromBigEndian(pkt[4..8]), FromBigEndian(pkt[8..12]), FromBigEndian(pkt[12..16]),
                     FromBigEndian(pkt[16..20]), FromBigEndian(pkt[20..24]), FromBigEndian(pkt[24..28])))
  }

  lemma ReportLayout(r: Report)
    ensures var pkt := ReportBytes(r);
      && |pkt| == 28 && pkt[..4] == [0x80, 200, 0x00, 0x06] && pkt[4..8] == BigEndian(r.ssrc, 4)
      && pkt[8..12] == BigEndian(r.ntpSec, 4) && pkt[12..16] == BigEndian(r.ntpFrac, 4)
      && pkt[16..20] == BigEndian(r.timestamp, 4) && pkt[20..24] == BigEndian(r.packets, 4)
      && pkt[24..28] == BigEndian(r.octets, 4)
  {
    hide BigEndian;
  }

  lemma ReportRoundTrip(r: Report)
    requires r.ssrc < U32_COUNT && r.ntpSec < U32_COUNT && r.ntpFrac < U32_COUNT
    requires r.timestamp < U32_COUNT && r.packets < U32_COUNT && r.octets < U32_COUNT
    ensures ParseReport(ReportBytes(r)) == Some(r)
  {
    hide BigEndian, FromBigEndian, ReportBytes;
    ReportLayout(r);
    Widths();
    BigEndianRoundTrip(r.ssrc, 4);
    BigEndianRoundTrip(r.ntpSec, 4);
    BigEndianRoundTrip(r.ntpFrac, 4);
    BigEndianRoundTrip(r.timestamp, 4);
    BigEndianRoundTrip(r.packets, 4);
    BigEndianRoundTrip(r.octets, 4);
  }

  // Wall-clock nanoseconds since 1970 to whole seconds since 1900 and the
  // binary fraction of the second, each in 32 bits.
  function NtpSec(wallNs: nat): nat {
    Wrap32(wallNs / NANOS + NTP_UNIX_OFFSET_S)
  }

  function NtpFrac(wallNs: nat): nat {
    Wrap32(wallNs % NANOS * U32_COUNT / NANOS)
  }

  // The seconds are those of the calendar since 1 January 1900, in 32 bits.
  lemma NtpSecIs(wallNs: nat)
    ensures Calendar.ValidDate(Calendar.Date(1900, 1, 1))
    ensures NtpSec(wallNs)
         == (wallNs / 1_000_000_000 - 86_400 * Calendar.DayNumber(Calendar.Date(1900, 1, 1))) % 0x1_0000_0000
  {
    assert Calendar.DayNumber(Calendar.Date(1900, 1, 1)) == -25_567;
  }

  // The fraction never wraps, and it is the greatest one not after the clock.
  lemma NtpFracExact(wallNs: nat)
    ensures NtpFrac(wallNs) * NANOS <= wallNs % NANOS * U32_COUNT < (NtpFrac(wallNs) + 1) * NANOS
  {
    assert wallNs % NANOS * U32_COUNT / NANOS < U32_COUNT;
  }

  // ---------------------------------------------------------------------
  // The two tracks.
  // ---------------------------------------------------------------------

  datatype Times = Times(now: int, wallNs: nat)

  datatype AudioFrame = AudioFrame(data: seq<byte>, timestampUs: nat)

  // One call of the sender.
  datatype Input =
    | Video(shot: Shot, times: Times)
    | Audio(frame: AudioFrame, sendClock: nat, times: Times)

  datatype Tracks = Tracks(video: Counters, audio: Counters, lastReport: int)

  datatype TrackKeys = TrackKeys(video: Keys, audio: Option<Keys>)

  // Time zero of the reports lies an interval back, so that the first one is due.
  function Initial(now: int): Tracks {
    Tracks(START, START, now - RTCP_INTERVAL)
  }

  // Microseconds to 48 kHz ticks, in the machine's widths.
  function AudioTimestamp(us: nat): (t: nat)
    ensures t < U32_COUNT
  {
    Wrap32((us * 48) % U64_COUNT / 1000)
  }

  // 48 000 ticks to the second, from zero on, until the product leaves 64 bits.
  lemma FortyEightKilohertz(us: nat)
    requires (us + 1_000_000) * 48 < U64_COUNT
    ensures AudioTimestamp(0) == 0 && AudioTimestamp(us) * 1000 <= us * 48
    ensures AudioTimestamp(us + 1_000_000) == (AudioTimestamp(us) + 48_000) % 0x1_0000_0000
    ensures us * 48 < 1000 * U32_COUNT ==> us * 48 < (AudioTimestamp(us) + 1) * 1000
  {
    hide AudioTimestamp, Wrap32;
    AudioTicks(0);
    AudioTicks(us);
    AudioTicks(us + 1_000_000);
    SecondOfAudio(us);
    Wrap32Add(us * 48 / 1000, 48_000);
    Wrap32Below(us * 48 / 1000);
    Wrap32Below(0);
    Wrap32Is(Wrap32(us * 48 / 1000) + 48_000);
  }

  lemma AudioTicks(us: nat)
    requires us * 48 < U64_COUNT
    ensures AudioTimestamp(us) == Wrap32(us * 48 / 1000)
  {
    hide Wrap32;
    Below(us * 48, U64_COUNT);
  }

  lemma SecondOfAudio(us: nat)
    ensures (us + 1_000_000) * 48 / 1000 == us * 48 / 1000 + 48_000
    ensures us * 48 / 1000 * 1000 <= us * 48 < (us * 48 / 1000 + 1) * 1000
  {
  }

  // A whole audio frame is one packet, always a key frame.
  function AudioPacket(keys: Keys, c: Counters, frame: AudioFrame, sendClock: nat): seq<byte> {
    Packet(AUDIO_PAYLOAD_TYPE, c.seqNo, AudioTimestamp(frame.timestampUs), keys.ssrc, true, AbsSendTime(sendClock),
           c.frameId, 0, 0, None,
           Encrypt(keys.cipher, keys.key, CastIv(keys.mask, keys.ssrc, c.frameId, 0), frame.data))
  }

  // What a receiver makes of an audio packet: exactly the frame's bytes.
  lemma AudioRoundTrip(keys: Keys, c: Counters, frame: AudioFrame, sendClock: nat)
    requires Reassembly.InRange(keys, c)
    ensures Reassembly.Reassemble(keys, [AudioPacket(keys, c, frame, sendClock)]) == Some(frame.data)
  {
    hide Packet, AudioTimestamp, AbsSendTime, Encrypt, CastIv, Reassembly.ParsePacket;
    var iv := CastIv(keys.mask, keys.ssrc, c.frameId, 0);
    var p := Reassembly.Received(AUDIO_PAYLOAD_TYPE, c.seqNo, AudioTimestamp(frame.timestampUs), keys.ssrc, true,
                                 AbsSendTime(sendClock), c.frameId, 0, 0, None,
                                 Encrypt(keys.cipher, keys.key, iv, frame.data));
    Reassembly.PacketRoundTrip(p);
    EncryptCancels(keys.cipher, keys.key, iv, frame.data);
    var packet := AudioPacket(keys, c, frame, sendClock);
    assert packet == Reassembly.Serialize(p);
    assert Reassembly.FindPacket([packet], 0) == Some(p);
    assert Reassembly.Join(keys, [packet], 0) == Some([]);
    assert [] + frame.data == frame.data;
  }

  function AfterAudio(keys: Keys, c: Counters, frame: AudioFrame, sendClock: nat): Counters {
    Counters(Wrap16(c.seqNo + 1), Wrap32(c.frameId + 1), Wrap32(c.packets + 1),
             Wrap32(c.octets + |AudioPacket(keys, c, frame, sendClock)|), AudioTimestamp(frame.timestampUs))
  }

  function ReportOf(keys: Keys, c: Counters, times: Times): Report {
    Report(keys.ssrc, NtpSec(times.wallNs), NtpFrac(times.wallNs), c.timestamp, c.packets, c.octets)
  }

  predicate Due(lastReport: int, times: Times) {
    times.now - lastReport >= RTCP_INTERVAL
  }

  // The periodic reports: video always, audio once some has been sent.
  function PeriodicReports(keys: TrackKeys, s: Tracks, times: Times): seq<Datagram> {
    if !Due(s.lastReport, times) then []
    else if keys.audio.Some? && s.audio.packets > 0 then
      [VideoReport(ReportOf(keys.video, s.video, times), times.now),
       AudioReport(ReportOf(keys.audio.value, s.audio, times), times.now)]
    else [VideoReport(ReportOf(keys.video, s.video, times), times.now)]
  }

  function AfterReports(s: Tracks, times: Times): Tracks {
    if Due(s.lastReport, times) then s.(lastReport := times.now) else s
  }

  function VideoDatagrams(packets: seq<seq<byte>>): (datagrams: seq<Datagram>)
    ensures |datagrams| == |packets|
  {
    seq(|packets|, i requires 0 <= i < |packets| => VideoData(packets[i]))
  }

  function AfterInput(keys: TrackKeys, s: Tracks, input: Input): Tracks {
    match input
    case Video(shot, times) =>
      AfterReports(s.(video := AfterFrame(keys.video, s.video, shot.frame, shot.clock)), times)
    case Audio(frame, sendClock, times) =>
      if keys.audio.None? then s
      else
        var s' := s.(audio := AfterAudio(keys.audio.value, s.audio, frame, sendClock));
        if s.audio.packets == 0 then s' else AfterReports(s', times)
  }

  function Sent(keys: TrackKeys, s: Tracks, input: Input): seq<Datagram> {
    match input
    case Video(shot, times) =>
      VideoDatagrams(FramePackets(keys.video, s.video, shot.frame, shot.clock))
      + PeriodicReports(keys, s.(video := AfterFrame(keys.video, s.video, shot.frame, shot.clock)), times)
    case Audio(frame, sendClock, times) =>
      if keys.audio.None? then []
      else
        var audio := AfterAudio(keys.audio.value, s.audio, frame, sendClock);
        [AudioData(AudioPacket(keys.audio.value, s.audio, frame, sendClock))]
        + (if s.audio.packets == 0 then [AudioReport(ReportOf(keys.audio.value, audio, times), times.now)]
           else PeriodicReports(keys, s.(audio := audio), times))
  }

  // ---------------------------------------------------------------------
  // The object that does the sending.
  // ---------------------------------------------------------------------

  class ReportingStream {
    const keys: TrackKeys
    const video: MirrorStream
    var audioSeq: nat
    var audioFrameId: nat
    var audioPackets: nat
    var audioOctets: nat
    var lastAudioTimestamp: nat
    var lastReport: int

    ghost function Value(): Tracks
      reads this, video
    {
      Tracks(video.Value(), Counters(audioSeq, audioFrameId, audioPackets, audioOctets, lastAudioTimestamp), lastReport)
    }

    ghost predicate Valid()
      reads this, video
    {
      video.keys == keys.video && video.Valid()
    }

    constructor (keys: TrackKeys, now: int)
      ensures Valid() && fresh(video) && this.keys == keys
      ensures Value() == Initial(now)
    {
      this.keys := keys;
      video := new MirrorStream(keys.video);
      audioSeq, audioFrameId, audioPackets, audioOctets, lastAudioTimestamp := 0, 0, 0, 0, 0;
      lastReport := now - RTCP_INTERVAL;
    }

    method MaybeSendReports(times: Times) returns (sent: seq<Datagram>)
      requires Valid()
      modifies this`lastReport
      ensures Valid() && Value() == AfterReports(old(Value()), times)
      ensures sent == PeriodicReports(keys, old(Value()), times)
    {
      if times.now - lastReport < RTCP_INTERVAL {
        return [];
      }
      lastReport := times.now;
      sent := [VideoReport(Report(keys.video.ssrc, NtpSec(times.wallNs), NtpFrac(times.wallNs),
                                  video.timestamp, video.packets, video.octets), times.now)];
      if keys.audio.Some? && audioPackets > 0 {
        sent := sent + [AudioReport(Report(keys.audio.value.ssrc, NtpSec(times.wallNs), NtpFrac(times.wallNs),
                                           lastAudioTimestamp, audioPackets, audioOctets), times.now)];
      }
    }

    method SendVideoFrame(shot: Shot, times: Times) returns (sent: seq<Datagram>)
      requires Valid()
      modifies this, video
      ensures Valid()
      ensures Value() == AfterInput(keys, old(Value()), Video(shot, times))
      ensures sent == Sent(keys, old(Value()), Video(shot, times))
    {
      hide AfterFrame, FramePackets, PeriodicReports, AfterReports;
      var packets := video.SendFrame(shot.frame, shot.clock);
      var reports := MaybeSendReports(times);
      sent := VideoDatagrams(packets) + reports;
    }

    // Without audio keys the frame is dropped silently.
    method SendAudioFrame(frame: AudioFrame, sendClock: nat, times: Times) returns (sent: seq<Datagram>)
      requires Valid()
      modifies this
      ensures Valid()
      ensures Value() == AfterInput(keys, old(Value()), Audio(frame, sendClock, times))
      ensures sent == Sent(keys, old(Value()), Audio(frame, sendClock, times))
    {
      hide PeriodicReports, AfterReports;
      if keys.audio.None? {
        return [];
      }
      var k := keys.audio.value;
      var ts := AudioTimestamp(frame.timestampUs);
      var iv := CastIv(k.mask, k.ssrc, audioFrameId, 0);
      var packet := Packet(AUDIO_PAYLOAD_TYPE, audioSeq, ts, k.ssrc, true, AbsSendTime(sendClock), audioFrameId,
                           0, 0, None, Encrypt(k.cipher, k.key, iv, frame.data));
      var firstAudio := audioPackets == 0;
      audioPackets := Wrap32(audioPackets + 1);
      audioOctets := Wrap32(audioOctets + |packet|);
      lastAudioTimestamp := ts;
      audioSeq := Wrap16(audioSeq + 1);
      audioFrameId := Wrap32(audioFrameId + 1);
      var reports;
      if firstAudio {
        reports := [AudioReport(Report(k.ssrc, NtpSec(times.wallNs), NtpFrac(times.wallNs),
                                       lastAudioTimestamp, audioPackets, audioOctets), times.now)];
      } else {
        reports := MaybeSendReports(times);
      }
      sent := [AudioData(packet)] + reports;
    }
  }

  // ---------------------------------------------------------------------
  // Whole runs.
  // ---------------------------------------------------------------------

  function After(keys: TrackKeys, start: Tracks, inputs: seq<Input>): Tracks {
    if inputs == [] then start
    else AfterInput(keys, After(keys, start, inputs[..|inputs| - 1]), inputs[|inputs| - 1])
  }

  function Trace(keys: TrackKeys, start: Tracks, inputs: seq<Input>): seq<Datagram> {
    if inputs == [] then []
    else
      var init := inputs[..|inputs| - 1];
      Trace(keys, start, init) + Sent(keys, After(keys, start, init), inputs[|inputs| - 1])
  }

  // The media packets of one track in a trace, and their octets.
  function Packets(trace: seq<Datagram>, audio: bool): nat {
    if trace == [] then 0
    else Packets(trace[..|trace| - 1], audio) + if OfTrack(trace[|trace| - 1], audio) then 1 else 0
  }

  function Octets(trace: seq<Datagram>, audio: bool): nat {
    if trace == [] then 0
    else
      var last := trace[|trace| - 1];
      Octets(trace[..|trace| - 1], audio) + if OfTrack(last, audio) then |last.bytes| else 0
  }

  predicate OfTrack(d: Datagram, audio: bool) {
    if audio then d.AudioData? else d.VideoData?
  }

  predicate IsReport(d: Datagram) {
    d.VideoReport? || d.AudioReport?
  }

  // A report counts the packets and octets of its own track sent before it,
  // and an audio track is not reported before its first packet.
  predicate CountsBefore(d: Datagram, before: seq<Datagram>) {
    IsReport(d) ==>
      && d.report.packets == Wrap32(Packets(before, d.AudioReport?))
      && d.report.octets == Wrap32(Octets(before, d.AudioReport?))
      && (d.AudioReport? ==> Packets(before, true) > 0)
  }

  ghost predicate ReportsCount(trace: seq<Datagram>) {
    forall k :: 0 <= k < |trace| ==> CountsBefore(trace[k], trace[..k])
  }

  // The first audio packet is reported on at once.
  ghost predicate FirstAudioReported(trace: seq<Datagram>) {
    forall k :: 0 <= k < |trace| && trace[k].AudioData? && Packets(trace[..k], true) == 0 ==>
      k + 1 < |trace| && trace[k + 1].AudioReport?
  }

  // Video reports are at least an interval apart, and all before `last`.
  ghost predicate Throttled(trace: seq<Datagram>, last: int) {
    && (forall k :: 0 <= k < |trace| && trace[k].VideoReport? ==> trace[k].at <= last)
    && (forall i, k :: 0 <= i < k < |trace| && trace[i].VideoReport? && trace[k].VideoReport? ==>
          trace[k].at >= trace[i].at + RTCP_INTERVAL)
  }

  ghost predicate CountersMatch(s: Tracks, trace: seq<Datagram>) {
    && s.video.packets == Wrap32(Packets(trace, false)) && s.video.octets == Wrap32(Octets(trace, false))
    && s.audio.packets == Wrap32(Packets(trace, true)) && s.audio.octets == Wrap32(Octets(trace, true))
  }

  ghost predicate Inv(s: Tracks, trace: seq<Datagram>) {
    CountersMatch(s, trace) && ReportsCount(trace) && FirstAudioReported(trace) && Throttled(trace, s.lastReport)
  }

  lemma CountOne(trace: seq<Datagram>, d: Datagram, audio: bool)
    ensures Packets(trace + [d], audio) == Packets(trace, audio) + (if OfTrack(d, audio) then 1 else 0)
    ensures Octets(trace + [d], audio) == Octets(trace, audio) + (if OfTrack(d, audio) then |d.bytes| else 0)
  {
    assert (trace + [d])[..|trace|] == trace;
  }

  lemma {:induction false} CountFrame(trace: seq<Datagram>, packets: seq<seq<byte>>)
    ensures var all := trace + VideoDatagrams(packets);
      && Packets(all, false) == Packets(trace, false) + |packets|
      && Octets(all, false) == Octets(trace, false) + TotalLength(packets)
      && Packets(all, true) == Packets(trace, true) && Octets(all, true) == Octets(trace, true)
  {
    if packets == [] {
      assert trace + VideoDatagrams(packets) == trace;
    } else {
      var init, last := packets[..|packets| - 1], packets[|packets| - 1];
      CountFrame(trace, init);
      CountOne(trace + VideoDatagrams(init), VideoData(last), false);
      CountOne(trace + VideoDatagrams(init), VideoData(last), true);
      assert trace + VideoDatagrams(packets) == trace + VideoDatagrams(init) + [VideoData(last)];
    }
  }

  // Appending one datagram that counts what came before it.
  lemma AppendDatagram(trace: seq<Datagram>, d: Datagram)
    requires ReportsCount(trace) && CountsBefore(d, trace)
    ensures ReportsCount(trace + [d])
  {
    var all := trace + [d];
    forall k | 0 <= k < |all| ensures CountsBefore(all[k], all[..k]) {
      assert all[..k] == if k < |trace| then trace[..k] else trace;
    }
  }

  lemma {:induction false} AppendFrame(trace: seq<Datagram>, packets: seq<seq<byte>>)
    requires ReportsCount(trace)
    ensures ReportsCount(trace + VideoDatagrams(packets))
  {
    hide ReportsCount;
    if packets == [] {
      assert trace + VideoDatagrams(packets) == trace;
    } else {
      var init, last := packets[..|packets| - 1], packets[|packets| - 1];
      AppendFrame(trace, init);
      AppendDatagram(trace + VideoDatagrams(init), VideoData(last));
      assert trace + VideoDatagrams(packets) == trace + VideoDatagrams(init) + [VideoData(last)];
    }
  }

  // Appending datagrams none of which is an audio packet.
  lemma AppendNoAudio(trace: seq<Datagram>, more: seq<Datagram>)
    requires FirstAudioReported(trace) && forall d :: d in more ==> !d.AudioData?
    ensures FirstAudioReported(trace + more)
  {
    hide Packets;
    var all := trace + more;
    forall k | |trace| <= k < |all| ensures !all[k].AudioData? {
      assert all[k] in more;
    }
    forall k | 0 <= k < |trace| && all[k].AudioData? && Packets(all[..k], true) == 0
      ensures k + 1 < |all| && all[k + 1].AudioReport?
    {
      assert all[..k] == trace[..k];
    }
  }

  lemma AppendNoVideoReport(trace: seq<Datagram>, more: seq<Datagram>, last: int)
    requires Throttled(trace, last) && forall d :: d in more ==> !d.VideoReport?
    ensures Throttled(trace + more, last)
  {
    var all := trace + more;
    forall k | |trace| <= k < |all| ensures !all[k].VideoReport? {
      assert all[k] in more;
    }
  }

  lemma ReportsKeepInv(keys: TrackKeys, s: Tracks, trace: seq<Datagram>, times: Times)
    requires Inv(s, trace)
    ensures Inv(AfterReports(s, times), trace + PeriodicReports(keys, s, times))
  {
    hide Packets, Octets, ReportsCount, FirstAudioReported, Throttled;
    var reports := PeriodicReports(keys, s, times);
    AppendNoAudio(trace, reports);
    if reports == [] {
      assert trace + reports == trace;
    } else {
      VideoReportAppended(s, trace, reports[0]);
      var one := trace + [reports[0]];
      if |reports| == 2 {
        AppendDatagram(one, reports[1]);
        CountOne(one, reports[1], true);
        CountOne(one, reports[1], false);
        AppendNoVideoReport(one, [reports[1]], times.now);
        assert trace + reports == one + [reports[1]];
      } else {
        assert trace + reports == one;
      }
    }
  }

  lemma VideoReportAppended(s: Tracks, trace: seq<Datagram>, d: Datagram)
    requires Inv(s, trace) && d.VideoReport? && d.at - s.lastReport >= RTCP_INTERVAL
    requires d.report.packets == s.video.packets && d.report.octets == s.video.octets
    ensures ReportsCount(trace + [d]) && Throttled(trace + [d], d.at)
    ensures CountersMatch(s, trace + [d])
  {
    hide Packets, Octets, ReportsCount;
    AppendDatagram(trace, d);
    CountOne(trace, d, true);
    CountOne(trace, d, false);
  }

  lemma VideoKeepsInv(keys: TrackKeys, s: Tracks, trace: seq<Datagram>, shot: Shot, times: Times)
    requires Inv(s, trace)
    ensures Inv(AfterInput(keys, s, Video(shot, times)), trace + Sent(keys, s, Video(shot, times)))
  {
    hide Packets, Octets, ReportsCount, FirstAudioReported, Throttled, FramePackets, PeriodicReports,
         AfterReports, TotalLength, Wrap32;
    var packets := FramePackets(keys.video, s.video, shot.frame, shot.clock);
    var data, s' := VideoDatagrams(packets), s.(video := AfterFrame(keys.video, s.video, shot.frame, shot.clock));
    CountFrame(trace, packets);
    AppendFrame(trace, packets);
    AppendNoAudio(trace, data);
    AppendNoVideoReport(trace, data, s.lastReport);
    Wrap32Add(Packets(trace, false), |packets|);
    Wrap32Add(Octets(trace, false), TotalLength(packets));
    ReportsKeepInv(keys, s', trace + data, times);
    assert trace + Sent(keys, s, Video(shot, times)) == trace + data + PeriodicReports(keys, s', times);
  }

  lemma AudioDataAppended(keys: Keys, s: Tracks, trace: seq<Datagram>, frame: AudioFrame, sendClock: nat)
    requires Inv(s, trace)
    ensures var all := trace + [AudioData(AudioPacket(keys, s.audio, frame, sendClock))];
      && CountersMatch(s.(audio := AfterAudio(keys, s.audio, frame, sendClock)), all)
      && ReportsCount(all) && Throttled(all, s.lastReport)
      && Packets(all, true) == Packets(trace, true) + 1
  {
    hide Packets, Octets, ReportsCount, FirstAudioReported, Throttled, AudioPacket, Wrap32;
    var d := AudioData(AudioPacket(keys, s.audio, frame, sendClock));
    CountOne(trace, d, true);
    CountOne(trace, d, false);
    AppendDatagram(trace, d);
    AppendNoVideoReport(trace, [d], s.lastReport);
    Wrap32Add(Packets(trace, true), 1);
    Wrap32Add(Octets(trace, true), |d.bytes|);
  }

  // An audio packet with its report right behind it.
  lemma AppendReportedAudio(trace: seq<Datagram>, d: Datagram, report: Datagram)
    requires FirstAudioReported(trace) && report.AudioReport?
    ensures FirstAudioReported(trace + [d] + [report])
  {
    hide Packets;
    var all := trace + [d] + [report];
    forall k | 0 <= k < |all| && all[k].AudioData? && Packets(all[..k], true) == 0
      ensures k + 1 < |all| && all[k + 1].AudioReport?
    {
      if k < |trace| {
        assert all[..k] == trace[..k];
      }
    }
  }

  // An audio packet that is not the first.
  lemma AppendLaterAudio(trace: seq<Datagram>, d: Datagram)
    requires FirstAudioReported(trace) && Packets(trace, true) > 0
    ensures FirstAudioReported(trace + [d])
  {
    hide Packets;
    var all := trace + [d];
    forall k | 0 <= k < |all| && all[k].AudioData? && Packets(all[..k], true) == 0
      ensures k + 1 < |all| && all[k + 1].AudioReport?
    {
      assert all[..k] == if k < |trace| then trace[..k] else trace;
    }
  }

  lemma AudioKeepsInv(keys: TrackKeys, s: Tracks, trace: seq<Datagram>, frame: AudioFrame, sendClock: nat, times: Times)
    requires Inv(s, trace) && keys.audio.Some?
    ensures Inv(AfterInput(keys, s, Audio(frame, sendClock, times)), trace + Sent(keys, s, Audio(frame, sendClock, times)))
  {
    hide Packets, Octets, ReportsCount, FirstAudioReported, Throttled, PeriodicReports, AfterReports, AudioPacket;
    var k, input := keys.audio.value, Audio(frame, sendClock, times);
    var s' := s.(audio := AfterAudio(k, s.audio, frame, sendClock));
    var d := AudioData(AudioPacket(k, s.audio, frame, sendClock));
    var all := trace + [d];
    AudioDataAppended(k, s, trace, frame, sendClock);
    if s.audio.packets == 0 {
      var report := AudioReport(ReportOf(k, s'.audio, times), times.now);
      AppendReportedAudio(trace, d, report);
      AppendDatagram(all, report);
      AppendNoVideoReport(all, [report], s.lastReport);
      CountOne(all, report, true);
      CountOne(all, report, false);
      assert trace + Sent(keys, s, input) == all + [report];
    } else {
      AppendLaterAudio(trace, d);
      ReportsKeepInv(keys, s', all, times);
      assert trace + Sent(keys, s, input) == all + PeriodicReports(keys, s', times);
    }
  }

  lemma {:induction false} RunKeepsInv(keys: TrackKeys, now: int, inputs: seq<Input>)
    ensures var start := Initial(now);
      Inv(After(keys, start, inputs), Trace(keys, start, inputs))
  {
    hide Inv, AfterInput, Sent;
    var start := Initial(now);
    if inputs == [] {
      EmptyTrace(start);
    } else {
      var init, last := inputs[..|inputs| - 1], inputs[|inputs| - 1];
      RunKeepsInv(keys, now, init);
      InputKeepsInv(keys, After(keys, start, init), Trace(keys, start, init), last);
    }
  }

  lemma EmptyTrace(start: Tracks)
    requires start.video == START && start.audio == START
    ensures Inv(start, [])
  {
  }

  lemma InputKeepsInv(keys: TrackKeys, s: Tracks, trace: seq<Datagram>, input: Input)
    requires Inv(s, trace)
    ensures Inv(AfterInput(keys, s, input), trace + Sent(keys, s, input))
  {
    hide Inv;
    match input {
      case Video(shot, times) => VideoKeepsInv(keys, s, trace, shot, times);
      case Audio(frame, sendClock, times) =>
        if keys.audio.Some? {
          AudioKeepsInv(keys, s, trace, frame, sendClock, times);
        } else {
          assert trace + Sent(keys, s, input) == trace;
        }
    }
  }

  // In every run, each report counts exactly the packets of its track sent
  // before it and all their octets, headers included, modulo 2^32; audio is
  // first reported right after its first packet and never earlier; and two
  // video reports are at least a second apart.
  lemma EveryReport(keys: TrackKeys, now: int, inputs: seq<Input>)
    ensures var trace := Trace(keys, Initial(now), inputs);
      && (forall k :: 0 <= k < |trace| ==> CountsBefore(trace[k], trace[..k]))
      && FirstAudioReported(trace)
      && (forall i, k :: 0 <= i < k < |trace| && trace[i].VideoReport? && trace[k].VideoReport? ==>
            trace[k].at >= trace[i].at + 1_000_000_000)
  {
    RunKeepsInv(keys, now, inputs);
  }

  // ---------------------------------------------------------------------
  // When a report goes out, and the time it carries.
  // ---------------------------------------------------------------------

  // The media time of the last video frame handed over, or zero.
  function VideoStamp(inputs: seq<Input>): nat {
    if inputs == [] then 0
    else
      var last := inputs[|inputs| - 1];
      if last.Video? then VideoTimestamp(last.shot.frame.timestampUs) else VideoStamp(inputs[..|inputs| - 1])
  }

  function AudioStamp(inputs: seq<Input>): nat {
    if inputs == [] then 0
    else
      var last := inputs[|inputs| - 1];
      if last.Audio? then AudioTimestamp(last.frame.timestampUs) else AudioStamp(inputs[..|inputs| - 1])
  }

  // When video was reported last.
  function LastVideoReportAt(trace: seq<Datagram>, start: int): int {
    if trace == [] then start
    else if trace[|trace| - 1].VideoReport? then trace[|trace| - 1].at
    else LastVideoReportAt(trace[..|trace| - 1], start)
  }

  lemma {:induction false} LastReportConcat(a: seq<Datagram>, b: seq<Datagram>, start: int)
    ensures LastVideoReportAt(a + b, start) == LastVideoReportAt(b, LastVideoReportAt(a, start))
  {
    if b == [] {
      assert a + b == a;
    } else {
      LastReportConcat(a, b[..|b| - 1], start);
      assert (a + b)[..|a + b| - 1] == a + b[..|b| - 1];
    }
  }

  lemma {:induction false} NoReportInFrame(packets: seq<seq<byte>>, start: int)
    ensures LastVideoReportAt(VideoDatagrams(packets), start) == start
  {
    if packets != [] {
      NoReportInFrame(packets[..|packets| - 1], start);
      assert VideoDatagrams(packets)[..|packets| - 1] == VideoDatagrams(packets[..|packets| - 1]);
    }
  }

  lemma PeriodicLast(keys: TrackKeys, s: Tracks, times: Times)
    ensures LastVideoReportAt(PeriodicReports(keys, s, times), s.lastReport) == AfterReports(s, times).lastReport
  {
    var reports := PeriodicReports(keys, s, times);
    if |reports| == 2 {
      assert reports[..1] == [reports[0]];
    }
  }

  lemma SentLast(keys: TrackKeys, s: Tracks, input: Input)
    ensures LastVideoReportAt(Sent(keys, s, input), s.lastReport) == AfterInput(keys, s, input).lastReport
  {
    hide PeriodicReports, AfterReports, VideoDatagrams, FramePackets, AfterFrame;
    match input {
      case Video(shot, times) =>
        var s' := s.(video := AfterFrame(keys.video, s.video, shot.frame, shot.clock));
        var packets := FramePackets(keys.video, s.video, shot.frame, shot.clock);
        NoReportInFrame(packets, s.lastReport);
        LastReportConcat(VideoDatagrams(packets), PeriodicReports(keys, s', times), s.lastReport);
        PeriodicLast(keys, s', times);
        FixedByReports(s', times);
      case Audio(frame, sendClock, times) =>
        if keys.audio.Some? {
          var k := keys.audio.value;
          var s' := s.(audio := AfterAudio(k, s.audio, frame, sendClock));
          var data := [AudioData(AudioPacket(k, s.audio, frame, sendClock))];
          var reports := if s.audio.packets == 0 then [AudioReport(ReportOf(k, s'.audio, times), times.now)]
                         else PeriodicReports(keys, s', times);
          assert LastVideoReportAt(data, s.lastReport) == s.lastReport;
          LastReportConcat(data, reports, s.lastReport);
          PeriodicLast(keys, s', times);
        }
    }
  }

  lemma FixedByReports(s: Tracks, times: Times)
    ensures AfterReports(s, times).video == s.video && AfterReports(s, times).audio == s.audio
  {
  }

  // What the state of a run remembers of it.
  lemma {:induction false} StampsKept(keys: TrackKeys, now: int, inputs: seq<Input>)
    ensures var s := After(keys, Initial(now), inputs);
      && s.video.timestamp == VideoStamp(inputs)
      && (keys.audio.Some? ==> s.audio.timestamp == AudioStamp(inputs))
      && s.lastReport == LastVideoReportAt(Trace(keys, Initial(now), inputs), now - RTCP_INTERVAL)
  {
    hide Sent, LastVideoReportAt, FramePackets, AudioPacket;
    if inputs == [] {
      assert LastVideoReportAt([], now - RTCP_INTERVAL) == now - RTCP_INTERVAL by { NoReports(now); }
    } else {
      var init, last := inputs[..|inputs| - 1], inputs[|inputs| - 1];
      StampsKept(keys, now, init);
      var s := After(keys, Initial(now), init);
      SentLast(keys, s, last);
      LastReportConcat(Trace(keys, Initial(now), init), Sent(keys, s, last), now - RTCP_INTERVAL);
    }
  }

  lemma NoReports(now: int)
    ensures LastVideoReportAt([], now - RTCP_INTERVAL) == now - RTCP_INTERVAL
  {
  }

  // Whether a call looks at the reporting interval: every video frame does,
  // and every audio frame whose track has a packet count other than zero.
  predicate Looks(keys: TrackKeys, before: seq<Datagram>, input: Input) {
    input.Video? || (keys.audio.Some? && Wrap32(Packets(before, true)) > 0)
  }

  // What one call may send, told from the stamps of the two tracks.
  ghost predicate WellStamped(d: Datagram, keys: TrackKeys, times: Times, videoStamp: nat, audioStamp: nat) {
    match d
    case VideoData(bytes) => |bytes| >= 8 && bytes[4..8] == BigEndian(videoStamp, 4)
    case AudioData(bytes) => |bytes| >= 8 && bytes[4..8] == BigEndian(audioStamp, 4)
    case VideoReport(r, at) => r.ssrc == keys.video.ssrc && r.timestamp == videoStamp && at == times.now
                               && r.ntpSec == NtpSec(times.wallNs) && r.ntpFrac == NtpFrac(times.wallNs)
    case AudioReport(r, at) => keys.audio.Some? && r.ssrc == keys.audio.value.ssrc
                               && r.timestamp == audioStamp && at == times.now
                               && r.ntpSec == NtpSec(times.wallNs) && r.ntpFrac == NtpFrac(times.wallNs)
  }

  lemma PacketStamp(payloadType: nat, seqNo: nat, timestamp: nat, ssrc: nat, marker: bool, sendTime: nat,
                    frameId: nat, packetId: nat, maxPacketId: nat, reference: Option<nat>, payload: seq<byte>)
    requires payloadType < 128
    ensures var bytes := Packet(payloadType, seqNo, timestamp, ssrc, marker, sendTime, frameId, packetId, maxPacketId,
                                reference, payload);
      |bytes| >= 8 && bytes[4..8] == BigEndian(timestamp, 4)
  {
    hide BigEndian, CastHeader, RtpExtension;
  }

  lemma FrameStamps(keys: Keys, c: Counters, shot: Shot, i: nat)
    requires i < |FramePackets(keys, c, shot.frame, shot.clock)|
    ensures var bytes := FramePackets(keys, c, shot.frame, shot.clock)[i];
      |bytes| >= 8 && bytes[4..8] == BigEndian(VideoTimestamp(shot.frame.timestampUs), 4)
  {
    hide Packet, BigEndian, VideoTimestamp, Encrypt, CastIv;
    var frame, n := shot.frame, ChunkCount(|shot.frame.data|);
    PacketStamp(VIDEO_PAYLOAD_TYPE, Wrap16(c.seqNo + i), VideoTimestamp(frame.timestampUs), keys.ssrc, i + 1 == n,
                AbsSendTime(shot.clock(i)), c.frameId, Wrap16(i), Wrap16(n - 1), Reference(frame, c.frameId),
                Encrypt(keys.cipher, keys.key, CastIv(keys.mask, keys.ssrc, c.frameId, Wrap16(i)), Chunk(frame.data, i)));
  }

  lemma AudioStamps(keys: Keys, c: Counters, frame: AudioFrame, sendClock: nat)
    ensures var bytes := AudioPacket(keys, c, frame, sendClock);
      |bytes| >= 8 && bytes[4..8] == BigEndian(AudioTimestamp(frame.timestampUs), 4)
  {
    hide Packet, BigEndian, AudioTimestamp, Encrypt, CastIv;
    PacketStamp(AUDIO_PAYLOAD_TYPE, c.seqNo, AudioTimestamp(frame.timestampUs), keys.ssrc, true, AbsSendTime(sendClock),
                c.frameId, 0, 0, None,
                Encrypt(keys.cipher, keys.key, CastIv(keys.mask, keys.ssrc, c.frameId, 0), frame.data));
  }

  ghost predicate HasVideoReport(sent: seq<Datagram>) {
    exists i :: 0 <= i < |sent| && sent[i].VideoReport?
  }

  // One call from any state.
  lemma CallStamps(keys: TrackKeys, s: Tracks, input: Input)
    ensures var sent, s' := Sent(keys, s, input), AfterInput(keys, s, input);
      && (forall d :: d in sent ==> WellStamped(d, keys, input.times, s'.video.timestamp, s'.audio.timestamp))
      && (HasVideoReport(sent) <==> Due(s.lastReport, input.times)
                                    && (input.Video? || (keys.audio.Some? && s.audio.packets != 0)))
  {
    hide BigEndian, VideoTimestamp, AudioTimestamp, Packet, FramePackets, AudioPacket, NtpSec, NtpFrac, TotalLength, Wrap32;
    match input {
      case Video(shot, times) => VideoCallStamps(keys, s, shot, times);
      case Audio(frame, sendClock, times) =>
        if keys.audio.Some? {
          var k := keys.audio.value;
          AudioStamps(k, s.audio, frame, sendClock);
          var s' := s.(audio := AfterAudio(k, s.audio, frame, sendClock));
          ReportsHaveVideo(keys, s', times, [AudioData(AudioPacket(k, s.audio, frame, sendClock))]);
        }
    }
  }

  lemma VideoCallStamps(keys: TrackKeys, s: Tracks, shot: Shot, times: Times)
    ensures var sent, s' := Sent(keys, s, Video(shot, times)), AfterInput(keys, s, Video(shot, times));
      && (forall d :: d in sent ==> WellStamped(d, keys, times, s'.video.timestamp, s'.audio.timestamp))
      && (HasVideoReport(sent) <==> Due(s.lastReport, times))
  {
    hide BigEndian, VideoTimestamp, Packet, FramePackets, NtpSec, NtpFrac, TotalLength, Wrap32;
    var packets := FramePackets(keys.video, s.video, shot.frame, shot.clock);
    var s' := s.(video := AfterFrame(keys.video, s.video, shot.frame, shot.clock));
    forall i | 0 <= i < |packets|
      ensures |packets[i]| >= 8 && packets[i][4..8] == BigEndian(VideoTimestamp(shot.frame.timestampUs), 4)
    {
      FrameStamps(keys.video, s.video, shot, i);
    }
    ReportsHaveVideo(keys, s', times, VideoDatagrams(packets));
  }

  lemma ReportsHaveVideo(keys: TrackKeys, s: Tracks, times: Times, data: seq<Datagram>)
    requires forall d :: d in data ==> !d.VideoReport?
    ensures HasVideoReport(data + PeriodicReports(keys, s, times)) <==> Due(s.lastReport, times)
  {
    hide NtpSec, NtpFrac;
    var reports := PeriodicReports(keys, s, times);
    var all := data + reports;
    if Due(s.lastReport, times) {
      assert all[|data|] == reports[0];
    } else {
      assert all == data;
    }
  }

  // In every run, call `k` sends packets and reports that carry the media time
  // of the last frame of their track up to this call, and reports that carry
  // the call's own wall clock; and video is reported if and only if the call
  // looks at the interval and it has passed since video was last reported.
  lemma EveryCall(keys: TrackKeys, now: int, inputs: seq<Input>, k: nat)
    requires k < |inputs|
    ensures var sent := Sent(keys, After(keys, Initial(now), inputs[..k]), inputs[k]);
      var before := Trace(keys, Initial(now), inputs[..k]);
      && Trace(keys, Initial(now), inputs[..k + 1]) == before + sent
      && (forall d :: d in sent ==>
            WellStamped(d, keys, inputs[k].times, VideoStamp(inputs[..k + 1]), AudioStamp(inputs[..k + 1])))
      && (HasVideoReport(sent) <==>
            Looks(keys, before, inputs[k])
            && inputs[k].times.now - LastVideoReportAt(before, now - 1_000_000_000) >= 1_000_000_000)
  {
    hide Sent, AfterInput, WellStamped, HasVideoReport, Packets, LastVideoReportAt, VideoStamp, AudioStamp, Inv;
    assert inputs[..k + 1][..k] == inputs[..k];
    var s, s' := After(keys, Initial(now), inputs[..k]), After(keys, Initial(now), inputs[..k + 1]);
    CallStamps(keys, s, inputs[k]);
    StampsKept(keys, now, inputs[..k]);
    StampsKept(keys, now, inputs[..k + 1]);
    RunKeepsInv(keys, now, inputs[..k]);
    AudioCount(s, Trace(keys, Initial(now), inputs[..k]));
    if keys.audio.None? {
      NoAudioSent(keys, s, inputs[k], s'.video.timestamp, s'.audio.timestamp, AudioStamp(inputs[..k + 1]));
    }
  }

  lemma AudioCount(s: Tracks, trace: seq<Datagram>)
    requires Inv(s, trace)
    ensures s.audio.packets == Wrap32(Packets(trace, true))
  {
  }

  // Without audio keys nothing of the audio track is sent.
  lemma NoAudioSent(keys: TrackKeys, s: Tracks, input: Input, videoStamp: nat, a: nat, b: nat)
    requires keys.audio.None?
    requires forall d :: d in Sent(keys, s, input) ==> WellStamped(d, keys, input.times, videoStamp, a)
    ensures forall d :: d in Sent(keys, s, input) ==> WellStamped(d, keys, input.times, videoStamp, b)
  {
    hide FramePackets, AfterFrame, NtpSec, NtpFrac, BigEndian;
    forall d | d in Sent(keys, s, input) ensures !d.AudioData? && !d.AudioReport? {
    }
  }

  // With two audio frames ahead of the first video frame, video is reported
  // before there is any: no packets, media time zero. The first video frame
  // is then not reported until a second has passed.
  lemma ReportedTooEarly(keys: TrackKeys, now: int, audio: AudioFrame, shot: Shot, later: int)
    requires keys.audio.Some? && now <= later < now + RTCP_INTERVAL
    ensures var ahead := [Audio(audio, 0, Times(now, 0)), Audio(audio, 0, Times(now, 0))];
      var inputs := ahead + [Video(shot, Times(later, 0))];
      var first := Sent(keys, After(keys, Initial(now), inputs[..1]), inputs[1]);
      var second := Sent(keys, After(keys, Initial(now), inputs[..2]), inputs[2]);
      && (exists d :: d in first && d.VideoReport? && d.report.packets == 0 && d.report.timestamp == 0)
      && !HasVideoReport(second)
  {
    hide AudioPacket, FramePackets, NtpSec, NtpFrac, HasVideoReport;
    var inputs := [Audio(audio, 0, Times(now, 0)), Audio(audio, 0, Times(now, 0))] + [Video(shot, Times(later, 0))];
    assert inputs[..1] == [inputs[0]] && inputs[..1][..0] == [] && inputs[..2][..1] == inputs[..1];
    assert After(keys, Initial(now), []) == Initial(now);
    var s1 := After(keys, Initial(now), inputs[..1]);
    var s2 := After(keys, Initial(now), inputs[..2]);
    assert s1 == AfterInput(keys, Initial(now), inputs[0]);
    assert s2 == AfterInput(keys, s1, inputs[1]);
    var first := Sent(keys, s1, inputs[1]);
    assert first[1].VideoReport? && first[1] in first;
    CallStamps(keys, s2, inputs[2]);
  }

  // Audio only so far.
  predicate AllAudio(inputs: seq<Input>) {
    forall i :: 0 <= i < |inputs| ==> inputs[i].Audio?
  }

  // While there is no video frame, the video track stands at its start, and
  // the audio track has sent a packet for each frame.
  lemma {:induction false} AudioOnly(keys: TrackKeys, now: int, inputs: seq<Input>)
    requires AllAudio(inputs)
    ensures After(keys, Initial(now), inputs).video == START
    ensures Packets(Trace(keys, Initial(now), inputs), true) == if keys.audio.Some? then |inputs| else 0
  {
    hide Packets, AudioPacket, Wrap32;
    if inputs == [] {
      NoPackets();
    } else {
      var init, last := inputs[..|inputs| - 1], inputs[|inputs| - 1];
      AudioOnly(keys, now, init);
      var s, before := After(keys, Initial(now), init), Trace(keys, Initial(now), init);
      if keys.audio.Some? {
        AudioCallCounts(keys, s, before, last);
      } else {
        assert before + [] == before;
      }
    }
  }

  lemma NoPackets()
    ensures Packets([], true) == 0
  {
  }

  lemma AudioCallCounts(keys: TrackKeys, s: Tracks, before: seq<Datagram>, input: Input)
    requires keys.audio.Some? && input.Audio?
    ensures Packets(before + Sent(keys, s, input), true) == Packets(before, true) + 1
    ensures AfterInput(keys, s, input).video == s.video
  {
    hide Packets, Octets, AudioPacket, NtpSec, NtpFrac;
    var sent := Sent(keys, s, input);
    CountOne(before, sent[0], true);
    var one := before + [sent[0]];
    if |sent| == 1 {
      assert before + sent == one;
    } else {
      CountOne(one, sent[1], true);
      if |sent| == 2 {
        assert before + sent == one + [sent[1]];
      } else {
        CountOne(one + [sent[1]], sent[2], true);
        assert before + sent == one + [sent[1]] + [sent[2]];
      }
    }
  }

  lemma HasConcat(a: seq<Datagram>, b: seq<Datagram>)
    ensures HasVideoReport(a + b) <==> HasVideoReport(a) || HasVideoReport(b)
  {
    if HasVideoReport(a) {
      var i :| 0 <= i < |a| && a[i].VideoReport?;
      assert (a + b)[i].VideoReport?;
    }
    if HasVideoReport(b) {
      var i :| 0 <= i < |b| && b[i].VideoReport?;
      assert (a + b)[|a| + i].VideoReport?;
    }
  }

  lemma {:induction false} NeverReported(trace: seq<Datagram>, start: int)
    requires !HasVideoReport(trace)
    ensures LastVideoReportAt(trace, start) == start
  {
    if trace != [] {
      assert !trace[|trace| - 1].VideoReport?;
      NeverReported(trace[..|trace| - 1], start);
    }
  }

  // On audio alone video is reported from the second frame on.
  lemma {:induction false} AudioReportsVideo(keys: TrackKeys, now: int, inputs: seq<Input>)
    requires AllAudio(inputs) && forall i :: 0 <= i < |inputs| ==> inputs[i].times.now >= now
    ensures HasVideoReport(Trace(keys, Initial(now), inputs)) <==> keys.audio.Some? && |inputs| >= 2
    decreases |inputs|
  {
    hide HasVideoReport, Sent, Packets, LastVideoReportAt, AfterInput, WellStamped;
    if inputs == [] {
      NothingReported();
    } else {
      var k := |inputs| - 1;
      var init := inputs[..k];
      AudioReportsVideo(keys, now, init);
      AudioOnly(keys, now, init);
      EveryCall(keys, now, inputs, k);
      assert inputs[..k + 1] == inputs;
      var before := Trace(keys, Initial(now), init);
      HasConcat(before, Sent(keys, After(keys, Initial(now), init), inputs[k]));
      if !HasVideoReport(before) {
        NeverReported(before, now - RTCP_INTERVAL);
      }
    }
  }

  lemma NothingReported()
    ensures !HasVideoReport([])
  {
  }

  // When the first video report goes out. On a clock that has not gone back,
  // it goes out ahead of the first video frame exactly when the session has
  // audio and at least two audio frames come first: then with no packets and
  // media time zero. Otherwise it goes out with that frame's own call.
  lemma FirstVideoReport(keys: TrackKeys, now: int, inputs: seq<Input>, v: nat)
    requires v < |inputs| && AllAudio(inputs[..v]) && inputs[v].Video?
    requires forall i :: 0 <= i <= v ==> inputs[i].times.now >= now
    ensures var ahead := Trace(keys, Initial(now), inputs[..v]);
      && (HasVideoReport(ahead) <==> keys.audio.Some? && v >= 2)
      && (forall d :: d in ahead && d.VideoReport? ==> d.report.packets == 0 && d.report.timestamp == 0)
      && (!HasVideoReport(ahead) ==> HasVideoReport(Sent(keys, After(keys, Initial(now), inputs[..v]), inputs[v])))
  {
    hide HasVideoReport, Sent, Packets, LastVideoReportAt, AfterInput, WellStamped;
    var ahead := Trace(keys, Initial(now), inputs[..v]);
    AudioReportsVideo(keys, now, inputs[..v]);
    EmptyReports(keys, now, inputs[..v]);
    EveryCall(keys, now, inputs, v);
    if !HasVideoReport(ahead) {
      NeverReported(ahead, now - RTCP_INTERVAL);
    }
  }

  // Every video report made on audio alone is empty.
  lemma {:induction false} EmptyReports(keys: TrackKeys, now: int, inputs: seq<Input>)
    requires AllAudio(inputs)
    ensures forall d :: d in Trace(keys, Initial(now), inputs) && d.VideoReport? ==>
              d.report.packets == 0 && d.report.timestamp == 0
  {
    if inputs != [] {
      hide Sent;
      var init := inputs[..|inputs| - 1];
      EmptyReports(keys, now, init);
      AudioOnly(keys, now, init);
      EmptyReport(keys, After(keys, Initial(now), init), inputs[|inputs| - 1]);
    }
  }

  lemma EmptyReport(keys: TrackKeys, s: Tracks, input: Input)
    requires s.video == START && input.Audio?
    ensures forall d :: d in Sent(keys, s, input) && d.VideoReport? ==> d.report.packets == 0 && d.report.timestamp == 0
  {
    hide AudioPacket, NtpSec, NtpFrac;
  }

  // ---------------------------------------------------------------------
  // Every audio packet, field by field.
  // ---------------------------------------------------------------------

  // The audio counters count the audio frames of a session with audio.
  lemma {:induction false} AudioCounts(keys: TrackKeys, now: int, inputs: seq<Input>)
    requires keys.audio.Some?
    ensures var c := After(keys, Initial(now), inputs).audio;
      c.seqNo == Wrap16(AudioFrames(inputs)) && c.frameId == Wrap32(AudioFrames(inputs))
  {
    hide FramePackets, AudioPacket, AudioTimestamp, Wrap16, Wrap32;
    if inputs == [] {
      WrapsZero();
    } else {
      var init := inputs[..|inputs| - 1];
      AudioCounts(keys, now, init);
      Wrap16Add(AudioFrames(init), 1);
      Wrap32Add(AudioFrames(init), 1);
    }
  }

  lemma WrapsZero()
    ensures Wrap16(0) == 0 && Wrap32(0) == 0
  {
  }

  function AudioFrames(inputs: seq<Input>): nat {
    if inputs == [] then 0
    else AudioFrames(inputs[..|inputs| - 1]) + if inputs[|inputs| - 1].Audio? then 1 else 0
  }

  // What the packet of the n-th audio frame says, read from its octets: the
  // fields told from the run alone, and the frame under the cipher's
  // keystream for the audio stream and this frame.
  lemma EveryAudioPacketSays(keys: TrackKeys, now: int, inputs: seq<Input>, k: nat)
    requires keys.audio.Some? && keys.audio.value.ssrc < U32_COUNT
    requires k < |inputs| && inputs[k].Audio?
    ensures var a, frame, n := keys.audio.value, inputs[k].frame, AudioFrames(inputs[..k]);
      var sent := Sent(keys, After(keys, Initial(now), inputs[..k]), inputs[k]);
      && sent != [] && sent[0].AudioData?
      && var p := Reassembly.ParsePacket(sent[0].bytes);
         var iv := CastIv(a.mask, a.ssrc, n % 0x1_0000_0000, 0);
         && p.Some? && p.value.payloadType == 97 && p.value.ssrc == a.ssrc && p.value.marker
         && p.value.seqNo == n % 0x1_0000 && p.value.frameId == n % 0x1_0000_0000
         && p.value.packetId == 0 && p.value.maxPacketId == 0 && p.value.reference == None
         && p.value.timestamp == frame.timestampUs * 48 % 0x1_0000_0000_0000_0000 / 1000 % 0x1_0000_0000
         && p.value.sendTime
            == inputs[k].sendClock * 9 % 0x1_0000_0000_0000_0000 / 100 % 0x1_0000_0000 % 0x100_0000
         && |p.value.payload| == |frame.data|
         && forall x :: 0 <= x < |frame.data| ==>
              Xor(p.value.payload[x], frame.data[x]) == Keystream(a.cipher, a.key, iv, |frame.data| / 16 + 1)[x]
  {
    hide Packet, Encrypt, CastIv, Keystream, Reassembly.ParsePacket, FramePackets, NtpSec, NtpFrac;
    var a, frame := keys.audio.value, inputs[k].frame;
    AudioCounts(keys, now, inputs[..k]);
    var c := After(keys, Initial(now), inputs[..k]).audio;
    var iv := CastIv(a.mask, a.ssrc, c.frameId, 0);
    var p := Reassembly.Received(AUDIO_PAYLOAD_TYPE, c.seqNo, AudioTimestamp(frame.timestampUs), a.ssrc, true,
                                 AbsSendTime(inputs[k].sendClock), c.frameId, 0, 0, None,
                                 Encrypt(a.cipher, a.key, iv, frame.data));
    Reassembly.PacketRoundTrip(p);
    EncryptIsKeystream(a.cipher, a.key, iv, |frame.data| / 16 + 1, frame.data);
    assert AudioPacket(a, c, frame, inputs[k].sendClock) == Reassembly.Serialize(p);
  }

  // No counter block is used twice in up to 2^32 audio frames.
  lemma AudioCountersDisjoint(a: Keys, n: nat, i: nat, m: nat, j: nat)
    requires n < U32_COUNT && m < U32_COUNT && i < 0x1_0000_0000_0000 && j < 0x1_0000_0000_0000
    requires CounterAt(CastIv(a.mask, a.ssrc, n, 0), i) == CounterAt(CastIv(a.mask, a.ssrc, m, 0), j)
    ensures n == m && i == j
  {
    CountersDisjoint(a.mask, a.ssrc, n, 0, i, m, 0, j);
  }

  // ---------------------------------------------------------------------
  // When audio is reported.
  // ---------------------------------------------------------------------

  ghost predicate HasAudioReport(sent: seq<Datagram>) {
    exists i :: 0 <= i < |sent| && sent[i].AudioReport?
  }

  lemma CallReportsAudio(keys: TrackKeys, s: Tracks, input: Input)
    ensures HasAudioReport(Sent(keys, s, input))
       <==> keys.audio.Some?
            && ((input.Audio? && s.audio.packets == 0)
                || (HasVideoReport(Sent(keys, s, input)) && AfterInput(keys, s, input).audio.packets > 0))
  {
    hide FramePackets, AfterFrame, AudioPacket, NtpSec, NtpFrac, Wrap32, HasVideoReport;
    var sent := Sent(keys, s, input);
    CallStamps(keys, s, input);
    match input {
      case Video(shot, times) =>
        var s' := s.(video := AfterFrame(keys.video, s.video, shot.frame, shot.clock));
        var data := VideoDatagrams(FramePackets(keys.video, s.video, shot.frame, shot.clock));
        PeriodicAudio(keys, s', times, data);
      case Audio(frame, sendClock, times) =>
        if keys.audio.Some? {
          var s' := s.(audio := AfterAudio(keys.audio.value, s.audio, frame, sendClock));
          var data := [AudioData(AudioPacket(keys.audio.value, s.audio, frame, sendClock))];
          if s.audio.packets == 0 {
            assert sent[1].AudioReport?;
          } else {
            PeriodicAudio(keys, s', times, data);
          }
        }
    }
  }

  lemma PeriodicAudio(keys: TrackKeys, s: Tracks, times: Times, data: seq<Datagram>)
    requires forall i :: 0 <= i < |data| ==> !data[i].AudioReport?
    ensures HasAudioReport(data + PeriodicReports(keys, s, times))
       <==> Due(s.lastReport, times) && keys.audio.Some? && s.audio.packets > 0
  {
    hide NtpSec, NtpFrac;
    var reports := PeriodicReports(keys, s, times);
    if |reports| == 2 {
      assert (data + reports)[|data| + 1] == reports[1];
    }
  }

  // In every run audio is reported by a call if and only if it brings the
  // first audio packet, or video is reported with it and audio has been sent;
  // the packet count being what 32 bits hold of it.
  lemma AudioReportsExactly(keys: TrackKeys, now: int, inputs: seq<Input>, k: nat)
    requires k < |inputs|
    ensures var sent := Sent(keys, After(keys, Initial(now), inputs[..k]), inputs[k]);
      var n := Packets(Trace(keys, Initial(now), inputs[..k]), true);
      HasAudioReport(sent)
      <==> keys.audio.Some?
           && ((inputs[k].Audio? && n % 0x1_0000_0000 == 0)
               || (HasVideoReport(sent) && (if inputs[k].Audio? then n + 1 else n) % 0x1_0000_0000 > 0))
  {
    hide Sent, Packets, HasAudioReport, HasVideoReport, Inv, Wrap32, After, Trace, AfterInput;
    var s, before := After(keys, Initial(now), inputs[..k]), Trace(keys, Initial(now), inputs[..k]);
    RunKeepsInv(keys, now, inputs[..k]);
    AudioCount(s, before);
    CallReportsAudio(keys, s, inputs[k]);
    AudioCountAfter(keys, s, inputs[k], Packets(before, true));
    Wrap32Is(Packets(before, true));
    Wrap32Is(Packets(before, true) + 1);
  }

  lemma AudioCountAfter(keys: TrackKeys, s: Tracks, input: Input, n: nat)
    requires s.audio.packets == Wrap32(n)
    ensures keys.audio.Some? ==>
              AfterInput(keys, s, input).audio.packets == Wrap32(if input.Audio? then n + 1 else n)
  {
    hide FramePackets, AfterFrame, AudioPacket, Wrap32;
    Wrap32Add(n, 1);
  }
}
