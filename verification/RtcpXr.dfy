// RTCP extended reports: finding the receiver's reference time among the
// report blocks, and the reply built from it (RFC 3611).
module RtcpXr {
  import opened Wrappers
  import opened Bytes

  const RTCP_PT_XR: byte := 207
  const BT_RECEIVER_REFERENCE_TIME: byte := 4

  datatype ReferenceTime = ReferenceTime(ssrc: nat, ntpSec: nat, ntpFrac: nat)

  // A report block: its type, its type-specific octet, and its words.
  datatype XrBlock = XrBlock(blockType: byte, specific: byte, body: seq<byte>)

  predicate ValidBlock(b: XrBlock) {
    |b.body| % 4 == 0 && |b.body| / 4 < U16_COUNT
  }

  function BlockBytes(b: XrBlock): seq<byte> {
    [b.blockType, b.specific] + BigEndian(|b.body| / 4, 2) + b.body
  }

  function BlocksBytes(blocks: seq<XrBlock>): seq<byte> {
    if blocks == [] then [] else BlockBytes(blocks[0]) + BlocksBytes(blocks[1..])
  }

  // What the blocks from `offset` on say.
  function Scan(pkt: seq<byte>, ssrc: nat, offset: nat): Option<ReferenceTime>
    requires offset <= |pkt|
    decreases |pkt| - offset
  {
    if offset + 4 > |pkt| then None
    else
      var length := FromBigEndian(pkt[offset + 2..offset + 4]);
      var end := offset + 4 + length * 4;
      if end > |pkt| then None
      else if pkt[offset] == BT_RECEIVER_REFERENCE_TIME && length == 2 then
        Some(ReferenceTime(ssrc, FromBigEndian(pkt[offset + 4..offset + 8]),
                           FromBigEndian(pkt[offset + 8..offset + 12])))
      else Scan(pkt, ssrc, end)
  }

  // What a whole packet says.
  function Parsed(pkt: seq<byte>): Option<ReferenceTime> {
    if |pkt| < 8 || pkt[1] != RTCP_PT_XR then None else Scan(pkt, FromBigEndian(pkt[4..8]), 8)
  }

  method ParseReferenceTime(pkt: seq<byte>) returns (time: Option<ReferenceTime>)
    ensures time == Parsed(pkt)
  {
    if |pkt| < 8 || pkt[1] != RTCP_PT_XR {
      return None;
    }
    var ssrc := FromBigEndian(pkt[4..8]);
    var offset := 8;
    while offset + 4 <= |pkt|
      invariant 8 <= offset <= |pkt|
      invariant Scan(pkt, ssrc, offset) == Scan(pkt, ssrc, 8)
      decreases |pkt| - offset
    {
      var length := FromBigEndian(pkt[offset + 2..offset + 4]);
      var end := offset + 4 + length * 4;
      if end > |pkt| {
        return None;
      }
      if pkt[offset] == BT_RECEIVER_REFERENCE_TIME && length == 2 {
        return Some(ReferenceTime(ssrc, FromBigEndian(pkt[offset + 4..offset + 8]),
                                  FromBigEndian(pkt[offset + 8..offset + 12])));
      }
      offset := end;
    }
    return None;
  }

  // The reference time of the first block of that kind.
  function FirstReference(ssrc: nat, blocks: seq<XrBlock>): Option<ReferenceTime> {
    if blocks == [] then None
    else if blocks[0].blockType == BT_RECEIVER_REFERENCE_TIME && |blocks[0].body| == 8 then
      Some(ReferenceTime(ssrc, FromBigEndian(blocks[0].body[..4]), FromBigEndian(blocks[0].body[4..])))
    else FirstReference(ssrc, blocks[1..])
  }

  // Where the fields of a block are, inside a packet.
  lemma BlockAt(before: seq<byte>, b: XrBlock, rest: seq<byte>)
    requires ValidBlock(b)
    ensures var pkt, at := before + BlockBytes(b) + rest, |before|;
      && |pkt| >= at + 4 + |b.body|
      && pkt[at] == b.blockType && pkt[at + 2..at + 4] == BigEndian(|b.body| / 4, 2)
      && pkt[at + 4..at + 4 + |b.body|] == b.body
    ensures FromBigEndian(BigEndian(|b.body| / 4, 2)) == |b.body| / 4
  {
    hide BigEndian, FromBigEndian;
    var pkt, at := before + BlockBytes(b) + rest, |before|;
    assert pkt[at..at + 4 + |b.body|] == BlockBytes(b);
    assert BlockBytes(b)[2..4] == BigEndian(|b.body| / 4, 2);
    assert Power256(2) == U16_COUNT;
    BigEndianRoundTrip(|b.body| / 4, 2);
  }

  // One step of the scan, over a whole block.
  lemma ScanBlock(before: seq<byte>, b: XrBlock, rest: seq<byte>, ssrc: nat)
    requires ValidBlock(b)
    ensures var pkt := before + BlockBytes(b) + rest;
      && |before| + 4 + |b.body| <= |pkt|
      && Scan(pkt, ssrc, |before|)
         == if b.blockType == BT_RECEIVER_REFERENCE_TIME && |b.body| == 8
            then Some(ReferenceTime(ssrc, FromBigEndian(b.body[..4]), FromBigEndian(b.body[4..])))
            else Scan(pkt, ssrc, |before| + 4 + |b.body|)
  {
    hide BigEndian, FromBigEndian, BlockBytes;
    BlockAt(before, b, rest);
    if |b.body| == 8 {
      Halves(before + BlockBytes(b) + rest, |before| + 4);
    }
  }

  lemma ScanTail(before: seq<byte>, tail: seq<byte>, ssrc: nat)
    requires Truncated(tail)
    ensures Scan(before + tail, ssrc, |before|) == None
  {
    hide FromBigEndian;
    var pkt, at := before + tail, |before|;
    if |tail| >= 4 {
      assert pkt[at + 2..at + 4] == tail[2..4];
    }
  }

  lemma {:induction false} ScanSerialized(before: seq<byte>, blocks: seq<XrBlock>, tail: seq<byte>, ssrc: nat)
    requires forall b :: b in blocks ==> ValidBlock(b)
    requires Truncated(tail)
    ensures Scan(before + BlocksBytes(blocks) + tail, ssrc, |before|) == FirstReference(ssrc, blocks)
    decreases |blocks|
  {
    hide Scan, FromBigEndian, BlockBytes, ValidBlock, Truncated;
    var pkt := before + BlocksBytes(blocks) + tail;
    if blocks == [] {
      assert pkt == before + tail;
      ScanTail(before, tail, ssrc);
    } else {
      var b, rest := blocks[0], BlocksBytes(blocks[1..]) + tail;
      var before' := before + BlockBytes(b);
      ScanBlock(before, b, rest, ssrc);
      assert pkt == before' + rest;
      BlockLength(b);
      ScanSerialized(before', blocks[1..], tail, ssrc);
      assert before' + BlocksBytes(blocks[1..]) + tail == pkt;
    }
  }

  lemma Halves(pkt: seq<byte>, at: nat)
    requires at + 8 <= |pkt|
    ensures pkt[at..at + 4] == pkt[at..at + 8][..4] && pkt[at + 4..at + 8] == pkt[at..at + 8][4..]
  {
  }

  lemma BlockLength(b: XrBlock)
    ensures |BlockBytes(b)| == 4 + |b.body|
  {
  }

  // Bytes that hold no complete block: too few for a block header, or for
  // the body its header announces.
  predicate Truncated(tail: seq<byte>) {
    |tail| < 4 || 4 + FromBigEndian(tail[2..4]) * 4 > |tail|
  }

  // A report made of any blocks, even cut off inside a last one, parses to
  // the first receiver reference time of length two among them, or to none.
  lemma ParseSerialized(version: byte, length: nat, ssrc: nat, blocks: seq<XrBlock>, tail: seq<byte>)
    requires ssrc < U32_COUNT && Truncated(tail)
    requires forall b :: b in blocks ==> ValidBlock(b)
    ensures var pkt := [version, 207] + BigEndian(length, 2) + BigEndian(ssrc, 4) + BlocksBytes(blocks) + tail;
      Parsed(pkt) == FirstReference(ssrc, blocks)
  {
    var before := [version, RTCP_PT_XR] + BigEndian(length, 2) + BigEndian(ssrc, 4);
    var pkt := before + BlocksBytes(blocks) + tail;
    assert pkt[4..8] == BigEndian(ssrc, 4);
    assert Power256(4) == U32_COUNT;
    BigEndianRoundTrip(ssrc, 4);
    ScanSerialized(before, blocks, tail, ssrc);
  }

  // A receiver's time, written as a block after blocks of other kinds and
  // before any others, is the time that is read.
  lemma ReferenceRoundTrip(version: byte, length: nat, ssrc: nat, sec: nat, frac: nat, specific: byte,
                           earlier: seq<XrBlock>, later: seq<XrBlock>)
    requires ssrc < U32_COUNT && sec < U32_COUNT && frac < U32_COUNT
    requires forall b :: b in earlier ==> ValidBlock(b) && !(b.blockType == 4 && |b.body| == 8)
    requires forall b :: b in later ==> ValidBlock(b)
    ensures var time := XrBlock(4, specific, BigEndian(sec, 4) + BigEndian(frac, 4));
      Parsed([version, 207] + BigEndian(length, 2) + BigEndian(ssrc, 4) + BlocksBytes(earlier + [time] + later) + [])
      == Some(ReferenceTime(ssrc, sec, frac))
  {
    hide BigEndian, FromBigEndian, Parsed, BlocksBytes;
    var time := XrBlock(4, specific, BigEndian(sec, 4) + BigEndian(frac, 4));
    assert Power256(4) == U32_COUNT;
    BigEndianRoundTrip(sec, 4);
    BigEndianRoundTrip(frac, 4);
    assert time.body[..4] == BigEndian(sec, 4) && time.body[4..] == BigEndian(frac, 4);
    FirstAfter(ssrc, earlier, time, later);
    ParseSerialized(version, length, ssrc, earlier + [time] + later, []);
  }

  lemma {:induction false} FirstAfter(ssrc: nat, earlier: seq<XrBlock>, time: XrBlock, later: seq<XrBlock>)
    requires forall b :: b in earlier ==> !(b.blockType == 4 && |b.body| == 8)
    requires time.blockType == 4 && |time.body| == 8
    ensures FirstReference(ssrc, earlier + [time] + later)
         == Some(ReferenceTime(ssrc, FromBigEndian(time.body[..4]), FromBigEndian(time.body[4..])))
    decreases |earlier|
  {
    hide FromBigEndian;
    var blocks := earlier + [time] + later;
    if earlier != [] {
      assert blocks[0] == earlier[0] && blocks[1..] == earlier[1..] + [time] + later;
      FirstAfter(ssrc, earlier[1..], time, later);
    }
  }

  // Any octets are blocks followed by a truncated one, or by nothing.
  lemma {:induction false} SplitBlocks(bytes: seq<byte>) returns (blocks: seq<XrBlock>, tail: seq<byte>)
    ensures bytes == BlocksBytes(blocks) + tail && Truncated(tail)
    ensures forall b :: b in blocks ==> ValidBlock(b)
    decreases |bytes|
  {
    if Truncated(bytes) {
      blocks, tail := [], bytes;
    } else {
      var length := FromBigEndian(bytes[2..4]);
      var end := 4 + length * 4;
      var first := XrBlock(bytes[0], bytes[1], bytes[4..end]);
      FirstBlock(bytes, length);
      var later: seq<XrBlock>;
      later, tail := SplitBlocks(bytes[end..]);
      blocks := [first] + later;
      assert blocks[1..] == later;
      hide BlockBytes;
      assert bytes == BlockBytes(first) + (BlocksBytes(later) + tail);
      assert BlocksBytes(blocks) + tail == BlockBytes(first) + (BlocksBytes(later) + tail);
    }
  }

  lemma FirstBlock(bytes: seq<byte>, length: nat)
    requires 4 + length * 4 <= |bytes| && length == FromBigEndian(bytes[2..4])
    ensures var b := XrBlock(bytes[0], bytes[1], bytes[4..4 + length * 4]);
      ValidBlock(b) && bytes == BlockBytes(b) + bytes[4 + length * 4..]
  {
    hide BigEndian, FromBigEndian;
    var b := XrBlock(bytes[0], bytes[1], bytes[4..4 + length * 4]);
    BigEndianBound(bytes[2..4]);
    assert Power256(2) == U16_COUNT;
    BigEndianOfRead(bytes[2..4]);
    assert |b.body| / 4 == length;
    assert bytes[..4] == [b.blockType, b.specific] + bytes[2..4];
    assert bytes == bytes[..4] + b.body + bytes[4 + length * 4..];
  }

  // Every packet at all: what follows the header of an extended report is
  // blocks and a truncated tail, and the answer is the first reference time
  // among those blocks; any other packet has none.
  lemma ParseAny(pkt: seq<byte>) returns (blocks: seq<XrBlock>, tail: seq<byte>)
    ensures |pkt| < 8 || pkt[1] != RTCP_PT_XR ==> Parsed(pkt) == None
    ensures |pkt| >= 8 && pkt[1] == RTCP_PT_XR ==>
              && pkt[8..] == BlocksBytes(blocks) + tail && Truncated(tail)
              && (forall b :: b in blocks ==> ValidBlock(b))
              && Parsed(pkt) == FirstReference(FromBigEndian(pkt[4..8]), blocks)
  {
    hide Scan, BlocksBytes, FromBigEndian, Truncated, ValidBlock, FirstReference;
    blocks, tail := [], [];
    if |pkt| >= 8 && pkt[1] == RTCP_PT_XR {
      blocks, tail := SplitBlocks(pkt[8..]);
      ScanSerialized(pkt[..8], blocks, tail, FromBigEndian(pkt[4..8]));
      assert pkt == pkt[..8] + BlocksBytes(blocks) + tail;
    }
  }

  // ---------------------------------------------------------------------
  // The reply.
  // ---------------------------------------------------------------------

  // Shifting inside 32 bits: the middle half of the 64-bit timestamp.
  function LastReceiverReport(t: ReferenceTime): nat {
    t.ntpSec * 0x1_0000 % U32_COUNT + t.ntpFrac / 0x1_0000
  }

  function Dlrr(ourSsrc: nat, receiverSsrc: nat, lrr: nat, delay: nat): seq<byte> {
    [0x80, RTCP_PT_XR, 0, 5] + BigEndian(ourSsrc, 4) + [5, 0, 0, 3]
    + BigEndian(receiverSsrc, 4) + BigEndian(lrr, 4) + BigEndian(delay, 4)
  }

  // The reply's LRR field is bits 16 to 48 of the 64-bit reference time.
  lemma LrrIsMiddleBits(t: ReferenceTime)
    requires t.ntpSec < U32_COUNT && t.ntpFrac < U32_COUNT
    ensures LastReceiverReport(t) == (t.ntpSec * U32_COUNT + t.ntpFrac) / 0x1_0000 % U32_COUNT
    ensures LastReceiverReport(t) < U32_COUNT
  {
    assert (t.ntpSec * U32_COUNT + t.ntpFrac) / 0x1_0000 == t.ntpSec * 0x1_0000 + t.ntpFrac / 0x1_0000;
    assert t.ntpSec * 0x1_0000 % U32_COUNT == t.ntpSec % 0x1_0000 * 0x1_0000;
  }

  // The reply is itself a well-formed report with one block of type 5.
  lemma DlrrIsReport(ourSsrc: nat, receiverSsrc: nat, lrr: nat, delay: nat)
    ensures var body := BigEndian(receiverSsrc, 4) + BigEndian(lrr, 4) + BigEndian(delay, 4);
      && |body| == 12
      && Dlrr(ourSsrc, receiverSsrc, lrr, delay)
         == [0x80, 207] + BigEndian(5, 2) + BigEndian(ourSsrc, 4) + BlocksBytes([XrBlock(5, 0, body)])
      && |Dlrr(ourSsrc, receiverSsrc, lrr, delay)| == (5 + 1) * 4
  {
    hide BigEndian, BlocksBytes, ValidBlock, FromBigEndian;
    var body := BigEndian(receiverSsrc, 4) + BigEndian(lrr, 4) + BigEndian(delay, 4);
    Small16(3);
    Small16(5);
    OneBlock(XrBlock(5, 0, body));
    Regroup(BigEndian(ourSsrc, 4), BigEndian(receiverSsrc, 4), BigEndian(lrr, 4), BigEndian(delay, 4));
  }

  lemma Regroup(a: seq<byte>, b: seq<byte>, c: seq<byte>, d: seq<byte>)
    ensures [0x80, RTCP_PT_XR, 0, 5] + a + [5, 0, 0, 3] + b + c + d
         == [0x80, RTCP_PT_XR] + [0, 5] + a + ([5, 0] + [0, 3] + (b + c + d))
  {
  }

  lemma OneBlock(b: XrBlock)
    ensures BlocksBytes([b]) == BlockBytes(b)
  {
    assert BlocksBytes([b][1..]) == [];
  }

  lemma Small16(n: nat)
    requires n < 256
    ensures BigEndian(n, 2) == [0, n as byte]
  {
    assert BigEndian(n / 256, 1) == [0];
  }
}
