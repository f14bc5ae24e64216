// Per-packet counter mode: how each packet's initial counter block is made,
// and why no two packets of a stream ever use the same block.
module CounterMode {
  import opened Bytes

  const BLOCK_COUNT := 0x1_0000_0000_0000_0000_0000_0000_0000_0000 // 2^128
  const LOW_COUNT := 0x1_0000_0000_0000                           // 2^48

  type Block = b: seq<byte> | |b| == 16 witness seq(16, _ => 0 as byte)

  // A block cipher under a key, applied to a counter block read as a
  // big-endian number. Nothing else is assumed of it.
  type Cipher = (Block, nat) -> Block

  function CounterBlock(ssrc: nat, frameId: nat, packetId: nat): Block {
    LittleEndian(ssrc, 4) + LittleEndian(frameId, 4) + LittleEndian(packetId, 2) + seq(6, _ => 0 as byte)
  }

  function CastIv(mask: Block, ssrc: nat, frameId: nat, packetId: nat): Block {
    var counter := CounterBlock(ssrc, frameId, packetId);
    seq(16, i requires 0 <= i < 16 => Xor(mask[i], counter[i]))
  }

  // The counter value of block `j` of a packet.
  function CounterAt(iv: Block, j: nat): nat {
    (FromBigEndian(iv) + j) % BLOCK_COUNT
  }

  function KeyByte(cipher: Cipher, key: Block, iv: Block, i: nat): byte {
    cipher(key, CounterAt(iv, i / 16))[i % 16]
  }

  function Encrypt(cipher: Cipher, key: Block, iv: Block, data: seq<byte>): (out: seq<byte>)
    ensures |out| == |data|
  {
    seq(|data|, i requires 0 <= i < |data| => Xor(data[i], KeyByte(cipher, key, iv, i)))
  }

  // Encrypting twice under one counter gives the data back.
  lemma EncryptCancels(cipher: Cipher, key: Block, iv: Block, data: seq<byte>)
    ensures Encrypt(cipher, key, iv, Encrypt(cipher, key, iv, data)) == data
  {
    forall i | 0 <= i < |data|
      ensures Encrypt(cipher, key, iv, Encrypt(cipher, key, iv, data))[i] == data[i]
    {
      XorCancels(data[i], KeyByte(cipher, key, iv, i));
    }
  }

  lemma Widths()
    ensures Power256(2) == U16_COUNT && Power256(4) == U32_COUNT
    ensures Power256(6) == LOW_COUNT && Power256(16) == BLOCK_COUNT
  {
    assert Power256(8) == U64_COUNT;
    assert Power256(12) == 0x1_0000_0000_0000_0000_0000_0000;
  }

  // The initial counter splits into an upper part that names the packet and a
  // lower part that is the same for all packets.
  lemma IvSplit(mask: Block, ssrc: nat, frameId: nat, packetId: nat)
    ensures var iv := CastIv(mask, ssrc, frameId, packetId);
      FromBigEndian(iv) == FromBigEndian(iv[..10]) * LOW_COUNT + FromBigEndian(iv[10..])
    ensures CastIv(mask, ssrc, frameId, packetId)[10..]
         == seq(6, i requires 0 <= i < 6 => Xor(mask[10 + i], 0))
    ensures FromBigEndian(CastIv(mask, ssrc, frameId, packetId)[10..]) < LOW_COUNT
  {
    var iv := CastIv(mask, ssrc, frameId, packetId);
    Widths();
    BigEndianConcat(iv[..10], iv[10..]);
    assert iv == iv[..10] + iv[10..];
    BigEndianBound(iv[10..]);
  }

  lemma UpperPartNamesPacket(mask: Block, ssrc: nat, f1: nat, p1: nat, f2: nat, p2: nat)
    requires f1 < U32_COUNT && f2 < U32_COUNT && p1 < U16_COUNT && p2 < U16_COUNT
    requires FromBigEndian(CastIv(mask, ssrc, f1, p1)[..10]) == FromBigEndian(CastIv(mask, ssrc, f2, p2)[..10])
    ensures f1 == f2 && p1 == p2
  {
    var iv1, iv2 := CastIv(mask, ssrc, f1, p1), CastIv(mask, ssrc, f2, p2);
    var c1, c2 := CounterBlock(ssrc, f1, p1), CounterBlock(ssrc, f2, p2);
    BigEndianInjective(iv1[..10], iv2[..10]);
    forall i | 0 <= i < 10 ensures c1[i] == c2[i] {
      assert iv1[i] == iv1[..10][i] == iv2[..10][i] == iv2[i];
      XorInjective(mask[i], c1[i], c2[i]);
    }
    assert LittleEndian(f1, 4) == c1[4..8] == c2[4..8] == LittleEndian(f2, 4);
    assert LittleEndian(p1, 2) == c1[8..10] == c2[8..10] == LittleEndian(p2, 2);
    Widths();
    LittleEndianRoundTrip(f1, 4);
    LittleEndianRoundTrip(f2, 4);
    LittleEndianRoundTrip(p1, 2);
    LittleEndianRoundTrip(p2, 2);
  }

  // Two packets of one stream that share even one counter value are the same
  // packet at the same block, for packets of up to 2^48 blocks.
  lemma CountersDisjoint(mask: Block, ssrc: nat, f1: nat, p1: nat, j1: nat, f2: nat, p2: nat, j2: nat)
    requires f1 < U32_COUNT && f2 < U32_COUNT && p1 < U16_COUNT && p2 < U16_COUNT
    requires j1 < LOW_COUNT && j2 < LOW_COUNT
    requires CounterAt(CastIv(mask, ssrc, f1, p1), j1) == CounterAt(CastIv(mask, ssrc, f2, p2), j2)
    ensures f1 == f2 && p1 == p2 && j1 == j2
  {
    var iv1, iv2 := CastIv(mask, ssrc, f1, p1), CastIv(mask, ssrc, f2, p2);
    IvSplit(mask, ssrc, f1, p1);
    IvSplit(mask, ssrc, f2, p2);
    assert iv1[10..] == iv2[10..];
    var high1, high2, low := FromBigEndian(iv1[..10]), FromBigEndian(iv2[..10]), FromBigEndian(iv1[10..]);
    UpperBound(iv1[..10]);
    UpperBound(iv2[..10]);
    NoCarryCollision(high1, high2, low, j1, j2);
    UpperPartNamesPacket(mask, ssrc, f1, p1, f2, p2);
  }

  const HIGH_COUNT := 0x1_0000_0000_0000_0000_0000 // 2^80

  lemma UpperBound(bytes: seq<byte>)
    requires |bytes| == 10
    ensures FromBigEndian(bytes) < HIGH_COUNT
  {
    BigEndianBound(bytes);
    assert Power256(4) == U32_COUNT;
    assert Power256(8) == U64_COUNT;
  }

  lemma NoCarryCollision(high1: nat, high2: nat, low: nat, j1: nat, j2: nat)
    requires high1 < HIGH_COUNT && high2 < HIGH_COUNT && low < LOW_COUNT && j1 < LOW_COUNT && j2 < LOW_COUNT
    requires (high1 * LOW_COUNT + low + j1) % BLOCK_COUNT == (high2 * LOW_COUNT + low + j2) % BLOCK_COUNT
    ensures high1 == high2 && j1 == j2
  {
  }

  // ---------------------------------------------------------------------
  // What encryption is.
  // ---------------------------------------------------------------------

  // The cipher's blocks for counters from the IV on, one after the other.
  function Keystream(cipher: Cipher, key: Block, iv: Block, blocks: nat): (stream: seq<byte>)
    ensures |stream| == 16 * blocks
  {
    if blocks == 0 then []
    else
      Keystream(cipher, key, iv, blocks - 1)
      + cipher(key, (FromBigEndian(iv) + blocks - 1) % 0x1_0000_0000_0000_0000_0000_0000_0000_0000)
  }

  function Zeros(n: nat): (zeros: seq<byte>)
    ensures |zeros| == n
  {
    seq(n, _ => 0 as byte)
  }

  lemma {:induction false} KeystreamAt(cipher: Cipher, key: Block, iv: Block, blocks: nat, i: nat)
    requires i < 16 * blocks
    ensures Keystream(cipher, key, iv, blocks)[i] == KeyByte(cipher, key, iv, i)
  {
    if i < 16 * (blocks - 1) {
      KeystreamAt(cipher, key, iv, blocks - 1, i);
    } else {
      assert i / 16 == blocks - 1 && i % 16 == i - 16 * (blocks - 1);
    }
  }

  // For any block function: zeros encrypt to the keystream, and each octet
  // of anything encrypted differs from its plain octet by the keystream's.
  lemma EncryptIsKeystream(cipher: Cipher, key: Block, iv: Block, blocks: nat, data: seq<byte>)
    requires |data| <= 16 * blocks
    ensures Encrypt(cipher, key, iv, Zeros(16 * blocks)) == Keystream(cipher, key, iv, blocks)
    ensures forall i :: 0 <= i < |data| ==>
              Xor(Encrypt(cipher, key, iv, data)[i], data[i]) == Keystream(cipher, key, iv, blocks)[i]
  {
    hide Keystream, KeyByte;
    forall i | 0 <= i < 16 * blocks
      ensures Encrypt(cipher, key, iv, Zeros(16 * blocks))[i] == Keystream(cipher, key, iv, blocks)[i]
    {
      KeystreamAt(cipher, key, iv, blocks, i);
      XorZeroByte(KeyByte(cipher, key, iv, i));
    }
    forall i | 0 <= i < |data|
      ensures Xor(Encrypt(cipher, key, iv, data)[i], data[i]) == Keystream(cipher, key, iv, blocks)[i]
    {
      KeystreamAt(cipher, key, iv, blocks, i);
      XorCommutes(data[i], KeyByte(cipher, key, iv, i));
      XorCancels(KeyByte(cipher, key, iv, i), data[i]);
    }
  }

  // The mask taken off an initial counter.
  function Unmask(mask: Block, iv: Block): Block {
    seq(16, i requires 0 <= i < 16 => Xor(iv[i], mask[i]))
  }

  // The fields of an initial counter: stream, frame and packet number, least
  // significant octet first, and nothing after them.
  lemma IvFields(mask: Block, ssrc: nat, frameId: nat, packetId: nat)
    requires ssrc < U32_COUNT && frameId < U32_COUNT && packetId < U16_COUNT
    ensures var c := Unmask(mask, CastIv(mask, ssrc, frameId, packetId));
      && c[0] as nat + 0x100 * c[1] as nat + 0x1_0000 * c[2] as nat + 0x100_0000 * c[3] as nat == ssrc
      && c[4] as nat + 0x100 * c[5] as nat + 0x1_0000 * c[6] as nat + 0x100_0000 * c[7] as nat == frameId
      && c[8] as nat + 0x100 * c[9] as nat == packetId
      && forall i :: 10 <= i < 16 ==> c[i] == 0
  {
    hide FromLittleEndian, LittleEndian;
    var c, plain := Unmask(mask, CastIv(mask, ssrc, frameId, packetId)), CounterBlock(ssrc, frameId, packetId);
    forall i | 0 <= i < 16 ensures c[i] == plain[i] {
      XorCommutes(mask[i], plain[i]);
      XorCancels(plain[i], mask[i]);
    }
    assert c == plain;
    Widths();
    LittleEndianRoundTrip(ssrc, 4);
    LittleEndianRoundTrip(frameId, 4);
    LittleEndianRoundTrip(packetId, 2);
    assert c[0..4] == LittleEndian(ssrc, 4) && c[0..4] == [c[0], c[1], c[2], c[3]];
    assert c[4..8] == LittleEndian(frameId, 4) && c[4..8] == [c[4], c[5], c[6], c[7]];
    assert c[8..10] == LittleEndian(packetId, 2) && c[8..10] == [c[8], c[9]];
    LittleEndianIs(c[0], c[1], c[2], c[3]);
    LittleEndianIs(c[4], c[5], c[6], c[7]);
    LittleEndianIs(c[8], c[9], 0, 0);
  }
}
