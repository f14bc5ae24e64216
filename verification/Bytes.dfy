// Octets, machine-integer bounds, and byte-order conversions.
module Bytes {
  newtype byte = x: int | 0 <= x < 256

  const U16_COUNT := 0x1_0000
  const U32_COUNT := 0x1_0000_0000
  const U64_COUNT := 0x1_0000_0000_0000_0000

  // Bitwise exclusive or of the low `bits` bits.
  function XorBits(a: nat, b: nat, bits: nat): nat {
    if bits == 0 then 0
    else 2 * XorBits(a / 2, b / 2, bits - 1) + (if a % 2 == b % 2 then 0 else 1)
  }

  function Power2(k: nat): nat {
    if k == 0 then 1 else 2 * Power2(k - 1)
  }

  lemma {:induction false} XorBitsBound(a: nat, b: nat, bits: nat)
    ensures XorBits(a, b, bits) < Power2(bits)
  {
    if bits > 0 {
      XorBitsBound(a / 2, b / 2, bits - 1);
    }
  }

  lemma {:induction false} XorBitsCancels(a: nat, b: nat, bits: nat)
    requires a < Power2(bits)
    ensures XorBits(XorBits(a, b, bits), b, bits) == a
  {
    if bits > 0 {
      hide XorBits;
      var x := XorBits(a, b, bits);
      XorBitsStep(a, b, bits);
      XorBitsStep(x, b, bits);
      XorBitsCancels(a / 2, b / 2, bits - 1);
      assert x % 2 == b % 2 <==> a % 2 == 0;
    } else {
      assert a == 0;
    }
  }

  lemma XorBitsStep(a: nat, b: nat, bits: nat)
    requires bits > 0
    ensures XorBits(a, b, bits) / 2 == XorBits(a / 2, b / 2, bits - 1)
    ensures XorBits(a, b, bits) % 2 == if a % 2 == b % 2 then 0 else 1
  {
  }

  lemma {:induction false} XorBitsCommute(a: nat, b: nat, bits: nat)
    ensures XorBits(a, b, bits) == XorBits(b, a, bits)
  {
    if bits > 0 {
      XorBitsCommute(a / 2, b / 2, bits - 1);
    }
  }

  function Xor(a: byte, b: byte): byte {
    XorBitsBound(a as nat, b as nat, 8);
    assert Power2(8) == 256 by { assert Power2(4) == 16; }
    XorBits(a as nat, b as nat, 8) as byte
  }

  lemma XorCancels(a: byte, b: byte)
    ensures Xor(Xor(a, b), b) == a
  {
    assert Power2(8) == 256 by { assert Power2(4) == 16; }
    XorBitsCancels(a as nat, b as nat, 8);
  }

  lemma XorInjective(mask: byte, a: byte, b: byte)
    requires Xor(mask, a) == Xor(mask, b)
    ensures a == b
  {
    XorBitsCommute(mask as nat, a as nat, 8);
    XorBitsCommute(mask as nat, b as nat, 8);
    XorCancels(a, mask);
    XorCancels(b, mask);
  }

  // The low `width` octets of `n`, most significant first.
  function BigEndian(n: nat, width: nat): (bytes: seq<byte>)
    ensures |bytes| == width
  {
    if width == 0 then [] else BigEndian(n / 256, width - 1) + [(n % 256) as byte]
  }

  // The low `width` octets of `n`, least significant first.
  function LittleEndian(n: nat, width: nat): (bytes: seq<byte>)
    ensures |bytes| == width
  {
    if width == 0 then [] else [(n % 256) as byte] + LittleEndian(n / 256, width - 1)
  }

  function FromBigEndian(bytes: seq<byte>): nat {
    if bytes == [] then 0 else FromBigEndian(bytes[..|bytes| - 1]) * 256 + bytes[|bytes| - 1] as nat
  }

  function FromLittleEndian(bytes: seq<byte>): nat {
    if bytes == [] then 0 else bytes[0] as nat + 256 * FromLittleEndian(bytes[1..])
  }

  function Power256(k: nat): nat {
    if k == 0 then 1 else 256 * Power256(k - 1)
  }

  lemma {:induction false} BigEndianRoundTrip(n: nat, width: nat)
    requires n < Power256(width)
    ensures FromBigEndian(BigEndian(n, width)) == n
  {
    if width > 0 {
      BigEndianRoundTrip(n / 256, width - 1);
      assert BigEndian(n, width)[..width - 1] == BigEndian(n / 256, width - 1);
    }
  }

  lemma {:induction false} LittleEndianRoundTrip(n: nat, width: nat)
    requires n < Power256(width)
    ensures FromLittleEndian(LittleEndian(n, width)) == n
  {
    if width > 0 {
      LittleEndianRoundTrip(n / 256, width - 1);
      assert LittleEndian(n, width)[1..] == LittleEndian(n / 256, width - 1);
    }
  }

  lemma {:induction false} BigEndianBound(bytes: seq<byte>)
    ensures FromBigEndian(bytes) < Power256(|bytes|)
  {
    if bytes != [] {
      BigEndianBound(bytes[..|bytes| - 1]);
    }
  }

  lemma {:induction false} BigEndianConcat(a: seq<byte>, b: seq<byte>)
    ensures FromBigEndian(a + b) == FromBigEndian(a) * Power256(|b|) + FromBigEndian(b)
  {
    if b == [] {
      assert a + b == a;
    } else {
      var init := b[..|b| - 1];
      BigEndianConcat(a, init);
      assert (a + b)[..|a + b| - 1] == a + init;
      assert FromBigEndian(a) * Power256(|b|) == FromBigEndian(a) * Power256(|init|) * 256;
    }
  }

  lemma {:induction false} BigEndianInjective(a: seq<byte>, b: seq<byte>)
    requires |a| == |b| && FromBigEndian(a) == FromBigEndian(b)
    ensures a == b
  {
    if a != [] {
      BigEndianInjective(a[..|a| - 1], b[..|b| - 1]);
      assert a == a[..|a| - 1] + [a[|a| - 1]];
      assert b == b[..|b| - 1] + [b[|b| - 1]];
    }
  }

  lemma {:induction false} LittleEndianInjective(a: seq<byte>, b: seq<byte>)
    requires |a| == |b| && FromLittleEndian(a) == FromLittleEndian(b)
    ensures a == b
  {
    if a != [] {
      SameDigits(a[0] as nat, FromLittleEndian(a[1..]), b[0] as nat, FromLittleEndian(b[1..]));
      LittleEndianInjective(a[1..], b[1..]);
      assert a == [a[0]] + a[1..] && b == [b[0]] + b[1..];
    }
  }

  lemma SameDigits(low1: nat, high1: nat, low2: nat, high2: nat)
    requires low1 < 256 && low2 < 256 && low1 + 256 * high1 == low2 + 256 * high2
    ensures low1 == low2 && high1 == high2
  {
  }

  // Reading and writing again gives the same octets.
  lemma BigEndianOfRead(bytes: seq<byte>)
    ensures BigEndian(FromBigEndian(bytes), |bytes|) == bytes
  {
    BigEndianBound(bytes);
    BigEndianRoundTrip(FromBigEndian(bytes), |bytes|);
    BigEndianInjective(BigEndian(FromBigEndian(bytes), |bytes|), bytes);
  }

  // ---------------------------------------------------------------------
  // Bit by bit and octet by octet.
  // ---------------------------------------------------------------------

  lemma {:induction false} XorBitsAt(a: nat, b: nat, bits: nat, k: nat)
    requires k < bits
    ensures Bit(XorBits(a, b, bits), k) <==> Bit(a, k) != Bit(b, k)
  {
    XorBitsStep(a, b, bits);
    if k > 0 {
      XorBitsAt(a / 2, b / 2, bits - 1, k - 1);
    }
  }

  // Bit `k` of a number, the lowest first.
  predicate Bit(n: nat, k: nat) {
    if k == 0 then n % 2 == 1 else Bit(n / 2, k - 1)
  }

  // A bit of the exclusive or is set exactly when the two bits differ.
  lemma XorAt(a: byte, b: byte, k: nat)
    requires k < 8
    ensures Bit(Xor(a, b) as nat, k) <==> Bit(a as nat, k) != Bit(b as nat, k)
  {
    XorBitsAt(a as nat, b as nat, 8, k);
  }

  lemma {:induction false} XorZero(a: nat, bits: nat)
    requires a < Power2(bits)
    ensures XorBits(0, a, bits) == a
  {
    if bits > 0 {
      XorZero(a / 2, bits - 1);
    }
  }

  lemma XorZeroByte(a: byte)
    ensures Xor(0, a) == a
  {
    assert Power2(8) == 256 by { assert Power2(4) == 16; }
    XorZero(a as nat, 8);
  }

  lemma XorCommutes(a: byte, b: byte)
    ensures Xor(a, b) == Xor(b, a)
  {
    XorBitsCommute(a as nat, b as nat, 8);
  }

  // Most significant octet first.
  lemma BigEndianIs(a: byte, b: byte, c: byte, d: byte)
    ensures FromBigEndian([a, b]) == 0x100 * a as nat + b as nat
    ensures FromBigEndian([a, b, c, d]) == 0x100_0000 * a as nat + 0x1_0000 * b as nat + 0x100 * c as nat + d as nat
    ensures BigEndian(FromBigEndian([a, b]), 2) == [a, b]
    ensures BigEndian(FromBigEndian([a, b, c, d]), 4) == [a, b, c, d]
  {
    var s := [a, b, c, d];
    assert [a, b][..1] == [a] && [a][..0] == [];
    assert FromBigEndian([a]) == a as nat;
    assert FromBigEndian([a, b]) == FromBigEndian([a]) * 256 + b as nat;
    assert s[..3] == [a, b, c] && [a, b, c][..2] == [a, b];
    BigEndianOfRead([a, b]);
    BigEndianOfRead(s);
  }

  // Least significant octet first.
  lemma LittleEndianIs(a: byte, b: byte, c: byte, d: byte)
    ensures FromLittleEndian([a, b]) == a as nat + 0x100 * b as nat
    ensures FromLittleEndian([a, b, c, d]) == a as nat + 0x100 * b as nat + 0x1_0000 * c as nat + 0x100_0000 * d as nat
  {
    var s := [a, b, c, d];
    assert [a, b][1..] == [b] && [b][1..] == [];
    assert FromLittleEndian([b]) == b as nat;
    assert s[1..] == [b, c, d] && [b, c, d][1..] == [c, d] && [c, d][1..] == [d] && [d][1..] == [];
    assert FromLittleEndian([d]) == d as nat;
    assert FromLittleEndian([c, d]) == c as nat + 256 * d as nat;
    assert FromLittleEndian([b, c, d]) == b as nat + 256 * FromLittleEndian([c, d]);
  }
}
