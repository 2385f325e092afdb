/** What fixes the order of bits and bytes, the parameters of the ready-made types, and the residue of a checked message. */
module CrcLaws {
  import opened Bits
  import opened CrcTheory
  import opened Crc
  import opened CrcResults

  // ----- The order of bits -----

  /** Bytes are divided in order; within a byte the lowest bit comes first when input is reflected, else the highest. */
  lemma {:induction false} BitOrder(m: seq<Byte>, reflectIn: bool, i: nat, j: nat)
    requires i < |m| && j < 8
    ensures MessageBits(m, reflectIn)[8 * i + j] == m[i][if reflectIn then j else 7 - j]
  {
    var s := MessageBits(m, reflectIn);
    assert s == ByteBits(m[0], reflectIn) + MessageBits(m[1..], reflectIn);
    if i > 0 {
      BitOrder(m[1..], reflectIn, i - 1, j);
      assert s[8 * i + j] == MessageBits(m[1..], reflectIn)[8 * (i - 1) + j];
    }
  }

  function Mirrored(m: seq<Byte>): (r: seq<Byte>)
    ensures |r| == |m|
  {
    seq(|m|, i requires 0 <= i < |m| => Reverse(m[i]))
  }

  /** Reflected input is the same as input whose bytes have been mirrored. */
  lemma ReflectedInput(p: Parameters, m: seq<Byte>)
    requires p.Valid()
    ensures Remainder(p.(reflectIn := true), m) == Remainder(p.(reflectIn := false), Mirrored(m))
  {
    var a, b := MessageBits(m, true), MessageBits(Mirrored(m), false);
    forall k | 0 <= k < 8 * |m| ensures a[k] == b[k] {
      BitOrder(m, true, k / 8, k % 8);
      BitOrder(Mirrored(m), false, k / 8, k % 8);
    }
    assert a == b;
  }

  lemma {:induction false} FlattenAppend(a: seq<seq<Byte>>, b: seq<seq<Byte>>)
    ensures Flatten(a + b) == Flatten(a) + Flatten(b)
    ensures forall chunk: seq<Byte> :: Flatten([chunk]) == chunk
    decreases |b|
  {
    forall chunk: seq<Byte> ensures Flatten([chunk]) == chunk {
      assert [chunk][..0] == [];
    }
    if b == [] {
      assert a + b == a;
    } else {
      var k := |b| - 1;
      FlattenAppend(a, b[..k]);
      assert (a + b)[..|a + b| - 1] == a + b[..k];
    }
  }

  // ----- The residue -----

  /** The bytes of a checksum, lowest first. */
  function LittleEndian(c: Word): (b: seq<Byte>)
    requires |c| % 8 == 0
    ensures 8 * |b| == |c|
  {
    seq(|c| / 8, i requires 0 <= i < |c| / 8 => c[8 * i..8 * i + 8])
  }

  lemma LittleEndianBits(c: Word)
    requires |c| % 8 == 0
    ensures MessageBits(LittleEndian(c), true) == c
  {
    var b := LittleEndian(c);
    forall k | 0 <= k < |c| ensures MessageBits(b, true)[k] == c[k] {
      BitOrder(b, true, k / 8, k % 8);
    }
  }

  /** The checksum as it follows the message. */
  function CheckBytes(p: Parameters, c: Word): seq<Byte>
    requires |c| % 8 == 0
  {
    if p.reflectIn then LittleEndian(c) else BigEndian(c)
  }

  /** The bits of the checksum in processing order. */
  ghost function CheckBits(p: Parameters, c: Word): (s: seq<bool>)
    ensures |s| == |c|
  {
    if p.reflectIn then c else Reverse(c)
  }

  lemma SentBits(p: Parameters, c: Word)
    requires |c| % 8 == 0
    ensures MessageBits(CheckBytes(p, c), p.reflectIn) == CheckBits(p, c)
  {
    LittleEndianBits(c);
    BigEndianBits(c);
  }

  lemma CheckBitsOfOutput(p: Parameters, r: Word)
    requires p.Valid() && p.reflectIn == p.reflectOut && |r| == p.bits
    ensures Xor(CheckBits(p, Output(p, r)), Top(r, p.bits)) == CheckBits(p, p.final[..p.bits])
  {
  }

  /** A message followed by its own checksum, lowest byte first when reflected and highest first otherwise, leaves a
      remainder that does not depend on the message: what the final xor value alone would leave. */
  lemma Residue(p: Parameters, m: seq<Byte>)
    requires p.Valid() && p.bits % 8 == 0 && p.reflectIn == p.reflectOut
    ensures Remainder(p, m + CheckBytes(p, Checksum(p, m)))
         == Run(p.poly[..p.bits], Zeros(p.bits), CheckBits(p, p.final[..p.bits]))
  {
    hide Run, MessageBits, CheckBytes, CheckBits, Output, Top;
    var poly, r, c := p.poly[..p.bits], Remainder(p, m), Checksum(p, m);
    var tail := CheckBytes(p, c);
    MessageBitsAppend(m, tail, p.reflectIn);
    RunAppend(poly, p.init[..p.bits], MessageBits(m, p.reflectIn), MessageBits(tail, p.reflectIn));
    SentBits(p, c);
    Absorb(poly, r, CheckBits(p, c));
    CheckBitsOfOutput(p, r);
    assert Shl(r, p.bits) == Zeros(p.bits);
    ZeroPlus(Run(poly, Zeros(p.bits), CheckBits(p, p.final[..p.bits])));
  }

  lemma ZeroPlus(w: Word)
    ensures Xor(Zeros(|w|), w) == w
  {
  }

  // ----- The ready-made types -----

  lemma Nibble(n: nat, width: nat)
    requires width >= 4
    ensures var w, v := FromNat(n, width), FromNat(n / 16, width - 4);
            && w[0] == (n % 2 == 1) && w[1] == (n / 2 % 2 == 1) && w[2] == (n / 4 % 2 == 1) && w[3] == (n / 8 % 2 == 1)
            && forall i :: 4 <= i < width ==> w[i] == v[i - 4]
  {
    var a, b, c := FromNat(n / 2, width - 1), FromNat(n / 4, width - 2), FromNat(n / 8, width - 3);
    assert n / 2 / 2 == n / 4 && n / 4 / 2 == n / 8 && n / 8 / 2 == n / 16;
    assert a == [n / 2 % 2 == 1] + FromNat(n / 2 / 2, width - 2);
    assert b == [n / 4 % 2 == 1] + FromNat(n / 4 / 2, width - 3);
    assert c == [n / 8 % 2 == 1] + FromNat(n / 8 / 2, width - 4);
  }

  lemma SixteenOnes(i: nat)
    requires i < 16
    ensures FromNat(0xFFFF, 16)[i]
  {
    hide FromNat;
    Nibble(0xFFFF, 16);
    Nibble(0xFFF, 12);
    Nibble(0xFF, 8);
    Nibble(0xF, 4);
  }

  lemma ThirtyTwoOnes(i: nat)
    requires i < 32
    ensures FromNat(0xFFFF_FFFF, 32)[i]
  {
    hide FromNat;
    Nibble(0xFFFF_FFFF, 32);
    Nibble(0xFFF_FFFF, 28);
    Nibble(0xFF_FFFF, 24);
    Nibble(0xF_FFFF, 20);
    if i >= 16 {
      SixteenOnes(i - 16);
    }
  }

  /** The exponents of `crc_16_type`, x^16 + x^15 + x^2 + 1. */
  lemma PolynomialOfCrc16(i: nat)
    requires i < 16
    ensures CRC_16.poly[i] <==> i in {0, 2, 15}
  {
    hide FromNat;
    Nibble(0x8005, 16);
    Nibble(0x800, 12);
    Nibble(0x80, 8);
    Nibble(0x8, 4);
  }

  /** x^16 + x^12 + x^5 + 1. */
  lemma PolynomialOfCrcCcitt(i: nat)
    requires i < 16
    ensures CRC_CCITT.poly[i] <==> i in {0, 5, 12}
  {
    hide FromNat;
    Nibble(0x1021, 16);
    Nibble(0x102, 12);
    Nibble(0x10, 8);
    Nibble(0x1, 4);
  }

  /** x^16 + x^15 + x^10 + x^3: the constant above with its bits mirrored. */
  lemma PolynomialOfCrcXmodem(i: nat)
    requires i < 16
    ensures CRC_XMODEM.poly[i] <==> i in {3, 10, 15}
  {
    hide FromNat;
    Nibble(0x8408, 16);
    Nibble(0x840, 12);
    Nibble(0x84, 8);
    Nibble(0x8, 4);
  }

  /** The polynomial of section 8 of RFC 1952. */
  lemma PolynomialOfCrc32(i: nat)
    requires i < 32
    ensures CRC_32.poly[i] <==> i in {0, 1, 2, 4, 5, 7, 8, 10, 11, 12, 16, 22, 23, 26}
  {
    hide FromNat;
    Nibble(0x04C11DB7, 32);
    Nibble(0x04C11DB, 28);
    Nibble(0x04C11D, 24);
    Nibble(0x04C11, 20);
    Nibble(0x04C1, 16);
    Nibble(0x04C, 12);
    Nibble(0x04, 8);
    Nibble(0x0, 4);
  }

  /** The other parameters: start value and final xor are all zeros or all ones. */
  lemma ReadyMadeParameters()
    ensures CRC_16.bits == 16 && CRC_16.init == Zeros(16) && CRC_16.final == Zeros(16)
    ensures CRC_16.reflectIn && CRC_16.reflectOut
    ensures CRC_CCITT.bits == 16 && (forall i :: 0 <= i < 16 ==> CRC_CCITT.init[i]) && CRC_CCITT.final == Zeros(16)
    ensures !CRC_CCITT.reflectIn && !CRC_CCITT.reflectOut
    ensures CRC_XMODEM.bits == 16 && CRC_XMODEM.init == Zeros(16) && CRC_XMODEM.final == Zeros(16)
    ensures CRC_XMODEM.reflectIn && CRC_XMODEM.reflectOut
    ensures CRC_32.bits == 32 && forall i :: 0 <= i < 32 ==> CRC_32.init[i] && CRC_32.final[i]
    ensures CRC_32.reflectIn && CRC_32.reflectOut
  {
    hide FromNat;
    forall i | 0 <= i < 16 ensures CRC_CCITT.init[i] {
      SixteenOnes(i);
    }
    forall i | 0 <= i < 32 ensures CRC_32.init[i] && CRC_32.final[i] {
      ThirtyTwoOnes(i);
    }
  }
}
