/** What the three forms of the CRC promise together. */
module CrcResults {
  import opened Bits
  import opened CrcTheory
  import opened Crc

  // ----- The table-driven form agrees with the bit-at-a-time form -----

  function Flatten(chunks: seq<seq<Byte>>): (m: seq<Byte>) {
    if chunks == [] then [] else Flatten(chunks[..|chunks| - 1]) + chunks[|chunks| - 1]
  }

  /** The same parameters in the wider words that `crc_optimal` uses. */
  function Widen(p: Parameters, width: nat): (q: Parameters)
    requires p.Valid() && |p.poly| <= width
    ensures q.Valid() && forall m :: Remainder(q, m) == Remainder(p, m) && Checksum(q, m) == Checksum(p, m)
  {
    var q := p.(poly := Convert(p.poly, width), init := Convert(p.init, width), final := Convert(p.final, width));
    assert q.poly[..p.bits] == p.poly[..p.bits];
    assert q.init[..p.bits] == p.init[..p.bits];
    assert q.final[..p.bits] == p.final[..p.bits];
    q
  }

  lemma OneMoreChunk(poly: Word, start: Word, chunks: seq<seq<Byte>>, i: nat, reflectIn: bool)
    requires |poly| == |start| >= 1 && i < |chunks|
    ensures Run(poly, start, MessageBits(Flatten(chunks[..i + 1]), reflectIn))
         == Run(poly, Run(poly, start, MessageBits(Flatten(chunks[..i]), reflectIn)), MessageBits(chunks[i], reflectIn))
  {
    assert chunks[..i + 1][..i] == chunks[..i];
    MessageBitsAppend(Flatten(chunks[..i]), chunks[i], reflectIn);
    RunAppend(poly, start, MessageBits(Flatten(chunks[..i]), reflectIn), MessageBits(chunks[i], reflectIn));
  }

  /** Both computers, fed the same message cut into the same chunks, end with the checksum and the remainder
      of the whole message. */
  method CompareForms(p: Parameters, width: nat, chunks: seq<seq<Byte>>)
    returns (slow: Word, fast: Word, slowRem: Word, fastRem: Word)
    requires p.Valid() && |p.poly| <= width
    ensures SameValue(slow, Checksum(p, Flatten(chunks))) && SameValue(fast, Checksum(p, Flatten(chunks)))
    ensures SameValue(slowRem, Remainder(p, Flatten(chunks))) && SameValue(fastRem, Remainder(p, Flatten(chunks)))
  {
    var q := Widen(p, width);
    var basic := new CrcBasic(p);
    var table := new CrcTable(q.bits, q.poly, q.reflectIn);
    var optimal := new CrcOptimal(q, table, q.init);
    ghost var poly, start := p.poly[..p.bits], p.init[..p.bits];
    assert q.poly[..q.bits] == poly && q.init[..q.bits] == start && q.final[..q.bits] == p.final[..p.bits];
    for i := 0 to |chunks|
      invariant basic.Valid() && optimal.Valid()
      invariant basic.Register() == optimal.Register() == Run(poly, start, MessageBits(Flatten(chunks[..i]), p.reflectIn))
    {
      OneMoreChunk(poly, start, chunks, i, p.reflectIn);
      basic.ProcessBlock(chunks[i]);
      optimal.ProcessBlock(chunks[i]);
    }
    assert chunks[..|chunks|] == chunks;
    slow := basic.GetChecksum();
    fast := optimal.GetChecksum();
    slowRem := basic.GetInterimRemainder();
    fastRem := optimal.GetInterimRemainder();
  }

  /** The one-call function `crc`. */
  method ComputeCrc(p: Parameters, buffer: seq<Byte>) returns (c: Word)
    requires p.Valid()
    ensures SameValue(c, Checksum(p, buffer))
  {
    var table := new CrcTable(p.bits, p.poly, p.reflectIn);
    var computer := new CrcOptimal(p, table, p.init);
    computer.ProcessBlock(buffer);
    c := computer.GetChecksum();
  }

  // ----- Error bursts -----

  /** Messages of one length whose bits, in processing order, differ somewhere and only within `[lo, hi)`. */
  ghost predicate BurstApart(p: Parameters, m: seq<Byte>, n: seq<Byte>, lo: nat, hi: nat) {
    var a, b := MessageBits(m, p.reflectIn), MessageBits(n, p.reflectIn);
    && |m| == |n| && lo <= hi <= |a| && hi - lo <= p.bits && a != b
    && a[..lo] == b[..lo] && a[hi..] == b[hi..]
  }

  ghost predicate DetectsBursts(p: Parameters)
    requires p.Valid()
  {
    forall m, n, lo: nat, hi: nat {:trigger BurstApart(p, m, n, lo, hi)} ::
      BurstApart(p, m, n, lo, hi) ==> Checksum(p, m) != Checksum(p, n)
  }

  lemma OutputInjective(p: Parameters, r: Word, s: Word)
    requires p.Valid() && |r| == |s| == p.bits && r != s
    ensures Output(p, r) != Output(p, s)
  {
    var i :| 0 <= i < p.bits && r[i] != s[i];
    var j := if p.reflectOut then p.bits - 1 - i else i;
    OutputBit(p, r, i, j);
    OutputBit(p, s, i, j);
  }

  lemma OutputBit(p: Parameters, r: Word, i: nat, j: nat)
    requires p.Valid() && |r| == p.bits && i < p.bits && j == if p.reflectOut then p.bits - 1 - i else i
    ensures Output(p, r)[j] == (r[i] != p.final[j])
  {
  }

  lemma BurstDetected(p: Parameters, m: seq<Byte>, n: seq<Byte>, lo: nat, hi: nat)
    requires p.Valid() && p.poly[0] && BurstApart(p, m, n, lo, hi)
    ensures Checksum(p, m) != Checksum(p, n)
  {
    var a, b := MessageBits(m, p.reflectIn), MessageBits(n, p.reflectIn);
    BurstInBits(p.poly[..p.bits], p.init[..p.bits], a, b, lo, hi);
    OutputInjective(p, Remainder(p, m), Remainder(p, n));
  }

  lemma CutInThree(a: seq<bool>, lo: nat, hi: nat)
    requires lo <= hi <= |a|
    ensures a == a[..lo] + (a[lo..hi] + a[hi..])
  {
  }

  lemma BurstInBits(poly: Word, init: Word, a: seq<bool>, b: seq<bool>, lo: nat, hi: nat)
    requires |poly| == |init| >= 1 && poly[0] && |a| == |b| && lo <= hi <= |a| && hi - lo <= |poly|
    requires a != b && a[..lo] == b[..lo] && a[hi..] == b[hi..]
    ensures Run(poly, init, a) != Run(poly, init, b)
  {
    hide Run;
    CutInThree(a, lo, hi);
    CutInThree(b, lo, hi);
    BurstChangesRemainder(poly, init, a[..lo], a[lo..hi], b[lo..hi], a[hi..]);
  }

  /** The message whose bits in processing order are `s`. */
  function FromBits(s: seq<bool>, reflectIn: bool): (m: seq<Byte>)
    requires |s| % 8 == 0
  {
    if s == [] then [] else [if reflectIn then s[..8] else Reverse(s[..8])] + FromBits(s[8..], reflectIn)
  }

  lemma {:induction false} MessageBitsFromBits(s: seq<bool>, reflectIn: bool)
    requires |s| % 8 == 0
    ensures MessageBits(FromBits(s, reflectIn), reflectIn) == s
  {
    if s != [] {
      var m := FromBits(s, reflectIn);
      MessageBitsFromBits(s[8..], reflectIn);
      assert m[1..] == FromBits(s[8..], reflectIn);
      ReverseTwice(s[..8]);
      assert s == s[..8] + s[8..];
    }
  }

  lemma PaddedBlindBurst(poly: Word, pad: nat)
    requires |poly| >= 1 && !poly[0]
    ensures Run(poly, Zeros(|poly|), BlindBurst(poly) + Zeros(pad)) == Zeros(|poly|)
  {
    hide Run;
    BlindBurstIsInvisible(poly);
    RunAppend(poly, Zeros(|poly|), BlindBurst(poly), Zeros(pad));
    ZerosStayZero(poly, pad);
  }

  lemma BlindSpot(p: Parameters, s: seq<bool>) returns (m: seq<Byte>, n: seq<Byte>)
    requires p.Valid() && !p.poly[0]
    requires |s| % 8 == 0 && |s| >= p.bits
    ensures BurstApart(p, m, n, 0, p.bits) && Checksum(p, m) == Checksum(p, n)
    ensures MessageBits(m, p.reflectIn) == s
  {
    hide Run, MessageBits, FromBits;
    var poly := p.poly[..p.bits];
    var burst := BlindBurst(poly) + Zeros(|s| - p.bits);
    PaddedBlindBurst(poly, |s| - p.bits);
    InvisibleAnywhere(poly, p.init[..p.bits], burst, s);
    m, n := FromBits(s, p.reflectIn), FromBits(Xor(s, burst), p.reflectIn);
    MessageBitsFromBits(s, p.reflectIn);
    MessageBitsFromBits(Xor(s, burst), p.reflectIn);
    assert s[0] != Xor(s, burst)[0];
    assert s[p.bits..] == Xor(s, burst)[p.bits..];
  }

  /** Every burst of at most `bits` bits is detected exactly when the polynomial's lowest bit is set. */
  lemma BurstDetection(p: Parameters)
    requires p.Valid()
    ensures DetectsBursts(p) <==> p.poly[0]
  {
    if p.poly[0] {
      forall m, n, lo: nat, hi: nat | BurstApart(p, m, n, lo, hi) ensures Checksum(p, m) != Checksum(p, n) {
        BurstDetected(p, m, n, lo, hi);
      }
    } else {
      var m, n := BlindSpot(p, Zeros(8 * p.bits));
    }
  }

  const CRC_16 := Parameters(16, FromNat(0x8005, 16), Zeros(16), Zeros(16), true, true)
  const CRC_CCITT := Parameters(16, FromNat(0x1021, 16), FromNat(0xFFFF, 16), Zeros(16), false, false)
  const CRC_XMODEM := Parameters(16, FromNat(0x8408, 16), Zeros(16), Zeros(16), true, true)
  const CRC_32 := Parameters(32, FromNat(0x04C11DB7, 32), FromNat(0xFFFFFFFF, 32), FromNat(0xFFFFFFFF, 32), true, true)

  lemma LowestBit(n: nat, width: nat)
    requires width > 0
    ensures FromNat(n, width)[0] <==> n % 2 == 1
  {
  }

  /** Of the four ready-made types, `crc_xmodem_type` alone misses bursts: its constant 0x8408 has no lowest bit. */
  lemma ReadyMadeTypes()
    ensures CRC_16.Valid() && CRC_CCITT.Valid() && CRC_XMODEM.Valid() && CRC_32.Valid()
    ensures DetectsBursts(CRC_16) && DetectsBursts(CRC_CCITT) && DetectsBursts(CRC_32)
    ensures !DetectsBursts(CRC_XMODEM)
  {
    hide DetectsBursts, FromNat;
    LowestBit(0x8005, 16);
    LowestBit(0x1021, 16);
    LowestBit(0x8408, 16);
    LowestBit(0x04C11DB7, 32);
    BurstDetection(CRC_16);
    BurstDetection(CRC_CCITT);
    BurstDetection(CRC_XMODEM);
    BurstDetection(CRC_32);
  }

  // ----- The augmented form -----

  /** `augmented_crc`. */
  method AugmentedCrc(bits: nat, poly: Word, buffer: seq<Byte>, initialRemainder: Word) returns (r: Word)
    requires 8 <= bits <= |poly| == |initialRemainder|
    ensures SameValue(r, AugRun(poly[..bits], initialRemainder[..bits], MessageBits(buffer, false)))
  {
    var rem := initialRemainder;
    var table := new CrcTable(bits, poly, false);
    table.Init();
    ghost var low, start := poly[..bits], initialRemainder[..bits];
    for i := 0 to |buffer|
      invariant table.Valid() && table.didInit && |rem| == |poly|
      invariant rem[..bits] == AugRun(low, start, MessageBits(buffer[..i], false))
    {
      hide Run, AugRun, ToNat, MessageBits, Xor, Or, Shl, Shr, Convert;
      var byteIndex := Convert(Shr(rem, bits - 8), 8);
      assert Filled(bits, poly, false, table.table[..], byteIndex);
      var entry := table.table[ToNat(byteIndex)];
      AugmentedByte(bits, low, rem, buffer[i], byteIndex, entry);
      rem := Shl(rem, 8);
      rem := Or(rem, Convert(buffer[i], |rem|));
      rem := Xor(rem, entry);
      OneMoreAugmented(low, start, buffer, i);
    }
    assert buffer[..|buffer|] == buffer;
    r := And(rem, LowMask(|rem|, bits));
  }

  lemma OneMoreAugmented(poly: Word, start: Word, bytes: seq<Byte>, i: nat)
    requires |poly| == |start| >= 1 && i < |bytes|
    ensures AugRun(poly, start, MessageBits(bytes[..i + 1], false))
         == AugRun(poly, AugRun(poly, start, MessageBits(bytes[..i], false)), ByteBits(bytes[i], false))
  {
    SnocByte(bytes, i, false);
    AugRunAppend(poly, start, MessageBits(bytes[..i], false), ByteBits(bytes[i], false));
  }

  lemma AugmentedByte(bits: nat, poly: Word, rem: Word, x: Byte, index: Byte, entry: Word)
    requires 8 <= bits == |poly| && bits <= |rem| == |entry|
    requires index == Convert(Shr(rem, bits - 8), 8)
    requires Holds(bits, false, entry, Run(poly, Zeros(bits), ByteBits(index, false)))
    ensures Xor(Or(Shl(rem, 8), Convert(x, |rem|)), entry)[..bits] == AugRun(poly, rem[..bits], ByteBits(x, false))
  {
    hide Run, AugRun;
    AugRunShort(poly, rem[..bits], ByteBits(x, false));
    Absorb(poly, rem[..bits], Zeros(8));
    TopIndex(bits, rem);
    ReverseTwice(x);
    ShiftIn(bits, rem, x, entry);
  }

  lemma TopIndex(bits: nat, rem: Word)
    requires 8 <= bits <= |rem|
    ensures Xor(Zeros(8), Top(rem[..bits], 8)) == Reverse(Convert(Shr(rem, bits - 8), 8))
  {
  }

  lemma ShiftIn(bits: nat, rem: Word, x: Byte, entry: Word)
    requires 8 <= bits <= |rem| == |entry|
    ensures Xor(Or(Shl(rem, 8), Convert(x, |rem|)), entry)[..bits]
         == Xor(Xor(Shl(rem[..bits], 8), entry[..bits]), Convert(x, bits))
  {
  }

  /** The bytes of a remainder, highest first. */
  function BigEndian(r: Word): (b: seq<Byte>)
    requires |r| % 8 == 0
    ensures 8 * |b| == |r|
  {
    if r == [] then [] else [r[|r| - 8..]] + BigEndian(r[..|r| - 8])
  }

  lemma {:induction false} BigEndianBits(r: Word)
    requires |r| % 8 == 0
    ensures MessageBits(BigEndian(r), false) == Reverse(r)
  {
    if r != [] {
      var k := |r| - 8;
      var b := BigEndian(r);
      assert b[1..] == BigEndian(r[..k]);
      BigEndianBits(r[..k]);
      assert Reverse(r) == Reverse(r[k..]) + Reverse(r[..k]);
    }
  }

  lemma {:induction false} MessageBitsInjective(m: seq<Byte>, n: seq<Byte>, reflectIn: bool)
    requires MessageBits(m, reflectIn) == MessageBits(n, reflectIn)
    ensures m == n
  {
    var a, b := MessageBits(m, reflectIn), MessageBits(n, reflectIn);
    assert |a| == |b|;
    if m != [] {
      assert a[..8] == ByteBits(m[0], reflectIn) && b[..8] == ByteBits(n[0], reflectIn);
      assert a[8..] == MessageBits(m[1..], reflectIn) && b[8..] == MessageBits(n[1..], reflectIn);
      ReverseTwice(m[0]);
      ReverseTwice(n[0]);
      MessageBitsInjective(m[1..], n[1..], reflectIn);
      assert m == [m[0]] + m[1..] && n == [n[0]] + n[1..];
    }
  }

  /** The remainder that `crc_basic` computes without reflection from a zero initial remainder. */
  ghost function PlainRemainder(poly: Word, m: seq<Byte>): (r: Word)
    requires |poly| >= 1
    ensures |r| == |poly|
  {
    Run(poly, Zeros(|poly|), MessageBits(m, false))
  }

  /** What `augmented_crc` returns from a zero initial remainder. */
  ghost function AugmentedRemainderOf(poly: Word, m: seq<Byte>): (r: Word)
    requires |poly| >= 1
    ensures |r| == |poly|
  {
    AugRun(poly, Zeros(|poly|), MessageBits(m, false))
  }

  lemma EqualIfSumVanishes(a: Word, b: Word)
    requires |a| == |b| && Xor(a, b) == Zeros(|a|)
    ensures a == b
  {
    forall i | 0 <= i < |a| ensures a[i] == b[i] {
      assert Xor(a, b)[i] == Zeros(|a|)[i];
    }
  }

  lemma SumVanishes(plain: Word, tail: seq<Byte>)
    requires |plain| == 8 * |tail|
    ensures Xor(plain, Reverse(MessageBits(tail, false))) == Zeros(|plain|) <==> tail == BigEndian(plain)
  {
    hide MessageBits, BigEndian, Reverse, Xor, Zeros;
    var t := MessageBits(tail, false);
    XorSelf(plain);
    BigEndianBits(plain);
    ReverseTwice(plain);
    ReverseTwice(t);
    if Xor(plain, Reverse(t)) == Zeros(|plain|) {
      EqualIfSumVanishes(plain, Reverse(t));
      MessageBitsInjective(tail, BigEndian(plain), false);
    }
  }

  lemma AugmentedSum(poly: Word, m: seq<Byte>, tail: seq<Byte>)
    requires |poly| == 8 * |tail| >= 8
    ensures AugmentedRemainderOf(poly, m + tail) == Xor(PlainRemainder(poly, m), Reverse(MessageBits(tail, false)))
  {
    hide Run, AugRun, MessageBits;
    MessageBitsAppend(m, tail, false);
    AugmentedRemainder(poly, Zeros(|poly|), MessageBits(m, false), MessageBits(tail, false));
    ZerosStayZero(poly, |poly|);
  }

  /** For widths that are whole bytes: the augmented form of a message with `tail` appended is zero exactly when
      `tail` is the big-endian remainder of the message, and is that remainder itself when `tail` is all zeros. */
  lemma AugmentedChecksOut(poly: Word, m: seq<Byte>, tail: seq<Byte>)
    requires |poly| == 8 * |tail| >= 8
    ensures AugmentedRemainderOf(poly, m + tail) == Zeros(|poly|) <==> tail == BigEndian(PlainRemainder(poly, m))
    ensures MessageBits(tail, false) == Zeros(|poly|) ==> AugmentedRemainderOf(poly, m + tail) == PlainRemainder(poly, m)
  {
    hide PlainRemainder, AugmentedRemainderOf, MessageBits, BigEndian;
    AugmentedSum(poly, m, tail);
    SumVanishes(PlainRemainder(poly, m), tail);
    XorZeros(PlainRemainder(poly, m));
    assert Reverse(Zeros(|poly|)) == Zeros(|poly|);
  }

  lemma SameLowBits(w: Word, r: Word)
    requires SameValue(w, r)
    ensures Convert(w, |r|) == r
  {
    forall i | 0 <= i < |r| ensures Convert(w, |r|)[i] == r[i] {
    }
  }

  lemma ZeroValue(w: Word, r: Word)
    requires SameValue(w, r)
    ensures SameValue(w, []) <==> r == Zeros(|r|)
  {
    if r != Zeros(|r|) {
      var i :| 0 <= i < |r| && r[i];
    }
  }

  lemma {:induction false} ZeroBytes(n: nat)
    ensures MessageBits(seq(n, _ => Zeros(8)), false) == Zeros(8 * n)
  {
    if n > 0 {
      var m := seq(n, _ => Zeros(8));
      assert m[1..] == seq(n - 1, _ => Zeros(8));
      ZeroBytes(n - 1);
      assert Reverse(Zeros(8)) + Zeros(8 * (n - 1)) == Zeros(8 * n);
    }
  }

  /** A receiver that divides the message with its check bytes appended, and a sender that divides the message alone. */
  method SendAndCheck(bits: nat, poly: Word, m: seq<Byte>, tail: seq<Byte>) returns (rem: Word, augmented: Word)
    requires bits == 8 * |tail| && 8 <= bits <= |poly|
    ensures SameValue(augmented, []) <==> tail == BigEndian(Convert(rem, bits))
    ensures tail == seq(|tail|, _ => Zeros(8)) ==> SameValue(augmented, rem)
  {
    var zero := Zeros(|poly|);
    ghost var low := poly[..bits];
    var sender := new CrcBasic(Parameters(bits, poly, zero, zero, false, false));
    assert zero[..bits] == Zeros(bits);
    sender.ProcessBlock(m);
    rem := sender.GetInterimRemainder();
    augmented := AugmentedCrc(bits, poly, m + tail, zero);
    hide Run, AugRun, MessageBits, BigEndian, Convert;
    assert SameValue(rem, PlainRemainder(low, m));
    assert SameValue(augmented, AugmentedRemainderOf(low, m + tail));
    AugmentedChecksOut(low, m, tail);
    SameLowBits(rem, PlainRemainder(low, m));
    ZeroValue(augmented, AugmentedRemainderOf(low, m + tail));
    ZeroBytes(|tail|);
  }
}
