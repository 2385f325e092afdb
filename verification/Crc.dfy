/** Boost.CRC: the bit-at-a-time computer, the table-driven computer, and the augmented-message function. */
module Crc {
  import opened Bits
  import opened CrcTheory

  /** The parameters of a CRC as stored in words of one common width, which may exceed `bits`;
      what lies above bit `bits - 1` is arbitrary. */
  datatype Parameters = Parameters(bits: nat, poly: Word, init: Word, final: Word, reflectIn: bool, reflectOut: bool) {
    predicate Valid() {
      1 <= bits <= |poly| == |init| == |final| && 8 <= |poly|
    }
  }

  /** The bits of a byte in the order in which they are divided. */
  function ByteBits(b: Byte, reflectIn: bool): (s: seq<bool>)
    ensures |s| == 8
  {
    if reflectIn then b else Reverse(b)
  }

  function MessageBits(m: seq<Byte>, reflectIn: bool): (s: seq<bool>)
    ensures |s| == 8 * |m|
  {
    if m == [] then [] else ByteBits(m[0], reflectIn) + MessageBits(m[1..], reflectIn)
  }

  lemma {:induction false} MessageBitsAppend(a: seq<Byte>, b: seq<Byte>, reflectIn: bool)
    ensures MessageBits(a + b, reflectIn) == MessageBits(a, reflectIn) + MessageBits(b, reflectIn)
  {
    if a == [] {
      assert a + b == b;
    } else {
      assert (a + b)[1..] == a[1..] + b;
      MessageBitsAppend(a[1..], b, reflectIn);
    }
  }

  /** The remainder a message leaves, in exactly `bits` bits. */
  function Remainder(p: Parameters, m: seq<Byte>): (r: Word)
    requires p.Valid()
    ensures |r| == p.bits
  {
    Run(p.poly[..p.bits], p.init[..p.bits], MessageBits(m, p.reflectIn))
  }

  function Output(p: Parameters, r: Word): (c: Word)
    requires p.Valid() && |r| == p.bits
    ensures |c| == p.bits
  {
    Xor(if p.reflectOut then Reverse(r) else r, p.final[..p.bits])
  }

  function Checksum(p: Parameters, m: seq<Byte>): (c: Word)
    requires p.Valid()
    ensures |c| == p.bits
  {
    Output(p, Remainder(p, m))
  }

  // ----- Words that carry unmasked bits above the register -----

  /** `reflector<Bits>::reflect`. */
  method Reflect(bits: nat, x: Word) returns (reflection: Word)
    requires bits <= |x|
    ensures |reflection| == |x|
    ensures reflection[..bits] == Reverse(x[..bits])
    ensures forall i :: bits <= i < |x| ==> !reflection[i]
  {
    var y := x;
    reflection := Zeros(|x|);
    for i := 0 to bits
      invariant y == Shr(x, i)
      invariant reflection == ReflectedSoFar(bits, x, i)
    {
      if y[0] {
        reflection := Or(reflection, Shl(OneBit(|x|, 0), bits - 1 - i));
      }
      y := Shr(y, 1);
      ShrTwice(x, i, 1);
    }
  }

  /** The lowest `i` bits of `x`, each at its mirrored place among `bits`. */
  ghost function ReflectedSoFar(bits: nat, x: Word, i: nat): (r: Word)
    requires i <= bits <= |x|
    ensures |r| == |x|
  {
    seq(|x|, j requires 0 <= j < |x| => bits - i <= j < bits && x[bits - 1 - j])
  }

  /** `crc_helper<Bits, DoReflect>::reflect`. */
  method MaybeReflect(bits: nat, doReflect: bool, x: Word) returns (r: Word)
    requires bits <= |x|
    ensures |r| == |x|
    ensures r[..bits] == if doReflect then Reverse(x[..bits]) else x[..bits]
    ensures doReflect ==> forall i :: bits <= i < |x| ==> !r[i]
  {
    if doReflect {
      r := Reflect(bits, x);
    } else {
      r := x;
    }
  }

  /** A division step on a full word: what happens above the register never reaches it. */
  function WordStep(bits: nat, poly: Word, rem: Word, bit: bool): (r: Word)
    requires 1 <= bits <= |poly| == |rem|
    ensures |r| == |rem|
    ensures r[..bits] == Step(poly[..bits], rem[..bits], bit)
  {
    var high := OneBit(|rem|, bits - 1);
    var x := if bit then Xor(rem, high) else rem;
    var r := if x[bits - 1] then Xor(Shl(x, 1), poly) else Shl(x, 1);
    assert r[..bits] == Step(poly[..bits], rem[..bits], bit);
    r
  }

  // ----- crc_basic -----

  class CrcBasic {
    const p: Parameters
    var rem: Word

    ghost predicate Valid()
      reads this
    {
      p.Valid() && |rem| == |p.poly|
    }

    ghost function Register(): (r: Word)
      requires Valid()
      reads this
      ensures |r| == p.bits
    {
      rem[..p.bits]
    }

    constructor (p: Parameters)
      requires p.Valid()
      ensures Valid() && this.p == p && rem == p.init
    {
      this.p := p;
      rem := p.init;
    }

    method GetInterimRemainder() returns (r: Word)
      requires Valid()
      ensures SameValue(r, Register())
    {
      r := And(rem, LowMask(|rem|, p.bits));
    }

    method Reset(newRem: Word)
      requires Valid() && |newRem| == |p.poly|
      modifies this
      ensures Valid() && rem == newRem
    {
      rem := newRem;
    }

    method ProcessBit(bit: bool)
      requires Valid()
      modifies this
      ensures Valid()
      ensures Register() == Step(p.poly[..p.bits], old(Register()), bit)
    {
      var highBitMask := OneBit(|rem|, p.bits - 1);
      ghost var next := WordStep(p.bits, p.poly, rem, bit);
      rem := Xor(rem, if bit then highBitMask else Zeros(|rem|));
      assert bit || rem == old(rem);
      var doPolyDiv := rem[p.bits - 1];
      rem := Shl(rem, 1);
      if doPolyDiv {
        rem := Xor(rem, p.poly);
      }
      assert rem == next;
    }

    /** Feeds the lowest `bitCount` bits of `bits`, highest of them first. */
    method ProcessBits(bits: Byte, bitCount: nat)
      requires Valid() && bitCount <= 8
      modifies this
      ensures Valid()
      ensures Register() == Run(p.poly[..p.bits], old(Register()), Reverse(bits)[8 - bitCount..])
    {
      ghost var todo := Reverse(bits)[8 - bitCount..];
      ghost var poly, start := p.poly[..p.bits], Register();
      hide Run, Step, Shl, Reverse;
      var b := Shl(bits, 8 - bitCount);
      for i := 0 to bitCount
        invariant Valid() && b == Shl(bits, 8 - bitCount + i)
        invariant Register() == Run(poly, start, todo[..i])
      {
        RunTake(poly, start, todo, i);
        NextBit(bits, bitCount, i);
        ProcessBit(b[7]);
        ShlTwice(bits, 8 - bitCount + i, 1);
        b := Shl(b, 1);
      }
      assert todo[..bitCount] == todo;
    }

    method ProcessByte(byte: Byte)
      requires Valid()
      modifies this
      ensures Valid()
      ensures Register() == Run(p.poly[..p.bits], old(Register()), ByteBits(byte, p.reflectIn))
    {
      if p.reflectIn {
        var r := Reflect(8, byte);
        assert r == r[..8] && byte == byte[..8];
        ProcessBits(r, 8);
        assert Reverse(r)[0..] == byte;
      } else {
        ProcessBits(byte, 8);
        assert Reverse(byte)[0..] == Reverse(byte);
      }
    }

    method ProcessBlock(bytes: seq<Byte>)
      requires Valid()
      modifies this
      ensures Valid()
      ensures Register() == Run(p.poly[..p.bits], old(Register()), MessageBits(bytes, p.reflectIn))
    {
      ghost var poly, start := p.poly[..p.bits], Register();
      for i := 0 to |bytes|
        invariant Valid()
        invariant Register() == Run(poly, start, MessageBits(bytes[..i], p.reflectIn))
      {
        ProcessByte(bytes[i]);
        OneMoreByte(poly, start, bytes, i, p.reflectIn);
      }
      assert bytes[..|bytes|] == bytes;
    }

    method GetChecksum() returns (c: Word)
      requires Valid()
      ensures SameValue(c, Output(p, Register()))
    {
      var r := rem;
      if p.reflectOut {
        r := Reflect(p.bits, rem);
      }
      c := And(Xor(r, p.final), LowMask(|rem|, p.bits));
      ReverseTwice(rem[..p.bits]);
      MaskedOutput(p, Register(), r);
    }
  }

  lemma MaskedOutput(p: Parameters, r: Word, w: Word)
    requires p.Valid() && |r| == p.bits && |w| == |p.poly|
    requires w[..p.bits] == if p.reflectOut then Reverse(r) else r
    ensures SameValue(And(Xor(w, p.final), LowMask(|w|, p.bits)), Output(p, r))
  {
    hide Reverse;
    var c, o := And(Xor(w, p.final), LowMask(|w|, p.bits)), Output(p, r);
    forall i | 0 <= i < p.bits ensures c[i] == o[i] {
      assert w[..p.bits][i] == w[i];
    }
  }

  lemma NextBit(bits: Byte, bitCount: nat, i: nat)
    requires i < bitCount <= 8
    ensures Shl(bits, 8 - bitCount + i)[7] == Reverse(bits)[8 - bitCount..][i]
  {
  }

  lemma NoBytes(poly: Word, start: Word, bytes: seq<Byte>, reflectIn: bool)
    requires |poly| == |start| >= 1
    ensures Run(poly, start, MessageBits(bytes[..0], reflectIn)) == start
  {
  }

  lemma OneMoreByte(poly: Word, start: Word, bytes: seq<Byte>, i: nat, reflectIn: bool)
    requires |poly| == |start| >= 1 && i < |bytes|
    ensures Run(poly, start, MessageBits(bytes[..i + 1], reflectIn))
         == Run(poly, Run(poly, start, MessageBits(bytes[..i], reflectIn)), ByteBits(bytes[i], reflectIn))
  {
    SnocByte(bytes, i, reflectIn);
    RunAppend(poly, start, MessageBits(bytes[..i], reflectIn), ByteBits(bytes[i], reflectIn));
  }

  lemma SnocByte(bytes: seq<Byte>, i: nat, reflectIn: bool)
    requires i < |bytes|
    ensures MessageBits(bytes[..i + 1], reflectIn) == MessageBits(bytes[..i], reflectIn) + ByteBits(bytes[i], reflectIn)
  {
    assert bytes[..i + 1] == bytes[..i] + [bytes[i]];
    MessageBitsAppend(bytes[..i], [bytes[i]], reflectIn);
    assert MessageBits([bytes[i]], reflectIn) == ByteBits(bytes[i], reflectIn);
  }

  // ----- crc_table_t -----

  /** The register held by a word of the table-driven computer, which keeps it reversed when it reflects its input. */
  function RegisterOf(bits: nat, reflect: bool, w: Word): (r: Word)
    requires bits <= |w|
    ensures |r| == bits
  {
    if reflect then Reverse(w[..bits]) else w[..bits]
  }

  /** `w` holds `r`, with nothing above it when it is held reversed. */
  ghost predicate Holds(bits: nat, reflect: bool, w: Word, r: Word)
    requires bits <= |w|
  {
    RegisterOf(bits, reflect, w) == r && (reflect ==> forall i :: bits <= i < |w| ==> !w[i])
  }

  /** The byte that indexes the entry of dividend `n`. */
  function Slot(n: nat, reflect: bool): (b: Byte) {
    if reflect then Reverse(FromNat(n, 8)) else FromNat(n, 8)
  }

  lemma SlotsApart(m: nat, n: nat, reflect: bool)
    requires m < n < 256
    ensures ToNat(Slot(m, reflect)) != ToNat(Slot(n, reflect))
  {
    hide FromNat, ToNat, Reverse;
    ByteFromNat(m);
    ByteFromNat(n);
    ReverseTwice(FromNat(m, 8));
    ReverseTwice(FromNat(n, 8));
    if ToNat(Slot(m, reflect)) == ToNat(Slot(n, reflect)) {
      ToNatInjective(Slot(m, reflect), Slot(n, reflect));
    }
  }

  lemma SlotReached(x: Byte, reflect: bool) returns (n: nat)
    ensures n < 256 && Slot(n, reflect) == x
  {
    hide FromNat, ToNat, Reverse;
    var d := if reflect then Reverse(x) else x;
    n := ToNat(d);
    ByteRange(d);
    FromNatToNat(d);
    ReverseTwice(x);
  }

  /** The entry of `x` is the remainder of the byte that `x` is, in processing order. */
  ghost predicate Filled(bits: nat, poly: Word, reflect: bool, t: seq<Word>, x: Byte)
    requires 1 <= bits <= |poly| && |t| == 256
  {
    ToNat(x) < 256 && |t[ToNat(x)]| == |poly| &&
    Holds(bits, reflect, t[ToNat(x)], Run(poly[..bits], Zeros(bits), ByteBits(x, reflect)))
  }

  ghost predicate FilledBelow(bits: nat, poly: Word, reflect: bool, t: seq<Word>, k: nat)
    requires 1 <= bits <= |poly| && |t| == 256
  {
    forall n: nat :: n < k ==> Filled(bits, poly, reflect, t, Slot(n, reflect))
  }

  ghost predicate AllFilled(bits: nat, poly: Word, reflect: bool, t: seq<Word>)
    requires 1 <= bits <= |poly| && |t| == 256
  {
    forall x: Byte :: Filled(bits, poly, reflect, t, x)
  }

  lemma FillOne(bits: nat, poly: Word, reflect: bool, t: seq<Word>, dividend: nat, index: Byte, entry: Word)
    requires 1 <= bits <= |poly| == |entry| && |t| == 256 && dividend < 256 && index == Slot(dividend, reflect)
    requires FilledBelow(bits, poly, reflect, t, dividend)
    requires Holds(bits, reflect, entry, Run(poly[..bits], Zeros(bits), ByteBits(index, reflect)))
    ensures ToNat(index) < 256 && FilledBelow(bits, poly, reflect, t[ToNat(index) := entry], dividend + 1)
  {
    hide Slot, ToNat, Run, Holds, ByteBits;
    ByteRange(index);
    forall n: nat | n < dividend ensures Filled(bits, poly, reflect, t[ToNat(index) := entry], Slot(n, reflect)) {
      SlotsApart(n, dividend, reflect);
    }
  }

  lemma FillDone(bits: nat, poly: Word, reflect: bool, t: seq<Word>)
    requires 1 <= bits <= |poly| && |t| == 256
    requires FilledBelow(bits, poly, reflect, t, 256)
    ensures AllFilled(bits, poly, reflect, t)
  {
    hide Filled, Slot;
    forall x: Byte ensures Filled(bits, poly, reflect, t, x) {
      var n := SlotReached(x, reflect);
    }
  }

  class CrcTable {
    const bits: nat
    const poly: Word
    const reflect: bool
    const table: array<Word>
    var didInit: bool

    ghost predicate Valid()
      reads this, table
    {
      && 1 <= bits <= |poly| && 8 <= |poly| && table.Length == 256
      && (didInit ==> AllFilled(bits, poly, reflect, table[..]))
    }

    constructor (bits: nat, poly: Word, reflect: bool)
      requires 1 <= bits <= |poly| && 8 <= |poly|
      ensures Valid() && fresh(table)
      ensures this.bits == bits && this.poly == poly && this.reflect == reflect
    {
      this.bits, this.poly, this.reflect := bits, poly, reflect;
      table := new Word[256](_ => Zeros(|poly|));
      didInit := false;
    }

    method Init()
      requires Valid()
      modifies this, table
      ensures Valid() && didInit
    {
      if didInit {
        return;
      }
      hide Filled, Slot, ToNat, Run, Holds, ByteBits;
      for dividend := 0 to 256
        invariant !didInit
        invariant FilledBelow(bits, poly, reflect, table[..], dividend)
      {
        var index, entry := MakeEntry(dividend);
        FillOne(bits, poly, reflect, table[..], dividend, index, entry);
        ghost var before := table[..];
        table[ToNat(index)] := entry;
        assert table[..] == before[ToNat(index) := entry];
      }
      didInit := true;
      FillDone(bits, poly, reflect, table[..]);
    }

    /** One turn of the outer loop: where the dividend's remainder goes, and what goes there. */
    method MakeEntry(dividend: nat) returns (index: Byte, entry: Word)
      requires 1 <= bits <= |poly| && dividend < 256
      ensures index == Slot(dividend, reflect)
      ensures |entry| == |poly|
      ensures Holds(bits, reflect, entry, Run(poly[..bits], Zeros(bits), ByteBits(index, reflect)))
    {
      hide FromNat, Run, Reverse;
      var d := FromNat(dividend, 8);
      var remainder := Divide(d);
      index := MaybeReflect(8, reflect, d);
      assert index[..8] == index && d[..8] == d;
      ReverseTwice(d);
      entry := MaybeReflect(bits, reflect, remainder);
      ReverseTwice(remainder[..bits]);
    }

    /** The inner loop: the remainder of one byte, highest bit first, from a zero register. */
    method Divide(dividend: Byte) returns (remainder: Word)
      requires 1 <= bits <= |poly|
      ensures |remainder| == |poly|
      ensures remainder[..bits] == Run(poly[..bits], Zeros(bits), Reverse(dividend))
    {
      var fastHiBit := OneBit(|poly|, bits - 1);
      ghost var low, m := poly[..bits], Reverse(dividend);
      remainder := Zeros(|poly|);
      assert remainder[..bits] == Zeros(bits);
      for i := 0 to 8
        invariant |remainder| == |poly|
        invariant remainder[..bits] == Run(low, Zeros(bits), m[..i])
      {
        assert m[i] == dividend[7 - i];
        hide Run, Step, Xor, Shl, Reverse;
        RunTake(low, Zeros(bits), m, i);
        ghost var before := remainder;
        if dividend[7 - i] {
          remainder := Xor(remainder, fastHiBit);
        }
        if remainder[bits - 1] {
          remainder := Shl(remainder, 1);
          remainder := Xor(remainder, poly);
        } else {
          remainder := Shl(remainder, 1);
        }
        assert remainder == WordStep(bits, poly, before, m[i]);
      }
      assert m[..8] == m;
    }
  }

  // ----- crc_optimal -----

  /** `remainder<Bits, (Bits > CHAR_BIT)>::align_msb`. */
  function AlignMsb(bits: nat, rem: Word): (b: Byte)
    requires 1 <= bits <= |rem| && 8 <= |rem|
    ensures Reverse(b) == Top(rem[..bits], 8)
  {
    var b := if bits > 8 then Convert(Shr(rem, bits - 8), 8) else Convert(Shl(rem, 8 - bits), 8);
    assert Reverse(b) == Top(rem[..bits], 8);
    b
  }

  /** `crc_helper<Bits, DoReflect>::index`. */
  function Index(bits: nat, reflect: bool, rem: Word, x: Byte): (b: Byte)
    requires 1 <= bits <= |rem| && 8 <= |rem|
  {
    Xor(x, if reflect then Convert(rem, 8) else AlignMsb(bits, rem))
  }

  /** `crc_helper<Bits, DoReflect>::shift`. */
  function Shift(reflect: bool, rem: Word): (r: Word)
    ensures |r| == |rem|
  {
    if reflect then Shr(rem, 8) else Shl(rem, 8)
  }

  lemma IndexBits(bits: nat, reflect: bool, rem: Word, x: Byte)
    requires 1 <= bits <= |rem| && 8 <= |rem|
    requires reflect ==> forall i :: bits <= i < |rem| ==> !rem[i]
    ensures ByteBits(Index(bits, reflect, rem, x), reflect)
         == Xor(ByteBits(x, reflect), Top(RegisterOf(bits, reflect, rem), 8))
  {
    var t := Top(RegisterOf(bits, reflect, rem), 8);
    if reflect {
      assert Convert(rem, 8) == t;
    } else {
      var a := AlignMsb(bits, rem);
      assert Reverse(Xor(x, a)) == Xor(Reverse(x), Reverse(a));
    }
  }

  lemma ShiftRegister(bits: nat, reflect: bool, rem: Word)
    requires 1 <= bits <= |rem|
    requires reflect ==> forall i :: bits <= i < |rem| ==> !rem[i]
    ensures Holds(bits, reflect, Shift(reflect, rem), Shl(RegisterOf(bits, reflect, rem), 8))
  {
    var s, r := Shift(reflect, rem), RegisterOf(bits, reflect, rem);
    var t := RegisterOf(bits, reflect, s);
    forall i | 0 <= i < bits ensures t[i] == Shl(r, 8)[i] {
    }
  }

  lemma XorRegisters(bits: nat, reflect: bool, v: Word, w: Word, r: Word, s: Word)
    requires bits <= |v| == |w| && |r| == |s| == bits
    requires Holds(bits, reflect, v, r) && Holds(bits, reflect, w, s)
    ensures Holds(bits, reflect, Xor(v, w), Xor(r, s))
  {
    var x := Xor(v, w);
    assert x[..bits] == Xor(v[..bits], w[..bits]);
    assert Reverse(Xor(v[..bits], w[..bits])) == Xor(Reverse(v[..bits]), Reverse(w[..bits]));
  }

  class CrcOptimal {
    const p: Parameters
    const table: CrcTable
    var rem: Word

    ghost predicate Valid()
      reads this, table, table.table
    {
      && p.Valid() && |rem| == |p.poly|
      && table.Valid() && table.didInit
      && table.bits == p.bits && table.poly == p.poly && table.reflect == p.reflectIn
      && (p.reflectIn ==> forall i :: p.bits <= i < |rem| ==> !rem[i])
    }

    ghost function Register(): (r: Word)
      requires Valid()
      reads this, table, table.table
      ensures |r| == p.bits
    {
      RegisterOf(p.bits, p.reflectIn, rem)
    }

    /** All computers of one set of parameters share `table`. */
    constructor (p: Parameters, table: CrcTable, initRem: Word)
      requires p.Valid() && |initRem| == |p.poly|
      requires table.Valid() && table.bits == p.bits && table.poly == p.poly && table.reflect == p.reflectIn
      modifies table, table.table
      ensures Valid() && this.p == p && this.table == table && Register() == initRem[..p.bits]
    {
      this.p, this.table := p, table;
      var r := MaybeReflect(p.bits, p.reflectIn, initRem);
      rem := r;
      new;
      assert Reverse(Reverse(initRem[..p.bits])) == initRem[..p.bits];
      table.Init();
    }

    method GetInterimRemainder() returns (r: Word)
      requires Valid()
      ensures SameValue(r, Register())
    {
      var x := MaybeReflect(p.bits, p.reflectIn, rem);
      r := And(x, LowMask(|rem|, p.bits));
      forall i | 0 <= i < p.bits ensures r[i] == Register()[i] {
        assert x[..p.bits][i] == x[i];
      }
    }

    method Reset(newRem: Word)
      requires Valid() && |newRem| == |p.poly|
      modifies this
      ensures Valid() && Register() == newRem[..p.bits]
    {
      rem := MaybeReflect(p.bits, p.reflectIn, newRem);
      assert Reverse(Reverse(newRem[..p.bits])) == newRem[..p.bits];
    }

    method ProcessBlock(bytes: seq<Byte>)
      requires Valid()
      modifies this
      ensures Valid()
      ensures Register() == Run(p.poly[..p.bits], old(Register()), MessageBits(bytes, p.reflectIn))
    {
      hide Run, ToNat, Index, Shift, MessageBits, ByteBits, Xor, Top;
      ghost var poly, start := p.poly[..p.bits], Register();
      NoBytes(poly, start, bytes, p.reflectIn);
      for i := 0 to |bytes|
        invariant Valid()
        invariant Register() == Run(poly, start, MessageBits(bytes[..i], p.reflectIn))
      {
        var byteIndex := Index(p.bits, p.reflectIn, rem, bytes[i]);
        assert Filled(p.bits, p.poly, p.reflectIn, table.table[..], byteIndex);
        TableStep(p.bits, p.reflectIn, poly, rem, bytes[i], table.table[ToNat(byteIndex)]);
        rem := Shift(p.reflectIn, rem);
        rem := Xor(rem, table.table[ToNat(byteIndex)]);
        OneMoreByte(poly, start, bytes, i, p.reflectIn);
      }
      assert bytes[..|bytes|] == bytes;
    }

    method GetChecksum() returns (c: Word)
      requires Valid()
      ensures SameValue(c, Output(p, Register()))
    {
      var reflectOutput := p.reflectOut != p.reflectIn;
      var r := MaybeReflect(p.bits, reflectOutput, rem);
      c := And(Xor(r, p.final), LowMask(|rem|, p.bits));
      ReverseTwice(rem[..p.bits]);
      MaskedOutput(p, Register(), r);
    }
  }

  /** One table lookup does the work of eight division steps, whatever the register width and the reflection. */
  lemma TableStep(bits: nat, reflect: bool, poly: Word, rem: Word, x: Byte, entry: Word)
    requires 1 <= bits <= |rem| == |entry| && 8 <= |rem| && |poly| == bits
    requires reflect ==> forall i :: bits <= i < |rem| ==> !rem[i]
    requires Holds(bits, reflect, entry, Run(poly, Zeros(bits), ByteBits(Index(bits, reflect, rem, x), reflect)))
    ensures Holds(bits, reflect, Xor(Shift(reflect, rem), entry),
                  Run(poly, RegisterOf(bits, reflect, rem), ByteBits(x, reflect)))
  {
    hide Run;
    var r, m := RegisterOf(bits, reflect, rem), ByteBits(x, reflect);
    IndexBits(bits, reflect, rem, x);
    ShiftRegister(bits, reflect, rem);
    Combine(bits, reflect, poly, Shift(reflect, rem), entry, r, m);
  }

  lemma Combine(bits: nat, reflect: bool, poly: Word, shifted: Word, entry: Word, r: Word, m: seq<bool>)
    requires 1 <= bits <= |shifted| == |entry| && |poly| == |r| == bits
    requires Holds(bits, reflect, shifted, Shl(r, |m|))
    requires Holds(bits, reflect, entry, Run(poly, Zeros(bits), Xor(m, Top(r, |m|))))
    ensures Holds(bits, reflect, Xor(shifted, entry), Run(poly, r, m))
  {
    XorRegisters(bits, reflect, shifted, entry, Shl(r, |m|), Run(poly, Zeros(bits), Xor(m, Top(r, |m|))));
    Absorb(poly, r, m);
  }
}
