/** The format of precompiled chunks, byte by byte, as a description of what a dump must look like. */
module LuaFormat {
  import opened Wrappers
  import opened LuaChunk
  import NumberTheory

  // ----- Numbers, strings and constants -----

  /** The number four bytes stand for, lowest byte first. */
  function Four(b: Bytes): nat
    requires |b| == 4
  {
    b[0] as int + 0x100 * b[1] as int + 0x1_0000 * b[2] as int + 0x100_0000 * b[3] as int
  }

  function Eight(b: Bytes): nat
    requires |b| == 8
  {
    Four(b[..4]) + 0x1_0000_0000 * Four(b[4..])
  }

  /** A C `int` in two's complement. */
  ghost predicate IsInt(b: Bytes, x: int) {
    |b| == 4 && Four(b) == if x < 0 then x + 0x1_0000_0000 else x
  }

  ghost predicate IsLine(b: Bytes, x: Int32) {
    IsInt(b, x)
  }

  ghost predicate IsInstruction(b: Bytes, x: UInt32) {
    |b| == 4 && Four(b) == x
  }

  ghost predicate IsInteger(b: Bytes, x: Int64) {
    |b| == 8 && Eight(b) == if x < 0 then x + 0x1_0000_0000_0000_0000 else x
  }

  /** A null string is a zero byte; otherwise the size, counting a terminator, takes one byte if it is below 255, and a
      byte 255 and eight more if not. */
  ghost predicate IsString(b: Bytes, s: Option<Bytes>) {
    match s
    case None => b == [0]
    case Some(c) =>
      if |c| < 254 then |b| > 0 && b[0] == |c| + 1 && b[1..] == c
      else |b| >= 9 && b[0] == 255 && Eight(b[1..9]) == |c| + 1 && b[9..] == c
  }

  /** A tag, which also tells short strings from those longer than 40 characters, and the value. */
  ghost predicate IsConstant(b: Bytes, k: Constant) {
    match k
    case KNil => b == [0]
    case KBool(v) => b == [1, if v then 1 else 0]
    case KFloat(x) => b == [3] + x
    case KInt(i) => |b| == 9 && b[0] == 19 && IsInteger(b[1..], i)
    case KStr(s) => |b| > 0 && b[0] == (if |s| <= 40 then 4 else 20) && IsString(b[1..], Some(s))
  }

  ghost predicate IsUpvalue(b: Bytes, u: Upvalue) {
    b == [u.instack, u.idx]
  }

  ghost predicate IsLocVar(b: Bytes, v: LocVar) {
    var n := |b| - 8;
    n >= 0 && IsString(b[..n], v.name) && IsInt(b[n..n + 4], v.startpc) && IsInt(b[n + 4..], v.endpc)
  }

  // ----- Functions -----

  ghost function Joined(parts: seq<Bytes>): Bytes
    decreases |parts|
  {
    if parts == [] then [] else Joined(parts[..|parts| - 1]) + parts[|parts| - 1]
  }

  /** `b` is a count followed by that many parts. */
  ghost predicate Counts(b: Bytes, parts: seq<Bytes>) {
    |b| >= 4 && IsInt(b[..4], |parts|) && b[4..] == Joined(parts)
  }

  ghost predicate IsSequence<T(!new)>(b: Bytes, xs: seq<T>, fits: (Bytes, T) -> bool) {
    exists parts :: Counts(b, parts) && |parts| == |xs| && forall i :: 0 <= i < |xs| ==> fits(parts[i], xs[i])
  }

  ghost predicate IsPrologue(b: Bytes, h: Prologue) {
    && |b| == 11 && IsInt(b[..4], h.linedefined) && IsInt(b[4..8], h.lastlinedefined)
    && b[8] == h.numparams && b[9] == h.isVararg && b[10] == h.maxstacksize
  }

  /** The source is left out when stripping, when there is none, and when the enclosing function has the same one. */
  ghost predicate OmitsSource(f: Proto<TString>, psource: Option<TString>, strip: bool) {
    strip || f.source.None? || (psource.Some? && f.source.value.addr == psource.value.addr)
  }

  ghost predicate IsSource(b: Bytes, f: Proto<TString>, psource: Option<TString>, strip: bool) {
    && |b| > 0 && (b[0] == 0 <==> OmitsSource(f, psource, strip))
    && IsString(b, if OmitsSource(f, psource, strip) then None else Some(f.source.value.chars))
  }

  datatype Sections = Sections(
    source: Bytes, prologue: Bytes, code: Bytes, constants: Bytes, upvalues: Bytes, protos: Bytes,
    lines: Bytes, locals: Bytes, names: Bytes)
  {
    ghost function All(): Bytes {
      source + prologue + code + constants + upvalues + protos + lines + locals + names
    }
  }

  ghost predicate HasName(b: Bytes, u: Upvalue) {
    IsString(b, u.name)
  }

  /** The sections of a function in order; when stripping, the last three are empty sequences. */
  ghost predicate IsFunction(b: Bytes, f: Proto<TString>, psource: Option<TString>, strip: bool)
    decreases f, 1
  {
    exists s: Sections ::
      && b == s.All()
      && IsSource(s.source, f, psource, strip)
      && IsPrologue(s.prologue, f.prologue)
      && IsSequence(s.code, f.code, IsInstruction)
      && IsSequence(s.constants, f.k, IsConstant)
      && IsSequence(s.upvalues, f.upvalues, IsUpvalue)
      && IsProtos(s.protos, f, strip)
      && IsSequence(s.lines, if strip then [] else f.lineinfo, IsLine)
      && IsSequence(s.locals, if strip then [] else f.locvars, IsLocVar)
      && IsSequence(s.names, if strip then [] else f.upvalues, HasName)
  }

  ghost predicate IsProtos(b: Bytes, f: Proto<TString>, strip: bool)
    decreases f, 0
  {
    exists parts ::
      && Counts(b, parts) && |parts| == |f.p|
      && forall i :: 0 <= i < |f.p| ==> IsFunction(parts[i], f.p[i], f.source, strip)
  }

  /** The signature, version 5.3, format 0, six check bytes, five sizes, and the integer 0x5678 and the double 370.5. */
  ghost predicate IsChunk(b: Bytes, f: Proto<TString>, strip: bool) {
    && |b| > 33
    && b[..12] == [0x1B, 0x4C, 0x75, 0x61, 0x53, 0x00, 0x19, 0x93, 0x0D, 0x0A, 0x1A, 0x0A]
    && b[12..17] == [4, 8, 4, 8, 8]
    && b[17..25] == [0x78, 0x56, 0, 0, 0, 0, 0, 0]
    && b[25..33] == [0, 0, 0, 0, 0, 0x28, 0x77, 0x40]
    && b[33] == |f.upvalues| % 256
    && IsFunction(b[34..], f, None, strip)
  }

  // ----- The encodings have this format -----

  lemma UnrollFour(b: Bytes)
    requires |b| >= 4
    ensures FromLittleEndian(b) == Four(b[..4]) + 0x1_0000_0000 * FromLittleEndian(b[4..])
  {
    assert b[1..][1..] == b[2..] && b[2..][1..] == b[3..] && b[3..][1..] == b[4..];
    assert FromLittleEndian(b[1..]) == b[1] + 256 * FromLittleEndian(b[2..]);
    assert FromLittleEndian(b[2..]) == b[2] + 256 * FromLittleEndian(b[3..]);
    assert FromLittleEndian(b[3..]) == b[3] + 256 * FromLittleEndian(b[4..]);
  }

  lemma FourBytes(n: nat)
    requires n < 0x1_0000_0000
    ensures Four(ToLittleEndian(n, 4)) == n
  {
    Powers();
    LittleEndianRoundTrip(n, 4);
    var b := ToLittleEndian(n, 4);
    UnrollFour(b);
    assert b[..4] == b;
  }

  lemma EightBytes(n: nat)
    requires n < 0x1_0000_0000_0000_0000
    ensures Eight(ToLittleEndian(n, 8)) == n
  {
    Powers();
    LittleEndianRoundTrip(n, 8);
    var b := ToLittleEndian(n, 8);
    UnrollFour(b);
    UnrollFour(b[4..]);
    assert b[4..][..4] == b[4..];
  }

  lemma Residue(x: int, m: int)
    requires m > 0 && -m <= x < m
    ensures x % m == if x < 0 then x + m else x
  {
    NumberTheory.RemainderUnique(x, m, if x < 0 then -1 else 0, if x < 0 then x + m else x);
  }

  lemma EncodedInt(x: Int32)
    ensures IsInt(EncInt(x), x)
  {
    hide ToLittleEndian, Power256, Four;
    Powers();
    Residue(x, 0x1_0000_0000);
    FourBytes(x % 0x1_0000_0000);
  }

  lemma EncodedInstruction(x: UInt32)
    ensures IsInstruction(EncInstruction(x), x)
  {
    FourBytes(x);
  }

  lemma EncodedInteger(x: Int64)
    ensures IsInteger(EncSigned(x, 8), x)
  {
    hide ToLittleEndian, Power256, Eight;
    Powers();
    Residue(x, 0x1_0000_0000_0000_0000);
    EightBytes(x % 0x1_0000_0000_0000_0000);
  }

  lemma EncodedString(s: Option<Bytes>)
    requires FitsString(s)
    ensures IsString(EncString(s), s)
  {
    if s.Some? && |s.value| >= 254 {
      var b := EncString(s);
      EightBytes(|s.value| + 1);
      assert b[1..9] == ToLittleEndian(|s.value| + 1, 8) && b[9..] == s.value;
    }
  }

  lemma EncodedConstant(k: Constant)
    requires k.KStr? ==> FitsString(Some(k.s))
    ensures IsConstant(EncConstant(k), k)
  {
    match k {
      case KInt(i) =>
        EncodedInteger(i);
        assert EncConstant(k)[1..] == EncSigned(i, 8);
      case KStr(s) =>
        EncodedString(Some(s));
        assert EncConstant(k)[1..] == EncString(Some(s));
      case _ =>
    }
  }

  lemma EncodedLocVar(v: LocVar)
    requires FitsString(v.name)
    ensures IsLocVar(EncLocVar(v), v)
  {
    EncodedString(v.name);
    EncodedInt(v.startpc);
    EncodedInt(v.endpc);
    hide IsString, EncString, IsInt, EncSigned;
    var b, n := EncLocVar(v), |EncString(v.name)|;
    assert b[..n] == EncString(v.name) && b[n..n + 4] == EncInt(v.startpc) && b[n + 4..] == EncInt(v.endpc);
  }

  lemma EncodedPrologue(h: Prologue)
    ensures IsPrologue(EncPrologue(h), h)
  {
    EncodedInt(h.linedefined);
    EncodedInt(h.lastlinedefined);
    hide IsInt, EncSigned;
    var b := EncPrologue(h);
    assert b[..4] == EncInt(h.linedefined) && b[4..8] == EncInt(h.lastlinedefined);
  }

  // ----- Sequences -----

  ghost function Items<T>(xs: seq<T>, enc: T -> Bytes): (parts: seq<Bytes>)
    ensures |parts| == |xs|
  {
    seq(|xs|, i requires 0 <= i < |xs| => enc(xs[i]))
  }

  lemma {:induction false} JoinedItems<T>(xs: seq<T>, enc: T -> Bytes)
    ensures Joined(Items(xs, enc)) == EncMany(xs, enc)
    decreases |xs|
  {
    if xs != [] {
      var k := |xs| - 1;
      assert Items(xs, enc)[..k] == Items(xs[..k], enc);
      JoinedItems(xs[..k], enc);
    }
  }

  lemma CountedParts(n: Int32, parts: seq<Bytes>)
    requires n == |parts|
    ensures Counts(EncInt(n) + Joined(parts), parts)
  {
    EncodedInt(n);
    hide IsInt, EncSigned;
    var b := EncInt(n) + Joined(parts);
    assert b[..4] == EncInt(n) && b[4..] == Joined(parts);
  }

  lemma EncodedVector<T(!new)>(xs: seq<T>, enc: T -> Bytes, fits: (Bytes, T) -> bool)
    requires FitsInt(xs) && forall i :: 0 <= i < |xs| ==> fits(enc(xs[i]), xs[i])
    ensures IsSequence(EncVector(xs, enc), xs, fits)
  {
    var parts := Items(xs, enc);
    JoinedItems(xs, enc);
    CountedParts(|xs|, parts);
    assert forall i :: 0 <= i < |xs| ==> fits(parts[i], xs[i]);
  }

  lemma EncodedBody(f: Proto<TString>)
    requires InRange(f)
    ensures IsSequence(EncVector(f.code, EncInstruction), f.code, IsInstruction)
    ensures IsSequence(EncVector(f.k, EncConstant), f.k, IsConstant)
    ensures IsSequence(EncVector(f.upvalues, EncUpvalue), f.upvalues, IsUpvalue)
  {
    hide IsSequence, EncVector, IsInstruction, EncInstruction, IsConstant, EncConstant;
    forall i | 0 <= i < |f.code| ensures IsInstruction(EncInstruction(f.code[i]), f.code[i]) {
      EncodedInstruction(f.code[i]);
    }
    forall i | 0 <= i < |f.k| ensures IsConstant(EncConstant(f.k[i]), f.k[i]) {
      EncodedConstant(f.k[i]);
    }
    forall i | 0 <= i < |f.upvalues| ensures IsUpvalue(EncUpvalue(f.upvalues[i]), f.upvalues[i]) {
    }
    EncodedVector(f.code, EncInstruction, IsInstruction);
    EncodedVector(f.k, EncConstant, IsConstant);
    EncodedVector(f.upvalues, EncUpvalue, IsUpvalue);
  }

  lemma EncodedLines(lines: seq<Int32>)
    requires FitsInt(lines)
    ensures IsSequence(EncVector(lines, EncInt), lines, IsLine)
  {
    hide IsSequence, EncVector, IsInt, EncInt;
    forall i | 0 <= i < |lines| ensures IsLine(EncInt(lines[i]), lines[i]) {
      EncodedInt(lines[i]);
    }
    EncodedVector(lines, EncInt, IsLine);
  }

  lemma EncodedLocVars(vars: seq<LocVar>)
    requires FitsInt(vars) && forall i :: 0 <= i < |vars| ==> FitsString(vars[i].name)
    ensures IsSequence(EncVector(vars, EncLocVar), vars, IsLocVar)
  {
    hide IsSequence, EncVector, IsLocVar, EncLocVar;
    forall i | 0 <= i < |vars| ensures IsLocVar(EncLocVar(vars[i]), vars[i]) {
      EncodedLocVar(vars[i]);
    }
    EncodedVector(vars, EncLocVar, IsLocVar);
  }

  lemma EncodedNames(ups: seq<Upvalue>)
    requires FitsInt(ups) && forall i :: 0 <= i < |ups| ==> FitsString(ups[i].name)
    ensures IsSequence(EncVector(Names(ups), EncString), ups, HasName)
  {
    var names := Names(ups);
    var parts := Items(names, EncString);
    JoinedItems(names, EncString);
    CountedParts(|ups|, parts);
    forall i | 0 <= i < |ups| ensures HasName(parts[i], ups[i]) {
      EncodedString(ups[i].name);
    }
  }

  lemma EncodedSource(f: Proto<TString>, psource: Option<TString>, strip: bool)
    requires WellFormed(f, psource)
    ensures IsSource(EncSource(f, psource, strip), f, psource, strip)
  {
    EncodedString(None);
    EncodedString(Chars(f.source));
  }

  // ----- Functions and chunks -----

  lemma {:induction false} EncodedFunction(f: Proto<TString>, psource: Option<TString>, strip: bool)
    requires WellFormed(f, psource)
    ensures IsFunction(EncFunction(f, psource, strip), f, psource, strip)
    decreases f, 1
  {
    EncodedProtos(f, strip);
    EncodedSource(f, psource, strip);
    hide IsFunction, IsProtos, IsSource, EncProtos, EncSource, InRange;
    EncodedSections(f, psource, strip, EncSource(f, psource, strip), EncProtos(f, |f.p|, strip));
  }

  lemma EncodedSections(f: Proto<TString>, psource: Option<TString>, strip: bool, source: Bytes, protos: Bytes)
    requires InRange(f) && IsSource(source, f, psource, strip) && IsProtos(EncInt(|f.p|) + protos, f, strip)
    ensures IsFunction(source + EncPrologue(f.prologue) + EncBody(f) + EncInt(|f.p|) + protos + EncDebug(f, strip), f, psource, strip)
  {
    hide IsFunction, IsProtos, IsSource, IsSequence, IsPrologue, EncVector, EncInt, EncPrologue;
    var lines, vars := if strip then [] else f.lineinfo, if strip then [] else f.locvars;
    var ups := if strip then [] else f.upvalues;
    EncodedPrologue(f.prologue);
    EncodedBody(f);
    EncodedLines(lines);
    EncodedLocVars(vars);
    EncodedNames(ups);
    assert Names(ups) == if strip then [] else Names(f.upvalues);
    var s := Sections(
      source, EncPrologue(f.prologue), EncVector(f.code, EncInstruction), EncVector(f.k, EncConstant),
      EncVector(f.upvalues, EncUpvalue), EncInt(|f.p|) + protos,
      EncVector(lines, EncInt), EncVector(vars, EncLocVar), EncVector(Names(ups), EncString));
    SectionsInOrder(s.source, s.prologue, s.code, s.constants, s.upvalues, EncInt(|f.p|), protos, s.lines, s.locals, s.names);
    Assemble(s, f, psource, strip);
  }

  lemma Assemble(s: Sections, f: Proto<TString>, psource: Option<TString>, strip: bool)
    requires IsSource(s.source, f, psource, strip) && IsPrologue(s.prologue, f.prologue)
    requires IsSequence(s.code, f.code, IsInstruction) && IsSequence(s.constants, f.k, IsConstant)
    requires IsSequence(s.upvalues, f.upvalues, IsUpvalue) && IsProtos(s.protos, f, strip)
    requires IsSequence(s.lines, if strip then [] else f.lineinfo, IsLine)
    requires IsSequence(s.locals, if strip then [] else f.locvars, IsLocVar)
    requires IsSequence(s.names, if strip then [] else f.upvalues, HasName)
    ensures IsFunction(s.All(), f, psource, strip)
  {
    hide IsSource, IsPrologue, IsSequence, IsProtos;
    assert s.All() == s.All();
  }

  lemma SectionsInOrder(a: Bytes, b: Bytes, c: Bytes, d: Bytes, e: Bytes, f: Bytes, g: Bytes, h: Bytes, i: Bytes, j: Bytes)
    ensures a + b + (c + d + e) + f + g + (h + i + j) == a + b + c + d + e + (f + g) + h + i + j
  {
  }

  lemma {:induction false} EncodedProtos(f: Proto<TString>, strip: bool)
    requires FitsInt(f.p) && forall i :: 0 <= i < |f.p| ==> WellFormed(f.p[i], f.source)
    ensures IsProtos(EncInt(|f.p|) + EncProtos(f, |f.p|, strip), f, strip)
    decreases f, 0
  {
    hide WellFormed, EncFunction, IsFunction, EncInt, Counts;
    var parts := seq(|f.p|, i requires 0 <= i < |f.p| => EncFunction(f.p[i], f.source, strip));
    JoinedProtos(f, |f.p|, strip, parts);
    assert parts[..|f.p|] == parts;
    CountedParts(|f.p|, parts);
    forall i | 0 <= i < |f.p| ensures IsFunction(parts[i], f.p[i], f.source, strip) {
      EncodedFunction(f.p[i], f.source, strip);
    }
  }

  lemma {:induction false} JoinedProtos(f: Proto<TString>, n: nat, strip: bool, parts: seq<Bytes>)
    requires n <= |f.p| == |parts| && forall i :: 0 <= i < |f.p| ==> WellFormed(f.p[i], f.source)
    requires forall i :: 0 <= i < |f.p| ==> parts[i] == EncFunction(f.p[i], f.source, strip)
    ensures Joined(parts[..n]) == EncProtos(f, n, strip)
    decreases n
  {
    hide WellFormed, EncFunction;
    if n > 0 {
      JoinedProtos(f, n - 1, strip, parts);
      assert parts[..n][..n - 1] == parts[..n - 1];
    }
  }

  lemma HeaderBytes()
    ensures |HEADER| == 33
    ensures HEADER[..12] == [0x1B, 0x4C, 0x75, 0x61, 0x53, 0x00, 0x19, 0x93, 0x0D, 0x0A, 0x1A, 0x0A]
    ensures HEADER[12..17] == [4, 8, 4, 8, 8]
    ensures HEADER[17..25] == EncSigned(0x5678, 8)
    ensures HEADER[25..33] == [0, 0, 0, 0, 0, 0x28, 0x77, 0x40]
  {
    hide EncSigned;
  }

  lemma {:induction false} ZeroBytes(k: nat)
    ensures ToLittleEndian(0, k) == seq(k, _ => 0)
  {
    if k > 0 {
      ZeroBytes(k - 1);
      assert seq(k, _ => 0) == [0] + seq(k - 1, _ => 0);
    }
  }

  lemma TestInteger()
    ensures EncSigned(0x5678, 8) == [0x78, 0x56, 0, 0, 0, 0, 0, 0]
  {
    Powers();
    ZeroBytes(6);
    assert ToLittleEndian(0x56, 7) == [0x56] + ToLittleEndian(0, 6);
    assert ToLittleEndian(0x5678, 8) == [0x78] + ToLittleEndian(0x56, 7);
  }

  /** A dump has the format. */
  lemma EncodedChunk(f: Proto<TString>, strip: bool)
    requires WellFormed(f, None)
    ensures IsChunk(EncChunk(f, strip), f, strip)
  {
    hide WellFormed, EncFunction, IsFunction, EncSigned;
    HeaderBytes();
    TestInteger();
    EncodedFunction(f, None, strip);
    var b := EncChunk(f, strip);
    assert b[..33] == HEADER;
    assert b[..12] == HEADER[..12] && b[12..17] == HEADER[12..17] && b[17..25] == HEADER[17..25] && b[25..33] == HEADER[25..33];
    assert b[34..] == EncFunction(f, None, strip);
  }
}
