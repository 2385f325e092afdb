/** Precompiled Lua chunks: the function tree, its byte encoding, and the reader of `lundump.c`.
    Sizes and byte order are those of a 64-bit little-endian host. */
module LuaChunk {
  import opened Wrappers
  import NumberTheory

  type Byte = x: int | 0 <= x < 256
  type Int32 = x: int | -0x8000_0000 <= x < 0x8000_0000
  type UInt32 = x: int | 0 <= x < 0x1_0000_0000
  type Int64 = x: int | -0x8000_0000_0000_0000 <= x < 0x8000_0000_0000_0000
  type Bytes = seq<Byte>

  /** A `lua_Number`, kept as its eight bytes. */
  type Float64 = s: Bytes | |s| == 8 witness [0, 0, 0, 0, 0, 0, 0, 0]

  /** A string object: `source` pointers are compared by address. */
  datatype TString = TString(addr: nat, chars: Bytes)

  datatype Constant = KNil | KBool(b: bool) | KFloat(f: Float64) | KInt(i: Int64) | KStr(s: Bytes)

  datatype Upvalue = Upvalue(name: Option<Bytes>, instack: Byte, idx: Byte)

  datatype LocVar = LocVar(name: Option<Bytes>, startpc: Int32, endpc: Int32)

  /** The parts of a function that are written the same way whether stripped or not. */
  datatype Prologue = Prologue(linedefined: Int32, lastlinedefined: Int32, numparams: Byte, isVararg: Byte, maxstacksize: Byte)

  datatype Proto<S> = Proto(
    source: Option<S>,
    prologue: Prologue,
    code: seq<UInt32>,
    k: seq<Constant>,
    upvalues: seq<Upvalue>,
    p: seq<Proto<S>>,
    lineinfo: seq<Int32>,
    locvars: seq<LocVar>
  )

  // ----- Numbers -----

  function Power256(k: nat): (r: nat)
    ensures r > 0
  {
    if k == 0 then 1 else 256 * Power256(k - 1)
  }

  function ToLittleEndian(n: nat, k: nat): (s: Bytes)
    ensures |s| == k
  {
    if k == 0 then [] else [n % 256] + ToLittleEndian(n / 256, k - 1)
  }

  function FromLittleEndian(s: Bytes): (n: nat) {
    if s == [] then 0 else s[0] + 256 * FromLittleEndian(s[1..])
  }

  lemma {:induction false} LittleEndianRoundTrip(n: nat, k: nat)
    requires n < Power256(k)
    ensures FromLittleEndian(ToLittleEndian(n, k)) == n
  {
    if k > 0 {
      LittleEndianRoundTrip(n / 256, k - 1);
      assert ToLittleEndian(n, k)[1..] == ToLittleEndian(n / 256, k - 1);
    }
  }

  lemma {:induction false} LittleEndianRange(s: Bytes)
    ensures FromLittleEndian(s) < Power256(|s|)
  {
    if s != [] {
      LittleEndianRange(s[1..]);
    }
  }

  lemma Powers()
    ensures Power256(4) == 0x1_0000_0000 && Power256(8) == 0x1_0000_0000_0000_0000
  {
    assert Power256(4) == 256 * 256 * 256 * 256;
    assert Power256(8) == 256 * 256 * 256 * 256 * Power256(4);
  }

  /** Two's complement in `k` bytes. */
  function EncSigned(x: int, k: nat): (s: Bytes)
    ensures |s| == k
  {
    ToLittleEndian(x % Power256(k), k)
  }

  function DecSigned(s: Bytes): int {
    var n := FromLittleEndian(s);
    if 2 * n < Power256(|s|) then n else n - Power256(|s|)
  }

  lemma SignedRoundTrip(x: int, k: nat)
    requires 0 <= 2 * x + Power256(k) < 2 * Power256(k)
    ensures DecSigned(EncSigned(x, k)) == x
  {
    hide ToLittleEndian, FromLittleEndian, Power256;
    var m := Power256(k);
    LittleEndianRoundTrip(x % m, k);
    if x >= 0 {
      NumberTheory.RemainderUnique(x, m, 0, x);
    } else {
      NumberTheory.RemainderUnique(x, m, -1, x + m);
    }
  }

  // ----- Readers -----

  /** A reader returns what it read and the bytes left, or None when `lundump.c` raises an error. */
  type Read<T> = Option<(T, Bytes)>

  function LoadBlock(s: Bytes, n: nat): (r: Read<Bytes>)
    ensures r.Some? ==> |r.value.0| == n && |s| == n + |r.value.1|
  {
    if |s| < n then None else Some((s[..n], s[n..]))
  }

  function LoadByte(s: Bytes): (r: Read<Byte>)
    ensures r.Some? ==> |s| == 1 + |r.value.1|
  {
    if s == [] then None else Some((s[0], s[1..]))
  }

  function LoadInt(s: Bytes): (r: Read<Int32>)
    ensures r.Some? ==> |s| == 4 + |r.value.1|
  {
    if |s| < 4 then None
    else
      LittleEndianRange(s[..4]);
      Powers();
      Some((DecSigned(s[..4]), s[4..]))
  }

  function LoadInstruction(s: Bytes): (r: Read<UInt32>)
    ensures r.Some? ==> |s| == 4 + |r.value.1|
  {
    if |s| < 4 then None
    else
      LittleEndianRange(s[..4]);
      Powers();
      Some((FromLittleEndian(s[..4]), s[4..]))
  }

  function LoadInteger(s: Bytes): (r: Read<Int64>)
    ensures r.Some? ==> |s| == 8 + |r.value.1|
  {
    if |s| < 8 then None
    else
      LittleEndianRange(s[..8]);
      Powers();
      Some((DecSigned(s[..8]), s[8..]))
  }

  function LoadString(s: Bytes): (r: Read<Option<Bytes>>)
    ensures r.Some? ==> |r.value.1| < |s|
  {
    var b := LoadByte(s);
    if b.None? then None
    else if b.value.0 == 0xFF then
      var w := LoadBlock(b.value.1, 8);
      if w.None? then None else LoadChars(FromLittleEndian(w.value.0), w.value.1)
    else LoadChars(b.value.0, b.value.1)
  }

  function LoadChars(size: nat, s: Bytes): (r: Read<Option<Bytes>>)
    ensures r.Some? ==> |r.value.1| <= |s|
  {
    if size == 0 then Some((None, s))
    else
      var c := LoadBlock(s, size - 1);
      if c.None? then None else Some((Some(c.value.0), c.value.1))
  }

  /** An unknown tag leaves the constant nil, as the release build does. */
  function LoadConstant(s: Bytes): (r: Read<Constant>)
    ensures r.Some? ==> |r.value.1| <= |s|
  {
    var t := LoadByte(s);
    if t.None? then None
    else
      var rest := t.value.1;
      if t.value.0 == LUA_TBOOLEAN then
        var b := LoadByte(rest);
        if b.None? then None else Some((KBool(b.value.0 != 0), b.value.1))
      else if t.value.0 == LUA_TNUMFLT then
        var f := LoadBlock(rest, 8);
        if f.None? then None else Some((KFloat(f.value.0), f.value.1))
      else if t.value.0 == LUA_TNUMINT then
        var i := LoadInteger(rest);
        if i.None? then None else Some((KInt(i.value.0), i.value.1))
      else if t.value.0 == LUA_TSHRSTR || t.value.0 == LUA_TLNGSTR then
        var c := LoadString(rest);
        if c.None? || c.value.0.None? then None else Some((KStr(c.value.0.value), c.value.1))
      else Some((KNil, rest))
  }

  const LUA_TNIL := 0
  const LUA_TBOOLEAN := 1
  const LUA_TNUMFLT := 3
  const LUA_TNUMINT := 19
  const LUA_TSHRSTR := 4
  const LUA_TLNGSTR := 20
  const LUAI_MAXSHORTLEN := 40

  function LoadUpvalue(s: Bytes): (r: Read<Upvalue>)
    ensures r.Some? ==> |r.value.1| <= |s|
  {
    if |s| < 2 then None else Some((Upvalue(None, s[0], s[1]), s[2..]))
  }

  function LoadLocVar(s: Bytes): (r: Read<LocVar>)
    ensures r.Some? ==> |r.value.1| <= |s|
  {
    var n := LoadString(s);
    if n.None? then None
    else
      var a := LoadInt(n.value.1);
      if a.None? then None
      else
        var b := LoadInt(a.value.1);
        if b.None? then None else Some((LocVar(n.value.0, a.value.0, b.value.0), b.value.1))
  }

  ghost predicate NeverGrows<T(!new)>(load: Bytes -> Read<T>) {
    forall s :: load(s).Some? ==> |load(s).value.1| <= |s|
  }

  /** `n` items in a row. */
  function LoadMany<T(!new)>(n: nat, load: Bytes -> Read<T>, s: Bytes): (r: Read<seq<T>>)
    requires NeverGrows(load)
    ensures r.Some? ==> |r.value.1| <= |s| && |r.value.0| == n
  {
    if n == 0 then Some(([], s))
    else
      var xs := LoadMany(n - 1, load, s);
      if xs.None? then None
      else
        var x := load(xs.value.1);
        if x.None? then None else Some((xs.value.0 + [x.value.0], x.value.1))
  }

  /** A count followed by that many items; a negative count makes the allocation fail. */
  function LoadVector<T(!new)>(load: Bytes -> Read<T>, s: Bytes): (r: Read<seq<T>>)
    requires NeverGrows(load)
    ensures r.Some? ==> |r.value.1| < |s| && FitsInt(r.value.0)
  {
    var n := LoadInt(s);
    if n.None? || n.value.0 < 0 then None else LoadMany(n.value.0, load, n.value.1)
  }

  function LoadPrologue(s: Bytes): (r: Read<Prologue>)
    ensures r.Some? ==> |r.value.1| <= |s|
  {
    var a := LoadInt(s);
    if a.None? then None
    else
      var b := LoadInt(a.value.1);
      if b.None? then None
      else
        var c := LoadBlock(b.value.1, 3);
        if c.None? then None
        else Some((Prologue(a.value.0, b.value.0, c.value.0[0], c.value.0[1], c.value.0[2]), c.value.1))
  }

  /** Names read for more upvalues than exist would be stored outside the vector: not accepted here. */
  function Named(ups: seq<Upvalue>, names: seq<Option<Bytes>>): (r: seq<Upvalue>)
    requires |names| <= |ups|
    ensures |r| == |ups|
  {
    seq(|ups|, i requires 0 <= i < |ups| => if i < |names| then ups[i].(name := names[i]) else ups[i])
  }

  datatype Body = Body(code: seq<UInt32>, k: seq<Constant>, upvalues: seq<Upvalue>)
  datatype Debug = Debug(lineinfo: seq<Int32>, locvars: seq<LocVar>, names: seq<Option<Bytes>>)

  function LoadBody(s: Bytes): (r: Read<Body>)
    ensures r.Some? ==> |r.value.1| <= |s|
  {
    var code := LoadVector(LoadInstruction, s);
    if code.None? then None
    else
      var k := LoadVector(LoadConstant, code.value.1);
      if k.None? then None
      else
        var ups := LoadVector(LoadUpvalue, k.value.1);
        if ups.None? then None else Some((Body(code.value.0, k.value.0, ups.value.0), ups.value.1))
  }

  /** Upvalue names need no allocation, so a negative count means no names. */
  function LoadNames(s: Bytes): (r: Read<seq<Option<Bytes>>>)
    ensures r.Some? ==> |r.value.1| < |s|
  {
    var n := LoadInt(s);
    if n.None? then None else LoadMany(if n.value.0 < 0 then 0 else n.value.0, LoadString, n.value.1)
  }

  function LoadDebug(s: Bytes): (r: Read<Debug>)
    ensures r.Some? ==> |r.value.1| <= |s|
  {
    var lines := LoadVector(LoadInt, s);
    if lines.None? then None
    else
      var locs := LoadVector(LoadLocVar, lines.value.1);
      if locs.None? then None
      else
        var names := LoadNames(locs.value.1);
        if names.None? then None else Some((Debug(lines.value.0, locs.value.0, names.value.0), names.value.1))
  }

  function LoadFunction(s: Bytes, psource: Option<Bytes>): (r: Read<Proto<Bytes>>)
    ensures r.Some? ==> |r.value.1| < |s|
    decreases |s|, 0
  {
    var src := LoadString(s);
    if src.None? then None
    else LoadAfterSource(src.value.1, if src.value.0.None? then psource else src.value.0)
  }

  function LoadAfterSource(s: Bytes, source: Option<Bytes>): (r: Read<Proto<Bytes>>)
    ensures r.Some? ==> |r.value.1| <= |s|
    decreases |s|, 0
  {
    var h := LoadPrologue(s);
    if h.None? then None
    else
      var body := LoadBody(h.value.1);
      if body.None? then None
      else
        var n := LoadInt(body.value.1);
        if n.None? || n.value.0 < 0 then None
        else
          var ps := LoadProtos(n.value.0, n.value.1, source);
          if ps.None? then None
          else
            var d := LoadDebug(ps.value.1);
            if d.None? || |d.value.0.names| > |body.value.0.upvalues| then None
            else Some((MakeProto(source, h.value.0, body.value.0, ps.value.0, d.value.0), d.value.1))
  }

  function MakeProto(source: Option<Bytes>, h: Prologue, b: Body, ps: seq<Proto<Bytes>>, d: Debug): Proto<Bytes>
    requires |d.names| <= |b.upvalues|
  {
    Proto(source, h, b.code, b.k, Named(b.upvalues, d.names), ps, d.lineinfo, d.locvars)
  }

  function LoadProtos(n: nat, s: Bytes, psource: Option<Bytes>): (r: Read<seq<Proto<Bytes>>>)
    ensures r.Some? ==> |r.value.1| <= |s| && |r.value.0| == n
    decreases |s|, n + 1
  {
    if n == 0 then Some(([], s))
    else
      var fs := LoadProtos(n - 1, s, psource);
      if fs.None? then None
      else
        var f := LoadFunction(fs.value.1, psource);
        if f.None? then None else Some((fs.value.0 + [f.value.0], f.value.1))
  }

  const LUA_SIGNATURE: Bytes := [0x1B, 0x4C, 0x75, 0x61]
  const LUAC_VERSION := 0x53
  const LUAC_FORMAT := 0
  const LUAC_DATA: Bytes := [0x19, 0x93, 0x0D, 0x0A, 0x1A, 0x0A]
  const LUAC_INT := 0x5678
  /** 370.5 as an IEEE double. */
  const LUAC_NUM: Float64 := [0, 0, 0, 0, 0, 0x28, 0x77, 0x40]

  /** What `checkHeader` accepts: signature, version, format, data, the sizes of int, size_t, Instruction,
      lua_Integer and lua_Number, and the two test numbers. */
  const HEADER: Bytes :=
    LUA_SIGNATURE + [LUAC_VERSION, LUAC_FORMAT] + LUAC_DATA + [4, 8, 4, 8, 8] + EncSigned(LUAC_INT, 8) + LUAC_NUM

  /** `luaU_undump`: the closure's upvalue count and its function. */
  function Undump(s: Bytes): (r: Read<(Byte, Proto<Bytes>)>) {
    if |s| <= |HEADER| || s[..|HEADER|] != HEADER then None
    else
      var f := LoadFunction(s[|HEADER| + 1..], None);
      if f.None? then None else Some(((s[|HEADER|], f.value.0), f.value.1))
  }

  // ----- What the writer is to produce -----

  function EncInt(x: Int32): Bytes { EncSigned(x, 4) }

  function EncInstruction(x: UInt32): Bytes { ToLittleEndian(x, 4) }

  function EncString(s: Option<Bytes>): (r: Bytes) {
    if s.None? then [0]
    else
      var size := |s.value| + 1;
      if size < 0xFF then [size as Byte] + s.value else [0xFF] + ToLittleEndian(size, 8) + s.value
  }

  function EncConstant(c: Constant): Bytes {
    match c
    case KNil => [LUA_TNIL]
    case KBool(b) => [LUA_TBOOLEAN, if b then 1 else 0]
    case KFloat(f) => [LUA_TNUMFLT] + f
    case KInt(i) => [LUA_TNUMINT] + EncSigned(i, 8)
    case KStr(s) => [if |s| <= LUAI_MAXSHORTLEN then LUA_TSHRSTR else LUA_TLNGSTR] + EncString(Some(s))
  }

  function EncUpvalue(u: Upvalue): Bytes { [u.instack, u.idx] }

  function EncLocVar(v: LocVar): Bytes { EncString(v.name) + EncInt(v.startpc) + EncInt(v.endpc) }

  function EncMany<T>(xs: seq<T>, enc: T -> Bytes): Bytes
    decreases |xs|
  {
    if xs == [] then [] else EncMany(xs[..|xs| - 1], enc) + enc(xs[|xs| - 1])
  }

  /** Counts are C `int`s. */
  ghost predicate FitsInt<T>(xs: seq<T>) { |xs| < 0x8000_0000 }

  function EncVector<T>(xs: seq<T>, enc: T -> Bytes): Bytes
    requires FitsInt(xs)
  {
    EncInt(|xs|) + EncMany(xs, enc)
  }

  function EncPrologue(h: Prologue): Bytes {
    EncInt(h.linedefined) + EncInt(h.lastlinedefined) + [h.numparams, h.isVararg, h.maxstacksize]
  }

  ghost predicate FitsString(s: Option<Bytes>) { s.Some? ==> |s.value| + 1 < 0x1_0000_0000_0000_0000 }

  function Chars(s: Option<TString>): Option<Bytes> {
    if s.None? then None else Some(s.value.chars)
  }

  predicate SamePointer(a: Option<TString>, b: Option<TString>) {
    (a.None? && b.None?) || (a.Some? && b.Some? && a.value.addr == b.value.addr)
  }

  /** The limits of C types, for one function. */
  ghost predicate InRange<S>(f: Proto<S>) {
    && FitsInt(f.code) && FitsInt(f.k) && FitsInt(f.upvalues) && FitsInt(f.p) && FitsInt(f.lineinfo) && FitsInt(f.locvars)
    && (forall i :: 0 <= i < |f.k| && f.k[i].KStr? ==> FitsString(Some(f.k[i].s)))
    && (forall i :: 0 <= i < |f.upvalues| ==> FitsString(f.upvalues[i].name))
    && (forall i :: 0 <= i < |f.locvars| ==> FitsString(f.locvars[i].name))
  }

  /** The limits of C types, and strings at one address being one string. */
  ghost predicate WellFormed(f: Proto<TString>, psource: Option<TString>) {
    && FitsString(Chars(f.source)) && (SamePointer(f.source, psource) ==> Chars(f.source) == Chars(psource))
    && InRange(f)
    && forall i :: 0 <= i < |f.p| ==> WellFormed(f.p[i], f.source)
  }

  function Names(ups: seq<Upvalue>): (r: seq<Option<Bytes>>)
    ensures |r| == |ups|
  {
    seq(|ups|, i requires 0 <= i < |ups| => ups[i].name)
  }

  function EncSource(f: Proto<TString>, psource: Option<TString>, strip: bool): Bytes {
    if strip || SamePointer(f.source, psource) then EncString(None) else EncString(Chars(f.source))
  }

  function EncBody(f: Proto<TString>): Bytes
    requires FitsInt(f.code) && FitsInt(f.k) && FitsInt(f.upvalues)
  {
    EncVector(f.code, EncInstruction) + EncVector(f.k, EncConstant) + EncVector(f.upvalues, EncUpvalue)
  }

  function EncDebug(f: Proto<TString>, strip: bool): Bytes
    requires FitsInt(f.upvalues) && FitsInt(f.lineinfo) && FitsInt(f.locvars)
  {
    EncVector(if strip then [] else f.lineinfo, EncInt)
    + EncVector(if strip then [] else f.locvars, EncLocVar)
    + EncVector(if strip then [] else Names(f.upvalues), EncString)
  }

  function EncFunction(f: Proto<TString>, psource: Option<TString>, strip: bool): Bytes
    requires WellFormed(f, psource)
    decreases f, 0
  {
    EncSource(f, psource, strip) + EncPrologue(f.prologue) + EncBody(f)
    + EncInt(|f.p|) + EncProtos(f, |f.p|, strip) + EncDebug(f, strip)
  }

  /** The first `n` nested functions of `f`. */
  function EncProtos(f: Proto<TString>, n: nat, strip: bool): Bytes
    requires n <= |f.p| && forall i :: 0 <= i < |f.p| ==> WellFormed(f.p[i], f.source)
    decreases f.p, n
  {
    if n == 0 then [] else EncProtos(f, n - 1, strip) + EncFunction(f.p[n - 1], f.source, strip)
  }

  function EncChunk(f: Proto<TString>, strip: bool): Bytes
    requires WellFormed(f, None)
  {
    HEADER + [|f.upvalues| % 256] + EncFunction(f, None, strip)
  }
}
