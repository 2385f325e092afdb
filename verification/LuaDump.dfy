/** `ldump.c`: writing a function tree through a caller-supplied writer. */
module LuaDump {
  import opened Wrappers
  import opened LuaChunk
  import LuaFormat

  /** The writer takes every block that is not empty; it is never handed an empty one. */
  ghost predicate Accepts(writer: (Bytes, Bytes) -> int) {
    forall o, b :: b != [] ==> writer(o, b) == 0
  }

  /** The writer answered the last block with `status`. */
  ghost predicate Refused(writer: (Bytes, Bytes) -> int, output: Bytes, status: int) {
    exists k :: 0 <= k < |output| && writer(output[..k], output[k..]) == status
  }

  class DumpState {
    const strip: bool
    /** Given what it has received so far and a block, the writer returns a status; non-zero stops the dump. */
    const writer: (Bytes, Bytes) -> int
    var status: int
    /** The blocks handed to the writer. */
    var output: Bytes
    /** Everything the traversal has asked to have written. */
    ghost var requested: Bytes

    ghost predicate Accepting() {
      Accepts(writer)
    }

    ghost predicate Valid()
      reads this
    {
      && output <= requested
      && (status == 0 ==> output == requested)
      && (Accepting() ==> status == 0)
      && (status != 0 ==> Refused(writer, output, status))
    }

    /** The next request was `enc`; after a non-zero status the writer is left alone. */
    twostate predicate Dumped(enc: Bytes)
      reads this
    {
      && Valid() && requested == old(requested) + enc
      && (old(status) != 0 ==> status == old(status) && output == old(output))
    }

    constructor (strip: bool, writer: (Bytes, Bytes) -> int)
      ensures Valid() && this.strip == strip && this.writer == writer && requested == []
    {
      this.strip, this.writer, status, output, requested := strip, writer, 0, [], [];
    }

    method DumpBlock(b: Bytes)
      requires Valid()
      modifies this
      ensures Dumped(b)
    {
      if status == 0 && |b| > 0 {
        status := writer(output, b);
        output := output + b;
        assert output[..|output| - |b|] == old(output) && output[|output| - |b|..] == b;
      }
      requested := requested + b;
    }

    method DumpByte(y: int)
      requires Valid()
      modifies this
      ensures Dumped([y % 256])
    {
      DumpBlock([y % 256]);
    }

    method DumpInt(x: Int32)
      requires Valid()
      modifies this
      ensures Dumped(EncInt(x))
    {
      DumpBlock(EncInt(x));
    }

    method DumpString(s: Option<Bytes>)
      requires Valid() && FitsString(s)
      modifies this
      ensures Dumped(EncString(s))
    {
      ghost var r := requested;
      if s.None? {
        DumpByte(0);
      } else {
        var size := |s.value| + 1;
        if size < 0xFF {
          DumpByte(size);
        } else {
          DumpByte(0xFF);
          DumpBlock(ToLittleEndian(size, 8));
        }
        DumpBlock(s.value);
      }
      assert requested == r + EncString(s);
    }

    method DumpCode(f: Proto<TString>)
      requires Valid() && FitsInt(f.code)
      modifies this
      ensures Dumped(EncVector(f.code, EncInstruction))
    {
      ghost var r := requested;
      DumpInt(|f.code|);
      DumpBlock(EncMany(f.code, EncInstruction));
      assert requested == r + EncVector(f.code, EncInstruction);
    }

    method DumpConstant(o: Constant)
      requires Valid() && (o.KStr? ==> FitsString(Some(o.s)))
      modifies this
      ensures Dumped(EncConstant(o))
    {
      hide Accepts, Refused, EncSigned, EncString;
      ghost var r := requested;
      match o {
        case KNil => DumpByte(LUA_TNIL);
        case KBool(b) =>
          DumpByte(LUA_TBOOLEAN);
          DumpByte(if b then 1 else 0);
        case KFloat(x) =>
          DumpByte(LUA_TNUMFLT);
          DumpBlock(x);
        case KInt(i) =>
          DumpByte(LUA_TNUMINT);
          DumpBlock(EncSigned(i, 8));
        case KStr(s) =>
          DumpByte(if |s| <= LUAI_MAXSHORTLEN then LUA_TSHRSTR else LUA_TLNGSTR);
          DumpString(Some(s));
      }
      assert requested == r + EncConstant(o);
    }

    method DumpConstants(f: Proto<TString>)
      requires Valid() && FitsInt(f.k)
      requires forall i :: 0 <= i < |f.k| && f.k[i].KStr? ==> FitsString(Some(f.k[i].s))
      modifies this
      ensures Dumped(EncVector(f.k, EncConstant))
    {
      hide Accepts, Refused, EncInt, EncString, EncConstant, EncUpvalue, EncLocVar;
      ghost var r := requested;
      DumpInt(|f.k|);
      for i := 0 to |f.k|
        invariant Dumped(EncInt(|f.k|) + EncMany(f.k[..i], EncConstant))
      {
        DumpConstant(f.k[i]);
        assert f.k[..i + 1][..i] == f.k[..i];
        assert requested == r + (EncInt(|f.k|) + EncMany(f.k[..i + 1], EncConstant));
      }
      assert f.k[..|f.k|] == f.k;
    }

    method DumpUpvalue(u: Upvalue)
      requires Valid()
      modifies this
      ensures Dumped(EncUpvalue(u))
    {
      DumpTwo(u.instack, u.idx);
    }

    method DumpUpvalues(f: Proto<TString>)
      requires Valid() && FitsInt(f.upvalues)
      modifies this
      ensures Dumped(EncVector(f.upvalues, EncUpvalue))
    {
      hide Accepts, Refused, EncInt, EncString, EncConstant, EncUpvalue, EncLocVar;
      ghost var r := requested;
      var us := f.upvalues;
      DumpInt(|us|);
      for i := 0 to |us|
        invariant Dumped(EncInt(|us|) + EncMany(us[..i], EncUpvalue))
      {
        DumpUpvalue(us[i]);
        assert us[..i + 1][..i] == us[..i];
        assert requested == r + (EncInt(|us|) + EncMany(us[..i + 1], EncUpvalue));
      }
      assert us[..|us|] == us;
    }

    method DumpDebug(f: Proto<TString>)
      requires Valid() && FitsInt(f.upvalues) && FitsInt(f.lineinfo) && FitsInt(f.locvars)
      requires forall i :: 0 <= i < |f.upvalues| ==> FitsString(f.upvalues[i].name)
      requires forall i :: 0 <= i < |f.locvars| ==> FitsString(f.locvars[i].name)
      modifies this
      ensures Dumped(EncDebug(f, strip))
    {
      hide Accepts, Refused, EncVector, EncInt, EncString, EncLocVar;
      ghost var r := requested;
      ghost var lines := if strip then [] else f.lineinfo;
      var n := if strip then 0 else |f.lineinfo|;
      assert f.lineinfo[..n] == lines;
      DumpLines(f.lineinfo[..n]);
      DumpLocVars(if strip then [] else f.locvars);
      DumpNames(if strip then [] else f.upvalues);
      assert strip ==> Names([]) == [];
      assert requested == r + EncDebug(f, strip);
    }

    method DumpLines(lines: seq<Int32>)
      requires Valid() && FitsInt(lines)
      modifies this
      ensures Dumped(EncVector(lines, EncInt))
    {
      ghost var r := requested;
      DumpInt(|lines|);
      DumpBlock(EncMany(lines, EncInt));
      assert requested == r + EncVector(lines, EncInt);
    }

    method DumpLocVar(v: LocVar)
      requires Valid() && FitsString(v.name)
      modifies this
      ensures Dumped(EncLocVar(v))
    {
      hide Accepts, Refused, EncInt, EncString;
      ghost var r := requested;
      DumpString(v.name);
      DumpInt(v.startpc);
      DumpInt(v.endpc);
      assert requested == r + EncLocVar(v);
    }

    method DumpLocVars(vars: seq<LocVar>)
      requires Valid() && FitsInt(vars) && forall i :: 0 <= i < |vars| ==> FitsString(vars[i].name)
      modifies this
      ensures Dumped(EncVector(vars, EncLocVar))
    {
      hide Accepts, Refused, EncInt, EncString, EncConstant, EncUpvalue, EncLocVar;
      ghost var r := requested;
      DumpInt(|vars|);
      for i := 0 to |vars|
        invariant Dumped(EncInt(|vars|) + EncMany(vars[..i], EncLocVar))
      {
        DumpLocVar(vars[i]);
        assert vars[..i + 1][..i] == vars[..i];
        assert requested == r + (EncInt(|vars|) + EncMany(vars[..i + 1], EncLocVar));
      }
      assert vars[..|vars|] == vars;
    }

    method DumpNames(ups: seq<Upvalue>)
      requires Valid() && FitsInt(ups) && forall i :: 0 <= i < |ups| ==> FitsString(ups[i].name)
      modifies this
      ensures Dumped(EncVector(Names(ups), EncString))
    {
      hide Accepts, Refused, EncInt, EncString, EncConstant, EncUpvalue, EncLocVar;
      ghost var r, names := requested, Names(ups);
      DumpInt(|ups|);
      for i := 0 to |ups|
        invariant Dumped(EncInt(|names|) + EncMany(names[..i], EncString))
      {
        DumpString(ups[i].name);
        assert names[..i + 1][..i] == names[..i];
        assert requested == r + (EncInt(|names|) + EncMany(names[..i + 1], EncString));
      }
      assert names[..|names|] == names;
    }

    /** The literal parts, the sizes, and the two numbers that let a reader detect a foreign format. */
    method DumpHeader()
      requires Valid()
      modifies this
      ensures Dumped(HEADER)
    {
      hide Accepts, Refused, EncSigned;
      ghost var r := requested;
      DumpBlock(LUA_SIGNATURE);
      DumpTwo(LUAC_VERSION, LUAC_FORMAT);
      DumpBlock(LUAC_DATA);
      DumpSizes();
      DumpBlock(EncSigned(LUAC_INT, 8));
      DumpBlock(LUAC_NUM);
      JoinSix(r, LUA_SIGNATURE, [LUAC_VERSION, LUAC_FORMAT], LUAC_DATA, [4, 8, 4, 8, 8], EncSigned(LUAC_INT, 8), LUAC_NUM);
    }

    method DumpTwo(x: Byte, y: Byte)
      requires Valid()
      modifies this
      ensures Dumped([x, y])
    {
      DumpByte(x);
      DumpByte(y);
    }

    /** The sizes of int, size_t, Instruction, lua_Integer and lua_Number. */
    method DumpSizes()
      requires Valid()
      modifies this
      ensures Dumped([4, 8, 4, 8, 8])
    {
      DumpTwo(4, 8);
      DumpTwo(4, 8);
      DumpByte(8);
    }

    method DumpPrologue(h: Prologue)
      requires Valid()
      modifies this
      ensures Dumped(EncPrologue(h))
    {
      hide Accepts, Refused, EncInt;
      ghost var r := requested;
      DumpInt(h.linedefined);
      DumpInt(h.lastlinedefined);
      DumpByte(h.numparams);
      DumpByte(h.isVararg);
      DumpByte(h.maxstacksize);
      assert requested == r + EncPrologue(h);
    }

    method DumpFunction(f: Proto<TString>, psource: Option<TString>)
      requires Valid() && WellFormed(f, psource)
      modifies this
      ensures Dumped(EncFunction(f, psource, strip))
      decreases f, 0
    {
      hide Accepts, Refused, EncVector, EncInt, EncString, EncPrologue, EncProtos, EncDebug, Chars;
      ghost var r := requested;
      if strip || SamePointer(f.source, psource) {
        DumpString(None);
      } else {
        DumpString(Chars(f.source));
      }
      DumpPrologue(f.prologue);
      DumpCode(f);
      DumpConstants(f);
      DumpUpvalues(f);
      DumpProtos(f);
      DumpDebug(f);
      Regroup(r, EncSource(f, psource, strip), EncPrologue(f.prologue), EncVector(f.code, EncInstruction),
              EncVector(f.k, EncConstant), EncVector(f.upvalues, EncUpvalue),
              EncInt(|f.p|), EncProtos(f, |f.p|, strip), EncDebug(f, strip));
    }

    method DumpProtos(f: Proto<TString>)
      requires Valid() && FitsInt(f.p) && forall i :: 0 <= i < |f.p| ==> WellFormed(f.p[i], f.source)
      modifies this
      ensures Dumped(EncInt(|f.p|) + EncProtos(f, |f.p|, strip))
      decreases f.p, 1
    {
      hide Accepts, Refused, EncInt, EncFunction;
      ghost var r := requested;
      DumpInt(|f.p|);
      for i := 0 to |f.p|
        invariant Dumped(EncInt(|f.p|) + EncProtos(f, i, strip))
      {
        DumpFunction(f.p[i], f.source);
        assert requested == r + (EncInt(|f.p|) + EncProtos(f, i + 1, strip));
      }
    }
  }

  lemma Regroup(r: Bytes, a: Bytes, b: Bytes, c: Bytes, d: Bytes, e: Bytes, f: Bytes, g: Bytes, h: Bytes)
    ensures r + a + b + c + d + e + (f + g) + h == r + (a + b + (c + d + e) + f + g + h)
  {
  }

  lemma JoinSix(r: Bytes, a: Bytes, b: Bytes, c: Bytes, d: Bytes, e: Bytes, f: Bytes)
    ensures r + a + b + c + d + e + f == r + (a + b + c + d + e + f)
  {
  }

  lemma FromNothing(a: Bytes, b: Bytes, c: Bytes)
    ensures [] + a + b + c == a + b + c
  {
  }

  /** `luaU_dump`: a zero status means the whole chunk was written; in any case the writer received a prefix of it, and
      another status is the writer's own answer to the last block. */
  method Dump(f: Proto<TString>, writer: (Bytes, Bytes) -> int, strip: bool) returns (status: int, output: Bytes)
    requires WellFormed(f, None)
    ensures output <= EncChunk(f, strip)
    ensures status == 0 ==> output == EncChunk(f, strip) && LuaFormat.IsChunk(output, f, strip)
    ensures status != 0 ==> Refused(writer, output, status)
    ensures Accepts(writer) ==> status == 0
  {
    hide EncFunction, WellFormed, LuaFormat.IsChunk, Refused, Accepts;
    var d := new DumpState(strip, writer);
    d.DumpHeader();
    d.DumpByte(|f.upvalues|);
    d.DumpFunction(f, None);
    LuaFormat.EncodedChunk(f, strip);
    FromNothing(HEADER, [|f.upvalues| % 256], EncFunction(f, None, strip));
    status, output := d.status, d.output;
  }
}
