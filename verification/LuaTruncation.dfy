/** The reader looks at no more bytes than it uses, and refuses a chunk that has been cut short. */
module LuaTruncation {
  import opened Wrappers
  import opened LuaChunk
  import opened LuaRoundTrip
  import LuaFormat

  /** With `t` behind the input, the same is read and `t` is left over as well. */
  ghost predicate Extends<T(!new)>(r: Read<T>, longer: Read<T>, t: Bytes) {
    r.Some? ==> longer == Some((r.value.0, r.value.1 + t))
  }

  lemma FrontOf(s: Bytes, t: Bytes, n: nat)
    requires n <= |s|
    ensures (s + t)[..n] == s[..n] && (s + t)[n..] == s[n..] + t
  {
  }

  lemma NumbersExtend(s: Bytes, t: Bytes)
    ensures Extends(LoadInt(s), LoadInt(s + t), t)
    ensures Extends(LoadInstruction(s), LoadInstruction(s + t), t)
    ensures Extends(LoadInteger(s), LoadInteger(s + t), t)
  {
    hide DecSigned, FromLittleEndian;
    if |s| >= 4 {
      FrontOf(s, t, 4);
    }
    if |s| >= 8 {
      FrontOf(s, t, 8);
    }
  }

  lemma BlockExtends(s: Bytes, n: nat, t: Bytes)
    ensures Extends(LoadBlock(s, n), LoadBlock(s + t, n), t)
    ensures Extends(LoadByte(s), LoadByte(s + t), t)
  {
    if n <= |s| {
      FrontOf(s, t, n);
    }
    if |s| >= 1 {
      FrontOf(s, t, 1);
    }
  }

  lemma StringExtends(s: Bytes, t: Bytes)
    ensures Extends(LoadString(s), LoadString(s + t), t)
  {
    hide LoadBlock, LoadByte, FromLittleEndian;
    var b := LoadByte(s);
    BlockExtends(s, 0, t);
    if b.Some? {
      if b.value.0 == 0xFF {
        BlockExtends(b.value.1, 8, t);
        var w := LoadBlock(b.value.1, 8);
        if w.Some? {
          CharsExtend(FromLittleEndian(w.value.0), w.value.1, t);
        }
      } else {
        CharsExtend(b.value.0, b.value.1, t);
      }
    }
  }

  lemma CharsExtend(size: nat, s: Bytes, t: Bytes)
    ensures Extends(LoadChars(size, s), LoadChars(size, s + t), t)
  {
    if size > 0 {
      BlockExtends(s, size - 1, t);
    }
  }

  lemma ConstantExtends(s: Bytes, t: Bytes)
    ensures Extends(LoadConstant(s), LoadConstant(s + t), t)
  {
    hide LoadBlock, LoadByte, LoadInteger, LoadString;
    BlockExtends(s, 0, t);
    var b := LoadByte(s);
    if b.Some? {
      BlockExtends(b.value.1, 8, t);
      NumbersExtend(b.value.1, t);
      StringExtends(b.value.1, t);
    }
  }

  lemma UpvalueExtends(s: Bytes, t: Bytes)
    ensures Extends(LoadUpvalue(s), LoadUpvalue(s + t), t)
  {
    if |s| >= 2 {
      FrontOf(s, t, 2);
    }
  }

  lemma LocVarExtends(s: Bytes, t: Bytes)
    ensures Extends(LoadLocVar(s), LoadLocVar(s + t), t)
  {
    hide LoadInt, LoadString;
    StringExtends(s, t);
    var n := LoadString(s);
    if n.Some? {
      NumbersExtend(n.value.1, t);
      var a := LoadInt(n.value.1);
      if a.Some? {
        NumbersExtend(a.value.1, t);
      }
    }
  }

  /** A reader of items, all of whose results extend. */
  ghost predicate Local<T(!new)>(load: Bytes -> Read<T>) {
    forall s, t :: Extends(load(s), load(s + t), t)
  }

  lemma {:induction false} ManyExtend<T(!new)>(n: nat, load: Bytes -> Read<T>, s: Bytes, t: Bytes)
    requires NeverGrows(load) && Local(load)
    ensures Extends(LoadMany(n, load, s), LoadMany(n, load, s + t), t)
  {
    if n > 0 {
      ManyExtend(n - 1, load, s, t);
      var xs := LoadMany(n - 1, load, s);
      if xs.Some? {
        assert Extends(load(xs.value.1), load(xs.value.1 + t), t);
      }
    }
  }

  lemma VectorExtends<T(!new)>(load: Bytes -> Read<T>, s: Bytes, t: Bytes)
    requires NeverGrows(load) && Local(load)
    ensures Extends(LoadVector(load, s), LoadVector(load, s + t), t)
  {
    hide LoadInt, LoadMany, NeverGrows, Local;
    NumbersExtend(s, t);
    var n := LoadInt(s);
    if n.Some? && n.value.0 >= 0 {
      ManyExtend(n.value.0, load, n.value.1, t);
    }
  }

  lemma ItemsAreLocal()
    ensures Local(LoadInt) && Local(LoadInstruction) && Local(LoadString)
    ensures Local(LoadConstant) && Local(LoadUpvalue) && Local(LoadLocVar)
  {
    hide Extends, LoadInt, LoadInstruction, LoadString, LoadConstant, LoadUpvalue, LoadLocVar;
    forall s, t
      ensures Extends(LoadInt(s), LoadInt(s + t), t) && Extends(LoadInstruction(s), LoadInstruction(s + t), t)
      ensures Extends(LoadString(s), LoadString(s + t), t) && Extends(LoadConstant(s), LoadConstant(s + t), t)
      ensures Extends(LoadUpvalue(s), LoadUpvalue(s + t), t) && Extends(LoadLocVar(s), LoadLocVar(s + t), t)
    {
      NumbersExtend(s, t);
      StringExtends(s, t);
      ConstantExtends(s, t);
      UpvalueExtends(s, t);
      LocVarExtends(s, t);
    }
  }

  lemma PrologueExtends(s: Bytes, t: Bytes)
    ensures Extends(LoadPrologue(s), LoadPrologue(s + t), t)
  {
    hide LoadInt, LoadBlock;
    NumbersExtend(s, t);
    var a := LoadInt(s);
    if a.Some? {
      NumbersExtend(a.value.1, t);
      var b := LoadInt(a.value.1);
      if b.Some? {
        BlockExtends(b.value.1, 3, t);
      }
    }
  }

  lemma BodyExtends(s: Bytes, t: Bytes)
    ensures Extends(LoadBody(s), LoadBody(s + t), t)
  {
    hide LoadVector, Local;
    ItemsAreLocal();
    VectorExtends(LoadInstruction, s, t);
    var code := LoadVector(LoadInstruction, s);
    if code.Some? {
      VectorExtends(LoadConstant, code.value.1, t);
      var k := LoadVector(LoadConstant, code.value.1);
      if k.Some? {
        VectorExtends(LoadUpvalue, k.value.1, t);
      }
    }
  }

  lemma NamesExtend(s: Bytes, t: Bytes)
    ensures Extends(LoadNames(s), LoadNames(s + t), t)
  {
    hide LoadInt, LoadMany, Local;
    ItemsAreLocal();
    NumbersExtend(s, t);
    var n := LoadInt(s);
    if n.Some? {
      ManyExtend(if n.value.0 < 0 then 0 else n.value.0, LoadString, n.value.1, t);
    }
  }

  lemma DebugExtends(s: Bytes, t: Bytes)
    ensures Extends(LoadDebug(s), LoadDebug(s + t), t)
  {
    hide LoadVector, LoadNames, Local;
    ItemsAreLocal();
    VectorExtends(LoadInt, s, t);
    var lines := LoadVector(LoadInt, s);
    if lines.Some? {
      VectorExtends(LoadLocVar, lines.value.1, t);
      var locs := LoadVector(LoadLocVar, lines.value.1);
      if locs.Some? {
        NamesExtend(locs.value.1, t);
      }
    }
  }

  lemma {:induction false} FunctionExtends(s: Bytes, psource: Option<Bytes>, t: Bytes)
    ensures Extends(LoadFunction(s, psource), LoadFunction(s + t, psource), t)
    decreases |s|, 0
  {
    hide LoadString, LoadAfterSource;
    StringExtends(s, t);
    var src := LoadString(s);
    if src.Some? {
      AfterSourceExtends(src.value.1, if src.value.0.None? then psource else src.value.0, t);
    }
  }

  lemma {:induction false} AfterSourceExtends(s: Bytes, source: Option<Bytes>, t: Bytes)
    ensures Extends(LoadAfterSource(s, source), LoadAfterSource(s + t, source), t)
    decreases |s|, 0
  {
    hide LoadPrologue, LoadBody, LoadInt, LoadProtos, LoadDebug;
    PrologueExtends(s, t);
    var h := LoadPrologue(s);
    if h.Some? {
      BodyExtends(h.value.1, t);
      var body := LoadBody(h.value.1);
      if body.Some? {
        NumbersExtend(body.value.1, t);
        var n := LoadInt(body.value.1);
        if n.Some? && n.value.0 >= 0 {
          ProtosExtend(n.value.0, n.value.1, source, t);
          var ps := LoadProtos(n.value.0, n.value.1, source);
          if ps.Some? {
            DebugExtends(ps.value.1, t);
          }
        }
      }
    }
  }

  lemma {:induction false} ProtosExtend(n: nat, s: Bytes, psource: Option<Bytes>, t: Bytes)
    ensures Extends(LoadProtos(n, s, psource), LoadProtos(n, s + t, psource), t)
    decreases |s|, n + 1
  {
    hide LoadFunction;
    if n > 0 {
      ProtosExtend(n - 1, s, psource, t);
      var fs := LoadProtos(n - 1, s, psource);
      if fs.Some? {
        FunctionExtends(fs.value.1, psource, t);
      }
    }
  }

  /** Whatever follows an accepted chunk, the same is loaded and the rest is left. */
  lemma ChunkExtends(s: Bytes, t: Bytes)
    ensures Extends(Undump(s), Undump(s + t), t)
  {
    hide LoadFunction;
    if |s| > |HEADER| {
      FrontOf(s, t, |HEADER|);
      FrontOf(s, t, |HEADER| + 1);
      FunctionExtends(s[|HEADER| + 1..], None, t);
    }
  }

  /** A dump that has been cut short is refused, wherever it was cut. */
  lemma TruncatedIsRefused(f: Proto<TString>, strip: bool, k: nat)
    requires WellFormed(f, None) && k < |EncChunk(f, strip)|
    ensures Undump(EncChunk(f, strip)[..k]) == None
  {
    hide Undump, EncChunk, WellFormed, Loaded;
    var all := EncChunk(f, strip);
    assert all == all[..k] + all[k..];
    ChunkExtends(all[..k], all[k..]);
    UndumpOfDump(f, strip, []);
    assert all + [] == all;
  }

  /** Nothing but this header is accepted. */
  lemma HeaderIsChecked(s: Bytes)
    requires Undump(s).Some?
    ensures |s| > 33
    ensures s[..17] == [0x1B, 0x4C, 0x75, 0x61, 0x53, 0x00, 0x19, 0x93, 0x0D, 0x0A, 0x1A, 0x0A, 4, 8, 4, 8, 8]
    ensures s[17..25] == [0x78, 0x56, 0, 0, 0, 0, 0, 0]
    ensures s[25..33] == [0, 0, 0, 0, 0, 0x28, 0x77, 0x40]
    ensures Undump(s).value.0.0 == s[33]
  {
    hide LoadFunction, EncSigned;
    LuaFormat.TestInteger();
    assert |HEADER| == 33;
    var h := s[..33];
    assert s[..17] == h[..17] && s[17..25] == h[17..25] && s[25..33] == h[25..33];
  }
}
