/** Loading what was dumped. */
module LuaRoundTrip {
  import opened Wrappers
  import opened LuaChunk

  lemma IntRoundTrip(x: Int32, rest: Bytes)
    ensures LoadInt(EncInt(x) + rest) == Some((x, rest))
  {
    Powers();
    SignedRoundTrip(x, 4);
    var s := EncInt(x) + rest;
    assert s[..4] == EncInt(x) && s[4..] == rest;
  }

  lemma InstructionRoundTrip(x: UInt32, rest: Bytes)
    ensures LoadInstruction(EncInstruction(x) + rest) == Some((x, rest))
  {
    Powers();
    LittleEndianRoundTrip(x, 4);
    var s := EncInstruction(x) + rest;
    assert s[..4] == EncInstruction(x) && s[4..] == rest;
  }

  lemma StringRoundTrip(x: Option<Bytes>, rest: Bytes)
    requires FitsString(x)
    ensures LoadString(EncString(x) + rest) == Some((x, rest))
  {
    var s := EncString(x) + rest;
    if x.None? {
      assert s[1..] == rest;
    } else {
      var size := |x.value| + 1;
      CharsRoundTrip(x.value, rest);
      if size < 0xFF {
        assert s[1..] == x.value + rest;
      } else {
        Powers();
        LittleEndianRoundTrip(size, 8);
        assert s[1..] == ToLittleEndian(size, 8) + (x.value + rest);
        assert s[1..][..8] == ToLittleEndian(size, 8) && s[1..][8..] == x.value + rest;
      }
    }
  }

  lemma CharsRoundTrip(c: Bytes, rest: Bytes)
    ensures LoadChars(|c| + 1, c + rest) == Some((Some(c), rest))
  {
    assert (c + rest)[..|c|] == c && (c + rest)[|c|..] == rest;
  }

  lemma ConstantRoundTrip(c: Constant, rest: Bytes)
    requires c.KStr? ==> FitsString(Some(c.s))
    ensures LoadConstant(EncConstant(c) + rest) == Some((c, rest))
  {
    var s := EncConstant(c) + rest;
    match c {
      case KNil => assert s[1..] == rest;
      case KBool(b) => assert s[1..][1..] == rest;
      case KFloat(x) => assert s[1..][..8] == x && s[1..][8..] == rest;
      case KInt(i) =>
        Powers();
        SignedRoundTrip(i, 8);
        assert s[1..][..8] == EncSigned(i, 8) && s[1..][8..] == rest;
      case KStr(x) =>
        assert s[1..] == EncString(Some(x)) + rest;
        StringRoundTrip(Some(x), rest);
    }
  }

  lemma LocVarRoundTrip(v: LocVar, rest: Bytes)
    requires FitsString(v.name)
    ensures LoadLocVar(EncLocVar(v) + rest) == Some((v, rest))
  {
    hide EncInt, EncString, LoadInt, LoadString;
    var b := EncInt(v.endpc) + rest;
    var a := EncInt(v.startpc) + b;
    assert EncLocVar(v) + rest == EncString(v.name) + a;
    StringRoundTrip(v.name, a);
    IntRoundTrip(v.startpc, b);
    IntRoundTrip(v.endpc, rest);
  }

  lemma PrologueRoundTrip(h: Prologue, rest: Bytes)
    ensures LoadPrologue(EncPrologue(h) + rest) == Some((h, rest))
  {
    hide EncInt, LoadInt;
    var three := [h.numparams, h.isVararg, h.maxstacksize];
    var c := three + rest;
    var b := EncInt(h.lastlinedefined) + c;
    assert EncPrologue(h) + rest == EncInt(h.linedefined) + b;
    IntRoundTrip(h.linedefined, b);
    IntRoundTrip(h.lastlinedefined, c);
    assert c[..3] == three && c[3..] == rest;
  }

  // ----- Vectors -----

  /** The reader turns what was written for `x` into `y`, whatever follows. */
  ghost predicate Reads<T(!new), U(!new)>(enc: T -> Bytes, load: Bytes -> Read<U>, x: T, y: U) {
    forall rest :: load(enc(x) + rest) == Some((y, rest))
  }

  lemma {:induction false} ManyRoundTrip<T(!new), U(!new)>(
    xs: seq<T>, ys: seq<U>, enc: T -> Bytes, load: Bytes -> Read<U>, rest: Bytes)
    requires |xs| == |ys| && NeverGrows(load) && forall i :: 0 <= i < |xs| ==> Reads(enc, load, xs[i], ys[i])
    ensures LoadMany(|xs|, load, EncMany(xs, enc) + rest) == Some((ys, rest))
    decreases |xs|
  {
    if xs == [] {
      assert EncMany(xs, enc) + rest == rest;
    } else {
      var k := |xs| - 1;
      ManyRoundTrip(xs[..k], ys[..k], enc, load, enc(xs[k]) + rest);
      assert EncMany(xs, enc) + rest == EncMany(xs[..k], enc) + (enc(xs[k]) + rest);
      assert Reads(enc, load, xs[k], ys[k]);
      assert ys == ys[..k] + [ys[k]];
    }
  }

  lemma VectorRoundTrip<T(!new), U(!new)>(
    xs: seq<T>, ys: seq<U>, enc: T -> Bytes, load: Bytes -> Read<U>, rest: Bytes)
    requires FitsInt(xs) && |xs| == |ys| && NeverGrows(load)
    requires forall i :: 0 <= i < |xs| ==> Reads(enc, load, xs[i], ys[i])
    ensures LoadVector(load, EncVector(xs, enc) + rest) == Some((ys, rest))
  {
    hide EncInt, LoadInt, EncMany, LoadMany, Reads;
    var m := EncMany(xs, enc) + rest;
    assert EncVector(xs, enc) + rest == EncInt(|xs|) + m;
    IntRoundTrip(|xs|, m);
    ManyRoundTrip(xs, ys, enc, load, rest);
  }

  function Unnamed(ups: seq<Upvalue>): (r: seq<Upvalue>)
    ensures |r| == |ups|
  {
    seq(|ups|, i requires 0 <= i < |ups| => ups[i].(name := None))
  }

  lemma BodyRoundTrip(f: Proto<TString>, rest: Bytes)
    requires FitsInt(f.code) && FitsInt(f.k) && FitsInt(f.upvalues)
    requires forall i :: 0 <= i < |f.k| && f.k[i].KStr? ==> FitsString(Some(f.k[i].s))
    ensures LoadBody(EncBody(f) + rest) == Some((Body(f.code, f.k, Unnamed(f.upvalues)), rest))
  {
    hide LoadVector, EncVector;
    var u := EncVector(f.upvalues, EncUpvalue) + rest;
    var k := EncVector(f.k, EncConstant) + u;
    assert EncBody(f) + rest == EncVector(f.code, EncInstruction) + k;
    CodeRoundTrip(f.code, k);
    ConstantsRoundTrip(f.k, u);
    UpvaluesRoundTrip(f.upvalues, rest);
  }

  lemma CodeRoundTrip(code: seq<UInt32>, rest: Bytes)
    requires FitsInt(code)
    ensures LoadVector(LoadInstruction, EncVector(code, EncInstruction) + rest) == Some((code, rest))
  {
    forall i | 0 <= i < |code| ensures Reads(EncInstruction, LoadInstruction, code[i], code[i]) {
      forall r ensures LoadInstruction(EncInstruction(code[i]) + r) == Some((code[i], r)) {
        InstructionRoundTrip(code[i], r);
      }
    }
    VectorRoundTrip(code, code, EncInstruction, LoadInstruction, rest);
  }

  lemma ConstantsRoundTrip(k: seq<Constant>, rest: Bytes)
    requires FitsInt(k) && forall i :: 0 <= i < |k| && k[i].KStr? ==> FitsString(Some(k[i].s))
    ensures LoadVector(LoadConstant, EncVector(k, EncConstant) + rest) == Some((k, rest))
  {
    forall i | 0 <= i < |k| ensures Reads(EncConstant, LoadConstant, k[i], k[i]) {
      forall r ensures LoadConstant(EncConstant(k[i]) + r) == Some((k[i], r)) {
        ConstantRoundTrip(k[i], r);
      }
    }
    VectorRoundTrip(k, k, EncConstant, LoadConstant, rest);
  }

  lemma UpvaluesRoundTrip(ups: seq<Upvalue>, rest: Bytes)
    requires FitsInt(ups)
    ensures LoadVector(LoadUpvalue, EncVector(ups, EncUpvalue) + rest) == Some((Unnamed(ups), rest))
  {
    forall i | 0 <= i < |ups| ensures Reads(EncUpvalue, LoadUpvalue, ups[i], Unnamed(ups)[i]) {
      forall r ensures LoadUpvalue(EncUpvalue(ups[i]) + r) == Some((Unnamed(ups)[i], r)) {
        assert (EncUpvalue(ups[i]) + r)[2..] == r;
      }
    }
    VectorRoundTrip(ups, Unnamed(ups), EncUpvalue, LoadUpvalue, rest);
  }

  lemma LinesRoundTrip(lines: seq<Int32>, rest: Bytes)
    requires FitsInt(lines)
    ensures LoadVector(LoadInt, EncVector(lines, EncInt) + rest) == Some((lines, rest))
  {
    forall i | 0 <= i < |lines| ensures Reads(EncInt, LoadInt, lines[i], lines[i]) {
      forall r ensures LoadInt(EncInt(lines[i]) + r) == Some((lines[i], r)) {
        IntRoundTrip(lines[i], r);
      }
    }
    VectorRoundTrip(lines, lines, EncInt, LoadInt, rest);
  }

  lemma LocVarsRoundTrip(vars: seq<LocVar>, rest: Bytes)
    requires FitsInt(vars) && forall i :: 0 <= i < |vars| ==> FitsString(vars[i].name)
    ensures LoadVector(LoadLocVar, EncVector(vars, EncLocVar) + rest) == Some((vars, rest))
  {
    forall i | 0 <= i < |vars| ensures Reads(EncLocVar, LoadLocVar, vars[i], vars[i]) {
      forall r ensures LoadLocVar(EncLocVar(vars[i]) + r) == Some((vars[i], r)) {
        LocVarRoundTrip(vars[i], r);
      }
    }
    VectorRoundTrip(vars, vars, EncLocVar, LoadLocVar, rest);
  }

  lemma NamesRoundTrip(names: seq<Option<Bytes>>, rest: Bytes)
    requires FitsInt(names) && forall i :: 0 <= i < |names| ==> FitsString(names[i])
    ensures LoadNames(EncVector(names, EncString) + rest) == Some((names, rest))
  {
    forall i | 0 <= i < |names| ensures Reads(EncString, LoadString, names[i], names[i]) {
      forall r ensures LoadString(EncString(names[i]) + r) == Some((names[i], r)) {
        StringRoundTrip(names[i], r);
      }
    }
    VectorRoundTrip(names, names, EncString, LoadString, rest);
  }

  lemma DebugRoundTrip(f: Proto<TString>, strip: bool, rest: Bytes)
    requires FitsInt(f.upvalues) && FitsInt(f.lineinfo) && FitsInt(f.locvars)
    requires forall i :: 0 <= i < |f.upvalues| ==> FitsString(f.upvalues[i].name)
    requires forall i :: 0 <= i < |f.locvars| ==> FitsString(f.locvars[i].name)
    ensures LoadDebug(EncDebug(f, strip) + rest)
         == Some((if strip then Debug([], [], []) else Debug(f.lineinfo, f.locvars, Names(f.upvalues)), rest))
  {
    hide LoadVector, EncVector;
    var lines, locs := if strip then [] else f.lineinfo, if strip then [] else f.locvars;
    var names := if strip then [] else Names(f.upvalues);
    var c := EncVector(names, EncString) + rest;
    var b := EncVector(locs, EncLocVar) + c;
    assert EncDebug(f, strip) + rest == EncVector(lines, EncInt) + b;
    LinesRoundTrip(lines, b);
    LocVarsRoundTrip(locs, c);
    NamesRoundTrip(names, rest);
  }

  // ----- Functions -----

  /** What loading a dump of `f` yields inside a function whose loaded source is `inherited`. */
  ghost function Loaded(f: Proto<TString>, inherited: Option<Bytes>, strip: bool): Proto<Bytes>
    decreases f, 0
  {
    var source := LoadedSource(f, inherited, strip);
    Proto(source, f.prologue, f.code, f.k,
          if strip then Unnamed(f.upvalues) else f.upvalues,
          LoadedProtos(f, |f.p|, source, strip),
          if strip then [] else f.lineinfo,
          if strip then [] else f.locvars)
  }

  ghost function LoadedSource(f: Proto<TString>, inherited: Option<Bytes>, strip: bool): Option<Bytes> {
    if strip || f.source.None? then inherited else Chars(f.source)
  }

  ghost function LoadedProtos(f: Proto<TString>, n: nat, source: Option<Bytes>, strip: bool): (r: seq<Proto<Bytes>>)
    requires n <= |f.p|
    ensures |r| == n
    decreases f.p, n
  {
    if n == 0 then [] else LoadedProtos(f, n - 1, source, strip) + [Loaded(f.p[n - 1], source, strip)]
  }

  ghost predicate Inherits(psource: Option<TString>, inherited: Option<Bytes>, strip: bool) {
    !strip && psource.Some? ==> inherited == Chars(psource)
  }

  lemma {:induction false} FunctionRoundTrip(
    f: Proto<TString>, psource: Option<TString>, inherited: Option<Bytes>, strip: bool, rest: Bytes)
    requires WellFormed(f, psource) && Inherits(psource, inherited, strip)
    ensures LoadFunction(EncFunction(f, psource, strip) + rest, inherited) == Some((Loaded(f, inherited, strip), rest))
    decreases f, 0
  {
    var source := LoadedSource(f, inherited, strip);
    var a := EncAfterSource(f, strip) + rest;
    assert LoadString(EncSource(f, psource, strip) + a) == Some((if strip || SamePointer(f.source, psource) then None else Chars(f.source), a)) by {
      StringRoundTrip(None, a);
      StringRoundTrip(Chars(f.source), a);
    }
    AfterSourceRoundTrip(f, source, strip, rest);
    hide LoadString, LoadAfterSource, EncPrologue, EncBody, EncDebug, EncString, EncProtos, EncInt;
    SplitFunction(EncSource(f, psource, strip), EncPrologue(f.prologue), EncBody(f), EncInt(|f.p|),
                  EncProtos(f, |f.p|, strip), EncDebug(f, strip), rest);
  }

  ghost function EncAfterSource(f: Proto<TString>, strip: bool): Bytes
    requires exists psource :: WellFormed(f, psource)
  {
    EncPrologue(f.prologue) + (EncBody(f) + (EncInt(|f.p|) + (EncProtos(f, |f.p|, strip) + EncDebug(f, strip))))
  }

  lemma SplitFunction(a: Bytes, b: Bytes, c: Bytes, d: Bytes, e: Bytes, f: Bytes, rest: Bytes)
    ensures a + b + c + d + e + f + rest == a + (b + (c + (d + (e + f))) + rest)
  {
  }

  lemma {:induction false} AfterSourceRoundTrip(f: Proto<TString>, source: Option<Bytes>, strip: bool, rest: Bytes)
    requires exists psource :: WellFormed(f, psource)
    requires Inherits(f.source, source, strip)
    ensures var r := LoadAfterSource(EncAfterSource(f, strip) + rest, source);
            r.Some? && r.value.1 == rest && r.value.0 == Proto(
              source, f.prologue, f.code, f.k, if strip then Unnamed(f.upvalues) else f.upvalues,
              LoadedProtos(f, |f.p|, source, strip), if strip then [] else f.lineinfo, if strip then [] else f.locvars)
    decreases f.p, |f.p| + 1
  {
    hide LoadPrologue, EncPrologue, LoadBody, EncBody, LoadInt, EncInt, LoadDebug, EncDebug, LoadProtos, EncProtos, LoadedProtos;
    var e := EncDebug(f, strip) + rest;
    var d := EncProtos(f, |f.p|, strip) + e;
    var c := EncInt(|f.p|) + d;
    var b := EncBody(f) + c;
    assert EncAfterSource(f, strip) + rest == EncPrologue(f.prologue) + b;
    PrologueRoundTrip(f.prologue, b);
    BodyRoundTrip(f, c);
    IntRoundTrip(|f.p|, d);
    ProtosRoundTrip(f, |f.p|, source, strip, e);
    DebugRoundTrip(f, strip, rest);
    RenamedUpvalues(f.upvalues);
  }

  lemma RenamedUpvalues(ups: seq<Upvalue>)
    ensures Named(Unnamed(ups), Names(ups)) == ups && Named(Unnamed(ups), []) == Unnamed(ups)
  {
  }

  lemma {:induction false} ProtosRoundTrip(
    f: Proto<TString>, n: nat, source: Option<Bytes>, strip: bool, rest: Bytes)
    requires n <= |f.p| && forall i :: 0 <= i < |f.p| ==> WellFormed(f.p[i], f.source)
    requires Inherits(f.source, source, strip)
    ensures LoadProtos(n, EncProtos(f, n, strip) + rest, source)
         == Some((LoadedProtos(f, n, source, strip), rest))
    decreases f.p, n
  {
    hide LoadFunction, EncFunction, WellFormed, Loaded;
    if n == 0 {
      assert EncProtos(f, n, strip) + rest == rest;
    } else {
      var tail := EncFunction(f.p[n - 1], f.source, strip) + rest;
      assert EncProtos(f, n, strip) + rest == EncProtos(f, n - 1, strip) + tail;
      ProtosRoundTrip(f, n - 1, source, strip, tail);
      FunctionRoundTrip(f.p[n - 1], f.source, source, strip, rest);
    }
  }

  // ----- Whole chunks -----

  /** The tree as values: strings without their addresses. */
  ghost function Contents(f: Proto<TString>): Proto<Bytes>
    decreases f, 0
  {
    Proto(Chars(f.source), f.prologue, f.code, f.k, f.upvalues, ContentsOf(f, |f.p|), f.lineinfo, f.locvars)
  }

  ghost function ContentsOf(f: Proto<TString>, n: nat): (r: seq<Proto<Bytes>>)
    requires n <= |f.p|
    ensures |r| == n
    decreases f.p, n
  {
    if n == 0 then [] else ContentsOf(f, n - 1) + [Contents(f.p[n - 1])]
  }

  /** The tree without its debug information: sources, line numbers, local variables and upvalue names. */
  ghost function Stripped(f: Proto<Bytes>): Proto<Bytes>
    decreases f, 0
  {
    f.(source := None, upvalues := Unnamed(f.upvalues), p := StrippedOf(f, |f.p|), lineinfo := [], locvars := [])
  }

  ghost function StrippedOf(f: Proto<Bytes>, n: nat): (r: seq<Proto<Bytes>>)
    requires n <= |f.p|
    ensures |r| == n
    decreases f.p, n
  {
    if n == 0 then [] else StrippedOf(f, n - 1) + [Stripped(f.p[n - 1])]
  }

  /** No function without a source lies inside one that has a source. */
  ghost predicate KeepsSources(f: Proto<TString>, outer: bool) {
    && (outer ==> f.source.Some?)
    && forall i :: 0 <= i < |f.p| ==> KeepsSources(f.p[i], f.source.Some?)
  }

  lemma {:induction false} LoadedIsContents(f: Proto<TString>, inherited: Option<Bytes>)
    ensures Loaded(f, inherited, false) == Contents(f) <==> KeepsSources(f, inherited.Some?)
    decreases f, 0
  {
    var source := LoadedSource(f, inherited, false);
    if inherited.Some? && f.source.None? {
      assert Loaded(f, inherited, false).source != Contents(f).source;
    } else {
      assert source == Chars(f.source);
      LoadedAreContents(f, |f.p|, source);
    }
  }

  lemma {:induction false} LoadedAreContents(f: Proto<TString>, n: nat, source: Option<Bytes>)
    requires n <= |f.p|
    ensures LoadedProtos(f, n, source, false) == ContentsOf(f, n)
       <==> forall i :: 0 <= i < n ==> KeepsSources(f.p[i], source.Some?)
    decreases f.p, n
  {
    hide Loaded, Contents, KeepsSources;
    if n > 0 {
      LoadedAreContents(f, n - 1, source);
      LoadedIsContents(f.p[n - 1], source);
      var a, b := LoadedProtos(f, n, source, false), ContentsOf(f, n);
      assert a[..n - 1] == LoadedProtos(f, n - 1, source, false) && b[..n - 1] == ContentsOf(f, n - 1);
      assert a[n - 1] == Loaded(f.p[n - 1], source, false) && b[n - 1] == Contents(f.p[n - 1]);
      assert a == a[..n - 1] + [a[n - 1]] && b == b[..n - 1] + [b[n - 1]];
    }
  }

  lemma {:induction false} LoadedIsStripped(f: Proto<TString>)
    ensures Loaded(f, None, true) == Stripped(Contents(f))
    decreases f, 0
  {
    LoadedAreStripped(f, |f.p|);
  }

  lemma {:induction false} LoadedAreStripped(f: Proto<TString>, n: nat)
    requires n <= |f.p|
    ensures LoadedProtos(f, n, None, true) == StrippedOf(Contents(f), n)
    decreases f.p, n
  {
    if n > 0 {
      LoadedAreStripped(f, n - 1);
      LoadedIsStripped(f.p[n - 1]);
      NthContents(f, |f.p|, n - 1);
    }
  }

  lemma {:induction false} NthContents(f: Proto<TString>, n: nat, i: nat)
    requires i < n <= |f.p|
    ensures ContentsOf(f, n)[i] == Contents(f.p[i])
    decreases n
  {
    if i < n - 1 {
      NthContents(f, n - 1, i);
    }
  }

  lemma UndumpOfDump(f: Proto<TString>, strip: bool, rest: Bytes)
    requires WellFormed(f, None)
    ensures Undump(EncChunk(f, strip) + rest) == Some(((|f.upvalues| % 256, Loaded(f, None, strip)), rest))
  {
    hide WellFormed, LoadFunction, EncFunction, Loaded;
    var s, e := EncChunk(f, strip) + rest, EncFunction(f, None, strip);
    assert s[..|HEADER|] == HEADER;
    assert s[|HEADER| + 1..] == e + rest;
    FunctionRoundTrip(f, None, None, strip, rest);
  }

  /** An unstripped dump loads back as the same tree, whatever follows it, exactly when no nested function
      lacks a source that the function around it has. */
  lemma ChunkRoundTrip(f: Proto<TString>, rest: Bytes)
    requires WellFormed(f, None)
    ensures Undump(EncChunk(f, false) + rest) == Some(((|f.upvalues| % 256, Contents(f)), rest)) <==> KeepsSources(f, false)
  {
    hide WellFormed, Undump, EncChunk, Loaded, Contents, KeepsSources;
    UndumpOfDump(f, false, rest);
    LoadedIsContents(f, None);
  }

  /** A stripped dump always loads back as the same tree with only its debug information erased. */
  lemma StrippedChunkRoundTrip(f: Proto<TString>, rest: Bytes)
    requires WellFormed(f, None)
    ensures Undump(EncChunk(f, true) + rest) == Some(((|f.upvalues| % 256, Stripped(Contents(f))), rest))
  {
    hide WellFormed, Undump, EncChunk, Loaded, Contents, Stripped;
    UndumpOfDump(f, true, rest);
    LoadedIsStripped(f);
  }

  /** Different trees have different dumps, and no dump is a proper prefix of another. */
  lemma DumpsAreDistinct(f: Proto<TString>, g: Proto<TString>, rest: Bytes)
    requires WellFormed(f, None) && WellFormed(g, None) && KeepsSources(f, false) && KeepsSources(g, false)
    requires EncChunk(f, false) + rest == EncChunk(g, false)
    ensures Contents(f) == Contents(g) && rest == []
  {
    hide WellFormed, Undump, EncChunk, Contents, KeepsSources;
    ChunkRoundTrip(f, rest);
    ChunkRoundTrip(g, []);
    assert EncChunk(g, false) + [] == EncChunk(g, false);
  }

  /** A function without a source inside one named "a" comes back named "a". */
  lemma LostSource()
    ensures var h := Prologue(0, 0, 0, 0, 2);
            var inner := Proto(None, h, [], [], [], [], [], []);
            var outer := Proto(Some(TString(1, [97])), h, [], [], [], [inner], [], []);
            && WellFormed(outer, None)
            && Undump(EncChunk(outer, false)) != Some(((0, Contents(outer)), []))
  {
    var h := Prologue(0, 0, 0, 0, 2);
    var inner: Proto<TString> := Proto(None, h, [], [], [], [], [], []);
    var outer := Proto(Some(TString(1, [97])), h, [], [], [], [inner], [], []);
    assert WellFormed(inner, outer.source);
    assert WellFormed(outer, None);
    assert !KeepsSources(outer.p[0], true);
    assert EncChunk(outer, false) + [] == EncChunk(outer, false) by {
      hide EncChunk;
    }
    hide Undump, EncChunk, Contents, WellFormed;
    ChunkRoundTrip(outer, []);
  }
}
