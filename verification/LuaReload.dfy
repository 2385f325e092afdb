/** Dumping what was loaded, combining loaded chunks, and the writer and the reader run one after the other. */
module LuaReload {
  import opened Wrappers
  import opened LuaChunk
  import opened LuaRoundTrip
  import LuaDump

  // ----- Which trees the reader can produce -----

  /** Within the limits of C types, and no function without a source inside one that has a source. */
  ghost predicate Loadable(g: Proto<Bytes>, psource: Option<Bytes>) {
    && FitsString(g.source) && (psource.Some? ==> g.source.Some?) && InRange(g)
    && forall i :: 0 <= i < |g.p| ==> Loadable(g.p[i], g.source)
  }

  lemma LoadedString(s: Bytes)
    ensures LoadString(s).Some? ==> FitsString(LoadString(s).value.0)
  {
    if |s| >= 9 {
      Powers();
      LittleEndianRange(s[1..][..8]);
    }
  }

  lemma {:induction false} LoadedMany<T(!new)>(n: nat, load: Bytes -> Read<T>, s: Bytes, good: T -> bool)
    requires NeverGrows(load) && forall t :: load(t).Some? ==> good(load(t).value.0)
    ensures var r := LoadMany(n, load, s); r.Some? ==> forall i :: 0 <= i < n ==> good(r.value.0[i])
  {
    if n > 0 {
      LoadedMany(n - 1, load, s, good);
    }
  }

  lemma LoadedVector<T(!new)>(load: Bytes -> Read<T>, s: Bytes, good: T -> bool)
    requires NeverGrows(load) && forall t :: load(t).Some? ==> good(load(t).value.0)
    ensures var r := LoadVector(load, s); r.Some? ==> forall i :: 0 <= i < |r.value.0| ==> good(r.value.0[i])
  {
    var n := LoadInt(s);
    if n.Some? && n.value.0 >= 0 {
      LoadedMany(n.value.0, load, n.value.1, good);
    }
  }

  lemma LoadedConstants(s: Bytes)
    ensures var r := LoadVector(LoadConstant, s);
            r.Some? ==> forall i :: 0 <= i < |r.value.0| && r.value.0[i].KStr? ==> FitsString(Some(r.value.0[i].s))
  {
    var good := (c: Constant) => c.KStr? ==> FitsString(Some(c.s));
    forall t | LoadConstant(t).Some? ensures good(LoadConstant(t).value.0) {
      if t != [] {
        LoadedString(t[1..]);
      }
    }
    LoadedVector(LoadConstant, s, good);
  }

  lemma LoadedUpvalues(s: Bytes)
    ensures var r := LoadVector(LoadUpvalue, s);
            r.Some? ==> forall i :: 0 <= i < |r.value.0| ==> FitsString(r.value.0[i].name)
  {
    LoadedVector(LoadUpvalue, s, (u: Upvalue) => FitsString(u.name));
  }

  lemma LoadedLocVars(s: Bytes)
    ensures var r := LoadVector(LoadLocVar, s);
            r.Some? ==> forall i :: 0 <= i < |r.value.0| ==> FitsString(r.value.0[i].name)
  {
    var good := (v: LocVar) => FitsString(v.name);
    forall t | LoadLocVar(t).Some? ensures good(LoadLocVar(t).value.0) {
      LoadedString(t);
    }
    LoadedVector(LoadLocVar, s, good);
  }

  lemma LoadedNames(s: Bytes)
    ensures var r := LoadNames(s); r.Some? ==> forall i :: 0 <= i < |r.value.0| ==> FitsString(r.value.0[i])
  {
    var good := (n: Option<Bytes>) => FitsString(n);
    forall t | LoadString(t).Some? ensures good(LoadString(t).value.0) {
      LoadedString(t);
    }
    var n := LoadInt(s);
    if n.Some? {
      LoadedMany(if n.value.0 < 0 then 0 else n.value.0, LoadString, n.value.1, good);
    }
  }

  lemma LoadedBody(s: Bytes)
    requires LoadBody(s).Some?
    ensures var b := LoadBody(s).value.0;
            && FitsInt(b.code) && FitsInt(b.k) && FitsInt(b.upvalues)
            && (forall i :: 0 <= i < |b.k| && b.k[i].KStr? ==> FitsString(Some(b.k[i].s)))
            && (forall i :: 0 <= i < |b.upvalues| ==> FitsString(b.upvalues[i].name))
  {
    hide LoadVector;
    var code := LoadVector(LoadInstruction, s);
    var k := LoadVector(LoadConstant, code.value.1);
    LoadedConstants(code.value.1);
    LoadedUpvalues(k.value.1);
  }

  lemma LoadedDebug(s: Bytes)
    requires LoadDebug(s).Some?
    ensures var d := LoadDebug(s).value.0;
            && FitsInt(d.lineinfo) && FitsInt(d.locvars)
            && (forall i :: 0 <= i < |d.locvars| ==> FitsString(d.locvars[i].name))
            && (forall i :: 0 <= i < |d.names| ==> FitsString(d.names[i]))
  {
    hide LoadVector, LoadNames;
    var lines := LoadVector(LoadInt, s);
    var locs := LoadVector(LoadLocVar, lines.value.1);
    LoadedLocVars(lines.value.1);
    LoadedNames(locs.value.1);
  }

  /** Whatever bytes the reader accepts, it never leaves a function without a source inside one that has a source. */
  lemma {:induction false} LoadedFunction(s: Bytes, psource: Option<Bytes>)
    requires FitsString(psource) && LoadFunction(s, psource).Some?
    ensures Loadable(LoadFunction(s, psource).value.0, psource)
    decreases |s|, 0
  {
    LoadedString(s);
    var src := LoadString(s).value;
    var source := if src.0.None? then psource else src.0;
    LoadedAfterSource(src.1, source);
  }

  lemma {:induction false} LoadedAfterSource(s: Bytes, source: Option<Bytes>)
    requires FitsString(source) && LoadAfterSource(s, source).Some?
    ensures var g := LoadAfterSource(s, source).value.0; g.source == source && Loadable(g, source)
    decreases |s|, 0
  {
    hide LoadPrologue, LoadBody, LoadInt, LoadDebug, LoadProtos;
    var body := LoadBody(LoadPrologue(s).value.1).value;
    var n := LoadInt(body.1).value;
    var ps := LoadProtos(n.0, n.1, source).value;
    LoadedBody(LoadPrologue(s).value.1);
    LoadedProtosOf(n.0, n.1, source);
    LoadedDebug(ps.1);
  }

  lemma {:induction false} LoadedProtosOf(n: nat, s: Bytes, source: Option<Bytes>)
    requires FitsString(source) && LoadProtos(n, s, source).Some?
    ensures forall i :: 0 <= i < n ==> Loadable(LoadProtos(n, s, source).value.0[i], source)
    decreases |s|, n + 1
  {
    hide LoadFunction, Loadable;
    if n > 0 {
      LoadedProtosOf(n - 1, s, source);
      LoadedFunction(LoadProtos(n - 1, s, source).value.1, source);
    }
  }

  // ----- Loaded trees in memory -----

  /** Strings placed so that a function shares its parent's source string exactly when the characters agree. */
  ghost function Place(g: Proto<Bytes>, psource: Option<TString>): Proto<TString>
    decreases g, 0
  {
    var source := PlaceSource(g.source, psource);
    Proto(source, g.prologue, g.code, g.k, g.upvalues, PlaceAll(g, |g.p|, source), g.lineinfo, g.locvars)
  }

  ghost function PlaceSource(source: Option<Bytes>, psource: Option<TString>): Option<TString> {
    if source.None? then None
    else if psource.None? then Some(TString(0, source.value))
    else if psource.value.chars == source.value then psource
    else Some(TString(psource.value.addr + 1, source.value))
  }

  ghost function PlaceAll(g: Proto<Bytes>, n: nat, source: Option<TString>): (r: seq<Proto<TString>>)
    requires n <= |g.p|
    ensures |r| == n
    decreases g.p, n
  {
    if n == 0 then [] else PlaceAll(g, n - 1, source) + [Place(g.p[n - 1], source)]
  }

  lemma {:induction false} Placed(g: Proto<Bytes>, psource: Option<TString>)
    requires Loadable(g, Chars(psource))
    ensures WellFormed(Place(g, psource), psource) && Contents(Place(g, psource)) == g
    decreases g, 0
  {
    var source := PlaceSource(g.source, psource);
    var f := Place(g, psource);
    assert Chars(source) == g.source;
    PlacedAll(g, |g.p|, source);
    assert f.p == PlaceAll(g, |g.p|, source) && |f.p| == |g.p|;
    assert InRange(f);
    hide PlaceAll, Place, Loadable, InRange;
    assert Contents(f) == g by {
      SameContents(f, g, |g.p|);
      assert g.p[..|g.p|] == g.p;
    }
    assert forall i :: 0 <= i < |f.p| ==> WellFormed(f.p[i], f.source);
  }

  lemma {:induction false} PlacedAll(g: Proto<Bytes>, n: nat, source: Option<TString>)
    requires n <= |g.p| && forall i :: 0 <= i < n ==> Loadable(g.p[i], Chars(source))
    ensures var fs := PlaceAll(g, n, source);
            forall i :: 0 <= i < n ==> WellFormed(fs[i], source) && Contents(fs[i]) == g.p[i]
    decreases g.p, n
  {
    hide Loadable, WellFormed, Contents, Place;
    if n > 0 {
      PlacedAll(g, n - 1, source);
      Placed(g.p[n - 1], source);
    }
  }

  lemma {:induction false} SameContents(f: Proto<TString>, g: Proto<Bytes>, n: nat)
    requires n <= |f.p| == |g.p| && forall i :: 0 <= i < n ==> Contents(f.p[i]) == g.p[i]
    ensures ContentsOf(f, n) == g.p[..n]
    decreases n
  {
    if n > 0 {
      SameContents(f, g, n - 1);
    }
  }

  lemma {:induction false} LoadableKeepsSources(f: Proto<TString>, psource: Option<Bytes>)
    ensures Loadable(Contents(f), psource) ==> KeepsSources(f, psource.Some?)
    ensures KeepsSources(f, psource.Some?) && (exists p :: WellFormed(f, p)) ==> Loadable(Contents(f), psource)
    decreases f
  {
    var g := Contents(f);
    forall i | 0 <= i < |f.p|
      ensures g.p[i] == Contents(f.p[i])
      ensures Loadable(g.p[i], g.source) ==> KeepsSources(f.p[i], f.source.Some?)
      ensures KeepsSources(f.p[i], f.source.Some?) && WellFormed(f.p[i], f.source) ==> Loadable(g.p[i], g.source)
    {
      NthContents(f, |f.p|, i);
      LoadableKeepsSources(f.p[i], g.source);
    }
  }

  // ----- Dumping again -----

  /** Whatever chunk a tree was loaded from, and however it lies in memory, dumping it and loading the result gives
      the same tree. */
  lemma ReloadIsStable(s: Bytes, f: Proto<TString>, rest: Bytes)
    requires WellFormed(f, None) && Undump(s).Some? && Undump(s).value.0.1 == Contents(f)
    ensures Undump(EncChunk(f, false) + rest) == Some(((|f.upvalues| % 256, Undump(s).value.0.1), rest))
  {
    LoadedFunction(s[|HEADER| + 1..], None);
    LoadableKeepsSources(f, None);
    hide Undump, EncChunk, Contents, WellFormed, KeepsSources;
    ChunkRoundTrip(f, rest);
  }

  ghost predicate ComesFromChunk(g: Proto<Bytes>) {
    exists s :: Undump(s).Some? && Undump(s).value.0.1 == g
  }

  /** The trees that can be loaded are exactly those within the limits whose sources nest properly. */
  lemma LoadableTrees(g: Proto<Bytes>)
    ensures ComesFromChunk(g) <==> Loadable(g, None)
  {
    hide LoadFunction, Loadable;
    if ComesFromChunk(g) {
      var s :| Undump(s).Some? && Undump(s).value.0.1 == g;
      LoadedFunction(s[|HEADER| + 1..], None);
    }
    if Loadable(g, None) {
      var s := SomeChunk(g);
      assert Undump(s).Some? && Undump(s).value.0.1 == g;
    }
  }

  lemma SomeChunk(g: Proto<Bytes>) returns (s: Bytes)
    requires Loadable(g, None)
    ensures Undump(s) == Some(((|g.upvalues| % 256, g), []))
  {
    var f := Place(g, None);
    assert f.upvalues == g.upvalues;
    hide Undump, EncChunk, Contents, WellFormed, KeepsSources, Loadable, Place;
    Placed(g, None);
    LoadableKeepsSources(f, None);
    ChunkRoundTrip(f, []);
    s := EncChunk(f, false) + [];
  }

  // ----- Combining chunks -----

  /** `combine` of `luac.c`: several functions put inside a main function, whose line numbers are dropped. */
  function Combine(main: Proto<TString>, parts: seq<Proto<TString>>): Proto<TString> {
    main.(p := seq(|parts|, i requires 0 <= i < |parts| => Adopt(parts[i])), lineinfo := [])
  }

  /** The first upvalue of a part no longer lies in the stack. */
  function Adopt(part: Proto<TString>): Proto<TString> {
    if part.upvalues == [] then part else part.(upvalues := part.upvalues[0 := part.upvalues[0].(instack := 0)])
  }

  /** What is kept of a part: everything, except that its first upvalue no longer lies in the stack. */
  ghost predicate Adopted(g: Proto<Bytes>, part: Proto<TString>) {
    var p := Contents(part);
    && g.(upvalues := []) == p.(upvalues := []) && |g.upvalues| == |p.upvalues|
    && forall k :: 0 <= k < |g.upvalues| ==> g.upvalues[k] == if k == 0 then p.upvalues[k].(instack := 0) else p.upvalues[k]
  }

  lemma AdoptedContents(part: Proto<TString>)
    ensures Adopted(Contents(Adopt(part)), part)
  {
    SameNested(Adopt(part), part, |part.p|);
  }

  lemma {:induction false} SameNested(f: Proto<TString>, g: Proto<TString>, n: nat)
    requires f.p == g.p && n <= |f.p|
    ensures ContentsOf(f, n) == ContentsOf(g, n)
  {
    if n > 0 {
      SameNested(f, g, n - 1);
    }
  }

  /** Combined chunks load back exactly when each part has a source: a part loaded from a stripped chunk has none.
      The combined function has the parts, in order, in place of its own nested functions, and no line numbers. */
  lemma CombinedRoundTrip(main: Proto<TString>, parts: seq<Proto<TString>>, rest: Bytes)
    requires main.source.Some? && forall i :: 0 <= i < |parts| ==> KeepsSources(parts[i], false)
    requires WellFormed(Combine(main, parts), None)
    ensures var f := Combine(main, parts);
            (Undump(EncChunk(f, false) + rest) == Some(((|f.upvalues| % 256, Contents(f)), rest))
             <==> forall i :: 0 <= i < |parts| ==> parts[i].source.Some?)
    ensures var g := Contents(Combine(main, parts));
            && g == Contents(main).(p := g.p, lineinfo := []) && |g.p| == |parts|
            && forall i :: 0 <= i < |parts| ==> Adopted(g.p[i], parts[i])
  {
    CombinedSources(main, parts);
    CombinedContents(main, parts);
    hide Undump, EncChunk, WellFormed, KeepsSources, Adopted, Contents, Combine;
    ChunkRoundTrip(Combine(main, parts), rest);
  }

  lemma CombinedSources(main: Proto<TString>, parts: seq<Proto<TString>>)
    requires main.source.Some? && forall i :: 0 <= i < |parts| ==> KeepsSources(parts[i], false)
    ensures KeepsSources(Combine(main, parts), false) <==> forall i :: 0 <= i < |parts| ==> parts[i].source.Some?
  {
    var f := Combine(main, parts);
    forall i | 0 <= i < |parts| ensures KeepsSources(f.p[i], true) <==> parts[i].source.Some? {
      assert KeepsSources(parts[i], false);
      assert f.p[i].p == parts[i].p && f.p[i].source == parts[i].source;
    }
    assert KeepsSources(f, false) <==> forall i :: 0 <= i < |f.p| ==> KeepsSources(f.p[i], true);
  }

  lemma CombinedContents(main: Proto<TString>, parts: seq<Proto<TString>>)
    ensures var g := Contents(Combine(main, parts));
            && g == Contents(main).(p := g.p, lineinfo := []) && |g.p| == |parts|
            && forall i :: 0 <= i < |parts| ==> Adopted(g.p[i], parts[i])
  {
    var f := Combine(main, parts);
    forall i | 0 <= i < |parts| ensures Adopted(Contents(f).p[i], parts[i]) {
      NthContents(f, |f.p|, i);
      AdoptedContents(parts[i]);
    }
  }

  // ----- Writer and reader -----

  /** `luaU_dump` through any writer, then `luaU_undump` of what the writer received and whatever follows it. */
  method DumpAndLoad(f: Proto<TString>, writer: (Bytes, Bytes) -> int, strip: bool, rest: Bytes)
    returns (status: int, loaded: Read<(Byte, Proto<Bytes>)>)
    requires WellFormed(f, None)
    ensures LuaDump.Accepts(writer) ==> status == 0
    ensures status == 0 && !strip ==>
      (loaded == Some(((|f.upvalues| % 256, Contents(f)), rest)) <==> KeepsSources(f, false))
    ensures status == 0 && strip ==> loaded == Some(((|f.upvalues| % 256, Stripped(Contents(f))), rest))
  {
    hide Undump, EncChunk, Contents, WellFormed, KeepsSources, Stripped, LuaDump.Accepts, LuaDump.Refused;
    var output;
    status, output := LuaDump.Dump(f, writer, strip);
    loaded := Undump(output + rest);
    ChunkRoundTrip(f, rest);
    StrippedChunkRoundTrip(f, rest);
  }
}
