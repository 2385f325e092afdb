/** Lua's reference system: `luaL_ref` and `luaL_unref` over a table, with `lua_rawlen` as `luaH_getn` computes it. */
module LuaRef {
  import opened Wrappers

  /** A non-nil Lua value; nil is the absence of a key. */
  datatype Value = Int(i: int) | Other(id: int)

  type Table = map<int, Value>

  const MAX_INT := 0x7FFF_FFFF
  /** The largest array part. */
  const MAXASIZE := 0x8000_0000
  const LUA_REFNIL := -1
  const FREELIST := 0

  // ----- luaH_getn -----

  /** A boundary: an index holding a value (or 0) whose successor is nil. */
  ghost predicate IsBorder(t: Table, n: nat) {
    (n == 0 || n in t) && n + 1 !in t
  }

  /** The binary search shared by both parts of the table. */
  method SearchBetween(t: Table, lo: nat, hi: nat) returns (n: nat)
    requires lo < hi && (lo == 0 || lo in t) && hi !in t
    ensures IsBorder(t, n) && n < hi
  {
    var i, j := lo, hi;
    while j - i > 1
      invariant lo <= i < j <= hi && (i == 0 || i in t) && j !in t
    {
      var m := (i + j) / 2;
      if m !in t {
        j := m;
      } else {
        i := m;
      }
    }
    n := i;
  }

  method LinearSearch(t: Table) returns (n: nat)
    ensures IsBorder(t, n) && n <= |t|
  {
    var i := 1;
    ghost var seen: set<int> := {};
    while i in t
      invariant i >= 1 && (i == 1 || i - 1 in t)
      invariant seen <= t.Keys && |seen| == i - 1 && forall k :: k in seen ==> k < i
      decreases t.Keys - seen
    {
      seen := seen + {i};
      i := i + 1;
    }
    assert t.Keys == seen + (t.Keys - seen);
    n := i - 1;
  }

  method UnboundSearch(t: Table, start: nat) returns (n: nat)
    requires start <= MAXASIZE && (start == 0 || start in t)
    ensures IsBorder(t, n) && (n <= MAXASIZE || n <= |t|)
  {
    var i: nat, j: nat := start, start + 1;
    while j in t
      invariant i < j <= MAXASIZE + 1 && (i == 0 || i in t)
      decreases MAXASIZE + 1 - j
    {
      i := j;
      if j > MAX_INT / 2 {
        n := LinearSearch(t);
        return;
      }
      j := j * 2;
    }
    n := SearchBetween(t, i, j);
  }

  /** Where a table keeps its values: an array part for 1..`arraySize`, and a hash part for all other keys unless absent. */
  predicate Layout(t: Table, arraySize: nat, noHash: bool) {
    arraySize <= MAXASIZE && (noHash ==> forall k :: k in t ==> 1 <= k <= arraySize)
  }

  /** The result before its conversion to `int`. It stays below the larger of the two table limits, so no index
      wraps on the way. */
  method RawLen(t: Table, arraySize: nat, noHash: bool) returns (n: nat)
    requires Layout(t, arraySize, noHash)
    ensures IsBorder(t, n) && (n <= MAXASIZE || n <= |t|)
  {
    if arraySize > 0 && arraySize !in t {
      n := SearchBetween(t, 0, arraySize);
    } else if noHash {
      n := arraySize;
    } else {
      n := UnboundSearch(t, arraySize);
    }
  }

  // ----- The state of the reference system -----

  /** The free list hanging from slot `at`: each slot holds the number of the next one, and the last holds nil. */
  ghost predicate Linked(t: Table, at: int, free: seq<int>)
    decreases |free|
  {
    if free == [] then at !in t else at in t && t[at] == Int(free[0]) && Linked(t, free[0], free[1..])
  }

  ghost predicate SameSlot(t: Table, k: int, t': Table, k': int) {
    (k in t <==> k' in t') && (k in t ==> t[k] == t'[k'])
  }

  lemma {:induction false} Relink(t: Table, at: int, t': Table, at': int, free: seq<int>)
    requires Linked(t, at, free) && SameSlot(t, at, t', at') && forall k :: k in free ==> SameSlot(t, k, t', k)
    ensures Linked(t', at', free)
    decreases |free|
  {
    if free != [] {
      assert free[0] in free;
      Relink(t, free[0], t', free[0], free[1..]);
    }
  }

  ghost predicate Distinct(free: seq<int>) {
    forall i, j :: 0 <= i < j < |free| ==> free[i] != free[j]
  }

  /** Every slot 1..n is live, and holds its object, or is on the free list; there are no other integer keys. */
  ghost predicate Slots(t: Table, live: map<int, Value>, free: seq<int>, n: nat) {
    && (forall k :: 1 <= k <= n ==> k in live || k in free)
    && (forall k :: k in live ==> 1 <= k <= n && k !in free && k in t && t[k] == live[k])
    && (forall k :: k in free ==> 1 <= k <= n)
    && (forall k :: k in t ==> 0 <= k <= n)
  }

  ghost predicate Consistent(t: Table, live: map<int, Value>, free: seq<int>, n: nat) {
    |live| + |free| == n && Slots(t, live, free, n) && Distinct(free) && Linked(t, FREELIST, free)
  }

  lemma TakeFirst(t: Table, live: map<int, Value>, free: seq<int>, n: nat, v: Value)
    requires Consistent(t, live, free, n) && free != []
    ensures var ref := free[0];
            var u := if ref in t then t[FREELIST := t[ref]] else t - {FREELIST};
            ref !in live && Consistent(u[ref := v], live[ref := v], free[1..], n)
  {
    var ref, rest := free[0], free[1..];
    var u := if ref in t then t[FREELIST := t[ref]] else t - {FREELIST};
    var t' := u[ref := v];
    assert free == [ref] + rest;
    assert ref in free && ref !in rest;
    assert forall k :: k in free <==> k == ref || k in rest;
    Relink(t, ref, t', FREELIST, rest);
    InsertOne(live, ref, v);
    SlotsAfterTake(t, live, free, n, t', v);
  }

  lemma SlotsAfterTake(t: Table, live: map<int, Value>, free: seq<int>, n: nat, t': Table, v: Value)
    requires Slots(t, live, free, n) && Distinct(free) && free != []
    requires free[0] in t' && t'[free[0]] == v
    requires forall k :: k != FREELIST && k != free[0] ==> SameSlot(t, k, t', k)
    ensures Slots(t', live[free[0] := v], free[1..], n)
  {
    assert free == [free[0]] + free[1..];
    assert free[0] in free && free[0] !in free[1..];
    assert forall k :: k in free <==> k == free[0] || k in free[1..];
    assert forall k :: k in live ==> k != FREELIST && k != free[0] && SameSlot(t, k, t', k);
    assert forall k :: k in t' ==> k == FREELIST || k == free[0] || SameSlot(t, k, t', k);
  }

  lemma InsertOne(live: map<int, Value>, ref: int, v: Value)
    requires ref !in live
    ensures |live[ref := v]| == |live| + 1
  {
    assert live[ref := v].Keys == live.Keys + {ref};
    assert |live.Keys| == |live| && |live[ref := v].Keys| == |live[ref := v]|;
  }

  /** With no free slot, slots 1..n are all full, and the only border is n. */
  lemma OnlyBorder(t: Table, live: map<int, Value>, n: nat, len: nat)
    requires Consistent(t, live, [], n)
    ensures forall k :: 1 <= k <= n ==> k in t
    ensures IsBorder(t, len) <==> len == n
  {
    assert forall k :: 1 <= k <= n ==> k in live && k in t;
    assert len < n ==> len + 1 in t;
  }

  lemma AddLast(t: Table, live: map<int, Value>, n: nat, v: Value)
    requires Consistent(t, live, [], n)
    ensures n + 1 !in live && Consistent(t[n + 1 := v], live[n + 1 := v], [], n + 1)
  {
    SlotsAfterAdd(t, live, n, v);
    hide Slots;
    InsertOne(live, n + 1, v);
  }

  lemma SlotsAfterAdd(t: Table, live: map<int, Value>, n: nat, v: Value)
    requires Slots(t, live, [], n)
    ensures n + 1 !in live && Slots(t[n + 1 := v], live[n + 1 := v], [], n + 1)
  {
    assert n + 1 !in live;
    assert forall k :: 1 <= k <= n + 1 ==> k == n + 1 || k in live;
  }

  lemma PutBack(t: Table, live: map<int, Value>, free: seq<int>, n: nat, ref: int)
    requires Consistent(t, live, free, n) && ref in live
    ensures var u := if FREELIST in t then t[ref := t[FREELIST]] else t - {ref};
            Consistent(u[FREELIST := Int(ref)], live - {ref}, [ref] + free, n)
  {
    var u := if FREELIST in t then t[ref := t[FREELIST]] else t - {ref};
    var t', free' := u[FREELIST := Int(ref)], [ref] + free;
    assert free'[1..] == free;
    Relink(t, FREELIST, t', ref, free);
    RemoveOne(live, ref);
    assert forall k :: k in free' <==> k == ref || k in free;
    assert Slots(t', live - {ref}, free', n);
  }

  lemma RemoveOne(live: map<int, Value>, ref: int)
    requires ref in live
    ensures |live - {ref}| == |live| - 1
  {
    assert (live - {ref}).Keys == live.Keys - {ref};
    assert |live.Keys| == |live| && |(live - {ref}).Keys| == |live - {ref}|;
  }

  function Numbered(base: seq<Value>): (m: Table)
    ensures forall k :: k in m <==> 1 <= k <= |base|
    ensures forall k :: k in m ==> m[k] == base[k - 1]
    ensures |m| == |base|
  {
    if base == [] then map[] else Numbered(base[..|base| - 1])[|base| := base[|base| - 1]]
  }

  // ----- luaL_ref and luaL_unref -----

  class RefTable {
    var t: Table
    /** The references in use and their objects. */
    ghost var live: map<int, Value>
    /** The free list, head first. */
    ghost var free: seq<int>
    /** The highest slot ever used. */
    ghost var n: nat

    ghost predicate Valid()
      reads this
    {
      Consistent(t, live, free, n)
    }

    /** A table whose slots 1..|base| hold objects of its owner, as the registry does. */
    constructor (base: seq<Value>)
      ensures Valid() && live == Numbered(base) && n == |base|
    {
      t, live, free, n := Numbered(base), Numbered(base), [], |base|;
    }

    method Ref(v: Option<Value>) returns (ref: int)
      requires Valid()
      modifies this
      ensures Valid()
      ensures v.None? ==> ref == -1 && live == old(live) && n == old(n) && t == old(t) && free == old(free)
      ensures v.Some? ==> ref >= 1 && ref !in old(live) && live == old(live)[ref := v.value]
      ensures v.Some? ==> n == if |old(live)| == old(n) then old(n) + 1 else old(n)
      ensures v.Some? ==> ref <= n && (n > old(n) ==> ref == n)
      ensures v.Some? && old(free) != [] ==> ref == old(free)[0] && free == old(free)[1..]
    {
      hide Slots, Distinct;
      if v.None? {
        return LUA_REFNIL;
      }
      ref := if FREELIST in t && t[FREELIST].Int? then t[FREELIST].i else 0;
      FreeRange(t, live, free, n);
      if ref != 0 {
        TakeFirst(t, live, free, n, v.value);
        t := if ref in t then t[FREELIST := t[ref]] else t - {FREELIST};
        free := free[1..];
      } else {
        var arraySize: nat, noHash: bool :| Layout(t, arraySize, noHash);
        var len := RawLen(t, arraySize, noHash);
        OnlyBorder(t, live, n, len);
        AddLast(t, live, n, v.value);
        ref := len + 1;
        n := n + 1;
      }
      t := t[ref := v.value];
      live := live[ref := v.value];
    }

    method Unref(ref: int)
      requires Valid() && (ref >= 0 ==> ref in live)
      modifies this
      ensures Valid()
      ensures live == old(live) - {ref} && n == old(n)
      ensures if ref >= 0 then free == [ref] + old(free) else free == old(free) && t == old(t)
    {
      hide Slots, Distinct, Linked;
      LiveRange(t, live, free, n, ref);
      if ref >= 0 {
        PutBack(t, live, free, n, ref);
        t := if FREELIST in t then t[ref := t[FREELIST]] else t - {ref};
        t := t[FREELIST := Int(ref)];
        live := live - {ref};
        free := [ref] + free;
      } else {
        assert live - {ref} == live;
      }
    }
  }

  lemma FreeRange(t: Table, live: map<int, Value>, free: seq<int>, n: nat)
    requires Consistent(t, live, free, n)
    ensures free != [] ==> 1 <= free[0] <= n
    ensures Layout(t, 0, false)
  {
    assert free != [] ==> free[0] in free;
  }

  lemma LiveRange(t: Table, live: map<int, Value>, free: seq<int>, n: nat, ref: int)
    requires Consistent(t, live, free, n)
    ensures ref in live ==> 1 <= ref <= n && ref in t && t[ref] == live[ref]
    ensures forall k :: k in live ==> k >= 1
  {
  }

  // ----- Whole runs -----

  /** An operation of a run; a release names the earlier operation whose reference it frees. */
  datatype Op = MakeRef(v: Option<Value>) | Release(i: nat)

  /** The operations whose references are live after the run. */
  ghost function LiveOps(ops: seq<Op>): (s: set<nat>)
    ensures forall i :: i in s ==> i < |ops| && ops[i].MakeRef? && ops[i].v.Some?
    decreases |ops|
  {
    if ops == [] then {}
    else
      var k := |ops| - 1;
      match ops[k]
      case MakeRef(v) => if v.Some? then LiveOps(ops[..k]) + {k} else LiveOps(ops[..k])
      case Release(i) => LiveOps(ops[..k]) - {i}
  }

  /** A run frees only references that are live, or the reference of nil. */
  ghost predicate Legal(ops: seq<Op>)
    decreases |ops|
  {
    ops == [] ||
    (var k := |ops| - 1;
     && Legal(ops[..k])
     && (ops[k].Release? ==> ops[k].i in LiveOps(ops[..k]) || (ops[k].i < k && ops[ops[k].i] == MakeRef(None))))
  }

  /** The largest number of references, the owner's included, that were ever live at once. */
  ghost function Peak(base: nat, ops: seq<Op>): nat
    decreases |ops|
  {
    var now := base + |LiveOps(ops)|;
    if ops == [] then now
    else
      var before := Peak(base, ops[..|ops| - 1]);
      if before < now then now else before
  }

  /** Live references are distinct, apart from the owner's slots, and still hold their objects. */
  ghost predicate Resolves(base: seq<Value>, ops: seq<Op>, refs: seq<int>, t: Table) {
    && |refs| == |ops|
    && (forall i :: i in LiveOps(ops) ==> refs[i] > |base| && refs[i] in t && ops[i].v == Some(t[refs[i]]))
    && (forall i, j :: i in LiveOps(ops) && j in LiveOps(ops) && i != j ==> refs[i] != refs[j])
    && (forall k :: 1 <= k <= |base| ==> k in t && t[k] == base[k - 1])
  }

  /** What being live means: the object is not nil, and no later operation has released its reference. */
  lemma {:induction false} LiveMeans(ops: seq<Op>, i: nat)
    requires i < |ops|
    ensures i in LiveOps(ops) <==> ops[i].MakeRef? && ops[i].v.Some? && forall j :: i < j < |ops| ==> ops[j] != Release(i)
    decreases |ops|
  {
    var k := |ops| - 1;
    if i < k {
      LiveMeans(ops[..k], i);
      assert forall j :: 0 <= j < k ==> ops[..k][j] == ops[j];
    } else {
      NotYetLive(ops[..k], k);
    }
  }

  lemma NotYetLive(ops: seq<Op>, i: nat)
    requires i >= |ops|
    ensures i !in LiveOps(ops)
  {
  }

  /** The peak is the largest number reached after some part of the run. */
  lemma {:induction false} PeakIsMaximum(base: nat, ops: seq<Op>)
    ensures forall k :: 0 <= k <= |ops| ==> base + |LiveOps(ops[..k])| <= Peak(base, ops)
    ensures exists k :: 0 <= k <= |ops| && base + |LiveOps(ops[..k])| == Peak(base, ops)
    decreases |ops|
  {
    hide LiveOps;
    assert ops[..|ops|] == ops;
    if ops != [] {
      var before := ops[..|ops| - 1];
      PeakIsMaximum(base, before);
      assert forall k :: 0 <= k < |ops| ==> before[..k] == ops[..k];
    }
  }

  // The reference of each live operation, in the table's own terms.

  ghost predicate Objects(ops: seq<Op>, alive: set<nat>, refs: seq<int>, live: map<int, Value>, base: nat) {
    |refs| == |ops| && forall i :: i in alive ==>
      i < |ops| && ops[i].MakeRef? && refs[i] > base && refs[i] in live && ops[i].v == Some(live[refs[i]])
  }

  ghost predicate Injective(alive: set<nat>, refs: seq<int>) {
    && (forall i :: i in alive ==> i < |refs|)
    && (forall i, j :: i in alive && j in alive && i != j ==> refs[i] != refs[j])
  }

  ghost predicate OwnerKept(base: seq<Value>, live: map<int, Value>) {
    forall k :: 1 <= k <= |base| ==> k in live && live[k] == base[k - 1]
  }

  ghost predicate Bounded(ops: seq<Op>, refs: seq<int>, base: nat, n: nat) {
    && |refs| == |ops|
    && (forall i :: 0 <= i < |ops| && ops[i] == MakeRef(None) ==> refs[i] == LUA_REFNIL)
    && (forall i :: 0 <= i < |refs| ==> refs[i] <= n)
    && (n > base ==> n in refs)
  }

  /** How the table stands to the run that led to it. */
  ghost predicate Tracks(base: seq<Value>, ops: seq<Op>, refs: seq<int>, live: map<int, Value>, n: nat) {
    && n == Peak(|base|, ops) && |live| == |base| + |LiveOps(ops)|
    && Objects(ops, LiveOps(ops), refs, live, |base|) && Injective(LiveOps(ops), refs)
    && OwnerKept(base, live) && Bounded(ops, refs, |base|, n)
  }

  lemma ObjectsGrow(ops: seq<Op>, op: Op, alive: set<nat>, refs: seq<int>, live: map<int, Value>, base: nat, ref: int)
    requires Objects(ops, alive, refs, live, base) && Injective(alive, refs)
    requires op.MakeRef? && op.v.Some? && ref > base && ref !in live
    ensures Objects(ops + [op], alive + {|ops|}, refs + [ref], live[ref := op.v.value], base)
    ensures Injective(alive + {|ops|}, refs + [ref])
  {
  }

  lemma ObjectsStay(ops: seq<Op>, op: Op, alive: set<nat>, refs: seq<int>, live: map<int, Value>, base: nat, ref: int)
    requires Objects(ops, alive, refs, live, base) && Injective(alive, refs)
    ensures Objects(ops + [op], alive, refs + [ref], live, base) && Injective(alive, refs + [ref])
  {
  }

  lemma ObjectsShrink(ops: seq<Op>, alive: set<nat>, refs: seq<int>, live: map<int, Value>, base: nat, i: nat)
    requires Objects(ops, alive, refs, live, base) && Injective(alive, refs) && i in alive
    ensures Objects(ops, alive - {i}, refs, live - {refs[i]}, base) && Injective(alive - {i}, refs)
  {
  }

  lemma BoundedGrows(ops: seq<Op>, op: Op, refs: seq<int>, base: nat, n: nat, ref: int, n': nat)
    requires Bounded(ops, refs, base, n) && n <= n' && ref <= n' && (n' > n ==> ref == n')
    requires op == MakeRef(None) ==> ref == LUA_REFNIL
    ensures Bounded(ops + [op], refs + [ref], base, n')
  {
    var refs' := refs + [ref];
    assert refs'[|refs|] == ref;
    assert forall x :: x in refs ==> x in refs';
  }

  lemma OneMoreOp(base: nat, ops: seq<Op>, op: Op)
    ensures LiveOps(ops + [op]) == match op
      case MakeRef(v) => if v.Some? then LiveOps(ops) + {|ops|} else LiveOps(ops)
      case Release(i) => LiveOps(ops) - {i}
    ensures |ops| !in LiveOps(ops)
    ensures var before, now := Peak(base, ops), base + |LiveOps(ops + [op])|;
            before >= base + |LiveOps(ops)| && Peak(base, ops + [op]) == if before < now then now else before
  {
    assert (ops + [op])[..|ops|] == ops;
  }

  lemma OwnerStays(base: seq<Value>, live: map<int, Value>, ref: int, v: Value)
    requires OwnerKept(base, live) && ref > |base|
    ensures OwnerKept(base, live[ref := v]) && OwnerKept(base, live - {ref})
  {
  }

  lemma TrackRef(base: seq<Value>, ops: seq<Op>, op: Op, refs: seq<int>, live: map<int, Value>, n: nat,
                 ref: int, n': nat)
    requires Tracks(base, ops, refs, live, n)
    requires op.MakeRef? && op.v.Some? && |base| < ref <= n' && ref !in live && |live| <= n
    requires n' == (if |live| == n then n + 1 else n) && (n' > n ==> ref == n')
    ensures Tracks(base, ops + [op], refs + [ref], live[ref := op.v.value], n')
  {
    hide Objects, Injective, Bounded, LiveOps, Peak, OwnerKept;
    OneMoreOp(|base|, ops, op);
    var alive := LiveOps(ops);
    assert |alive + {|ops|}| == |alive| + 1;
    OwnerStays(base, live, ref, op.v.value);
    InsertOne(live, ref, op.v.value);
    ObjectsGrow(ops, op, alive, refs, live, |base|, ref);
    BoundedGrows(ops, op, refs, |base|, n, ref, n');
  }

  lemma TrackNil(base: seq<Value>, ops: seq<Op>, refs: seq<int>, live: map<int, Value>, n: nat)
    requires Tracks(base, ops, refs, live, n)
    ensures Tracks(base, ops + [MakeRef(None)], refs + [LUA_REFNIL], live, n)
  {
    hide Objects, Injective, Bounded, LiveOps, Peak, OwnerKept;
    var op := MakeRef(None);
    OneMoreOp(|base|, ops, op);
    ObjectsStay(ops, op, LiveOps(ops), refs, live, |base|, LUA_REFNIL);
    BoundedGrows(ops, op, refs, |base|, n, LUA_REFNIL, n);
  }

  lemma TrackRelease(base: seq<Value>, ops: seq<Op>, refs: seq<int>, live: map<int, Value>, n: nat, i: nat)
    requires Tracks(base, ops, refs, live, n) && i in LiveOps(ops)
    ensures |refs| == |ops| && refs[i] in live
    ensures Tracks(base, ops + [Release(i)], refs + [LUA_REFNIL], live - {refs[i]}, n)
  {
    hide Injective, Bounded, LiveOps, Peak, OwnerKept;
    var op, alive := Release(i), LiveOps(ops);
    OneMoreOp(|base|, ops, op);
    OwnerStays(base, live, refs[i], Int(0));
    RemoveOne(live, refs[i]);
    assert |alive - {i}| == |alive| - 1;
    ObjectsShrink(ops, alive, refs, live, |base|, i);
    ObjectsStay(ops, op, alive - {i}, refs, live - {refs[i]}, |base|, LUA_REFNIL);
    BoundedGrows(ops, op, refs, |base|, n, LUA_REFNIL, n);
  }

  lemma NilNeverLive(ops: seq<Op>, i: nat)
    requires i < |ops| && ops[i] == MakeRef(None)
    ensures i !in LiveOps(ops)
  {
  }

  lemma TrackNoRelease(base: seq<Value>, ops: seq<Op>, refs: seq<int>, live: map<int, Value>, n: nat, i: nat)
    requires Tracks(base, ops, refs, live, n) && i < |ops| && ops[i] == MakeRef(None)
    ensures |refs| == |ops| && refs[i] == LUA_REFNIL
    ensures Tracks(base, ops + [Release(i)], refs + [LUA_REFNIL], live, n)
  {
    hide Objects, Injective, LiveOps, Peak, OwnerKept;
    var op := Release(i);
    OneMoreOp(|base|, ops, op);
    NilNeverLive(ops, i);
    assert LiveOps(ops) - {i} == LiveOps(ops);
    ObjectsStay(ops, op, LiveOps(ops), refs, live, |base|, LUA_REFNIL);
    BoundedGrows(ops, op, refs, |base|, n, LUA_REFNIL, n);
  }

  lemma {:induction false} LegalPrefix(ops: seq<Op>, k: nat)
    requires Legal(ops) && k <= |ops|
    ensures Legal(ops[..k])
    decreases |ops|
  {
    if k < |ops| {
      assert ops[..|ops| - 1][..k] == ops[..k];
      LegalPrefix(ops[..|ops| - 1], k);
    } else {
      assert ops[..k] == ops;
    }
  }

  lemma LegalRelease(ops: seq<Op>, k: nat)
    requires Legal(ops) && k < |ops| && ops[k].Release?
    ensures ops[k].i in LiveOps(ops[..k]) || (ops[k].i < k && ops[ops[k].i] == MakeRef(None))
  {
    LegalPrefix(ops, k + 1);
    assert ops[..k + 1][..k] == ops[..k];
  }

  lemma Fresh(r: RefTable, base: seq<Value>)
    requires r.Valid() && OwnerKept(base, r.live)
    ensures |r.live| <= r.n
    ensures forall ref :: ref >= 1 && ref !in r.live ==> ref > |base|
  {
  }

  lemma NoNilSlot(r: RefTable)
    requires r.Valid()
    ensures r.live - {LUA_REFNIL} == r.live
  {
  }

  /** One operation of a run on the table. */
  method Perform(r: RefTable, op: Op, refs: seq<int>, ghost base: seq<Value>, ghost ops: seq<Op>) returns (ref: int)
    requires r.Valid() && Tracks(base, ops, refs, r.live, r.n)
    requires op.Release? ==> op.i in LiveOps(ops) || (op.i < |ops| && ops[op.i] == MakeRef(None))
    modifies r
    ensures r.Valid() && Tracks(base, ops + [op], refs + [ref], r.live, r.n)
  {
    hide Consistent, LiveOps, Peak, Objects, Injective, Bounded, OwnerKept;
    ghost var live, n := r.live, r.n;
    if op.MakeRef? {
      Fresh(r, base);
      ref := r.Ref(op.v);
      if op.v.Some? {
        TrackRef(base, ops, op, refs, live, n, ref, r.n);
      } else {
        TrackNil(base, ops, refs, live, n);
      }
    } else {
      ref := LUA_REFNIL;
      if op.i in LiveOps(ops) {
        TrackRelease(base, ops, refs, live, n, op.i);
      } else {
        TrackNoRelease(base, ops, refs, live, n, op.i);
        NoNilSlot(r);
      }
      r.Unref(refs[op.i]);
    }
  }

  /** Any legal run: what the returned references resolve to, and how many slots were ever needed. */
  method Replay(base: seq<Value>, ops: seq<Op>) returns (refs: seq<int>, t: Table)
    requires Legal(ops)
    ensures Resolves(base, ops, refs, t)
    ensures |refs| == |ops|
    ensures forall i :: 0 <= i < |refs| ==> refs[i] <= Peak(|base|, ops)
    ensures Peak(|base|, ops) > |base| ==> Peak(|base|, ops) in refs
    ensures forall i :: 0 <= i < |ops| && ops[i] == MakeRef(None) ==> refs[i] == -1
  {
    hide Consistent, Legal, LiveOps, Tracks, Resolves, Peak;
    var r := new RefTable(base);
    refs := [];
    StartOfRun(base);
    for k := 0 to |ops|
      invariant r.Valid() && Tracks(base, ops[..k], refs, r.live, r.n)
    {
      if ops[k].Release? {
        LegalRelease(ops, k);
      }
      var ref := Perform(r, ops[k], refs, base, ops[..k]);
      refs := refs + [ref];
      assert ops[..k + 1] == ops[..k] + [ops[k]];
    }
    assert ops[..|ops|] == ops;
    t := r.t;
    Resolution(base, ops, refs, t, r.live, r.free, r.n);
  }

  lemma StartOfRun(base: seq<Value>)
    ensures Tracks(base, [], [], Numbered(base), |base|)
  {
  }

  lemma Resolution(base: seq<Value>, ops: seq<Op>, refs: seq<int>, t: Table, live: map<int, Value>, free: seq<int>, n: nat)
    requires Tracks(base, ops, refs, live, n) && Consistent(t, live, free, n)
    ensures Resolves(base, ops, refs, t)
    ensures |refs| == |ops|
    ensures forall i :: 0 <= i < |refs| ==> refs[i] <= Peak(|base|, ops)
    ensures Peak(|base|, ops) > |base| ==> Peak(|base|, ops) in refs
    ensures forall i :: 0 <= i < |ops| && ops[i] == MakeRef(None) ==> refs[i] == -1
  {
    hide LiveOps, Peak, Linked, Distinct;
  }
}
