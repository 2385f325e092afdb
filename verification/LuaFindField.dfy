/** `findfield` of `lauxlib.c`: a bounded search through nested tables that works on the Lua stack. */
module LuaFindField {
  import opened Wrappers

  datatype Value = Nil | Str(s: string) | Table(id: nat) | Other(tag: int)

  /** The pairs of each table in the order in which `lua_next` visits them. Tables may contain each other. */
  type Heap = map<nat, seq<(Value, Value)>>

  ghost predicate WellFormed(h: Heap) {
    forall id :: id in h ==>
      && (forall i :: 0 <= i < |h[id]| ==> h[id][i].0 != Nil)
      && (forall i, j :: 0 <= i < j < |h[id]| ==> h[id][i].0 != h[id][j].0)
  }

  function Pairs(h: Heap, v: Value): seq<(Value, Value)> {
    if v.Table? && v.id in h then h[v.id] else []
  }

  function Dotted(path: seq<string>): string {
    if path == [] then "" else if |path| == 1 then path[0] else path[0] + "." + Dotted(path[1..])
  }

  // ----- What there is to find -----

  /** `path` names string keys that lead from `v` to `obj`. */
  ghost predicate IsPath(h: Heap, v: Value, path: seq<string>, obj: Value)
    decreases |path|
  {
    path != [] && exists i :: 0 <= i < |Pairs(h, v)| && LeadsOn(h, Pairs(h, v)[i], path, obj)
  }

  ghost predicate LeadsOn(h: Heap, pair: (Value, Value), path: seq<string>, obj: Value)
    requires path != []
    decreases |path|, 0
  {
    pair.0 == Str(path[0]) && if |path| == 1 then pair.1 == obj else IsPath(h, pair.1, path[1..], obj)
  }

  /** The first path in depth-first order, at most `level` keys long. */
  function Find(h: Heap, v: Value, obj: Value, level: nat): Option<seq<string>>
    decreases level, |Pairs(h, v)| + 1
  {
    if level == 0 || !v.Table? then None else FindFrom(h, v, 0, obj, level)
  }

  function FindFrom(h: Heap, v: Value, i: nat, obj: Value, level: nat): Option<seq<string>>
    requires i <= |Pairs(h, v)| && level > 0
    decreases level, |Pairs(h, v)| - i
  {
    if i == |Pairs(h, v)| then None
    else
      var (k, w) := Pairs(h, v)[i];
      if !k.Str? then FindFrom(h, v, i + 1, obj, level)
      else if w == obj then Some([k.s])
      else
        var p := Find(h, w, obj, level - 1);
        if p.Some? then Some([k.s] + p.value) else FindFrom(h, v, i + 1, obj, level)
  }

  /** One turn of the search loop. */
  lemma FindStep(h: Heap, v: Value, i: nat, obj: Value, level: nat)
    requires i < |Pairs(h, v)| && level > 0
    ensures var (k, w) := Pairs(h, v)[i];
            var r := FindFrom(h, v, i, obj, level);
            if !k.Str? then r == FindFrom(h, v, i + 1, obj, level)
            else if w == obj then r.Some? && Dotted(r.value) == k.s
            else
              var p := Find(h, w, obj, level - 1);
              if p.Some? then r.Some? && Dotted(r.value) == k.s + "." + Dotted(p.value)
              else r == FindFrom(h, v, i + 1, obj, level)
  {
    var (k, w) := Pairs(h, v)[i];
    if k.Str? && w != obj {
      var p := Find(h, w, obj, level - 1);
      if p.Some? {
        FindSound(h, w, obj, level - 1);
        assert ([k.s] + p.value)[1..] == p.value;
      }
    }
  }

  lemma FindNothing(h: Heap, v: Value, obj: Value, level: nat)
    requires level > 0
    ensures FindFrom(h, v, |Pairs(h, v)|, obj, level) == None
  {
  }

  lemma {:induction false} FindSound(h: Heap, v: Value, obj: Value, level: nat)
    requires Find(h, v, obj, level).Some?
    ensures var p := Find(h, v, obj, level).value; IsPath(h, v, p, obj) && 1 <= |p| <= level
    decreases level, |Pairs(h, v)| + 1
  {
    FindFromSound(h, v, 0, obj, level);
  }

  lemma {:induction false} FindFromSound(h: Heap, v: Value, i: nat, obj: Value, level: nat)
    requires i <= |Pairs(h, v)| && level > 0 && FindFrom(h, v, i, obj, level).Some?
    ensures var p := FindFrom(h, v, i, obj, level).value; IsPath(h, v, p, obj) && 1 <= |p| <= level
    decreases level, |Pairs(h, v)| - i
  {
    var (k, w) := Pairs(h, v)[i];
    var p := FindFrom(h, v, i, obj, level).value;
    if k.Str? && w == obj {
      assert LeadsOn(h, Pairs(h, v)[i], p, obj);
    } else if k.Str? && Find(h, w, obj, level - 1).Some? {
      FindSound(h, w, obj, level - 1);
      assert p[1..] == Find(h, w, obj, level - 1).value;
      assert LeadsOn(h, Pairs(h, v)[i], p, obj);
    } else {
      FindFromSound(h, v, i + 1, obj, level);
    }
  }

  lemma {:induction false} FindComplete(h: Heap, v: Value, obj: Value, level: nat, path: seq<string>)
    requires Find(h, v, obj, level).None? && |path| <= level
    ensures !IsPath(h, v, path, obj)
    decreases level, |Pairs(h, v)| + 1
  {
    if IsPath(h, v, path, obj) {
      var i :| 0 <= i < |Pairs(h, v)| && LeadsOn(h, Pairs(h, v)[i], path, obj);
      FindFromComplete(h, v, 0, i, obj, level, path);
    }
  }

  lemma {:induction false} FindFromComplete(h: Heap, v: Value, j: nat, i: nat, obj: Value, level: nat, path: seq<string>)
    requires j <= i < |Pairs(h, v)| && 0 < |path| <= level
    requires FindFrom(h, v, j, obj, level).None?
    ensures !LeadsOn(h, Pairs(h, v)[i], path, obj)
    decreases level, |Pairs(h, v)| - j
  {
    if j < i {
      FindFromComplete(h, v, j + 1, i, obj, level, path);
    } else if |path| > 1 && Pairs(h, v)[i].0.Str? {
      FindComplete(h, Pairs(h, v)[i].1, obj, level - 1, path[1..]);
    }
  }

  /** Names are joined by single dots. */
  lemma {:induction false} DottedJoin(p: seq<string>, q: seq<string>)
    requires p != [] && q != []
    ensures Dotted(p + q) == Dotted(p) + ['.'] + Dotted(q)
    ensures |p| == 1 ==> Dotted(p) == p[0]
  {
    if |p| == 1 {
      assert (p + q)[1..] == q;
    } else {
      assert (p + q)[1..] == p[1..] + q;
      DottedJoin(p[1..], q);
    }
  }

  /** The path found goes through the first pair, in the order of the table, from which any path leads on, and is the
      direct one if that pair holds the object itself. */
  lemma {:induction false} FindEarliest(h: Heap, v: Value, obj: Value, level: nat) returns (i: nat)
    requires Find(h, v, obj, level).Some?
    ensures i < |Pairs(h, v)|
    ensures var p := Find(h, v, obj, level).value;
            p != [] && LeadsOn(h, Pairs(h, v)[i], p, obj) && (Pairs(h, v)[i].1 == obj ==> |p| == 1)
    ensures forall j, path :: 0 <= j < i && 0 < |path| <= level ==> !LeadsOn(h, Pairs(h, v)[j], path, obj)
  {
    i := FirstPair(h, v, 0, obj, level);
  }

  lemma {:induction false} FirstPair(h: Heap, v: Value, from: nat, obj: Value, level: nat) returns (i: nat)
    requires from <= |Pairs(h, v)| && level > 0 && FindFrom(h, v, from, obj, level).Some?
    ensures from <= i < |Pairs(h, v)|
    ensures var p := FindFrom(h, v, from, obj, level).value;
            p != [] && LeadsOn(h, Pairs(h, v)[i], p, obj) && (Pairs(h, v)[i].1 == obj ==> |p| == 1)
    ensures forall j, path :: from <= j < i && 0 < |path| <= level ==> !LeadsOn(h, Pairs(h, v)[j], path, obj)
    decreases |Pairs(h, v)| - from
  {
    var (k, w) := Pairs(h, v)[from];
    if k.Str? && w == obj {
      i := from;
    } else if k.Str? && Find(h, w, obj, level - 1).Some? {
      i := from;
      FindSound(h, w, obj, level - 1);
      assert FindFrom(h, v, from, obj, level).value[1..] == Find(h, w, obj, level - 1).value;
    } else {
      i := FirstPair(h, v, from + 1, obj, level);
      forall path: seq<string> | 0 < |path| <= level ensures !LeadsOn(h, Pairs(h, v)[from], path, obj) {
        if k.Str? && |path| > 1 {
          FindComplete(h, w, obj, level - 1, path[1..]);
        }
      }
    }
  }

  // ----- How it is found -----

  class Lua {
    const heap: Heap
    var stack: seq<Value>

    constructor (heap: Heap, stack: seq<Value>)
      ensures this.heap == heap && this.stack == stack
    {
      this.heap, this.stack := heap, stack;
    }

    method Push(v: Value)
      modifies this
      ensures stack == old(stack) + [v]
    {
      stack := stack + [v];
    }

    method Pop(n: nat)
      requires n <= |stack|
      modifies this
      ensures stack == old(stack)[..|old(stack)| - n]
    {
      stack := stack[..|stack| - n];
    }

    /** `lua_remove(L, -2)`. */
    method RemoveSecond()
      requires |stack| >= 2
      modifies this
      ensures stack == old(stack)[..|old(stack)| - 2] + [old(stack)[|old(stack)| - 1]]
    {
      stack := stack[..|stack| - 2] + [stack[|stack| - 1]];
    }

    /** `lua_insert(L, -2)`: the top element moves below the one under it. */
    method InsertSecond()
      requires |stack| >= 2
      modifies this
      ensures stack == old(stack)[..|old(stack)| - 2] + [old(stack)[|old(stack)| - 1], old(stack)[|old(stack)| - 2]]
    {
      stack := stack[..|stack| - 2] + [stack[|stack| - 1], stack[|stack| - 2]];
    }

    /** `lua_concat(L, 3)` of three strings. */
    method ConcatThree()
      requires |stack| >= 3 && forall i :: |stack| - 3 <= i < |stack| ==> stack[i].Str?
      modifies this
      ensures var n := |old(stack)|;
              stack == old(stack)[..n - 3] + [Str(old(stack)[n - 3].s + old(stack)[n - 2].s + old(stack)[n - 1].s)]
    {
      var n := |stack|;
      stack := stack[..n - 3] + [Str(stack[n - 3].s + stack[n - 2].s + stack[n - 1].s)];
    }

    /** `lua_next(L, -2)`: replaces the key on top by the pair that follows it in the table below, or drops it. */
    method Next(ghost base: seq<Value>, ghost at: nat) returns (more: bool)
      requires WellFormed(heap) && base != []
      requires var pairs := Pairs(heap, base[|base| - 1]);
               at <= |pairs| && stack == base + [if at == 0 then Nil else pairs[at - 1].0]
      modifies this
      ensures var pairs := Pairs(heap, base[|base| - 1]);
              && more == (at < |pairs|)
              && stack == if more then base + [pairs[at].0, pairs[at].1] else base
    {
      var n := |stack|;
      var key, pairs := stack[n - 1], Pairs(heap, stack[n - 2]);
      var i := 0;
      if key != Nil {
        while pairs[i].0 != key
          invariant 0 <= i < at
          decreases at - i
        {
          i := i + 1;
        }
        i := i + 1;
      }
      more := i < |pairs|;
      assert stack[..n - 1] == base;
      stack := if more then stack[..n - 1] + [pairs[i].0, pairs[i].1] else stack[..n - 1];
    }

    /** Puts a dot between the two names that enclose a table and joins them. */
    method JoinNames(ghost base: seq<Value>)
      requires |stack| == |base| + 3 && stack[..|base|] == base && stack[|base|].Str? && stack[|base| + 2].Str?
      modifies this
      ensures stack == base + [Str(old(stack)[|base|].s + "." + old(stack)[|base| + 2].s)]
    {
      RemoveSecond();
      Push(Str("."));
      InsertSecond();
      ConcatThree();
    }

    /** Searches the value on top for the object at `objidx`, counted from 1 as Lua does. On success the dotted name
        is left on top of an otherwise unchanged stack; on failure the stack is as before. */
    method FindField(objidx: nat, level: nat) returns (found: bool)
      requires WellFormed(heap) && 1 <= objidx <= |stack|
      modifies this
      ensures var path := Find(heap, old(stack)[|old(stack)| - 1], old(stack)[objidx - 1], level);
              && found == path.Some?
              && stack == old(stack) + if found then [Str(Dotted(path.value))] else []
      decreases level
    {
      hide FindFrom, Dotted, IsPath, WellFormed, Pairs;
      ghost var base := stack;
      if level == 0 || !stack[|stack| - 1].Table? {
        return false;
      }
      ghost var v, obj := base[|base| - 1], base[objidx - 1];
      Push(Nil);
      ghost var i := 0;
      while true
        invariant 0 <= i <= |Pairs(heap, v)|
        invariant stack == base + [if i == 0 then Nil else Pairs(heap, v)[i - 1].0]
        invariant Find(heap, v, obj, level) == FindFrom(heap, v, i, obj, level)
        decreases |Pairs(heap, v)| - i
      {
        var more := Next(base, i);
        if !more {
          FindNothing(heap, v, obj, level);
          return false;
        }
        ghost var pair := Pairs(heap, v)[i];
        FindStep(heap, v, i, obj, level);
        if stack[|stack| - 2].Str? {
          if stack[objidx - 1] == stack[|stack| - 1] {
            Pop(1);
            assert stack == base + [pair.0];
            return true;
          }
          ghost var inner := Find(heap, pair.1, obj, level - 1);
          var deeper := FindField(objidx, level - 1);
          if deeper {
            assert stack == base + [pair.0, pair.1, Str(Dotted(inner.value))];
            JoinNames(base);
            return true;
          }
        }
        Pop(1);
        assert stack == base + [pair.0];
        i := i + 1;
      }
    }
  }

  /** The search is exact: it finds a name exactly when one of at most `level` keys exists, and the name it finds
      leads to the object. Cycles between tables do no harm. */
  method Search(heap: Heap, root: Value, obj: Value, level: nat) returns (name: Option<string>)
    requires WellFormed(heap)
    ensures name.Some? <==> exists path :: |path| <= level && IsPath(heap, root, path, obj)
    ensures name.Some? ==> exists path :: |path| <= level && IsPath(heap, root, path, obj) && name.value == Dotted(path)
  {
    var L := new Lua(heap, [obj, root]);
    var found := L.FindField(1, level);
    if found {
      FindSound(heap, root, obj, level);
      name := Some(L.stack[2].s);
    } else {
      name := None;
      forall path | |path| <= level ensures !IsPath(heap, root, path, obj) {
        FindComplete(heap, root, obj, level, path);
      }
    }
  }
}
