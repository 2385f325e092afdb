/** Which stack levels `luaL_traceback` reports. */
module LuaTraceback {

  const LEVELS1 := 10
  const LEVELS2 := 11

  /** `lua_getstack`: the levels 0..depth-1 exist. */
  predicate HasLevel(depth: nat, level: int) {
    0 <= level < depth
  }

  /** Doubling, then bisection. */
  method LastLevel(depth: nat) returns (last: int)
    ensures last == if depth == 0 then 0 else depth - 1
  {
    var li, le := 1, 1;
    while HasLevel(depth, le)
      invariant 1 <= li <= le && (li == le ==> le == 1) && (li < le ==> li < depth)
      decreases depth - le
    {
      li := le;
      le := le * 2;
    }
    while li < le
      invariant 1 <= li <= le && !HasLevel(depth, le)
      invariant li > 1 ==> li <= depth
      decreases le - li
    {
      var m := (li + le) / 2;
      if HasLevel(depth, m) {
        li := m + 1;
      } else {
        le := m;
      }
    }
    return le - 1;
  }

  datatype Line = Level(l: int) | Ellipsis

  /** The levels `from`, ..., `end - 1` in order. */
  function Levels(from: int, end: int): (r: seq<Line>)
    ensures |r| == (if from < end then end - from else 0)
    decreases end - from
  {
    if from >= end then [] else Levels(from, end - 1) + [Level(end - 1)]
  }

  /** All levels from the given one on, or the first ten and the last eleven when there are more than 22. */
  function Report(depth: nat, level: int): seq<Line> {
    if !HasLevel(depth, level) then []
    else if depth - 1 - level <= LEVELS1 + LEVELS2 then Levels(level, depth)
    else Levels(level, level + LEVELS1) + [Ellipsis] + Levels(depth - LEVELS2, depth)
  }

  method Traceback(depth: nat, level0: int) returns (lines: seq<Line>)
    ensures lines == Report(depth, level0)
    ensures !(0 <= level0 < depth) ==> lines == []
    ensures 0 <= level0 < depth && depth - 1 - level0 <= 21 ==> AllLevels(lines, depth, level0)
    ensures 0 <= level0 < depth && depth - 1 - level0 > 21 ==> CutLevels(lines, depth, level0)
  {
    ReportLines(depth, level0);
    var last := LastLevel(depth);
    var level := level0;
    var n1 := if last - level > LEVELS1 + LEVELS2 then LEVELS1 else -1;
    ghost var cut := n1 == LEVELS1;
    lines := [];
    ghost var from := level0;
    ghost var before: seq<Line> := [];
    while HasLevel(depth, level)
      invariant from == level0 ==> lines == Levels(level0, level) && level >= level0 && before == []
      invariant from == level0 ==> n1 == (if cut then LEVELS1 else -1) - (level - level0)
      invariant from == level0 && cut ==> level <= level0 + LEVELS1
      invariant from != level0 ==> cut && HasLevel(depth, level0) && from == depth - LEVELS2 && n1 < 0 && from <= level <= depth
      invariant from != level0 ==> before == Levels(level0, level0 + LEVELS1) + [Ellipsis] && lines == before + Levels(from, level)
      invariant from == level0 && !HasLevel(depth, level0) ==> level == level0
      invariant from == level0 && HasLevel(depth, level0) ==> level <= depth
      decreases depth - level
    {
      var current := level;
      level := level + 1;
      n1 := n1 - 1;
      if n1 + 1 == 0 {
        lines := lines + [Ellipsis];
        level := last - LEVELS2 + 1;
        before := lines;
        from := level;
      } else {
        lines := lines + [Level(current)];
      }
    }
  }

  /** Every level from the given one on. */
  ghost predicate AllLevels(lines: seq<Line>, depth: nat, level: int) {
    |lines| == depth - level && forall i :: 0 <= i < |lines| ==> lines[i] == Level(level + i)
  }

  /** Ten levels, an ellipsis, and the last eleven. */
  ghost predicate CutLevels(lines: seq<Line>, depth: nat, level: int) {
    && |lines| == 22 && lines[10] == Ellipsis
    && (forall i :: 0 <= i < 10 ==> lines[i] == Level(level + i))
    && (forall i :: 11 <= i < 22 ==> lines[i] == Level(depth - 22 + i))
  }

  lemma ReportLines(depth: nat, level: int)
    ensures 0 <= level < depth && depth - 1 - level <= 21 ==> AllLevels(Report(depth, level), depth, level)
    ensures 0 <= level < depth && depth - 1 - level > 21 ==> CutLevels(Report(depth, level), depth, level)
  {
    var r := Report(depth, level);
    if 0 <= level < depth && depth - 1 - level <= 21 {
      forall i | 0 <= i < |r| ensures r[i] == Level(level + i) {
        NthLevel(level, depth, i);
      }
    }
    if 0 <= level < depth && depth - 1 - level > 21 {
      forall i | 0 <= i < 10 ensures r[i] == Level(level + i) {
        NthLevel(level, level + LEVELS1, i);
      }
      forall i | 11 <= i < 22 ensures r[i] == Level(depth - 22 + i) {
        NthLevel(depth - LEVELS2, depth, i - 11);
      }
    }
  }

  ghost predicate Increasing(lines: seq<Line>) {
    forall i, j :: 0 <= i < j < |lines| && lines[i].Level? && lines[j].Level? ==> lines[i].l < lines[j].l
  }

  lemma {:induction false} NthLevel(from: int, end: int, i: nat)
    requires i < |Levels(from, end)|
    ensures Levels(from, end)[i] == Level(from + i)
    decreases end - from
  {
    if i < end - from - 1 {
      NthLevel(from, end - 1, i);
    }
  }

  /** Levels come in strictly increasing order, each exists, and the first and the last are always reported. */
  lemma ReportInOrder(depth: nat, level: int)
    ensures Increasing(Report(depth, level))
    ensures forall line :: line in Report(depth, level) && line.Level? ==> level <= line.l < depth
    ensures HasLevel(depth, level) ==> Level(level) in Report(depth, level) && Level(depth - 1) in Report(depth, level)
  {
    var r := Report(depth, level);
    if HasLevel(depth, level) {
      var cut := depth - 1 - level > LEVELS1 + LEVELS2;
      forall i | 0 <= i < |r| && r[i].Level?
        ensures r[i].l == if !cut || i < LEVELS1 then level + i else depth - LEVELS2 + (i - LEVELS1 - 1)
      {
        if !cut {
          NthLevel(level, depth, i);
        } else if i < LEVELS1 {
          NthLevel(level, level + LEVELS1, i);
        } else {
          NthLevel(depth - LEVELS2, depth, i - LEVELS1 - 1);
        }
      }
      if cut {
        NthLevel(level, level + LEVELS1, 0);
        NthLevel(depth - LEVELS2, depth, LEVELS2 - 1);
        assert r[0] == Level(level) && r[LEVELS1 + LEVELS2] == Level(depth - 1);
      } else {
        NthLevel(level, depth, 0);
        NthLevel(level, depth, depth - level - 1);
        assert r[0] == Level(level) && r[depth - level - 1] == Level(depth - 1);
      }
    }
  }
}
