/** Boost.Tokenizer's `char_separator`, driven by `token_iterator`. */
module CharSeparator {

  /** What counts as a delimiter. A character may satisfy both tests. */
  datatype Delimiters = Delimiters(dropped: char -> bool, kept: char -> bool) {
    predicate Is(c: char) {
      dropped(c) || kept(c)
    }

    /** The first delimiter at or after `i`, or the end. */
    function FieldEnd(s: string, i: nat): (j: nat)
      requires i <= |s|
      ensures i <= j <= |s|
      ensures forall k :: i <= k < j ==> !Is(s[k])
      ensures j < |s| ==> Is(s[j])
      decreases |s| - i
    {
      if i == |s| || Is(s[i]) then i else FieldEnd(s, i + 1)
    }

    /** The tokens from the start of a field: the field, then whatever follows it. */
    function Split(s: string, i: nat): (t: seq<string>)
      requires i <= |s|
      ensures t != []
      decreases |s| - i, 1
    {
      [s[i..FieldEnd(s, i)]] + AfterField(s, FieldEnd(s, i))
    }

    /** The tokens from the end of a field: a kept delimiter is a token of its own. */
    function AfterField(s: string, j: nat): (t: seq<string>)
      requires j <= |s|
      decreases |s| - j, 0
    {
      if j == |s| then []
      else if kept(s[j]) then [[s[j]]] + Split(s, j + 1)
      else Split(s, j + 1)
    }

    /** The tokens when empty fields are dropped. */
    function DropRest(s: string, i: nat): (t: seq<string>)
      requires i <= |s|
      decreases |s| - i
    {
      if i == |s| then []
      else if dropped(s[i]) then DropRest(s, i + 1)
      else if kept(s[i]) then [[s[i]]] + DropRest(s, i + 1)
      else [s[i..FieldEnd(s, i)]] + DropRest(s, FieldEnd(s, i))
    }
  }

  /** What a call finds at `i`, from the start of a field and from its end. */
  lemma SplitStep(d: Delimiters, s: string, i: nat)
    requires i <= |s|
    ensures d.Split(s, i) == [s[i..d.FieldEnd(s, i)]] + d.AfterField(s, d.FieldEnd(s, i))
    ensures i < |s| && d.Is(s[i]) ==> d.FieldEnd(s, i) == i
    ensures d.AfterField(s, i) == if i == |s| then [] else (if d.kept(s[i]) then [[s[i]]] else []) + d.Split(s, i + 1)
  {
  }

  class Separator {
    const delims: Delimiters
    const keepEmpty: bool
    /** Whether tokens are assigned from the iterator range (forward iterators) or built by `+=` (input iterators). */
    const byAssign: bool
    var outputDone: bool

    constructor (delims: Delimiters, keepEmpty: bool, byAssign: bool)
      ensures this.delims == delims && this.keepEmpty == keepEmpty && this.byAssign == byAssign && !outputDone
    {
      this.delims, this.keepEmpty, this.byAssign, outputDone := delims, keepEmpty, byAssign, false;
    }

    /** A copy, in whatever state the original is. */
    constructor Copy(f: Separator)
      ensures delims == f.delims && keepEmpty == f.keepEmpty && byAssign == f.byAssign && outputDone == f.outputDone
    {
      delims, keepEmpty, byAssign, outputDone := f.delims, f.keepEmpty, f.byAssign, f.outputDone;
    }

    /** The tokens still to come. The flag says that the field before `next` is out, and counts only at its end. */
    ghost function Rest(s: string, next: nat): seq<string>
      requires next <= |s|
      reads this
    {
      if !keepEmpty then delims.DropRest(s, next)
      else if outputDone && (next < |s| ==> delims.Is(s[next])) then delims.AfterField(s, next)
      else delims.Split(s, next)
    }

    /** Some calls return a token without consuming input, but never twice in a row. */
    ghost function Measure(s: string, next: nat): nat
      requires next <= |s|
      reads this
    {
      2 * (|s| - next) + if outputDone then 0 else 1
    }

    /** The non-delimiter run from `i`. */
    method ReadField(s: string, i: nat, tok: string) returns (next: nat, t: string)
      requires i <= |s|
      ensures next == delims.FieldEnd(s, i)
      ensures t == if byAssign then tok else tok + s[i..next]
    {
      next, t := i, tok;
      while next < |s| && !delims.dropped(s[next]) && !delims.kept(s[next])
        invariant i <= next <= |s|
        invariant delims.FieldEnd(s, i) == delims.FieldEnd(s, next)
        invariant t == if byAssign then tok else tok + s[i..next]
      {
        if !byAssign {
          t := t + [s[next]];
        }
        next := next + 1;
      }
    }

    /** The branch for `drop_empty_tokens`. */
    method NextNonEmpty(s: string, begin: nat, oldTok: string) returns (found: bool, next: nat, tok: string)
      requires begin <= |s| && !keepEmpty && (!byAssign ==> oldTok == "")
      modifies this
      ensures begin <= next <= |s|
      ensures found <==> old(Rest(s, begin)) != []
      ensures found ==> old(Rest(s, begin)) == [tok] + Rest(s, next)
      ensures found ==> Measure(s, next) < old(Measure(s, begin))
    {
      next, tok := begin, oldTok;
      while next < |s| && delims.dropped(s[next])
        invariant begin <= next <= |s|
        invariant delims.DropRest(s, begin) == delims.DropRest(s, next)
      {
        next := next + 1;
      }
      var start := next;
      if next == |s| {
        return false, next, tok;
      }
      if delims.kept(s[next]) {
        tok := if byAssign then tok else tok + [s[next]];
        next := next + 1;
        assert s[start..next] == [s[start]];
      } else {
        next, tok := ReadField(s, next, tok);
      }
      if byAssign {
        tok := s[start..next];
      }
      assert tok == s[start..next];
      return true, next, tok;
    }

    /** The branch for `keep_empty_tokens`. */
    method NextKeepingEmpty(s: string, begin: nat, oldTok: string) returns (found: bool, next: nat, tok: string)
      requires begin <= |s| && keepEmpty && (!byAssign ==> oldTok == "")
      modifies this
      ensures begin <= next <= |s|
      ensures found <==> old(Rest(s, begin)) != []
      ensures found ==> old(Rest(s, begin)) == [tok] + Rest(s, next)
      ensures found ==> Measure(s, next) < old(Measure(s, begin))
      ensures !found ==> outputDone
    {
      hide Delimiters.Split, Delimiters.AfterField;
      next, tok := begin, oldTok;
      var start := next;
      SplitStep(delims, s, next);
      if next == |s| {
        if !outputDone {
          outputDone := true;
          assert s[start..next] == "";
          return true, next, if byAssign then s[start..next] else tok;
        }
        return false, next, tok;
      }
      if delims.kept(s[next]) {
        if !outputDone {
          outputDone := true;
        } else {
          tok := if byAssign then tok else tok + [s[next]];
          next := next + 1;
          outputDone := false;
          assert s[start..next] == [s[start]];
        }
      } else if !outputDone && delims.dropped(s[next]) {
        outputDone := true;
      } else {
        if delims.dropped(s[next]) {
          next := next + 1;
          start := next;
        }
        SplitStep(delims, s, start);
        next, tok := ReadField(s, next, tok);
        outputDone := true;
      }
      if byAssign {
        tok := s[start..next];
      }
      assert tok == s[start..next];
      return true, next, tok;
    }

    /** `operator()`: one token per call. */
    method Next(s: string, begin: nat, oldTok: string) returns (found: bool, next: nat, tok: string)
      requires begin <= |s|
      modifies this
      ensures begin <= next <= |s|
      ensures found <==> old(Rest(s, begin)) != []
      ensures found ==> old(Rest(s, begin)) == [tok] + Rest(s, next)
      ensures found ==> Measure(s, next) < old(Measure(s, begin))
      ensures keepEmpty && !found ==> outputDone
    {
      var cleared := if byAssign then oldTok else "";
      if keepEmpty {
        found, next, tok := NextKeepingEmpty(s, begin, cleared);
      } else {
        found, next, tok := NextNonEmpty(s, begin, cleared);
      }
    }
  }

  /** `token_iterator` on a copy of `f`: `initialize`, then `increment` as long as the iterator is valid. `used` is its
      `tokenizer_function` in the end. Since `reset` does nothing, a functor that has finished a run in keep mode
      still has its flag set, and run again it misses an empty first field. */
  method Tokenize(f: Separator, s: string) returns (tokens: seq<string>, used: Separator)
    ensures s == "" ==> tokens == []
    ensures s != "" && f.keepEmpty ==>
      tokens == if f.outputDone && f.delims.Is(s[0]) then f.delims.Split(s, 0)[1..] else f.delims.Split(s, 0)
    ensures s != "" && !f.keepEmpty ==> tokens == f.delims.DropRest(s, 0)
    ensures used.delims == f.delims && used.keepEmpty == f.keepEmpty && used.byAssign == f.byAssign
    ensures used.keepEmpty ==> used.outputDone == (f.outputDone || s != "")
  {
    used := new Separator.Copy(f);
    SplitAtDelimiter(f.delims, s);
    hide Delimiters.Split, Delimiters.DropRest, Delimiters.AfterField;
    tokens := [];
    if s == "" {
      return;
    }
    ghost var all := used.Rest(s, 0);
    assert [] + all == all;
    var valid, begin, tok := used.Next(s, 0, "");
    while valid
      invariant used.delims == f.delims && used.keepEmpty == f.keepEmpty && used.byAssign == f.byAssign && fresh(used)
      invariant begin <= |s|
      invariant if valid then all == tokens + ([tok] + used.Rest(s, begin)) else all == tokens + []
      invariant f.keepEmpty && !valid ==> used.outputDone
      decreases valid, used.Measure(s, begin)
    {
      AppendOne(tokens, tok, used.Rest(s, begin));
      tokens := tokens + [tok];
      valid, begin, tok := used.Next(s, begin, tok);
    }
  }

  lemma AppendOne(a: seq<string>, x: string, b: seq<string>)
    ensures a + ([x] + b) == (a + [x]) + b
  {
  }

  lemma SplitAtDelimiter(d: Delimiters, s: string)
    ensures s != "" && d.Is(s[0]) ==> d.AfterField(s, 0) == d.Split(s, 0)[1..]
  {
  }

  // ----- What a split is -----

  /** `s` cut at every delimiter: fields without delimiters, with one delimiter between neighbours. */
  ghost predicate IsCut(d: Delimiters, s: string, fields: seq<string>, marks: string) {
    && |fields| == |marks| + 1
    && (forall i, k :: 0 <= i < |fields| && 0 <= k < |fields[i]| ==> !d.Is(fields[i][k]))
    && (forall i :: 0 <= i < |marks| ==> d.Is(marks[i]))
    && s == Weave(fields, marks)
  }

  ghost function Weave(fields: seq<string>, marks: string): string
    requires |fields| == |marks| + 1
    decreases |marks|
  {
    if marks == "" then fields[0] else fields[0] + [marks[0]] + Weave(fields[1..], marks[1..])
  }

  /** All fields in order, with the kept delimiters between them. */
  ghost function Interleave(d: Delimiters, fields: seq<string>, marks: string): seq<string>
    requires |fields| == |marks| + 1
    decreases |marks|
  {
    if marks == "" then [fields[0]]
    else [fields[0]] + (if d.kept(marks[0]) then [[marks[0]]] else []) + Interleave(d, fields[1..], marks[1..])
  }

  lemma {:induction false} SplitIsCut(d: Delimiters, s: string, i: nat) returns (fields: seq<string>, marks: string)
    requires i <= |s|
    ensures IsCut(d, s[i..], fields, marks) && d.Split(s, i) == Interleave(d, fields, marks)
    decreases |s| - i
  {
    hide IsCut, Interleave;
    var j := d.FieldEnd(s, i);
    var field := s[i..j];
    if j == |s| {
      fields, marks := [field], "";
      LastField(d, field);
      assert s[i..] == field;
      assert d.Split(s, i) == [field];
    } else {
      var fs, ms := SplitIsCut(d, s, j + 1);
      fields, marks := [field] + fs, [s[j]] + ms;
      assert s[i..] == field + [s[j]] + s[j + 1..];
      ExtendCut(d, field, s[j], s[j + 1..], fs, ms);
    }
  }

  lemma LastField(d: Delimiters, field: string)
    requires forall k :: 0 <= k < |field| ==> !d.Is(field[k])
    ensures IsCut(d, field, [field], "") && Interleave(d, [field], "") == [field]
  {
  }

  lemma ExtendCut(d: Delimiters, field: string, mark: char, rest: string, fields: seq<string>, marks: string)
    requires IsCut(d, rest, fields, marks) && d.Is(mark) && forall k :: 0 <= k < |field| ==> !d.Is(field[k])
    ensures IsCut(d, field + [mark] + rest, [field] + fields, [mark] + marks)
    ensures Interleave(d, [field] + fields, [mark] + marks)
         == [field] + (if d.kept(mark) then [[mark]] else []) + Interleave(d, fields, marks)
  {
    assert ([field] + fields)[1..] == fields && ([mark] + marks)[1..] == marks;
  }

  /** The cut of a string is unique, so there is only one answer a split can give. */
  lemma {:induction false} CutUnique(d: Delimiters, s: string, f1: seq<string>, m1: string, f2: seq<string>, m2: string)
    requires IsCut(d, s, f1, m1) && IsCut(d, s, f2, m2)
    ensures f1 == f2 && m1 == m2
    decreases |m1|
  {
    FirstField(d, s, f1, m1);
    FirstField(d, s, f2, m2);
    assert f1[0] == f2[0];
    if m1 != "" {
      assert m1[0] == s[|f1[0]|] == m2[0];
      TailCut(d, s, f1, m1);
      TailCut(d, s, f2, m2);
      CutUnique(d, s[|f1[0]| + 1..], f1[1..], m1[1..], f2[1..], m2[1..]);
      assert f1 == [f1[0]] + f1[1..] && f2 == [f2[0]] + f2[1..];
      assert m1 == [m1[0]] + m1[1..] && m2 == [m2[0]] + m2[1..];
    }
  }

  lemma FirstField(d: Delimiters, s: string, fields: seq<string>, marks: string)
    requires IsCut(d, s, fields, marks)
    ensures |fields[0]| == d.FieldEnd(s, 0) && fields[0] == s[..|fields[0]|]
    ensures marks == "" <==> |fields[0]| == |s|
    ensures marks != "" ==> s[|fields[0]|] == marks[0]
  {
    var n := |fields[0]|;
    assert s[..n] == fields[0];
    forall k | 0 <= k < n ensures !d.Is(s[k]) {
      assert fields[0][k] == s[k];
    }
    assert marks != "" ==> s[n] == marks[0] && d.Is(marks[0]);
    assert d.FieldEnd(s, 0) >= n;
  }

  lemma TailCut(d: Delimiters, s: string, fields: seq<string>, marks: string)
    requires IsCut(d, s, fields, marks) && marks != ""
    ensures |fields[0]| < |s| && IsCut(d, s[|fields[0]| + 1..], fields[1..], marks[1..])
  {
    assert s[|fields[0]| + 1..] == Weave(fields[1..], marks[1..]);
  }

  // ----- Dropping empty fields -----

  ghost function NonEmpty(t: seq<string>): seq<string> {
    if t == [] then [] else (if t[0] == "" then [] else [t[0]]) + NonEmpty(t[1..])
  }

  lemma NonEmptyCons(x: string, t: seq<string>)
    ensures NonEmpty([x] + t) == (if x == "" then [] else [x]) + NonEmpty(t)
  {
    assert ([x] + t)[1..] == t;
  }

  /** A delimiter that is both dropped and kept is dropped in this mode. */
  function DroppedFirst(d: Delimiters): Delimiters {
    Delimiters(d.dropped, c => d.kept(c) && !d.dropped(c))
  }

  lemma {:induction false} SameFieldEnd(d: Delimiters, s: string, i: nat)
    requires i <= |s|
    ensures DroppedFirst(d).FieldEnd(s, i) == d.FieldEnd(s, i)
    decreases |s| - i
  {
    if i < |s| && !d.Is(s[i]) {
      SameFieldEnd(d, s, i + 1);
    }
  }

  /** Drop mode yields the non-empty tokens of the split. */
  lemma {:induction false} DropIsNonEmptySplit(d: Delimiters, s: string, i: nat)
    requires i <= |s|
    ensures d.DropRest(s, i) == NonEmpty(DroppedFirst(d).Split(s, i))
    decreases |s| - i, 1
  {
    var e := DroppedFirst(d);
    var j := d.FieldEnd(s, i);
    SameFieldEnd(d, s, i);
    NonEmptyCons(s[i..j], e.AfterField(s, j));
    DropAfterField(d, s, j);
    if j > i {
      assert !d.Is(s[i]);
    }
  }

  lemma {:induction false} DropAfterField(d: Delimiters, s: string, j: nat)
    requires j <= |s| && (j < |s| ==> d.Is(s[j]))
    ensures d.DropRest(s, j) == NonEmpty(DroppedFirst(d).AfterField(s, j))
    decreases |s| - j, 0
  {
    if j < |s| {
      DropIsNonEmptySplit(d, s, j + 1);
      NonEmptyCons([s[j]], DroppedFirst(d).Split(s, j + 1));
    }
  }

  // ----- What becomes of each character -----

  /** `s` without the characters that satisfy `gone`. */
  ghost function Without(s: string, gone: char -> bool): string {
    if s == "" then "" else (if gone(s[0]) then "" else [s[0]]) + Without(s[1..], gone)
  }

  ghost function Concat(t: seq<string>): string {
    if t == [] then "" else t[0] + Concat(t[1..])
  }

  lemma ConcatCons(x: string, t: seq<string>)
    ensures Concat([x] + t) == x + Concat(t)
  {
    assert ([x] + t)[1..] == t;
  }

  lemma {:induction false} WithoutNone(s: string, i: nat, j: nat, gone: char -> bool)
    requires i <= j <= |s| && forall k :: i <= k < j ==> !gone(s[k])
    ensures Without(s[i..], gone) == s[i..j] + Without(s[j..], gone)
    decreases j - i
  {
    if i == j {
      assert s[i..j] == "";
    } else {
      assert s[i..][1..] == s[i + 1..];
      WithoutNone(s, i + 1, j, gone);
      assert [s[i]] + s[i + 1..j] == s[i..j];
    }
  }

  lemma WithoutFirst(s: string, i: nat, gone: char -> bool)
    requires i < |s|
    ensures Without(s[i..], gone) == (if gone(s[i]) then "" else [s[i]]) + Without(s[i + 1..], gone)
  {
    assert s[i..][1..] == s[i + 1..];
  }

  /** In keep mode exactly the delimiters that are dropped and not kept are missing from the tokens. */
  lemma {:induction false} SplitKeepsCharacters(d: Delimiters, s: string, i: nat)
    requires i <= |s|
    ensures Concat(d.Split(s, i)) == Without(s[i..], c => d.dropped(c) && !d.kept(c))
    decreases |s| - i
  {
    var gone := (c: char) => d.dropped(c) && !d.kept(c);
    var j := d.FieldEnd(s, i);
    WithoutNone(s, i, j, gone);
    ConcatCons(s[i..j], d.AfterField(s, j));
    if j < |s| {
      WithoutFirst(s, j, gone);
      SplitKeepsCharacters(d, s, j + 1);
      ConcatCons([s[j]], d.Split(s, j + 1));
    }
  }

  /** In drop mode exactly the dropped delimiters are missing. */
  lemma {:induction false} DropKeepsCharacters(d: Delimiters, s: string, i: nat)
    requires i <= |s|
    ensures Concat(d.DropRest(s, i)) == Without(s[i..], d.dropped)
    decreases |s| - i
  {
    if i < |s| {
      WithoutFirst(s, i, d.dropped);
      if d.Is(s[i]) {
        DropKeepsCharacters(d, s, i + 1);
        ConcatCons([s[i]], d.DropRest(s, i + 1));
      } else {
        var j := d.FieldEnd(s, i);
        WithoutNone(s, i, j, d.dropped);
        DropKeepsCharacters(d, s, j);
        ConcatCons(s[i..j], d.DropRest(s, j));
      }
    }
  }

  /** A token is a delimiter on its own, or has no delimiter in it. */
  ghost predicate IsToken(d: Delimiters, own: char -> bool, t: string) {
    (|t| == 1 && own(t[0])) || forall k :: 0 <= k < |t| ==> !d.Is(t[k])
  }

  lemma {:induction false} SplitTokens(d: Delimiters, s: string, i: nat)
    requires i <= |s|
    ensures forall t :: t in d.Split(s, i) ==> IsToken(d, d.kept, t)
    decreases |s| - i
  {
    var j := d.FieldEnd(s, i);
    assert IsToken(d, d.kept, s[i..j]);
    if j < |s| {
      SplitTokens(d, s, j + 1);
      assert d.kept(s[j]) ==> IsToken(d, d.kept, [s[j]]);
    }
  }

  lemma {:induction false} DropTokens(d: Delimiters, s: string, i: nat)
    requires i <= |s|
    ensures forall t :: t in d.DropRest(s, i) ==> t != "" && IsToken(d, c => d.kept(c) && !d.dropped(c), t)
    decreases |s| - i
  {
    if i < |s| {
      var own := (c: char) => d.kept(c) && !d.dropped(c);
      if d.Is(s[i]) {
        DropTokens(d, s, i + 1);
        assert own(s[i]) ==> IsToken(d, own, [s[i]]);
      } else {
        DropTokens(d, s, d.FieldEnd(s, i));
        assert IsToken(d, own, s[i..d.FieldEnd(s, i)]);
      }
    }
  }

  lemma NoSuchCharacter(d: Delimiters, s: string, i: nat, j: nat, c: char)
    requires i <= j <= |s| && d.Is(c) && forall k :: i <= k < j ==> !d.Is(s[k])
    ensures multiset(s[i..])[c] == multiset(s[j..])[c] && s[i..j] != [c]
  {
    assert s[i..] == s[i..j] + s[j..];
    assert c !in s[i..j];
  }

  lemma NextCharacter(s: string, j: nat, c: char)
    requires j < |s|
    ensures multiset(s[j..])[c] == (if s[j] == c then 1 else 0) + multiset(s[j + 1..])[c]
  {
    assert s[j..] == [s[j]] + s[j + 1..];
  }

  lemma CountCons(x: string, t: seq<string>, c: char)
    ensures multiset([x] + t)[[c]] == (if x == [c] then 1 else 0) + multiset(t)[[c]]
  {
    assert multiset([x] + t) == multiset{x} + multiset(t);
  }

  lemma SameString(b: char, c: char)
    ensures [b] == [c] <==> b == c
  {
    assert [b][0] == b && [c][0] == c;
  }

  /** In keep mode each kept delimiter is a token of its own as often as it occurs. */
  lemma {:induction false} SplitOccurrences(d: Delimiters, s: string, i: nat, c: char)
    requires i <= |s| && d.kept(c)
    ensures multiset(d.Split(s, i))[[c]] == multiset(s[i..])[c]
    decreases |s| - i
  {
    var j := d.FieldEnd(s, i);
    NoSuchCharacter(d, s, i, j, c);
    CountCons(s[i..j], d.AfterField(s, j), c);
    if j < |s| {
      NextCharacter(s, j, c);
      SplitOccurrences(d, s, j + 1, c);
      CountCons([s[j]], d.Split(s, j + 1), c);
      SameString(s[j], c);
    }
  }

  /** In drop mode so is each delimiter that is kept and not dropped. */
  lemma {:induction false} DropOccurrences(d: Delimiters, s: string, i: nat, c: char)
    requires i <= |s| && d.kept(c) && !d.dropped(c)
    ensures multiset(d.DropRest(s, i))[[c]] == multiset(s[i..])[c]
    decreases |s| - i
  {
    if i < |s| {
      if d.Is(s[i]) {
        NextCharacter(s, i, c);
        DropOccurrences(d, s, i + 1, c);
        CountCons([s[i]], d.DropRest(s, i + 1), c);
        SameString(s[i], c);
      } else {
        var j := d.FieldEnd(s, i);
        NoSuchCharacter(d, s, i, j, c);
        DropOccurrences(d, s, j, c);
        CountCons(s[i..j], d.DropRest(s, j), c);
      }
    }
  }

  ghost function Count(s: string, p: char -> bool): nat {
    if s == "" then 0 else (if p(s[0]) then 1 else 0) + Count(s[1..], p)
  }

  lemma {:induction false} CountNone(s: string, i: nat, j: nat, p: char -> bool)
    requires i <= j <= |s| && forall k :: i <= k < j ==> !p(s[k])
    ensures Count(s[i..], p) == Count(s[j..], p)
    decreases j - i
  {
    if i < j {
      assert s[i..][1..] == s[i + 1..];
      CountNone(s, i + 1, j, p);
    }
  }

  /** In keep mode there is one field more than there are delimiters, and one token more for each kept delimiter. */
  lemma {:induction false} SplitLength(d: Delimiters, s: string, i: nat)
    requires i <= |s|
    ensures |d.Split(s, i)| == 1 + Count(s[i..], c => d.dropped(c) || d.kept(c)) + Count(s[i..], d.kept)
    decreases |s| - i
  {
    var either := (c: char) => d.dropped(c) || d.kept(c);
    var j := d.FieldEnd(s, i);
    CountNone(s, i, j, either);
    CountNone(s, i, j, d.kept);
    if j < |s| {
      assert s[j..][1..] == s[j + 1..];
      SplitLength(d, s, j + 1);
    }
  }

  // ----- Disjoint delimiter sets -----

  ghost predicate Disjoint(d: Delimiters) {
    forall c :: !(d.dropped(c) && d.kept(c))
  }

  lemma {:induction false} DisjointInterleave(d: Delimiters, fields: seq<string>, marks: string)
    requires Disjoint(d) && |fields| == |marks| + 1
    ensures Interleave(DroppedFirst(d), fields, marks) == Interleave(d, fields, marks)
    decreases |marks|
  {
    if marks != "" {
      DisjointInterleave(d, fields[1..], marks[1..]);
    }
  }

  lemma SameCut(d: Delimiters, s: string, fields: seq<string>, marks: string)
    requires IsCut(DroppedFirst(d), s, fields, marks)
    ensures IsCut(d, s, fields, marks)
  {
    assert forall c :: DroppedFirst(d).Is(c) == d.Is(c);
  }

  // ----- Whole runs -----

  /** Keep mode: which characters survive, what a token is, and how many there are. */
  ghost predicate KeepLaws(d: Delimiters, s: string, tokens: seq<string>, missing: nat) {
    && Concat(tokens) == Without(s, c => d.dropped(c) && !d.kept(c))
    && (forall t :: t in tokens ==> IsToken(d, d.kept, t))
    && (forall c :: d.kept(c) ==> multiset(tokens)[[c]] == multiset(s)[c])
    && |tokens| + missing == 1 + Count(s, c => d.dropped(c) || d.kept(c)) + Count(s, d.kept)
  }

  /** Drop mode: the same, and no token is empty. */
  ghost predicate DropLaws(d: Delimiters, s: string, tokens: seq<string>) {
    && Concat(tokens) == Without(s, d.dropped)
    && (forall t :: t in tokens ==> t != "" && IsToken(d, c => d.kept(c) && !d.dropped(c), t))
    && (forall c :: d.kept(c) && !d.dropped(c) ==> multiset(tokens)[[c]] == multiset(s)[c])
  }

  lemma SplitLaws(d: Delimiters, s: string)
    ensures KeepLaws(d, s, d.Split(s, 0), 0)
    ensures d.Split(s, 0)[0] == "" ==> KeepLaws(d, s, d.Split(s, 0)[1..], 1)
  {
    hide Delimiters.Split, IsToken, Count, Without;
    assert s[0..] == s;
    var t := d.Split(s, 0);
    SplitKeepsCharacters(d, s, 0);
    SplitTokens(d, s, 0);
    SplitLength(d, s, 0);
    forall c | d.kept(c) ensures multiset(t)[[c]] == multiset(s)[c] {
      SplitOccurrences(d, s, 0, c);
    }
    assert t == [t[0]] + t[1..];
    if t[0] == "" {
      forall c | d.kept(c) ensures multiset(t[1..])[[c]] == multiset(s)[c] {
        CountCons(t[0], t[1..], c);
      }
    }
  }

  lemma DropRestLaws(d: Delimiters, s: string)
    ensures DropLaws(d, s, d.DropRest(s, 0))
  {
    hide Delimiters.DropRest, IsToken, Without;
    assert s[0..] == s;
    DropKeepsCharacters(d, s, 0);
    DropTokens(d, s, 0);
    forall c | d.kept(c) && !d.dropped(c) ensures multiset(d.DropRest(s, 0))[[c]] == multiset(s)[c] {
      DropOccurrences(d, s, 0, c);
    }
  }

  lemma FirstIsEmpty(d: Delimiters, s: string)
    requires s != "" && d.Is(s[0])
    ensures d.Split(s, 0)[0] == ""
  {
  }

  /** What a user of the tokenizer gets, whichever way tokens are built and wherever the functor comes from. */
  method Fields(f: Separator, s: string) returns (tokens: seq<string>)
    ensures s == "" ==> tokens == []
    ensures s != "" && f.keepEmpty ==> KeepLaws(f.delims, s, tokens, if f.outputDone && f.delims.Is(s[0]) then 1 else 0)
    ensures s != "" && f.keepEmpty ==>
      exists fields, marks ::
        && IsCut(f.delims, s, fields, marks)
        && var all := Interleave(f.delims, fields, marks);
           tokens == if f.outputDone && fields[0] == "" then all[1..] else all
    ensures s != "" && !f.keepEmpty ==> DropLaws(f.delims, s, tokens)
    ensures s != "" && !f.keepEmpty && Disjoint(f.delims) ==>
      exists fields, marks :: IsCut(f.delims, s, fields, marks) && tokens == NonEmpty(Interleave(f.delims, fields, marks))
    ensures s != "" && !f.keepEmpty ==>
      exists fields, marks :: IsCut(f.delims, s, fields, marks)
                           && tokens == NonEmpty(Interleave(DroppedFirst(f.delims), fields, marks))
  {
    hide Delimiters.Split, Delimiters.DropRest, Interleave, NonEmpty, KeepLaws, DropLaws, Disjoint;
    var used;
    tokens, used := Tokenize(f, s);
    assert s[0..] == s;
    if s == "" {
      return;
    }
    if f.keepEmpty {
      ghost var fields, marks := SplitIsCut(f.delims, s, 0);
      FirstField(f.delims, s, fields, marks);
      SplitLaws(f.delims, s);
      if f.delims.Is(s[0]) {
        FirstIsEmpty(f.delims, s);
      }
    } else {
      DropIsNonEmptySplit(f.delims, s, 0);
      DropRestLaws(f.delims, s);
      ghost var fields, marks := SplitIsCut(DroppedFirst(f.delims), s, 0);
      SameCut(f.delims, s, fields, marks);
      if Disjoint(f.delims) {
        DisjointInterleave(f.delims, fields, marks);
      }
    }
  }
}
