/** Boost.Tokenizer's `escaped_list_separator`, driven by `token_iterator`. */
module EscapedList {
  import opened Wrappers

  /** One call of the tokenizer function: a token, or no more tokens. */
  datatype Item = Token(tok: string) | End

  /** A field, what is left after it, and whether it ended at a separator. */
  datatype Field = Field(tok: string, rest: string, last: bool)

  /** The characters with a special role; they may overlap. */
  datatype Format = Format(escape: string, c: string, quote: string) {
    predicate Special(ch: char) {
      ch in quote || ch in c || ch in escape
    }

    /** What an escape sequence stands for. */
    function Unescape(ch: char): Result<char> {
      if ch == 'n' then Ok('\n') else if Special(ch) then Ok(ch) else Error("unknown escape sequence")
    }

    /** Reading a field from the front of `s`, given what has been read of it. */
    function Read(s: string, inQuote: bool, tok: string): (r: Result<Field>)
      ensures r.Ok? ==> |r.value.rest| <= |s| && (r.value.last ==> |r.value.rest| < |s|)
      ensures r.Ok? && !r.value.last ==> r.value.rest == ""
      decreases |s|
    {
      if s == "" then Ok(Field(tok, "", false))
      else if s[0] in escape then
        if |s| == 1 then Error("cannot end with escape")
        else
          var u := Unescape(s[1]);
          if u.Error? then Error(u.what) else Read(s[2..], inQuote, tok + [u.value])
      else if s[0] in c then
        if inQuote then Read(s[1..], inQuote, tok + [s[0]]) else Ok(Field(tok, s[1..], true))
      else if s[0] in quote then Read(s[1..], !inQuote, tok)
      else Read(s[1..], inQuote, tok + [s[0]])
    }

    /** All tokens from a point where `last` says whether a separator has just been passed. */
    function ReadAll(s: string, last: bool): (r: Result<seq<string>>)
      decreases |s|
    {
      if s == "" then Ok(if last then [""] else [])
      else
        var f := Read(s, false, "");
        if f.Error? then Error(f.what)
        else if !f.value.last then Ok([f.value.tok])
        else
          var fs := ReadAll(f.value.rest, true);
          if fs.Error? then fs else Ok([f.value.tok] + fs.value)
    }
  }

  /** One turn of the reading loop, at position `i` of the whole input. */
  lemma ReadStep(format: Format, s: string, i: nat, inQuote: bool, tok: string)
    requires i < |s|
    ensures var r := format.Read(s[i..], inQuote, tok);
            if s[i] in format.escape then
              if i + 1 == |s| then r == Error("cannot end with escape")
              else
                var u := format.Unescape(s[i + 1]);
                if u.Error? then r == Error(u.what) else r == format.Read(s[i + 2..], inQuote, tok + [u.value])
            else if s[i] in format.c then
              if inQuote then r == format.Read(s[i + 1..], inQuote, tok + [s[i]]) else r == Ok(Field(tok, s[i + 1..], true))
            else if s[i] in format.quote then r == format.Read(s[i + 1..], !inQuote, tok)
            else r == format.Read(s[i + 1..], inQuote, tok + [s[i]])
  {
    var t := s[i..];
    assert t[1..] == s[i + 1..];
    assert i + 1 < |s| ==> t[2..] == s[i + 2..] && t[1] == s[i + 1];
  }

  lemma ReadEnd(format: Format, s: string, inQuote: bool, tok: string)
    ensures format.Read(s[|s|..], inQuote, tok) == Ok(Field(tok, s[|s|..], false))
  {
    assert s[|s|..] == "";
  }

  class Separator {
    const format: Format
    var last: bool

    constructor (format: Format)
      ensures this.format == format && !last
    {
      this.format, last := format, false;
    }

    /** `do_escape`: `i` is the escape character; the result is the position of the character it escapes. */
    method DoEscape(s: string, i: nat, tok: string) returns (r: Result<string>, next: nat)
      requires i < |s|
      ensures i + 1 == |s| ==> r == Error("cannot end with escape")
      ensures i + 1 < |s| && s[i + 1] == 'n' ==> r == Ok(tok + ['\n'])
      ensures i + 1 < |s| && s[i + 1] != 'n' && s[i + 1] in format.escape + format.c + format.quote ==> r == Ok(tok + [s[i + 1]])
      ensures i + 1 < |s| && s[i + 1] != 'n' && s[i + 1] !in format.escape + format.c + format.quote ==>
        r == Error("unknown escape sequence")
      ensures r.Ok? ==> next == i + 1
    {
      next := i + 1;
      if next == |s| {
        return Error("cannot end with escape"), next;
      }
      if s[next] == 'n' {
        return Ok(tok + ['\n']), next;
      } else if s[next] in format.quote {
        return Ok(tok + [s[next]]), next;
      } else if s[next] in format.c {
        return Ok(tok + [s[next]]), next;
      } else if s[next] in format.escape {
        return Ok(tok + [s[next]]), next;
      }
      return Error("unknown escape sequence"), next;
    }

    /** `operator()`. */
    method Next(s: string, begin: nat) returns (r: Result<Item>, next: nat)
      requires begin <= |s|
      modifies this
      ensures begin == |s| ==> r == Ok(if old(last) then Token("") else End) && next == begin && !last
      ensures begin < |s| ==>
        var f := format.Read(s[begin..], false, "");
        if f.Error? then r == Error(f.what)
        else r == Ok(Token(f.value.tok)) && begin <= next <= |s| && s[next..] == f.value.rest && last == f.value.last
    {
      hide Format.Read;
      next := begin;
      if next == |s| {
        if last {
          last := false;
          return Ok(Token("")), next;
        }
        return Ok(End), next;
      }
      var inQuote, tok := false, "";
      last := false;
      while next != |s|
        invariant begin <= next <= |s| && !last
        invariant format.Read(s[begin..], false, "") == format.Read(s[next..], inQuote, tok)
        decreases |s| - next
      {
        ReadStep(format, s, next, inQuote, tok);
        if s[next] in format.escape {
          var e;
          e, next := DoEscape(s, next, tok);
          if e.Error? {
            return Error(e.what), next;
          }
          tok := e.value;
        } else if s[next] in format.c {
          if !inQuote {
            next := next + 1;
            last := true;
            return Ok(Token(tok)), next;
          }
          tok := tok + [s[next]];
        } else if s[next] in format.quote {
          inQuote := !inQuote;
        } else {
          tok := tok + [s[next]];
        }
        next := next + 1;
      }
      ReadEnd(format, s, inQuote, tok);
      return Ok(Token(tok)), next;
    }
  }

  /** The tokens so far, followed by the tokens of the rest, are all the tokens. */
  ghost predicate Continues(format: Format, all: Result<seq<string>>, tokens: seq<string>, rest: string, last: bool) {
    var r := format.ReadAll(rest, last);
    if r.Error? then all == r else all == Ok(tokens + r.value)
  }

  lemma OneMore(format: Format, all: Result<seq<string>>, tokens: seq<string>, s: string, last: bool, tok: string, rest: string, last': bool)
    requires Continues(format, all, tokens, s, last)
    requires if s == "" then last && tok == "" && rest == "" && !last' else format.Read(s, false, "") == Ok(Field(tok, rest, last'))
    ensures Continues(format, all, tokens + [tok], rest, last')
  {
    var r := format.ReadAll(rest, last');
    if r.Ok? {
      assert tokens + ([tok] + r.value) == tokens + [tok] + r.value;
      assert [tok] + [] == [tok];
    }
  }

  /** `token_iterator`: `initialize` leaves an empty input without tokens, then `increment` until invalid. */
  method Tokenize(format: Format, s: string) returns (r: Result<seq<string>>)
    ensures r == format.ReadAll(s, false)
  {
    hide Format.Read;
    var f := new Separator(format);
    var begin: nat, tokens: seq<string> := 0, [];
    var valid := begin != |s|;
    ghost var all := format.ReadAll(s, false);
    assert s[0..] == s;
    assert all.Ok? ==> [] + all.value == all.value;
    while valid
      invariant begin <= |s| && f.format == format
      invariant Continues(format, all, tokens, s[begin..], f.last)
      invariant !valid ==> begin == |s| && !f.last
      decreases valid, |s| - begin, f.last
    {
      ghost var t, was := s[begin..], f.last;
      var item;
      item, begin := f.Next(s, begin);
      if item.Error? {
        return Error(item.what);
      }
      valid := item.value.Token?;
      if valid {
        OneMore(format, all, tokens, t, was, item.value.tok, s[begin..], f.last);
        tokens := tokens + [item.value.tok];
      }
    }
    assert s[begin..] == "" && tokens + [] == tokens;
    return Ok(tokens);
  }

  // ----- Writing a list so that it reads back -----

  /** How a list is written: the escape, quote and separator characters to use. */
  datatype Style = Style(e: char, q: char, sep: char) {
    /** The quote character is one, and only one, for the reader. */
    predicate CanQuote(format: Format) {
      q in format.quote && q !in format.c && q !in format.escape
    }

    /** The characters used for a field have the roles they are used in; those not used may be anything. */
    predicate FitsField(format: Format, field: string, quoted: bool) {
      && (quoted ==> CanQuote(format))
      && forall i :: 0 <= i < |field| && NeedsEscape(format, field[i], quoted) ==> e in format.escape
    }

    predicate FitsList(format: Format, fields: seq<string>, quoted: seq<bool>)
      requires |fields| == |quoted|
    {
      && (forall i :: 0 <= i < |fields| ==> FitsField(format, fields[i], quoted[i]))
      && (|fields| >= 2 ==> sep in format.c)
    }
  }

  /** Inside quotes a separator needs no escape. */
  predicate NeedsEscape(format: Format, ch: char, quoted: bool) {
    ch in format.escape || ch in format.quote || (!quoted && ch in format.c)
  }

  function EscapeChar(format: Format, e: char, ch: char, quoted: bool): string {
    if NeedsEscape(format, ch, quoted) then [e, ch] else [ch]
  }

  function Escape(format: Format, e: char, field: string, quoted: bool): string {
    if field == "" then "" else EscapeChar(format, e, field[0], quoted) + Escape(format, e, field[1..], quoted)
  }

  function Write(format: Format, style: Style, field: string, quoted: bool): string {
    if quoted then [style.q] + Escape(format, style.e, field, true) + [style.q]
    else Escape(format, style.e, field, false)
  }

  /** Fields written one way or the other, with the separator between them. */
  function Join(format: Format, style: Style, fields: seq<string>, quoted: seq<bool>): string
    requires |fields| == |quoted|
  {
    if fields == [] then ""
    else if |fields| == 1 then Write(format, style, fields[0], quoted[0])
    else Write(format, style, fields[0], quoted[0]) + [style.sep] + Join(format, style, fields[1..], quoted[1..])
  }

  /** An escaped 'n' reads as a newline. */
  function Survivor(format: Format, ch: char, quoted: bool): char {
    if ch == 'n' && NeedsEscape(format, ch, quoted) then '\n' else ch
  }

  function Survived(format: Format, field: string, quoted: bool): (r: string)
    ensures |r| == |field|
  {
    seq(|field|, i requires 0 <= i < |field| => Survivor(format, field[i], quoted))
  }

  function AllSurvived(format: Format, fields: seq<string>, quoted: seq<bool>): (r: seq<string>)
    requires |fields| == |quoted|
    ensures |r| == |fields|
  {
    seq(|fields|, i requires 0 <= i < |fields| => Survived(format, fields[i], quoted[i]))
  }

  lemma ReadOne(format: Format, e: char, ch: char, quoted: bool, tail: string, tok: string)
    requires NeedsEscape(format, ch, quoted) ==> e in format.escape
    ensures format.Read(EscapeChar(format, e, ch, quoted) + tail, quoted, tok)
         == format.Read(tail, quoted, tok + [Survivor(format, ch, quoted)])
  {
    assert ([e, ch] + tail)[2..] == tail && ([ch] + tail)[1..] == tail;
  }

  lemma {:induction false} ReadEscaped(format: Format, e: char, field: string, quoted: bool, rest: string, tok: string)
    requires forall i :: 0 <= i < |field| && NeedsEscape(format, field[i], quoted) ==> e in format.escape
    ensures format.Read(Escape(format, e, field, quoted) + rest, quoted, tok)
         == format.Read(rest, quoted, tok + Survived(format, field, quoted))
    decreases |field|
  {
    hide Format.Read;
    if field == "" {
      assert Escape(format, e, field, quoted) + rest == rest;
      assert tok + Survived(format, field, quoted) == tok;
    } else {
      var tok' := tok + [Survivor(format, field[0], quoted)];
      var tail := Escape(format, e, field[1..], quoted) + rest;
      assert Escape(format, e, field, quoted) + rest == EscapeChar(format, e, field[0], quoted) + tail;
      ReadOne(format, e, field[0], quoted, tail, tok);
      ReadEscaped(format, e, field[1..], quoted, rest, tok');
      assert tok' + Survived(format, field[1..], quoted) == tok + Survived(format, field, quoted);
    }
  }

  lemma ReadQuote(format: Format, q: char, inQuote: bool, tail: string, tok: string)
    requires q in format.quote && q !in format.c && q !in format.escape
    ensures format.Read([q] + tail, inQuote, tok) == format.Read(tail, !inQuote, tok)
  {
    assert ([q] + tail)[1..] == tail;
  }

  /** A written field, or part of a field: what has been read of it before stays, and so does what follows. */
  lemma ReadWritten(format: Format, style: Style, field: string, quoted: bool, rest: string, tok: string)
    requires style.FitsField(format, field, quoted)
    ensures format.Read(Write(format, style, field, quoted) + rest, false, tok)
         == format.Read(rest, false, tok + Survived(format, field, quoted))
  {
    hide Format.Read, Escape;
    var q, body := style.q, Escape(format, style.e, field, quoted);
    if quoted {
      assert Write(format, style, field, quoted) + rest == [q] + (body + ([q] + rest));
      ReadQuote(format, q, false, body + ([q] + rest), tok);
      ReadEscaped(format, style.e, field, true, [q] + rest, tok);
      ReadQuote(format, q, true, rest, tok + Survived(format, field, true));
    } else {
      ReadEscaped(format, style.e, field, false, rest, tok);
    }
  }

  /** At the start of a field. */
  lemma ReadFirst(format: Format, style: Style, field: string, quoted: bool, rest: string)
    requires style.FitsField(format, field, quoted)
    ensures format.Read(Write(format, style, field, quoted) + rest, false, "")
         == format.Read(rest, false, Survived(format, field, quoted))
  {
    hide Format.Read, Write, Survived;
    ReadWritten(format, style, field, quoted, rest, "");
    assert "" + Survived(format, field, quoted) == Survived(format, field, quoted);
  }

  /** A quote that is never closed extends to the end of the input. */
  lemma OpenQuote(format: Format, style: Style, field: string)
    requires style.FitsField(format, field, true)
    ensures format.ReadAll([style.q] + Escape(format, style.e, field, true), false) == Ok([Survived(format, field, true)])
  {
    var body, out := Escape(format, style.e, field, true), Survived(format, field, true);
    hide Format.Read, Escape, Survived;
    ReadQuote(format, style.q, false, body, "");
    assert body + "" == body && "" + out == out;
    ReadEscaped(format, style.e, field, true, "", "");
    ReadEnd(format, "", true, out);
  }

  lemma ReadSeparator(format: Format, sep: char, tail: string, tok: string)
    requires sep in format.c && sep !in format.escape
    ensures format.Read([sep] + tail, false, tok) == Ok(Field(tok, tail, true))
  {
    assert ([sep] + tail)[1..] == tail;
  }

  lemma EmptyWrite(format: Format, style: Style, field: string, quoted: bool)
    ensures Write(format, style, field, quoted) == "" <==> field == "" && !quoted
  {
  }

  lemma {:induction false} ReadJoined(format: Format, style: Style, fields: seq<string>, quoted: seq<bool>, last: bool)
    requires fields != [] && |fields| == |quoted| && style.FitsList(format, fields, quoted)
    requires |fields| >= 2 ==> style.sep !in format.escape
    requires last || Join(format, style, fields, quoted) != ""
    ensures format.ReadAll(Join(format, style, fields, quoted), last) == Ok(AllSurvived(format, fields, quoted))
    decreases |fields|
  {
    hide Format.Read, Write, Survived;
    var text, out := Join(format, style, fields, quoted), AllSurvived(format, fields, quoted);
    var first := Survived(format, fields[0], quoted[0]);
    EmptyWrite(format, style, fields[0], quoted[0]);
    if |fields| == 1 {
      assert out == [first];
      if text == "" {
        assert first == "";
      } else {
        assert text + "" == text;
        ReadFirst(format, style, fields[0], quoted[0], "");
        ReadEnd(format, "", false, first);
      }
    } else {
      var tail := Join(format, style, fields[1..], quoted[1..]);
      assert text == Write(format, style, fields[0], quoted[0]) + ([style.sep] + tail);
      ReadFirst(format, style, fields[0], quoted[0], [style.sep] + tail);
      ReadSeparator(format, style.sep, tail, first);
      ReadJoined(format, style, fields[1..], quoted[1..], true);
      assert out == [first] + AllSurvived(format, fields[1..], quoted[1..]);
    }
  }

  /** Reading only adds to what has been read of a field. */
  lemma {:induction false} ReadExtends(format: Format, s: string, inQuote: bool, tok: string)
    ensures format.Read(s, inQuote, tok).Ok? ==> |format.Read(s, inQuote, tok).value.tok| >= |tok|
    decreases |s|
  {
    if s != "" {
      if |s| >= 2 && s[0] in format.escape && format.Unescape(s[1]).Ok? {
        ReadExtends(format, s[2..], inQuote, tok + [format.Unescape(s[1]).value]);
      } else if s[0] !in format.escape {
        ReadExtends(format, s[1..], inQuote, tok + [s[0]]);
        ReadExtends(format, s[1..], !inQuote, tok);
      }
    }
  }

  /** A separator that is an escape character swallows what follows it into the field before. */
  lemma ReadEscapingSeparator(format: Format, sep: char, tail: string, tok: string)
    requires sep in format.escape
    ensures var r := format.Read([sep] + tail, false, tok); r.Ok? ==> |r.value.tok| > |tok|
  {
    var s := [sep] + tail;
    if tail != "" && format.Unescape(tail[0]).Ok? {
      assert s[2..] == tail[1..];
      ReadExtends(format, tail[1..], false, tok + [format.Unescape(tail[0]).value]);
    }
  }

  lemma EscapingSeparator(format: Format, style: Style, fields: seq<string>, quoted: seq<bool>)
    requires |fields| == |quoted| >= 2 && style.FitsList(format, fields, quoted) && style.sep in format.escape
    ensures format.ReadAll(Join(format, style, fields, quoted), false) != Ok(fields)
  {
    hide Format.Read, Write;
    var text, tail := Join(format, style, fields, quoted), Join(format, style, fields[1..], quoted[1..]);
    assert text == Write(format, style, fields[0], quoted[0]) + ([style.sep] + tail);
    ReadFirst(format, style, fields[0], quoted[0], [style.sep] + tail);
    ReadEscapingSeparator(format, style.sep, tail, Survived(format, fields[0], quoted[0]));
  }

  /** When a list, each field escaped or quoted, reads back unchanged: it is not the one empty field without quotes,
      the separator is not an escape character, and no field holds an 'n' that had to be escaped. */
  lemma ListRoundTrip(format: Format, style: Style, fields: seq<string>, quoted: seq<bool>)
    requires |fields| == |quoted| && style.FitsList(format, fields, quoted)
    ensures format.ReadAll(Join(format, style, fields, quoted), false) == Ok(fields)
       <==> && !(fields == [""] && !quoted[0])
            && (|fields| >= 2 ==> style.sep !in format.escape)
            && forall i :: 0 <= i < |fields| && 'n' in fields[i] ==> !NeedsEscape(format, 'n', quoted[i])
  {
    hide Format.Read, Style.FitsList;
    if fields == [""] && !quoted[0] {
      assert Join(format, style, fields, quoted) == "";
    } else if |fields| >= 2 && style.sep in format.escape {
      EscapingSeparator(format, style, fields, quoted);
    } else if fields != [] {
      NonEmptyJoin(format, style, fields, quoted);
      ReadJoined(format, style, fields, quoted, false);
      SurvivedUnchanged(format, fields, quoted);
    }
  }

  // ----- Escapes at the end of a written list -----

  /** A written list with more text in its last field. */
  lemma {:induction false} ReadJoinedThen(format: Format, style: Style, fields: seq<string>, quoted: seq<bool>, more: string, last: bool)
    requires fields != [] && |fields| == |quoted| && style.FitsList(format, fields, quoted)
    requires |fields| >= 2 ==> style.sep !in format.escape
    requires more != ""
    ensures var k := |fields| - 1;
            var r := format.ReadAll(Join(format, style, fields, quoted) + more, last);
            var f := format.Read(more, false, Survived(format, fields[k], quoted[k]));
            && (f.Error? ==> r == Error(f.what))
            && (f.Ok? && !f.value.last ==> r == Ok(AllSurvived(format, fields, quoted)[..k] + [f.value.tok]))
    decreases |fields|
  {
    hide Format.Read, Write, AllSurvived, Style.FitsList;
    var text, k := Join(format, style, fields, quoted) + more, |fields| - 1;
    var first := Survived(format, fields[0], quoted[0]);
    var out, rest := AllSurvived(format, fields, quoted), AllSurvived(format, fields[1..], quoted[1..]);
    var f := format.Read(more, false, Survived(format, fields[k], quoted[k]));
    FitsTail(format, style, fields, quoted);
    SurvivedTail(format, fields, quoted);
    if k == 0 {
      ReadFirst(format, style, fields[0], quoted[0], more);
      assert f.Ok? ==> out[..k] + [f.value.tok] == [f.value.tok];
    } else {
      var tail := Join(format, style, fields[1..], quoted[1..]) + more;
      assert text == Write(format, style, fields[0], quoted[0]) + ([style.sep] + tail);
      ReadFirst(format, style, fields[0], quoted[0], [style.sep] + tail);
      ReadSeparator(format, style.sep, tail, first);
      ReadJoinedThen(format, style, fields[1..], quoted[1..], more, true);
      assert f.Ok? ==> [first] + (rest[..k - 1] + [f.value.tok]) == out[..k] + [f.value.tok];
    }
  }

  lemma SurvivedTail(format: Format, fields: seq<string>, quoted: seq<bool>)
    requires fields != [] && |fields| == |quoted|
    ensures AllSurvived(format, fields, quoted)
         == [Survived(format, fields[0], quoted[0])] + AllSurvived(format, fields[1..], quoted[1..])
  {
  }

  lemma FitsTail(format: Format, style: Style, fields: seq<string>, quoted: seq<bool>)
    requires fields != [] && |fields| == |quoted| && style.FitsList(format, fields, quoted)
    ensures style.FitsField(format, fields[0], quoted[0]) && style.FitsList(format, fields[1..], quoted[1..])
    ensures |fields| >= 2 ==> style.sep in format.c
  {
  }

  /** After any written list, an escape character with nothing behind it, or with a character behind it that has no
      escape sequence, is an error; an escaped 'n' adds a newline to the last field, and an escaped special character
      adds itself. */
  lemma EscapeAfterList(format: Format, style: Style, fields: seq<string>, quoted: seq<bool>, e: char, ch: char, rest: string)
    requires fields != [] && |fields| == |quoted| && style.FitsList(format, fields, quoted)
    requires (|fields| >= 2 ==> style.sep !in format.escape) && e in format.escape
    ensures var text := Join(format, style, fields, quoted);
            var k, out := |fields| - 1, AllSurvived(format, fields, quoted);
            && format.ReadAll(text + [e], false) == Error("cannot end with escape")
            && (ch != 'n' && ch !in format.escape && ch !in format.c && ch !in format.quote ==>
                format.ReadAll(text + ([e, ch] + rest), false) == Error("unknown escape sequence"))
            && format.ReadAll(text + [e, 'n'], false) == Ok(out[..k] + [out[k] + "\n"])
            && (ch != 'n' && (ch in format.escape || ch in format.c || ch in format.quote) ==>
                format.ReadAll(text + [e, ch], false) == Ok(out[..k] + [out[k] + [ch]]))
  {
    var k := |fields| - 1;
    var tok := Survived(format, fields[k], quoted[k]);
    ReadEscape(format, e, ch, rest, tok);
    ReadEscape(format, e, 'n', "", tok);
    ReadEscape(format, e, ch, "", tok);
    assert [e, 'n'] + "" == [e, 'n'] && [e, ch] + "" == [e, ch];
    hide Format.Read, Format.ReadAll, Join, Survived, Style.FitsList;
    ReadJoinedThen(format, style, fields, quoted, [e], false);
    ReadJoinedThen(format, style, fields, quoted, [e, ch] + rest, false);
    ReadJoinedThen(format, style, fields, quoted, [e, 'n'], false);
    ReadJoinedThen(format, style, fields, quoted, [e, ch], false);
  }

  /** The tokenizer run on a written list with a lone escape character behind it, and with an escape sequence. */
  method RunWithEscape(format: Format, style: Style, fields: seq<string>, quoted: seq<bool>, e: char, ch: char, rest: string)
    returns (lone: Result<seq<string>>, sequence: Result<seq<string>>)
    requires fields != [] && |fields| == |quoted| && style.FitsList(format, fields, quoted)
    requires (|fields| >= 2 ==> style.sep !in format.escape) && e in format.escape
    ensures lone == Error("cannot end with escape")
    ensures ch != 'n' && ch !in format.escape && ch !in format.c && ch !in format.quote ==>
      sequence == Error("unknown escape sequence")
  {
    hide Format.ReadAll, Join, Style.FitsList;
    var text := Join(format, style, fields, quoted);
    lone := Tokenize(format, text + [e]);
    sequence := Tokenize(format, text + ([e, ch] + rest));
    EscapeAfterList(format, style, fields, quoted, e, ch, rest);
  }

  lemma ReadEscape(format: Format, e: char, ch: char, rest: string, tok: string)
    requires e in format.escape
    ensures format.Read([e], false, tok) == Error("cannot end with escape")
    ensures var r := format.Read([e, ch] + rest, false, tok);
            if ch == 'n' then r == format.Read(rest, false, tok + "\n")
            else if ch in format.escape || ch in format.c || ch in format.quote then r == format.Read(rest, false, tok + [ch])
            else r == Error("unknown escape sequence")
    ensures format.Read("", false, tok) == Ok(Field(tok, "", false))
  {
    assert ([e, ch] + rest)[2..] == rest;
  }

  /** Without quotes, in any format, quote characters or none: if 'n' is not special and the separator not an
      escape character, escaping every special character loses the single empty field and nothing else. */
  lemma EscapedRoundTrip(format: Format, style: Style, fields: seq<string>)
    requires style.FitsList(format, fields, seq(|fields|, _ => false))
    requires style.sep !in format.escape && !format.Special('n')
    ensures format.ReadAll(Join(format, style, fields, seq(|fields|, _ => false)), false) == Ok(fields) <==> fields != [""]
  {
    hide Format.Read, Join, Style.FitsList;
    ListRoundTrip(format, style, fields, seq(|fields|, _ => false));
  }

  /** The tokenizer run on a written list. */
  method ReadBack(format: Format, style: Style, fields: seq<string>, quoted: seq<bool>) returns (r: Result<seq<string>>)
    requires |fields| == |quoted| && style.FitsList(format, fields, quoted)
    ensures r == Ok(fields)
       <==> && !(fields == [""] && !quoted[0])
            && (|fields| >= 2 ==> style.sep !in format.escape)
            && forall i :: 0 <= i < |fields| && 'n' in fields[i] ==> !NeedsEscape(format, 'n', quoted[i])
  {
    hide Format.ReadAll, Join, Style.FitsList;
    r := Tokenize(format, Join(format, style, fields, quoted));
    ListRoundTrip(format, style, fields, quoted);
  }

  lemma NonEmptyJoin(format: Format, style: Style, fields: seq<string>, quoted: seq<bool>)
    requires |fields| == |quoted| && fields != [] && !(fields == [""] && !quoted[0])
    ensures Join(format, style, fields, quoted) != ""
  {
    if |fields| == 1 {
      assert fields == [fields[0]];
      EmptyWrite(format, style, fields[0], quoted[0]);
    }
  }

  lemma SurvivedUnchanged(format: Format, fields: seq<string>, quoted: seq<bool>)
    requires |fields| == |quoted|
    ensures AllSurvived(format, fields, quoted) == fields
       <==> forall i :: 0 <= i < |fields| && 'n' in fields[i] ==> !NeedsEscape(format, 'n', quoted[i])
  {
    var out := AllSurvived(format, fields, quoted);
    if i :| 0 <= i < |fields| && 'n' in fields[i] && NeedsEscape(format, 'n', quoted[i]) {
      var k :| 0 <= k < |fields[i]| && fields[i][k] == 'n';
      assert out[i][k] == '\n';
    } else {
      forall i | 0 <= i < |fields| ensures out[i] == fields[i] {
        forall k | 0 <= k < |fields[i]| ensures out[i][k] == fields[i][k] {
        }
      }
    }
  }
}
