/** `b_str2int` and the explicit-base branch of `tonumber`. */
module LuaToNumber {
  import opened Wrappers
  import NumberTheory

  const MODULUS := 0x1_0000_0000_0000_0000

  /** A C string: reading at its end yields the terminator. */
  function At(s: string, i: nat): char {
    if i < |s| then s[i] else 0 as char
  }

  predicate IsSpace(c: char) {
    c == ' ' || 9 <= c as int <= 13
  }

  predicate IsDigit(c: char) {
    '0' <= c <= '9'
  }

  predicate IsAlnum(c: char) {
    IsDigit(c) || 'A' <= c <= 'Z' || 'a' <= c <= 'z'
  }

  /** The value of a digit character; letters of either case count on from ten. */
  function Digit(c: char): int
    requires IsAlnum(c)
  {
    if IsDigit(c) then c as int - '0' as int
    else if 'a' <= c <= 'z' then c as int - 'a' as int + 10
    else c as int - 'A' as int + 10
  }

  /** The first position from `i` on that does not hold a space. */
  function SpacesEnd(s: string, i: nat): (j: nat)
    requires i <= |s|
    ensures i <= j <= |s| && !IsSpace(At(s, j)) && forall k :: i <= k < j ==> IsSpace(s[k])
    decreases |s| - i
  {
    if IsSpace(At(s, i)) then SpacesEnd(s, i + 1) else i
  }

  function AlnumEnd(s: string, i: nat): (j: nat)
    requires i <= |s|
    ensures i <= j <= |s| && !IsAlnum(At(s, j)) && forall k :: i <= k < j ==> IsAlnum(s[k])
    decreases |s| - i
  {
    if IsAlnum(At(s, i)) then AlnumEnd(s, i + 1) else i
  }

  predicate AllAlnum(ds: string) {
    forall k :: 0 <= k < |ds| ==> IsAlnum(ds[k])
  }

  predicate AllBelow(ds: string, base: int)
    requires AllAlnum(ds)
  {
    forall k :: 0 <= k < |ds| ==> Digit(ds[k]) < base
  }

  /** The number a digit string stands for. */
  function Numeral(ds: string, base: int): int
    requires AllAlnum(ds)
    decreases |ds|
  {
    if ds == "" then 0 else Numeral(ds[..|ds| - 1], base) * base + Digit(ds[|ds| - 1])
  }

  /** The 64-bit two's-complement integer congruent to `x`. */
  function Signed(x: int): int {
    FromUnsigned(x % MODULUS)
  }

  /** The conversion from `lua_Unsigned` to `lua_Integer`. */
  function FromUnsigned(u: int): int {
    if u < MODULUS / 2 then u else u - MODULUS
  }

  /** Spaces, an optional sign, a run of alphanumerics whose digits must all be below the base, and spaces:
      where parsing stops, and the numeral's value modulo 2^64. */
  function Parse(s: string, base: int): Option<(nat, int)> {
    var i := SpacesEnd(s, 0);
    var neg := At(s, i) == '-';
    var start := if neg || At(s, i) == '+' then i + 1 else i;
    var end := AlnumEnd(s, start);
    if end == start || !AllBelow(s[start..end], base) then None
    else
      var n := Numeral(s[start..end], base);
      Some((SpacesEnd(s, end), Signed(if neg then -n else n)))
  }

  lemma ModStep(n: int, base: int, d: int)
    ensures (n % MODULUS * base + d) % MODULUS == (n * base + d) % MODULUS
  {
    var q, r := n / MODULUS, n % MODULUS;
    var x := r * base + d;
    var y := x % MODULUS;
    var t := x / MODULUS;
    assert n * base + d == MODULUS * (q * base + t) + y by {
      assert n * base == (MODULUS * q + r) * base == MODULUS * (q * base) + r * base;
    }
    NumberTheory.RemainderUnique(n * base + d, MODULUS, q * base + t, y);
  }

  lemma ModNegate(n: int)
    ensures (0 - n % MODULUS) % MODULUS == -n % MODULUS
  {
  }

  lemma NoDigits(s: string, start: nat, base: int)
    requires start <= |s|
    ensures AllBelow(s[start..start], base) && Numeral(s[start..start], base) == 0
  {
  }

  lemma OneDigit(s: string, start: nat, i: nat, stop: nat, base: int)
    requires start <= i < stop <= |s| && AllAlnum(s[start..stop])
    ensures AllAlnum(s[start..i]) && AllAlnum(s[start..i + 1]) && IsAlnum(s[i])
    ensures Numeral(s[start..i + 1], base) == Numeral(s[start..i], base) * base + Digit(s[i])
    ensures AllBelow(s[start..i], base) && Digit(s[i]) < base ==> AllBelow(s[start..i + 1], base)
    ensures Digit(s[i]) >= base ==> !AllBelow(s[start..stop], base)
  {
    hide Digit;
    var ds := s[start..i + 1];
    assert ds[..|ds| - 1] == s[start..i];
    assert s[start..stop][i - start] == s[i];
    forall k | 0 <= k < |ds| ensures IsAlnum(ds[k]) {
      assert s[start..stop][k] == ds[k];
    }
    forall k | 0 <= k < |s[start..i]| ensures s[start..i][k] == ds[k] {
    }
  }

  /** Reads the digit run from `start`; the accumulator wraps at 2^64. */
  method ReadDigits(s: string, start: nat, base: int) returns (ok: bool, end: nat, n: int)
    requires start <= |s| && IsAlnum(At(s, start))
    ensures ok <==> AllBelow(s[start..AlnumEnd(s, start)], base)
    ensures ok ==> end == AlnumEnd(s, start) && n == Numeral(s[start..end], base) % MODULUS
  {
    hide AlnumEnd, Numeral, AllBelow, Digit;
    var i := start;
    n := 0;
    ghost var stop := AlnumEnd(s, start);
    NoEmptyRun(s);
    NoDigits(s, start, base);
    while true
      invariant start <= i < stop && IsAlnum(At(s, i))
      invariant AllBelow(s[start..i], base) && n == Numeral(s[start..i], base) % MODULUS
      decreases |s| - i
    {
      var digit := Digit(s[i]);
      OneDigit(s, start, i, stop, base);
      if digit >= base {
        return false, i, n;
      }
      ModStep(Numeral(s[start..i], base), base, digit);
      n := (n * base + digit) % MODULUS;
      i := i + 1;
      if !IsAlnum(At(s, i)) {
        break;
      }
    }
    return true, i, n;
  }

  /** `b_str2int`; None is a null result. */
  method Str2Int(s: string, base: int) returns (r: Option<(nat, int)>)
    ensures r == Parse(s, base)
  {
    hide Parse, SpacesEnd, AlnumEnd, Numeral, AllBelow, FromUnsigned, Digit, IsSpace;
    NoEmptyRun(s);
    var i := SkipSpaces(s, 0);
    ghost var first := i;
    var neg := false;
    if At(s, i) == '-' {
      i := i + 1;
      neg := true;
    } else if At(s, i) == '+' {
      i := i + 1;
    }
    ParseAt(s, base, first, neg, i, AlnumEnd(s, i), s[i..AlnumEnd(s, i)]);
    if !IsAlnum(At(s, i)) {
      return None;
    }
    var ok, end, n := ReadDigits(s, i, base);
    if !ok {
      return None;
    }
    ModNegate(Numeral(s[i..end], base));
    end := SkipSpaces(s, end);
    var u := if neg then (0 - n) % MODULUS else n;
    return Some((end, FromUnsigned(u)));
  }

  /** A run is empty exactly when it does not start with an alphanumeric. */
  lemma NoEmptyRun(s: string)
    ensures forall i: nat :: i <= |s| ==> (AlnumEnd(s, i) == i <==> !IsAlnum(At(s, i)))
  {
  }

  method SkipSpaces(s: string, i: nat) returns (j: nat)
    requires i <= |s|
    ensures j == SpacesEnd(s, i)
    ensures i <= j <= |s| && Blank(s[i..j]) && (j == |s| || s[j] as int !in {9, 10, 11, 12, 13, 32})
  {
    j := i;
    while IsSpace(At(s, j))
      invariant i <= j <= |s| && SpacesEnd(s, i) == SpacesEnd(s, j)
      decreases |s| - j
    {
      j := j + 1;
    }
  }

  // ----- What is a number -----

  /** Only the six characters space, form feed, newline, carriage return and the two tabs. */
  ghost predicate Blank(s: string) {
    forall k :: 0 <= k < |s| ==> s[k] as int in {9, 10, 11, 12, 13, 32}
  }

  lemma BlankIsSpaces(s: string)
    ensures Blank(s) <==> AllSpaces(s)
  {
  }

  /** The 64-bit integer that `v` wraps to. */
  ghost predicate WrapsTo(v: int, n: int) {
    -0x8000_0000_0000_0000 <= n < 0x8000_0000_0000_0000 && (n - v) % 0x1_0000_0000_0000_0000 == 0
  }

  lemma SignedWraps(v: int, n: int)
    ensures WrapsTo(v, n) <==> Signed(v) == n
  {
  }

  ghost function SignedNumeral(sign: string, ds: string, base: int): int
    requires AllAlnum(ds)
  {
    if sign == "-" then -Numeral(ds, base) else Numeral(ds, base)
  }

  /** Blanks, a sign or none, at least one digit, each below the base, and blanks. */
  ghost predicate IsNumeral(s: string, base: int, before: string, sign: string, ds: string, after: string) {
    && s == before + sign + ds + after && Blank(before) && Blank(after) && (sign == "" || sign == "+" || sign == "-")
    && ds != "" && AllAlnum(ds) && AllBelow(ds, base)
  }

  ghost predicate Denotes(s: string, base: int, n: int) {
    exists before, sign, ds, after :: IsNumeral(s, base, before, sign, ds, after) && WrapsTo(SignedNumeral(sign, ds, base), n)
  }

  lemma FourPieces(s: string, i: nat, j: nat, k: nat)
    requires i <= j <= k <= |s|
    ensures s == s[..i] + s[i..j] + s[j..k] + s[k..]
  {
  }

  /** Parsing yields `n` and uses up the string. */
  ghost predicate ParsesTo(s: string, base: int, n: int) {
    var p := Parse(s, base);
    p.Some? && p.value.0 == |s| && p.value.1 == n
  }

  lemma ParsedIsNumeral(s: string, base: int, n: int)
    requires ParsesTo(s, base, n)
    ensures Denotes(s, base, n)
  {
    hide SpacesEnd, AlnumEnd, Numeral, AllBelow, FromUnsigned, Digit;
    var i := SpacesEnd(s, 0);
    var neg := At(s, i) == '-';
    var start := if neg || At(s, i) == '+' then i + 1 else i;
    var end := AlnumEnd(s, start);
    var before, sign, ds, after := s[..i], s[i..start], s[start..end], s[end..];
    FourPieces(s, i, start, end);
    assert neg <==> sign == "-";
    assert Blank(before) && Blank(after);
    SignedWraps(SignedNumeral(sign, ds, base), n);
    assert IsNumeral(s, base, before, sign, ds, after);
  }

  lemma NumeralIsParsed(s: string, base: int, n: int)
    requires Denotes(s, base, n)
    ensures ParsesTo(s, base, n)
  {
    hide Parse, Numeral, AllBelow, Digit, WrapsTo, Signed;
    var before, sign, ds, after :| IsNumeral(s, base, before, sign, ds, after) && WrapsTo(SignedNumeral(sign, ds, base), n);
    BlankIsSpaces(before);
    BlankIsSpaces(after);
    ParseParts(before, sign, ds, after, base);
    SignedWraps(SignedNumeral(sign, ds, base), n);
  }

  datatype Conversion = Number(i: int) | NotANumber | BadBase

  /** `tonumber(s, base)`: the base must lie in 2..36 and the whole string must be a numeral. */
  method ToNumber(s: string, base: int) returns (r: Conversion)
    ensures r == BadBase <==> !(2 <= base <= 36)
    ensures 2 <= base <= 36 ==> forall n :: r == Number(n) <==> Denotes(s, base, n)
    ensures 2 <= base <= 36 ==> forall n :: r == Number(n) <==> ParsesTo(s, base, n)
  {
    if !(2 <= base <= 36) {
      return BadBase;
    }
    hide Parse, Denotes;
    forall n ensures Denotes(s, base, n) <==> ParsesTo(s, base, n) {
      if Denotes(s, base, n) {
        NumeralIsParsed(s, base, n);
      } else if ParsesTo(s, base, n) {
        ParsedIsNumeral(s, base, n);
      }
    }
    var p := Str2Int(s, base);
    if p.Some? && p.value.0 == |s| {
      return Number(p.value.1);
    }
    return NotANumber;
  }

  /** The parts of any text: blanks, a sign or none, a run of letters and digits, and the rest, which does not go on
      with a letter or digit; if sign and run are both missing, the rest begins with neither a blank nor a sign. */
  ghost predicate Parts(before: string, sign: string, run: string, rest: string) {
    && Blank(before) && (sign == "" || sign == "+" || sign == "-") && AllAlnum(run)
    && (rest != "" ==> !IsAlnum(rest[0]))
    && (rest != "" && sign == "" && run == "" ==> !Blank(rest[..1]) && rest[0] != '+' && rest[0] != '-')
  }

  lemma PartsExist(s: string) returns (before: string, sign: string, run: string, rest: string)
    ensures Parts(before, sign, run, rest) && s == before + sign + run + rest
  {
    hide SpacesEnd, AlnumEnd;
    var i := SpacesEnd(s, 0);
    var start := if At(s, i) == '-' || At(s, i) == '+' then i + 1 else i;
    var end := AlnumEnd(s, start);
    before, sign, run, rest := s[..i], s[i..start], s[start..end], s[end..];
    FourPieces(s, i, start, end);
    assert rest != "" ==> rest[0] == At(s, end);
    assert sign == "" && run == "" ==> rest == s[i..];
  }

  /** A text in its parts is a number exactly if the run is not empty, all its digits are below the base, and only
      blanks follow. */
  method ConvertParts(before: string, sign: string, run: string, rest: string, base: int) returns (r: Conversion)
    requires Parts(before, sign, run, rest) && 2 <= base <= 36
    ensures r == NotANumber <==> run == "" || (exists k :: 0 <= k < |run| && Digit(run[k]) >= base) || !Blank(rest)
    ensures r != NotANumber ==> r.Number? && WrapsTo(SignedNumeral(sign, run, base), r.i)
  {
    var s := before + sign + run + rest;
    r := ToNumber(s, base);
    ParseOfParts(before, sign, run, rest, base);
    if Parse(s, base).Some? {
      SignedWraps(SignedNumeral(sign, run, base), Parse(s, base).value.1);
    }
    hide Parse, Denotes, Digit, Numeral;
    assert r.NotANumber? && Parse(s, base).Some? ==> !ParsesTo(s, base, Parse(s, base).value.1);
  }

  lemma ParseOfParts(before: string, sign: string, run: string, rest: string, base: int)
    requires Parts(before, sign, run, rest)
    ensures var s := before + sign + run + rest;
            if run == "" || !AllBelow(run, base) then Parse(s, base) == None
            else && Parse(s, base).Some? && Parse(s, base).value.1 == Signed(SignedNumeral(sign, run, base))
                 && (Parse(s, base).value.0 == |s| <==> Blank(rest))
                 && var p := Parse(s, base).value.0 - (|s| - |rest|);
                    0 <= p <= |rest| && Blank(rest[..p]) && (p < |rest| ==> rest[p] as int !in {9, 10, 11, 12, 13, 32})
  {
    hide Parse, SpacesEnd, AlnumEnd, Numeral, AllBelow, AllAlnum, Digit, Signed, Blank, At;
    var s := before + sign + run + rest;
    var i, start := |before|, |before| + |sign|;
    PartsBefore(before, sign, run, rest);
    PartsAfter(before + sign, run, rest);
    assert s == before + sign + run + rest;
    assert s[start..start + |run|] == run;
    ParseAt(s, base, i, sign == "-", start, start + |run|, run);
  }

  lemma ParseAt(s: string, base: int, i: nat, neg: bool, start: nat, end: nat, run: string)
    requires i == SpacesEnd(s, 0) && start <= |s| && end == AlnumEnd(s, start) && run == s[start..end] && AllAlnum(run)
    requires (neg <==> At(s, i) == '-') && start == if neg || At(s, i) == '+' then i + 1 else i
    ensures if end == start || !AllBelow(run, base) then Parse(s, base) == None
            else && Parse(s, base).Some? && Parse(s, base).value.0 == SpacesEnd(s, end)
                 && Parse(s, base).value.1 == Signed(if neg then -Numeral(run, base) else Numeral(run, base))
  {
    hide SpacesEnd, AlnumEnd, Numeral, AllBelow, Digit, Signed;
  }

  lemma PartsBefore(before: string, sign: string, run: string, rest: string)
    requires Parts(before, sign, run, rest)
    ensures var s := before + sign + run + rest;
            && SpacesEnd(s, 0) == |before|
            && (At(s, |before|) == '-' <==> sign == "-") && (At(s, |before|) == '+' <==> sign == "+")
  {
    hide SpacesEnd;
    var s, i := before + sign + run + rest, |before|;
    assert forall k :: 0 <= k < i ==> s[k] == before[k];
    assert At(s, i) == if sign != "" then sign[0] else if run != "" then run[0] else At(rest, 0);
    assert sign == "" && run == "" && rest != "" ==> rest[..1][0] == rest[0];
  }

  lemma PartsAfter(front: string, run: string, rest: string)
    requires AllAlnum(run) && (rest != "" ==> !IsAlnum(rest[0]))
    ensures var s := front + run + rest;
            && AlnumEnd(s, |front|) == |front| + |run|
            && (SpacesEnd(s, |front| + |run|) == |s| <==> Blank(rest))
            && var p := SpacesEnd(s, |front| + |run|) - (|s| - |rest|);
               0 <= p <= |rest| && Blank(rest[..p]) && (p < |rest| ==> rest[p] as int !in {9, 10, 11, 12, 13, 32})
  {
    hide SpacesEnd, AlnumEnd;
    var s, start, end := front + run + rest, |front|, |front| + |run|;
    assert forall k :: start <= k < end ==> s[k] == run[k - start];
    assert forall k :: end <= k < |s| ==> s[k] == rest[k - end];
    assert forall k :: 0 <= k < |rest| ==> rest[k] == s[end + k];
    assert At(s, end) == At(rest, 0);
  }

  /** The letters and digits by their ASCII codes: 0 to 9 are 48 to 57, and a letter of either case follows on 9. */
  lemma DigitValues(c: char)
    ensures IsAlnum(c) <==> 48 <= c as int <= 57 || 65 <= c as int <= 90 || 97 <= c as int <= 122
    ensures IsAlnum(c) ==> 0 <= Digit(c) < 36
    ensures IsAlnum(c) ==> c as int == Digit(c) + (if c as int <= 57 then 48 else if c as int <= 90 then 55 else 87)
  {
  }

  function Power(base: int, k: nat): int {
    if k == 0 then 1 else base * Power(base, k - 1)
  }

  /** Positional notation: what comes first counts for more. */
  lemma {:induction false} NumeralAppend(a: string, b: string, base: int)
    requires AllAlnum(a) && AllAlnum(b)
    ensures AllAlnum(a + b) && Numeral(a + b, base) == Numeral(a, base) * Power(base, |b|) + Numeral(b, base)
    ensures |a| == 1 ==> Numeral(a, base) == Digit(a[0])
    decreases |b|
  {
    hide Digit;
    if |a| == 1 {
      assert a[..0] == "";
    }
    if b == "" {
      assert a + b == a;
    } else {
      var k := |b| - 1;
      NumeralAppend(a, b[..k], base);
      assert (a + b)[..|a + b| - 1] == a + b[..k];
      Shifted(Numeral(a, base), Power(base, k), Numeral(b[..k], base), base);
    }
  }

  lemma Shifted(x: int, p: int, y: int, base: int)
    ensures (x * p + y) * base == x * (base * p) + y * base
  {
    assert x * p * base == x * (p * base);
  }

  // ----- Writing integers -----

  function DigitChar(d: int, lower: bool): (c: char)
    requires 0 <= d < 36
    ensures IsAlnum(c) && Digit(c) == d
  {
    if d < 10 then ('0' as int + d) as char
    else if lower then ('a' as int + d - 10) as char
    else ('A' as int + d - 10) as char
  }

  function Digits(n: nat, base: int, lower: bool): (ds: string)
    requires 2 <= base <= 36
    ensures ds != "" && AllAlnum(ds) && AllBelow(ds, base)
  {
    if n < base then [DigitChar(n, lower)]
    else
      NumberTheory.QuotientRange(n, base);
      SmallerQuotient(n, base);
      Digits(n / base, base, lower) + [DigitChar(n % base, lower)]
  }

  lemma SmallerQuotient(n: nat, base: int)
    requires 2 <= base <= n
    ensures n / base < n
  {
    var q := n / base;
    NumberTheory.MulAtLeast(q, base - 1);
    assert base * q == (base - 1) * q + q;
    NumberTheory.QuotientRange(n, base);
  }

  lemma {:induction false} NumeralOfDigits(n: nat, base: int, lower: bool)
    requires 2 <= base <= 36
    ensures Numeral(Digits(n, base, lower), base) == n
    decreases n
  {
    if n < base {
      var ds := Digits(n, base, lower);
      assert ds[..|ds| - 1] == "";
    } else {
      hide DigitChar;
      SmallerQuotient(n, base);
      NumeralOfDigits(n / base, base, lower);
      var ds := Digits(n, base, lower);
      assert ds == Digits(n / base, base, lower) + [DigitChar(n % base, lower)];
      assert ds[..|ds| - 1] == Digits(n / base, base, lower);
      Recompose(n, base);
    }
  }

  lemma Recompose(n: nat, base: int)
    requires base > 0
    ensures n / base * base + n % base == n
  {
  }

  predicate AllSpaces(s: string) {
    forall k :: 0 <= k < |s| ==> IsSpace(s[k])
  }

  lemma SignedIsIdentity(x: int)
    requires -0x8000_0000_0000_0000 <= x < 0x8000_0000_0000_0000
    ensures Signed(x) == x
  {
  }

  /** Every 64-bit integer, written in any base in either case, with an optional plus sign and spaces around it,
      is read back and uses up the string. */
  lemma ReadsBack(x: int, base: int, lower: bool, plus: bool, before: string, after: string)
    requires -0x8000_0000_0000_0000 <= x < 0x8000_0000_0000_0000 && 2 <= base <= 36
    requires AllSpaces(before) && AllSpaces(after)
    ensures var sign := if x < 0 then "-" else if plus then "+" else "";
            var s := before + sign + Digits(NumberTheory.Abs(x), base, lower) + after;
            Parse(s, base) == Some((|s|, x))
  {
    var sign := if x < 0 then "-" else if plus then "+" else "";
    var ds := Digits(NumberTheory.Abs(x), base, lower);
    var s := before + sign + ds + after;
    ParseParts(before, sign, ds, after, base);
    NumeralOfDigits(NumberTheory.Abs(x), base, lower);
    SignedIsIdentity(x);
  }

  lemma ParseParts(before: string, sign: string, ds: string, after: string, base: int)
    requires AllSpaces(before) && AllSpaces(after) && (sign == "-" || sign == "+" || sign == "")
    requires ds != "" && AllAlnum(ds) && AllBelow(ds, base)
    ensures var s := before + sign + ds + after;
            Parse(s, base) == Some((|s|, Signed(if sign == "-" then -Numeral(ds, base) else Numeral(ds, base))))
  {
    hide SpacesEnd, AlnumEnd, Numeral, AllBelow, AllSpaces, Signed, Digit;
    var s := before + sign + ds + after;
    var start := |before| + |sign|;
    Positions(before, sign, ds, after);
    assert IsAlnum(ds[0]);
    assert s[start..start + |ds|] == ds;
  }

  lemma Positions(before: string, sign: string, ds: string, after: string)
    requires AllSpaces(before) && AllSpaces(after) && (sign == "-" || sign == "+" || sign == "")
    requires ds != "" && AllAlnum(ds)
    ensures var s := before + sign + ds + after;
            && SpacesEnd(s, 0) == |before| && At(s, |before|) == (if sign == "" then ds[0] else sign[0])
            && AlnumEnd(s, |before| + |sign|) == |before| + |sign| + |ds|
            && SpacesEnd(s, |before| + |sign| + |ds|) == |s|
  {
    hide SpacesEnd, AlnumEnd;
    var s := before + sign + ds + after;
    var i, start, end := |before|, |before| + |sign|, |before| + |sign| + |ds|;
    assert forall k :: 0 <= k < i ==> s[k] == before[k];
    assert At(s, i) == if sign == "" then ds[0] else sign[0];
    assert forall k :: start <= k < end ==> s[k] == ds[k - start];
    assert forall k :: end <= k < |s| ==> s[k] == after[k - end];
    assert At(s, end) == if after == "" then 0 as char else after[0];
    assert !IsAlnum(At(s, end));
  }
}
