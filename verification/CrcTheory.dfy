/** Division over GF(2) by a shift register: the mathematics behind every form of the CRC. */
module CrcTheory {
  import opened Bits

  /** One division step on a register of exactly `Bits` bits: `poly` is the divisor without its leading term. */
  function Step(poly: Word, r: Word, bit: bool): (r': Word)
    requires |poly| == |r| >= 1
    ensures |r'| == |r|
  {
    if r[|r| - 1] != bit then Xor(Shl(r, 1), poly) else Shl(r, 1)
  }

  function Run(poly: Word, r: Word, bits: seq<bool>): (r': Word)
    requires |poly| == |r| >= 1
    ensures |r'| == |r|
    decreases |bits|
  {
    if bits == [] then r else Run(poly, Step(poly, r, bits[0]), bits[1..])
  }

  /** Splitting a message anywhere changes nothing: the register is the whole state. */
  lemma {:induction false} RunAppend(poly: Word, r: Word, a: seq<bool>, b: seq<bool>)
    requires |poly| == |r| >= 1
    ensures Run(poly, r, a + b) == Run(poly, Run(poly, r, a), b)
    decreases |a|
  {
    if a == [] {
      assert a + b == b;
    } else {
      assert (a + b)[1..] == a[1..] + b;
      RunAppend(poly, Step(poly, r, a[0]), a[1..], b);
    }
  }

  lemma RunSnoc(poly: Word, r: Word, a: seq<bool>, b: bool)
    requires |poly| == |r| >= 1
    ensures Run(poly, r, a + [b]) == Step(poly, Run(poly, r, a), b)
  {
    RunAppend(poly, r, a, [b]);
    var s := Run(poly, r, a);
    assert Run(poly, s, [b]) == Run(poly, Step(poly, s, b), [b][1..]);
  }

  lemma RunCons(poly: Word, r: Word, b: bool, m: seq<bool>)
    requires |poly| == |r| >= 1
    ensures Run(poly, r, [b] + m) == Run(poly, Step(poly, r, b), m)
  {
    assert ([b] + m)[1..] == m;
  }

  lemma RunTake(poly: Word, r: Word, m: seq<bool>, i: nat)
    requires |poly| == |r| >= 1 && i < |m|
    ensures Run(poly, r, m[..i + 1]) == Step(poly, Run(poly, r, m[..i]), m[i])
  {
    hide Run;
    RunSnoc(poly, r, m[..i], m[i]);
    assert m[..i + 1] == m[..i] + [m[i]];
  }

  lemma StepLinear(poly: Word, r: Word, s: Word, x: bool, y: bool)
    requires |poly| == |r| == |s| >= 1
    ensures Step(poly, Xor(r, s), x != y) == Xor(Step(poly, r, x), Step(poly, s, y))
  {
    var lhs, rhs := Step(poly, Xor(r, s), x != y), Xor(Step(poly, r, x), Step(poly, s, y));
    forall i | 0 <= i < |r| ensures lhs[i] == rhs[i] {
    }
  }

  /** The register is linear over GF(2) in its start value and the message together. */
  lemma {:induction false} RunLinear(poly: Word, r: Word, s: Word, m: seq<bool>, n: seq<bool>)
    requires |poly| == |r| == |s| >= 1 && |m| == |n|
    ensures Run(poly, Xor(r, s), Xor(m, n)) == Xor(Run(poly, r, m), Run(poly, s, n))
    decreases |m|
  {
    if m != [] {
      StepLinear(poly, r, s, m[0], n[0]);
      assert Xor(m, n)[1..] == Xor(m[1..], n[1..]);
      RunLinear(poly, Step(poly, r, m[0]), Step(poly, s, n[0]), m[1..], n[1..]);
    }
  }

  /** The `k` highest bits of a register, highest first, followed by zeros once the register is used up. */
  function Top(r: Word, k: nat): (t: seq<bool>)
    ensures |t| == k
  {
    seq(k, i requires 0 <= i => i < |r| && r[|r| - 1 - i])
  }

  lemma {:induction false} RunTop(poly: Word, r: Word, k: nat)
    requires |poly| == |r| >= 1
    ensures Run(poly, r, Top(r, k)) == Shl(r, k)
    decreases k
  {
    if k == 0 {
      assert Shl(r, 0) == r;
    } else {
      var s := Shl(r, 1);
      assert Top(r, k)[1..] == Top(s, k - 1);
      RunTop(poly, s, k - 1);
      assert Shl(s, k - 1) == Shl(r, k);
    }
  }

  /** A whole group of message bits at once: shift the register and add a value that depends only on the message
      bits combined with the bits shifted out. This is what makes a lookup table possible. */
  lemma Absorb(poly: Word, r: Word, m: seq<bool>)
    requires |poly| == |r| >= 1
    ensures Run(poly, r, m) == Xor(Shl(r, |m|), Run(poly, Zeros(|r|), Xor(m, Top(r, |m|))))
  {
    var t := Top(r, |m|);
    RunTop(poly, r, |m|);
    RunLinear(poly, r, Zeros(|r|), t, Xor(m, t));
    XorZeros(r);
    XorTwice(m, t);
  }

  // ----- The register as a polynomial remainder -----

  /** m(x) * x^Bits + init(x) * x^|m|, lowest coefficient first; `m` carries its highest coefficient first. */
  ghost function Dividend(init: Word, m: seq<bool>): (d: seq<bool>)
    ensures |d| == |m| + |init|
  {
    seq(|m| + |init|, i requires 0 <= i < |m| + |init| =>
      (i >= |init| && m[|m| - 1 - (i - |init|)]) != (i >= |m| && init[i - |m|]))
  }

  /** q(x) * (x^Bits + poly(x)) by Horner's rule; `q` carries its highest coefficient first. */
  ghost function Product(q: seq<bool>, poly: Word): (p: seq<bool>)
    ensures |p| == |q| + |poly|
    decreases |q|
  {
    if q == [] then Zeros(|poly|)
    else
      var k := |q| - 1;
      var shifted := [false] + Product(q[..k], poly);
      if q[k] then Xor(shifted, poly + [true] + Zeros(k)) else shifted
  }

  ghost predicate IsQuotientAndRemainder(poly: Word, init: Word, m: seq<bool>, q: seq<bool>, r: Word)
    requires |poly| == |init|
  {
    |q| == |m| && |r| == |poly| && Dividend(init, m) == Xor(Product(q, poly), r + Zeros(|m|))
  }

  /** The quotient collects the bit that decided each division step. */
  lemma {:induction false} DivisionExists(poly: Word, init: Word, m: seq<bool>) returns (q: seq<bool>)
    requires |poly| == |init| >= 1
    ensures IsQuotientAndRemainder(poly, init, m, q, Run(poly, init, m))
    decreases |m|
  {
    if m == [] {
      DivisionOfNothing(poly, init);
      q := [];
    } else {
      hide Run, Step;
      var k := |m| - 1;
      q := DivisionExists(poly, init, m[..k]);
      RunTake(poly, init, m, k);
      var r := Run(poly, init, m[..k]);
      DivisionStep(poly, init, m[..k], m[k], q, r);
      assert m[..k + 1] == m == m[..k] + [m[k]];
      q := q + [r[|r| - 1] != m[k]];
    }
  }

  lemma DivisionOfNothing(poly: Word, init: Word)
    requires |poly| == |init| >= 1
    ensures IsQuotientAndRemainder(poly, init, [], [], init)
  {
    assert Xor(Product([], poly), init + Zeros(0)) == init == Dividend(init, []);
  }

  lemma DivisionStep(poly: Word, init: Word, m: seq<bool>, b: bool, q: seq<bool>, r: Word)
    requires |poly| == |init| >= 1
    requires IsQuotientAndRemainder(poly, init, m, q, r)
    ensures IsQuotientAndRemainder(poly, init, m + [b], q + [r[|r| - 1] != b], Step(poly, r, b))
  {
    var n, k := |poly|, |m|;
    var q' := q + [r[n - 1] != b];
    assert q'[..k] == q;
    var p, p', r' := Product(q, poly), Product(q', poly), Step(poly, r, b);
    var lhs, rhs := Dividend(init, m + [b]), Xor(p', r' + Zeros(k + 1));
    forall i | 0 <= i < n + k + 1 ensures lhs[i] == rhs[i] {
      if i > 0 {
        assert Dividend(init, m)[i - 1] == (p[i - 1] != (r + Zeros(k))[i - 1]);
      }
    }
  }

  lemma {:induction false} ProductInjective(poly: Word, q1: seq<bool>, q2: seq<bool>)
    requires |q1| == |q2| && |poly| >= 1
    requires Product(q1, poly)[|poly|..] == Product(q2, poly)[|poly|..]
    ensures q1 == q2
    decreases |q1|
  {
    if q1 != [] {
      var n, k := |poly|, |q1| - 1;
      var p1, p2 := Product(q1, poly), Product(q2, poly);
      var s1, s2 := Product(q1[..k], poly), Product(q2[..k], poly);
      forall i | n <= i < n + k ensures s1[i] == s2[i] {
        assert p1[n..][i + 1 - n] == p2[n..][i + 1 - n];
      }
      assert s1[n..] == s2[n..];
      ProductInjective(poly, q1[..k], q2[..k]);
      assert p1[n..][0] == p2[n..][0];
      assert q1 == q1[..k] + [q1[k]] && q2 == q2[..k] + [q2[k]];
    }
  }

  /** The register ends as the remainder of dividing the scaled message by the full polynomial:
      there is a quotient for it, and for no other value of `Bits` bits. */
  lemma RunIsRemainder(poly: Word, init: Word, m: seq<bool>, r: Word)
    requires |poly| == |init| == |r| >= 1
    ensures r == Run(poly, init, m) <==> exists q :: IsQuotientAndRemainder(poly, init, m, q, r)
  {
    var r0 := Run(poly, init, m);
    var q0 := DivisionExists(poly, init, m);
    forall q | IsQuotientAndRemainder(poly, init, m, q, r) ensures r == r0 {
      var n, d := |poly|, Dividend(init, m);
      var p, p0 := Product(q, poly), Product(q0, poly);
      forall i | n <= i < |d| ensures p[i] == p0[i] {
        assert d[i] == (p[i] != (r + Zeros(|m|))[i]) && d[i] == (p0[i] != (r0 + Zeros(|m|))[i]);
      }
      assert p[n..] == p0[n..];
      ProductInjective(poly, q, q0);
      forall i | 0 <= i < n ensures r[i] == r0[i] {
        assert d[i] == (p[i] != (r + Zeros(|m|))[i]) && d[i] == (p0[i] != (r0 + Zeros(|m|))[i]);
      }
    }
  }

  // ----- Error bursts -----

  /** With a polynomial whose lowest bit is set, a step can be undone, so unequal registers stay unequal. */
  lemma {:induction false} RunInjective(poly: Word, r: Word, s: Word, m: seq<bool>)
    requires |poly| == |r| == |s| >= 1 && poly[0]
    requires Run(poly, r, m) == Run(poly, s, m)
    ensures r == s
    decreases |m|
  {
    if m != [] {
      var r', s' := Step(poly, r, m[0]), Step(poly, s, m[0]);
      RunInjective(poly, r', s', m[1..]);
      StepInjective(poly, r, s, m[0]);
    }
  }

  lemma StepInjective(poly: Word, r: Word, s: Word, x: bool)
    requires |poly| == |r| == |s| >= 1 && poly[0]
    requires Step(poly, r, x) == Step(poly, s, x)
    ensures r == s
  {
    var k := |r| - 1;
    StepBack(poly, r, s, x, x, |r|);
    assert r == r[..k] + [r[k]] && s == s[..k] + [s[k]];
  }

  /** Registers that agree in their lowest `k` bits after a step took the same decision in it,
      and agreed in their lowest `k - 1` bits before. */
  lemma StepBack(poly: Word, r: Word, s: Word, x: bool, y: bool, k: nat)
    requires |poly| == |r| == |s| >= k >= 1 && poly[0]
    requires Step(poly, r, x)[..k] == Step(poly, s, y)[..k]
    ensures (r[|r| - 1] != x) == (s[|s| - 1] != y)
    ensures r[..k - 1] == s[..k - 1]
  {
    var r', s' := Step(poly, r, x), Step(poly, s, y);
    assert r'[..k][0] == r'[0] && s'[..k][0] == s'[0];
    forall i | 0 <= i < k - 1 ensures r[i] == s[i] {
      assert r'[..k][i + 1] == r'[i + 1] && s'[..k][i + 1] == s'[i + 1];
    }
  }

  /** If two runs over at most `Bits` bits end in agreement on enough low bits, then they took the same decisions;
      from a common start that makes the messages themselves equal. */
  lemma {:induction false} BurstBack(poly: Word, r: Word, m: seq<bool>, n: seq<bool>)
    requires |poly| == |r| >= |m| == |n| && |r| >= 1 && poly[0]
    requires Run(poly, r, m) == Run(poly, r, n)
    ensures m == n
  {
    SameDecisions(poly, r, r, m, n, |r|);
    SameMessages(poly, r, m, n);
  }

  ghost function Decisions(poly: Word, r: Word, m: seq<bool>): (d: seq<bool>)
    requires |poly| == |r| >= 1
    ensures |d| == |m|
    decreases |m|
  {
    if m == [] then [] else [r[|r| - 1] != m[0]] + Decisions(poly, Step(poly, r, m[0]), m[1..])
  }

  lemma {:induction false} SameDecisions(poly: Word, r: Word, s: Word, m: seq<bool>, n: seq<bool>, k: nat)
    requires |poly| == |r| == |s| >= k >= |m| == |n| && |r| >= 1 && poly[0]
    requires Run(poly, r, m)[..k] == Run(poly, s, n)[..k]
    ensures Decisions(poly, r, m) == Decisions(poly, s, n)
    ensures r[..k - |m|] == s[..k - |m|]
    decreases |m|
  {
    if m != [] {
      var r', s' := Step(poly, r, m[0]), Step(poly, s, n[0]);
      SameDecisions(poly, r', s', m[1..], n[1..], k);
      var j := k - |m| + 1;
      StepBack(poly, r, s, m[0], n[0], j);
    }
  }

  lemma {:induction false} SameMessages(poly: Word, r: Word, m: seq<bool>, n: seq<bool>)
    requires |poly| == |r| >= 1 && |m| == |n|
    requires Decisions(poly, r, m) == Decisions(poly, r, n)
    ensures m == n
    decreases |m|
  {
    if m != [] {
      var d, e := Decisions(poly, r, m), Decisions(poly, r, n);
      assert d[0] == e[0] && d[1..] == e[1..];
      SameMessages(poly, Step(poly, r, m[0]), m[1..], n[1..]);
      assert m == [m[0]] + m[1..] && n == [n[0]] + n[1..];
    }
  }

  lemma RunThree(poly: Word, init: Word, a: seq<bool>, b: seq<bool>, c: seq<bool>)
    requires |poly| == |init| >= 1
    ensures Run(poly, init, a + (b + c)) == Run(poly, Run(poly, Run(poly, init, a), b), c)
  {
    RunAppend(poly, init, a, b + c);
    RunAppend(poly, Run(poly, init, a), b, c);
  }

  /** A burst of at most `Bits` bits changes the remainder when the polynomial's lowest bit is set. */
  lemma BurstChangesRemainder(poly: Word, init: Word, head: seq<bool>, a: seq<bool>, b: seq<bool>, tail: seq<bool>)
    requires |poly| == |init| >= |a| == |b| && |poly| >= 1 && poly[0] && a != b
    ensures Run(poly, init, head + (a + tail)) != Run(poly, init, head + (b + tail))
  {
    var start := Run(poly, init, head);
    RunThree(poly, init, head, a, tail);
    RunThree(poly, init, head, b, tail);
    if Run(poly, init, head + (a + tail)) == Run(poly, init, head + (b + tail)) {
      RunInjective(poly, Run(poly, start, a), Run(poly, start, b), tail);
      BurstBack(poly, start, a, b);
    }
  }

  /** The burst `x^(Bits-1) + poly / x`, which a polynomial without a lowest bit divides after the shift by x^Bits. */
  function BlindBurst(poly: Word): (b: seq<bool>)
    requires |poly| >= 1
    ensures |b| == |poly| && b[0]
  {
    [true] + Top(poly, |poly| - 1)
  }

  lemma BlindBurstIsInvisible(poly: Word)
    requires |poly| >= 1 && !poly[0]
    ensures Run(poly, Zeros(|poly|), BlindBurst(poly)) == Zeros(|poly|)
  {
    hide Run, Step, Shl, Zeros, Top;
    StepOnZeros(poly);
    RunCons(poly, Zeros(|poly|), true, Top(poly, |poly| - 1));
    RunTop(poly, poly, |poly| - 1);
    AllShiftedOut(poly);
  }

  lemma AllShiftedOut(poly: Word)
    requires |poly| >= 1 && !poly[0]
    ensures Shl(poly, |poly| - 1) == Zeros(|poly|)
  {
  }

  lemma StepOnZeros(poly: Word)
    requires |poly| >= 1
    ensures Step(poly, Zeros(|poly|), true) == poly
  {
  }

  /** Adding a burst that the zero register maps to zero leaves every run where it was. */
  lemma InvisibleAnywhere(poly: Word, r: Word, burst: seq<bool>, m: seq<bool>)
    requires |poly| == |r| >= 1 && |burst| == |m|
    requires Run(poly, Zeros(|poly|), burst) == Zeros(|poly|)
    ensures Run(poly, r, Xor(m, burst)) == Run(poly, r, m)
  {
    RunLinear(poly, r, Zeros(|r|), m, burst);
    XorZeros(r);
    XorZeros(Run(poly, r, m));
  }

  lemma {:induction false} ZerosStayZero(poly: Word, k: nat)
    requires |poly| >= 1
    ensures Run(poly, Zeros(|poly|), Zeros(k)) == Zeros(|poly|)
    decreases k
  {
    if k > 0 {
      var z := Zeros(|poly|);
      assert Shl(z, 1) == z;
      SnocZeros(k);
      ZerosStayZero(poly, k - 1);
    }
  }

  // ----- Augmented messages -----

  /** A division step that shifts the message bit in at the low end instead of comparing it with the high end. */
  function AugStep(poly: Word, r: Word, bit: bool): (r': Word)
    requires |poly| == |r| >= 1
    ensures |r'| == |r|
  {
    var s := Step(poly, r, false);
    s[0 := s[0] != bit]
  }

  function AugRun(poly: Word, r: Word, bits: seq<bool>): (r': Word)
    requires |poly| == |r| >= 1
    ensures |r'| == |r|
    decreases |bits|
  {
    if bits == [] then r else AugRun(poly, AugStep(poly, r, bits[0]), bits[1..])
  }

  lemma {:induction false} AugRunAppend(poly: Word, r: Word, a: seq<bool>, b: seq<bool>)
    requires |poly| == |r| >= 1
    ensures AugRun(poly, r, a + b) == AugRun(poly, AugRun(poly, r, a), b)
    decreases |a|
  {
    if a == [] {
      assert a + b == b;
    } else {
      assert (a + b)[1..] == a[1..] + b;
      AugRunAppend(poly, AugStep(poly, r, a[0]), a[1..], b);
    }
  }

  /** Bits shifted in at the low end stay where they are until they reach the top: `k <= Bits` of them
      are simply added below the register run over zeros. */
  lemma {:induction false} AugRunShort(poly: Word, r: Word, m: seq<bool>)
    requires |poly| == |r| >= |m| && |r| >= 1
    ensures AugRun(poly, r, m) == Xor(Run(poly, r, Zeros(|m|)), Convert(Reverse(m), |r|))
    decreases |m|
  {
    var n, k := |r|, |m|;
    if m == [] {
      assert Xor(r, Convert(Reverse(m), n)) == r;
    } else {
      var a, b := m[..k - 1], m[k - 1];
      assert m == a + [b];
      AugRunShort(poly, r, a);
      AugRunSnoc(poly, r, a, b);
      SnocZeros(k);
      RunSnoc(poly, r, Zeros(k - 1), false);
      AugStepShort(poly, Run(poly, r, Zeros(k - 1)), a, b);
    }
  }

  lemma AugRunSnoc(poly: Word, r: Word, a: seq<bool>, b: bool)
    requires |poly| == |r| >= 1
    ensures AugRun(poly, r, a + [b]) == AugStep(poly, AugRun(poly, r, a), b)
  {
    AugRunAppend(poly, r, a, [b]);
    var s := AugRun(poly, r, a);
    assert AugRun(poly, s, [b]) == AugRun(poly, AugStep(poly, s, b), [b][1..]);
  }

  lemma AugStepShort(poly: Word, z: Word, a: seq<bool>, b: bool)
    requires |poly| == |z| > |a|
    ensures AugStep(poly, Xor(z, Convert(Reverse(a), |z|)), b)
         == Xor(Step(poly, z, false), Convert(Reverse(a + [b]), |z|))
  {
    var n := |z|;
    var c := Convert(Reverse(a), n);
    StepLinear(poly, z, c, false, false);
    assert Step(poly, c, false) == Shl(c, 1);
  }

  /** A register holding just 1 becomes the polynomial once it has been shifted through all its bits. */
  lemma OneThroughZeros(poly: Word)
    requires |poly| >= 1
    ensures Run(poly, OneBit(|poly|, 0), Zeros(|poly|)) == poly
  {
    hide Run, Step, Shl, Zeros, Top, OneBit;
    var n := |poly|;
    SnocZeros(n);
    RunSnoc(poly, OneBit(n, 0), Zeros(n - 1), false);
    RunTop(poly, OneBit(n, 0), n - 1);
    OneClimbs(n);
    StepOnTop(poly);
  }

  lemma OneClimbs(n: nat)
    requires n >= 1
    ensures Top(OneBit(n, 0), n - 1) == Zeros(n - 1)
    ensures Shl(OneBit(n, 0), n - 1) == OneBit(n, n - 1)
  {
  }

  lemma StepOnTop(poly: Word)
    requires |poly| >= 1
    ensures Step(poly, OneBit(|poly|, |poly| - 1), false) == poly
  {
  }

  /** Both ways of feeding a message meet after `Bits` more zeros: the augmented register run over zeros
      is the plain register started from the initial value run over zeros. */
  lemma {:induction false} AugmentedMeetsPlain(poly: Word, r: Word, m: seq<bool>)
    requires |poly| == |r| >= 1
    ensures Run(poly, AugRun(poly, r, m), Zeros(|r|)) == Run(poly, Run(poly, r, Zeros(|r|)), m)
    decreases |m|
  {
    if m != [] {
      var n, k := |r|, |m| - 1;
      var a, b := m[..k], m[k];
      assert m == a + [b];
      AugmentedMeetsPlain(poly, r, a);
      var s, z := AugRun(poly, r, a), Run(poly, r, Zeros(n));
      AugRunSnoc(poly, r, a, b);
      RunSnoc(poly, z, a, b);
      PushThroughZeros(poly, s, b);
    }
  }

  lemma PushThroughZeros(poly: Word, s: Word, b: bool)
    requires |poly| == |s| >= 1
    ensures Run(poly, AugStep(poly, s, b), Zeros(|s|)) == Step(poly, Run(poly, s, Zeros(|s|)), b)
  {
    var n := |s|;
    var t := Step(poly, s, false);
    var zn := Zeros(n);
    assert [false] + zn == zn + [false];
    assert ([false] + zn)[1..] == zn;
    assert Run(poly, t, zn) == Run(poly, s, [false] + zn);
    RunSnoc(poly, s, zn, false);
    var w := Run(poly, s, zn);
    if b {
      var e := OneBit(n, 0);
      assert AugStep(poly, s, b) == Xor(t, e);
      assert Xor(zn, zn) == zn;
      RunLinear(poly, t, e, zn, zn);
      OneThroughZeros(poly);
      assert Step(poly, w, true) == Xor(Step(poly, w, false), poly);
    } else {
      assert AugStep(poly, s, b) == t;
    }
  }

  /** Dividing a message followed by `Bits` more bits leaves those bits added to the plain remainder of the message. */
  lemma AugmentedRemainder(poly: Word, r: Word, m: seq<bool>, tail: seq<bool>)
    requires |poly| == |r| == |tail| >= 1
    ensures AugRun(poly, r, m + tail) == Xor(Run(poly, Run(poly, r, Zeros(|r|)), m), Reverse(tail))
  {
    AugRunAppend(poly, r, m, tail);
    AugRunShort(poly, AugRun(poly, r, m), tail);
    AugmentedMeetsPlain(poly, r, m);
    assert Convert(Reverse(tail), |r|) == Reverse(tail);
  }
}
