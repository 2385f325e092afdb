/** Whole computations with Boost rationals, and the rational gcd and lcm. */
module RationalResults {
  import opened Wrappers
  import opened NumberTheory
  import opened RationalTheory
  import opened BoostRational

  // ----- Sequences of operations against exact arithmetic -----

  /** The right-hand side of an assignment operator: a fresh fraction, or the object itself. */
  datatype Operand = Fraction(n: int, d: int) | Itself

  datatype Op =
    | Add(r: Operand) | Sub(r: Operand) | Mul(r: Operand) | Div(r: Operand)
    | AddI(i: int) | SubI(i: int) | MulI(i: int) | DivI(i: int)
    | Inc | Dec | Neg | Absolute | Set(n: int, d: int) | SetI(i: int)

  ghost function OperandValue(r: Operand, v: real): Option<real> {
    match r
    case Fraction(n, d) => if d == 0 then None else Some(Value(n, d))
    case Itself => Some(v)
  }

  ghost function Product(v: real, w: real): real {
    v * w
  }

  /** Exact arithmetic; None is the exception `bad_rational`. */
  ghost function Meaning(op: Op, v: real): Option<real> {
    match op
    case Add(r) => var w := OperandValue(r, v); if w.None? then None else Some(v + w.value)
    case Sub(r) => var w := OperandValue(r, v); if w.None? then None else Some(v - w.value)
    case Mul(r) => var w := OperandValue(r, v); if w.None? then None else Some(Product(v, w.value))
    case Div(r) => var w := OperandValue(r, v); if w.None? || w.value == 0.0 then None else Some(v / w.value)
    case AddI(i) => Some(v + i as real)
    case SubI(i) => Some(v - i as real)
    case MulI(i) => Some(Product(v, i as real))
    case DivI(i) => if i == 0 then None else Some(v / i as real)
    case Inc => Some(v + 1.0)
    case Dec => Some(v - 1.0)
    case Neg => Some(-v)
    case Absolute => Some(if v >= 0.0 then v else -v)
    case Set(n, d) => if d == 0 then None else Some(Value(n, d))
    case SetI(i) => Some(i as real)
  }

  ghost function MeaningAll(ops: seq<Op>, v: real): Option<real>
    decreases |ops|
  {
    if ops == [] then Some(v)
    else
      var w := MeaningAll(ops[..|ops| - 1], v);
      if w.None? then None else Meaning(ops[|ops| - 1], w.value)
  }

  lemma {:induction false} FailureLasts(ops: seq<Op>, k: nat, v: real)
    requires k <= |ops| && MeaningAll(ops[..k], v) == None
    ensures MeaningAll(ops, v) == None
    decreases |ops|
  {
    if k < |ops| {
      assert ops[..|ops| - 1][..k] == ops[..k];
      FailureLasts(ops[..|ops| - 1], k, v);
    } else {
      assert ops[..k] == ops;
    }
  }

  method MakeOperand(x: Rational, r: Operand) returns (ok: bool, y: Rational)
    requires x.Valid()
    ensures ok <==> OperandValue(r, x.Val()).Some?
    ensures ok ==> y.Valid() && OperandValue(r, x.Val()) == Some(y.Val())
  {
    y := x;
    ok := true;
    if r.Fraction? {
      y := new Rational.Raw(r.n, r.d);
      ok := y.Normalize();
    }
  }

  method Arithmetic(x: Rational, op: Op) returns (ok: bool)
    requires x.Valid() && (op.Add? || op.Sub? || op.Mul? || op.Div?)
    modifies x
    ensures x.Valid()
    ensures Meaning(op, old(x.Val())) == if ok then Some(x.Val()) else None
  {
    hide Value;
    var y;
    ok, y := MakeOperand(x, op.r);
    if !ok {
      return;
    }
    ZeroNumeratorOf(y);
    ghost var v, w := x.Val(), y.Val();
    match op {
      case Add(_) => x.AddAssign(y);
      case Sub(_) => x.SubAssign(y);
      case Mul(_) =>
        x.MulAssign(y);
        assert x.Val() == Product(v, w);
      case Div(_) => ok := x.DivAssign(y);
    }
  }

  lemma ZeroNumeratorOf(x: Rational)
    requires x.Valid()
    ensures x.den > 0
    ensures x.Val() == 0.0 <==> x.num == 0
    ensures x.Val() >= 0.0 <==> x.num >= 0
  {
    SignOfValue(x.num, x.den);
  }

  method Step(x: Rational, op: Op) returns (ok: bool)
    requires x.Valid()
    modifies x
    ensures x.Valid()
    ensures Meaning(op, old(x.Val())) == if ok then Some(x.Val()) else None
  {
    hide Value;
    ok := true;
    ZeroNumeratorOf(x);
    ghost var v := x.Val();
    match op {
      case AddI(i) => x.AddInt(i);
      case SubI(i) => x.SubInt(i);
      case MulI(i) =>
        x.MulInt(i);
        assert x.Val() == Product(v, i as real);
      case DivI(i) => ok := x.DivInt(i);
      case Inc => x.Increment();
      case Dec => x.Decrement();
      case Neg =>
        var y := x.Negated();
        x.num, x.den := y.num, y.den;
      case Absolute =>
        var y := x.Absolute();
        x.num, x.den := y.num, y.den;
      case Set(n, d) => ok := x.Assign(n, d);
      case SetI(i) => x.AssignInt(i);
      case _ => ok := Arithmetic(x, op);
    }
  }

  /** Any sequence of operations leaves the exact result, in lowest terms, and fails exactly where exact
      arithmetic does. */
  method Execute(start: int, ops: seq<Op>) returns (result: Option<(int, int)>)
    ensures result.None? <==> MeaningAll(ops, start as real).None?
    ensures result.Some? ==> Lowest(result.value.0, result.value.1)
    ensures result.Some? ==> MeaningAll(ops, start as real) == Some(Value(result.value.0, result.value.1))
  {
    var x := new Rational(start);
    for i := 0 to |ops|
      invariant x.Valid() && MeaningAll(ops[..i], start as real) == Some(x.Val())
    {
      hide Value, Meaning;
      assert ops[..i + 1][..i] == ops[..i];
      var ok := Step(x, ops[i]);
      if !ok {
        FailureLasts(ops, i + 1, start as real);
        return None;
      }
    }
    assert ops[..|ops|] == ops;
    return Some((x.num, x.den));
  }

  /** Exactly one of `<`, `==` and `>` holds between two rationals. */
  method Compare(a: Rational, b: Rational) returns (less: bool, equal: bool, greater: bool)
    requires a.Valid() && b.Valid()
    ensures (less <==> a.Val() < b.Val()) && (equal <==> a.Val() == b.Val()) && (greater <==> a.Val() > b.Val())
    ensures (less && !equal && !greater) || (!less && equal && !greater) || (!less && !equal && greater)
  {
    ghost var max := Abs(a.num) + Abs(b.num) + a.den + b.den;
    less := a.LessThan(b, max);
    equal := a.Equals(b);
    greater := b.LessThan(a, max);
  }

  // ----- gcd_evaluator and lcm_evaluator -----

  ghost predicate IsTimes(v: real, k: int, w: real) {
    v == k as real * w
  }

  ghost predicate IsMultiple(v: real, w: real) {
    exists k: int :: IsTimes(v, k, w)
  }

  /** Between fractions in lowest terms, being an integer multiple is divisibility of the parts. */
  lemma MultipleParts(n: int, d: int, p: int, q: int)
    requires Lowest(n, d) && Lowest(p, q)
    ensures IsMultiple(Value(n, d), Value(p, q)) <==> Divides(p, n) && Divides(d, q)
  {
    if IsMultiple(Value(n, d), Value(p, q)) {
      var k: int :| IsTimes(Value(n, d), k, Value(p, q));
      MultipleCross(n, d, p, q, k);
      DividesIntro(d, k * p, n * q);
      CoprimeSym(n, d);
      EuclidLemma(d, n, q);
      assert q * n == p * (k * d);
      DividesIntro(p, k * d, q * n);
      EuclidLemma(p, q, n);
    }
    if Divides(p, n) && Divides(d, q) {
      var x := Cofactor(p, n);
      var y := Cofactor(d, q);
      CofactorCross(p, x, d, y);
      MultipleCross(n, d, p, q, x * y);
    }
  }

  lemma CofactorCross(p: int, x: int, d: int, y: int)
    ensures p * x * (d * y) == d * (x * y * p)
  {
    var t := x * y;
    assert p * x * (d * y) == d * (p * x * y) && p * x * y == p * t;
  }

  lemma MultipleCross(n: int, d: int, p: int, q: int, k: int)
    requires d > 0 && q > 0
    ensures IsTimes(Value(n, d), k, Value(p, q)) <==> n * q == d * (k * p)
    ensures n * q == d * (k * p) ==> n * q == p * (k * d) && q * n == p * (k * d)
  {
    ValueOfProduct(k, 1, p, q);
    ValueOfInt(k);
    CrossEqual(n, d, k * p, 1 * q);
    assert n * (1 * q) == n * q;
    assert d * (k * p) == p * (k * d);
  }

  lemma GcdPairLowest(a: int, ad: int, b: int, bd: int)
    requires Lowest(a, ad) && Lowest(b, bd)
    ensures Lowest(Gcd(a, b), Lcm(ad, bd))
  {
    var g, l := Gcd(a, b), Lcm(ad, bd);
    var j, k := GcdDivides(a, b);
    CoprimeFactor(g, j, ad);
    CoprimeFactor(g, k, bd);
    CoprimeProduct(g, ad, bd);
    CommonMultipleOfBoth(ad, bd);
    var t := Cofactor(l, ad * bd);
    CoprimeSym(g, ad * bd);
    CoprimeFactor(l, t, g);
    CoprimeSym(l, g);
    var x, y := LcmCofactors(ad, bd);
  }

  lemma CommonMultipleOfBoth(a: int, b: int)
    ensures Divides(Lcm(a, b), a * b)
  {
    DividesIntro(a, b, a * b);
    DividesIntro(b, a, a * b);
    LcmDividesCommonMultiple(a, b, a * b);
  }

  lemma LcmPairLowest(a: int, ad: int, b: int, bd: int)
    requires Lowest(a, ad) && Lowest(b, bd)
    ensures Lowest(Lcm(a, b), Gcd(ad, bd))
  {
    var h, l := Gcd(ad, bd), Lcm(a, b);
    var j, k := GcdDivides(ad, bd);
    CoprimeSym(a, ad);
    CoprimeSym(b, bd);
    CoprimeFactor(h, j, a);
    CoprimeFactor(h, k, b);
    CoprimeProduct(h, a, b);
    CommonMultipleOfBoth(a, b);
    var t := Cofactor(l, a * b);
    CoprimeSym(h, a * b);
    CoprimeFactor(l, t, h);
    GcdPositive(ad, bd);
  }

  /** The rational gcd divides both arguments, and every rational that divides both divides it. */
  lemma RationalGcdIsGreatest(a: int, ad: int, b: int, bd: int, p: int, q: int)
    requires Lowest(a, ad) && Lowest(b, bd) && Lowest(p, q)
    ensures Lowest(Gcd(a, b), Lcm(ad, bd))
    ensures IsMultiple(Value(a, ad), Value(Gcd(a, b), Lcm(ad, bd)))
    ensures IsMultiple(Value(b, bd), Value(Gcd(a, b), Lcm(ad, bd)))
    ensures IsMultiple(Value(a, ad), Value(p, q)) && IsMultiple(Value(b, bd), Value(p, q))
        ==> IsMultiple(Value(Gcd(a, b), Lcm(ad, bd)), Value(p, q))
  {
    hide Value, IsMultiple, Gcd, Lcm, Divides, Coprime;
    var g, l := Gcd(a, b), Lcm(ad, bd);
    GcdPairLowest(a, ad, b, bd);
    GcdDividesBoth(a, b);
    LcmIsMultiple(ad, bd);
    MultipleParts(a, ad, g, l);
    MultipleParts(b, bd, g, l);
    MultipleParts(a, ad, p, q);
    MultipleParts(b, bd, p, q);
    MultipleParts(g, l, p, q);
    if IsMultiple(Value(a, ad), Value(p, q)) && IsMultiple(Value(b, bd), Value(p, q)) {
      CommonDivisorDividesGcd(p, a, b);
      LcmDividesCommonMultiple(ad, bd, q);
    }
  }

  lemma GcdDividesBoth(a: int, b: int)
    ensures Divides(Gcd(a, b), a) && Divides(Gcd(a, b), b)
  {
    var j, k := GcdDivides(a, b);
    DividesIntro(Gcd(a, b), j, a);
    DividesIntro(Gcd(a, b), k, b);
  }

  /** The rational lcm is a multiple of both arguments, and every rational that is a multiple of both is one of it. */
  lemma RationalLcmIsLeast(a: int, ad: int, b: int, bd: int, p: int, q: int)
    requires Lowest(a, ad) && Lowest(b, bd) && Lowest(p, q)
    ensures Lowest(Lcm(a, b), Gcd(ad, bd))
    ensures IsMultiple(Value(Lcm(a, b), Gcd(ad, bd)), Value(a, ad))
    ensures IsMultiple(Value(Lcm(a, b), Gcd(ad, bd)), Value(b, bd))
    ensures IsMultiple(Value(p, q), Value(a, ad)) && IsMultiple(Value(p, q), Value(b, bd))
        ==> IsMultiple(Value(p, q), Value(Lcm(a, b), Gcd(ad, bd)))
  {
    hide Value, IsMultiple, Gcd, Lcm, Divides, Coprime;
    var l, h := Lcm(a, b), Gcd(ad, bd);
    LcmPairLowest(a, ad, b, bd);
    GcdDividesBoth(ad, bd);
    LcmIsMultiple(a, b);
    MultipleParts(l, h, a, ad);
    MultipleParts(l, h, b, bd);
    MultipleParts(p, q, a, ad);
    MultipleParts(p, q, b, bd);
    MultipleParts(p, q, l, h);
    if IsMultiple(Value(p, q), Value(a, ad)) && IsMultiple(Value(p, q), Value(b, bd)) {
      LcmDividesCommonMultiple(a, b, p);
      CommonDivisorDividesGcd(q, ad, bd);
    }
  }

  /** `gcd_evaluator`: the pair given to the constructor is already normalized, so it is stored as it is. */
  method GcdEvaluate(a: Rational, b: Rational) returns (r: Rational)
    requires a.Valid() && b.Valid()
    ensures r.Valid() && r.num == Gcd(a.num, b.num) && r.den == Lcm(a.den, b.den)
  {
    var n, d := Gcd(a.num, b.num), Lcm(a.den, b.den);
    GcdPairLowest(a.num, a.den, b.num, b.den);
    hide Gcd, Lcm;
    r := new Rational.Raw(n, d);
    var ok := r.Normalize();
    LowestUnique(r.num, r.den, n, d);
  }

  /** `lcm_evaluator`. */
  method LcmEvaluate(a: Rational, b: Rational) returns (r: Rational)
    requires a.Valid() && b.Valid()
    ensures r.Valid() && r.num == Lcm(a.num, b.num) && r.den == Gcd(a.den, b.den)
  {
    var n, d := Lcm(a.num, b.num), Gcd(a.den, b.den);
    LcmPairLowest(a.num, a.den, b.num, b.den);
    hide Gcd, Lcm;
    r := new Rational.Raw(n, d);
    var ok := r.Normalize();
    LowestUnique(r.num, r.den, n, d);
  }
}
