/** Fractions in lowest terms, their values, and why the gcd-saving formulas stay in lowest terms. */
module RationalTheory {
  import opened NumberTheory

  /** The exact value of a fraction. */
  ghost function Value(n: int, d: int): real
    requires d != 0
  {
    n as real / d as real
  }

  /** Boost's normalized form: `test_invariant`. */
  ghost predicate Lowest(n: int, d: int) {
    d > 0 && Coprime(n, d)
  }

  lemma MulCast(a: int, b: int)
    ensures (a * b) as real == a as real * b as real
  {
  }

  /** Equal values are equal cross products. */
  lemma CrossEqual(n: int, d: int, p: int, q: int)
    requires d != 0 && q != 0
    ensures Value(n, d) == Value(p, q) <==> n * q == p * d
  {
    MulCast(n, q);
    MulCast(p, d);
    var x, y := Value(n, d), Value(p, q);
    assert x * d as real == n as real;
    assert y * q as real == p as real;
  }

  lemma CrossLess(n: int, d: int, p: int, q: int)
    requires d > 0 && q > 0
    ensures Value(n, d) < Value(p, q) <==> n * q < p * d
  {
    MulCast(n, q);
    MulCast(p, d);
    var x, y, e, f := Value(n, d), Value(p, q), d as real, q as real;
    assert x * e == n as real && y * f == p as real;
    assert n as real * f == x * (e * f) && p as real * e == y * (e * f);
    ScaleLess(x, y, e * f);
  }

  lemma ScaleLess(x: real, y: real, s: real)
    requires s > 0.0
    ensures x < y <==> x * s < y * s
  {
  }

  lemma ValueOfSum(a: int, b: int, c: int, d: int)
    requires b != 0 && d != 0
    ensures b * d != 0 && Value(a * d + c * b, b * d) == Value(a, b) + Value(c, d)
  {
    MulCast(a, d);
    MulCast(c, b);
    MulCast(b, d);
    var x, y, e, f := Value(a, b), Value(c, d), b as real, d as real;
    assert x * e == a as real && y * f == c as real;
    assert (x + y) * (e * f) == x * e * f + y * f * e;
  }

  lemma ValueOfProduct(a: int, b: int, c: int, d: int)
    requires b != 0 && d != 0
    ensures b * d != 0 && Value(a * c, b * d) == Value(a, b) * Value(c, d)
  {
    MulCast(a, c);
    MulCast(b, d);
    var x, y, e, f := Value(a, b), Value(c, d), b as real, d as real;
    assert x * e == a as real && y * f == c as real;
    assert x * y * (e * f) == x * e * (y * f);
  }

  lemma ValueOfInverse(c: int, d: int)
    requires c != 0 && d != 0
    ensures Value(c, d) != 0.0 && Value(d, c) == 1.0 / Value(c, d)
  {
    InverseOfQuotient(c as real, d as real);
  }

  lemma InverseOfQuotient(e: real, f: real)
    requires e != 0.0 && f != 0.0
    ensures e / f != 0.0 && f / e == 1.0 / (e / f)
  {
    var x, y := e / f, f / e;
    assert x * f == e;
    calc {
      y * x * f;
      y * (x * f);
      y * e;
      f;
    }
    assert (y * x - 1.0) * f == 0.0;
    assert y * x == 1.0;
  }

  lemma ValueOfShift(n: int, d: int, i: int)
    requires d != 0
    ensures Value(n + i * d, d) == Value(n, d) + i as real
  {
    MulCast(i, d);
    var x, e := Value(n, d), d as real;
    assert x * e == n as real;
    assert (x + i as real) * e == x * e + i as real * e;
  }

  lemma ValueOfNegation(n: int, d: int)
    requires d != 0
    ensures Value(-n, -d) == Value(n, d) && Value(-n, d) == -Value(n, d)
  {
    var x, e := Value(n, d), d as real;
    assert x * e == n as real;
    assert x * -e == -(x * e) && -x * e == -(x * e);
  }

  /** A value has one fraction in lowest terms, so comparing the parts compares the values. */
  lemma LowestUnique(n: int, d: int, p: int, q: int)
    requires Lowest(n, d) && Lowest(p, q)
    ensures Value(n, d) == Value(p, q) <==> n == p && d == q
  {
    CrossEqual(n, d, p, q);
    if n * q == p * d {
      DividesIntro(d, p, n * q);
      DividesIntro(q, n, p * d);
      CoprimeSym(n, d);
      CoprimeSym(p, q);
      EuclidLemma(d, n, q);
      EuclidLemma(q, p, d);
      MutualDivisors(d, q);
      CancelFactor(d, n, p);
    }
  }

  lemma CancelFactor(d: int, n: int, p: int)
    requires d > 0 && n * d == p * d
    ensures n == p
  {
    assert d * (n - p) == n * d - p * d;
    SmallMultiple(d, n - p);
  }

  // ----- Sums -----

  /** The numbers `operator+=` passes through on the way from a/b and c/d. */
  ghost predicate SumSteps(a: int, b: int, c: int, d: int, g: int, b1: int, d1: int, s: int, h: int, num: int, rest: int) {
    && g == Gcd(b, d) && b == g * b1 && d == g * d1
    && s == a * d1 + c * b1 && h == Gcd(s, g) && s == h * num && d == h * rest
  }

  /** Dividing by gcd(a*d1 + c*b1, g) alone brings the sum into lowest terms. */
  lemma SumIsLowest(a: int, b: int, c: int, d: int, g: int, b1: int, d1: int, s: int, h: int, num: int, rest: int)
    requires Lowest(a, b) && Lowest(c, d) && SumSteps(a, b, c, d, g, b1, d1, s, h, num, rest)
    ensures Lowest(num, b1 * rest)
  {
    GcdPositive(b, d);
    PositiveFactor(g, b1);
    CofactorsCoprime(b, d, b1, d1);
    SumCoprime(a, b, c, d, g, b1, d1);
    GcdPositive(s, g);
    PositiveFactor(h, rest);
    assert b1 * rest > 0;
    var j, t := GcdDivides(s, g);
    SameCofactor(h, j, num);
    CofactorsCoprime(s, g, num, t);
    RestFactors(h, t, d1, rest);
    CoprimeFactor(num, h, b1);
    CoprimeFactor(num, h, d1);
    CoprimeProduct(num, t, d1);
    CoprimeProduct(num, b1, rest);
  }

  lemma PositiveFactor(g: int, k: int)
    requires g > 0 && g * k > 0
    ensures k > 0
  {
    assert k <= 0 ==> g * k <= 0;
  }

  lemma SameCofactor(g: int, j: int, k: int)
    requires g > 0 && g * j == g * k
    ensures j == k
  {
    assert g * (j - k) == g * j - g * k;
    SmallMultiple(g, j - k);
  }

  lemma RestFactors(h: int, t: int, d1: int, rest: int)
    requires h > 0 && h * t * d1 == h * rest
    ensures rest == t * d1
  {
    assert h * t * d1 == h * (t * d1);
    SameCofactor(h, t * d1, rest);
  }

  /** The unreduced numerator shares nothing with b1 or d1. */
  lemma SumCoprime(a: int, b: int, c: int, d: int, g: int, b1: int, d1: int)
    requires Coprime(a, b) && Coprime(c, d) && b == g * b1 && d == g * d1 && Coprime(b1, d1)
    ensures Coprime(a * d1 + c * b1, b1) && Coprime(a * d1 + c * b1, d1)
  {
    HalfOfSum(a, b, b1, g, d1, c);
    CoprimeSym(b1, d1);
    HalfOfSum(c, d, d1, g, b1, a);
  }

  lemma HalfOfSum(a: int, b: int, b1: int, g: int, d1: int, c: int)
    requires Coprime(a, b) && b == g * b1 && Coprime(b1, d1)
    ensures Coprime(a * d1 + c * b1, b1)
  {
    CoprimeSym(a, b);
    assert b == b1 * g;
    CoprimeFactor(b1, g, a);
    CoprimeProduct(b1, a, d1);
    CoprimeSym(b1, a * d1);
    CoprimeShift(a * d1, b1, c);
  }

  lemma SumIsExact(a: int, b: int, c: int, d: int, g: int, b1: int, d1: int, s: int, h: int, num: int, rest: int)
    requires b != 0 && d != 0 && b1 * rest != 0 && SumSteps(a, b, c, d, g, b1, d1, s, h, num, rest)
    ensures Value(num, b1 * rest) == Value(a, b) + Value(c, d)
  {
    ValueOfSum(a, b, c, d);
    CommonScale(a, b1, c, d1, g);
    SumCross(g, b1, h, num, rest, s);
    CrossEqual(num, b1 * rest, a * d + c * b, b * d);
  }

  lemma CommonScale(a: int, b1: int, c: int, d1: int, g: int)
    ensures a * (g * d1) + c * (g * b1) == g * (a * d1 + c * b1)
  {
    var x, y := a * d1, c * b1;
    assert a * (g * d1) == g * x && c * (g * b1) == g * y;
    assert g * (x + y) == g * x + g * y;
  }

  lemma SumCross(g: int, b1: int, h: int, num: int, rest: int, s: int)
    requires s == h * num
    ensures num * (g * b1 * (h * rest)) == g * s * (b1 * rest)
  {
    var x := b1 * rest;
    assert g * b1 * (h * rest) == g * h * x by {
      assert g * b1 * (h * rest) == g * (b1 * (h * rest)) && b1 * (h * rest) == h * (b1 * rest);
      assert g * (h * x) == g * h * x;
    }
    assert num * (g * h * x) == g * (h * num) * x by {
      assert num * (g * h * x) == num * (g * h) * x && num * (g * h) == g * (h * num);
    }
  }

  // ----- Products -----

  /** Cross-cancelling before multiplying leaves the product in lowest terms (up to the sign of the denominator). */
  lemma ProductIsCoprime(a: int, b: int, c: int, d: int, a1: int, d1: int, c1: int, b1: int)
    requires Coprime(a, b) && Coprime(c, d)
    requires Gcd(a, d) > 0 && a == Gcd(a, d) * a1 && d == Gcd(a, d) * d1
    requires Gcd(c, b) > 0 && c == Gcd(c, b) * c1 && b == Gcd(c, b) * b1
    ensures Coprime(a1 * c1, b1 * d1)
  {
    var g, h := Gcd(a, d), Gcd(c, b);
    CofactorsCoprime(a, d, a1, d1);
    CofactorsCoprime(c, b, c1, b1);
    FactorsCoprime(a, b, a1, g, b1, h);
    FactorsCoprime(c, d, c1, h, d1, g);
    CoprimeProduct(a1, b1, d1);
    CoprimeProduct(c1, b1, d1);
    CoprimeSym(a1, b1 * d1);
    CoprimeSym(c1, b1 * d1);
    CoprimeProduct(b1 * d1, a1, c1);
    CoprimeSym(b1 * d1, a1 * c1);
  }

  lemma FactorsCoprime(a: int, b: int, a1: int, g: int, b1: int, h: int)
    requires Coprime(a, b) && a == g * a1 && b == h * b1
    ensures Coprime(a1, b1)
  {
    assert a == a1 * g && b == b1 * h;
    CoprimeFactor(a1, g, b);
    CoprimeSym(a1, b);
    CoprimeFactor(b1, h, a1);
    CoprimeSym(b1, a1);
  }

  lemma ProductIsExact(a: int, b: int, c: int, d: int, g: int, h: int, a1: int, d1: int, c1: int, b1: int)
    requires b != 0 && d != 0 && a == g * a1 && d == g * d1 && c == h * c1 && b == h * b1
    ensures b1 * d1 != 0 && Value(a1 * c1, b1 * d1) == Value(a, b) * Value(c, d)
  {
    ValueOfProduct(a, b, c, d);
    assert b1 != 0 && d1 != 0;
    Regroup(g, a1, h, c1);
    Regroup(h, b1, g, d1);
    var s, n, m := g * h, a1 * c1, b1 * d1;
    assert h * g == s;
    assert n * (s * m) == s * n * m;
    CrossEqual(a1 * c1, b1 * d1, a * c, b * d);
  }

  lemma Regroup(g: int, x: int, h: int, y: int)
    ensures g * x * (h * y) == g * h * (x * y)
  {
    assert g * x * (h * y) == g * (x * (h * y)) && x * (h * y) == h * (x * y);
    assert g * (h * (x * y)) == g * h * (x * y);
  }
}
