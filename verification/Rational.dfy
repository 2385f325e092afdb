/** Boost.Rational over unbounded integers: a mutable fraction kept in lowest terms. */
module BoostRational {
  import opened NumberTheory
  import opened RationalTheory

  /** Exact divisions by a greatest common divisor, as the operators write them. */
  lemma ExactDivisions(a: int, b: int)
    requires a != 0 || b != 0
    ensures Gcd(a, b) > 0
    ensures a == Gcd(a, b) * TruncDiv(a, Gcd(a, b)) && b == Gcd(a, b) * TruncDiv(b, Gcd(a, b))
  {
    GcdPositive(a, b);
    var j, k := GcdDivides(a, b);
    TruncDivExact(Gcd(a, b), j);
    TruncDivExact(Gcd(a, b), k);
  }

  lemma SignOfValue(n: int, d: int)
    requires d > 0
    ensures Value(n, d) == 0.0 <==> n == 0
    ensures Value(n, d) >= 0.0 <==> n >= 0
  {
    CrossLess(n, d, 0, 1);
    CrossLess(0, 1, n, d);
  }

  class Rational {
    var num: int
    var den: int

    /** The class invariant of the source: `gcd(num, den) == 1` and `den > 0`. */
    ghost predicate Valid()
      reads this
    {
      Lowest(num, den)
    }

    ghost function Val(): real
      requires den != 0
      reads this
    {
      Value(num, den)
    }

    constructor (n: int)
      ensures Valid() && Val() == n as real
    {
      num, den := n, 1;
      CoprimeIntro(n, 1, 0, 1);
    }

    constructor Raw(n: int, d: int)
      ensures num == n && den == d
    {
      num, den := n, d;
    }

    /** False stands for the exception `bad_rational`. */
    method Normalize() returns (ok: bool)
      modifies this
      ensures ok <==> old(den) != 0
      ensures ok ==> Valid() && Val() == Value(old(num), old(den))
      ensures !ok ==> unchanged(this)
    {
      if den == 0 {
        return false;
      }
      if num == 0 {
        CrossEqual(0, 1, num, den);
        den := 1;
        CoprimeIntro(0, 1, 0, 1);
        return true;
      }
      ghost var n, d := num, den;
      var g := Gcd(num, den);
      ExactDivisions(num, den);
      num := TruncDiv(num, g);
      den := TruncDiv(den, g);
      CofactorsCoprime(n, d, num, den);
      CrossCofactor(n, d, g, num, den);
      if den < 0 {
        CoprimeNegate(num, den);
        ValueOfNegation(num, den);
        num := -num;
        den := -den;
      }
      return true;
    }

    /** `assign`, and the two-argument constructor. */
    method Assign(n: int, d: int) returns (ok: bool)
      modifies this
      ensures ok <==> d != 0
      ensures ok ==> Valid() && Val() == Value(n, d)
      ensures !ok ==> unchanged(this)
    {
      var r := new Rational.Raw(n, d);
      ok := r.Normalize();
      if ok {
        num, den := r.num, r.den;
      }
    }

    method AssignInt(i: int)
      modifies this
      ensures Valid() && Val() == i as real
    {
      num, den := i, 1;
      CoprimeIntro(i, 1, 0, 1);
    }

    /** `r` may be this very object. */
    method AddAssign(r: Rational)
      requires Valid() && r.Valid()
      modifies this
      ensures Valid() && Val() == old(Val()) + old(r.Val())
    {
      var rNum, rDen := r.num, r.den;
      ghost var a, b := num, den;
      var g := Gcd(den, rDen);
      ExactDivisions(den, rDen);
      den := TruncDiv(den, g);
      num := num * TruncDiv(rDen, g) + rNum * den;
      ghost var b1, d1, s, g0 := den, TruncDiv(rDen, g), num, g;
      g := Gcd(num, g);
      SecondDivision(s, g0, rDen, d1);
      num := TruncDiv(num, g);
      den := den * TruncDiv(rDen, g);
      SumIsLowest(a, b, rNum, rDen, g0, b1, d1, s, g, num, TruncDiv(rDen, g));
      SumIsExact(a, b, rNum, rDen, g0, b1, d1, s, g, num, TruncDiv(rDen, g));
    }

    method SubAssign(r: Rational)
      requires Valid() && r.Valid()
      modifies this
      ensures Valid() && Val() == old(Val()) - old(r.Val())
    {
      var rNum, rDen := r.num, r.den;
      ghost var a, b := num, den;
      var g := Gcd(den, rDen);
      ExactDivisions(den, rDen);
      den := TruncDiv(den, g);
      num := num * TruncDiv(rDen, g) - rNum * den;
      ghost var b1, d1, s, g0 := den, TruncDiv(rDen, g), num, g;
      g := Gcd(num, g);
      SecondDivision(s, g0, rDen, d1);
      num := TruncDiv(num, g);
      den := den * TruncDiv(rDen, g);
      CoprimeNegate(rNum, rDen);
      ValueOfNegation(rNum, rDen);
      MinusAsPlus(a * d1, rNum, b1);
      hide TruncDiv, Value, Gcd;
      SumIsLowest(a, b, -rNum, rDen, g0, b1, d1, s, g, num, TruncDiv(rDen, g));
      SumIsExact(a, b, -rNum, rDen, g0, b1, d1, s, g, num, TruncDiv(rDen, g));
    }

    method MulAssign(r: Rational)
      requires Valid() && r.Valid()
      modifies this
      ensures Valid() && Val() == old(Val()) * old(r.Val())
    {
      hide TruncDiv, Gcd, Value, Coprime;
      var rNum, rDen := r.num, r.den;
      ghost var a, b := num, den;
      var gcd1 := Gcd(num, rDen);
      var gcd2 := Gcd(rNum, den);
      GcdPositive(num, rDen);
      GcdPositive(rNum, den);
      num := TruncDiv(num, gcd1) * TruncDiv(rNum, gcd2);
      den := TruncDiv(den, gcd2) * TruncDiv(rDen, gcd1);
      CrossCancel(a, b, rNum, rDen, num, den);
    }

    /** Dividing by zero throws and changes nothing. */
    method DivAssign(r: Rational) returns (ok: bool)
      requires Valid() && r.Valid()
      modifies this
      ensures ok <==> old(r.num) != 0
      ensures Valid()
      ensures ok ==> old(r.Val()) != 0.0 && Val() == old(Val()) / old(r.Val())
      ensures !ok ==> unchanged(this)
    {
      hide TruncDiv, Gcd, Value, Coprime;
      var rNum, rDen := r.num, r.den;
      if rNum == 0 {
        return false;
      }
      QuotientValue(num, den, rNum, rDen);
      if num == 0 {
        return true;
      }
      ghost var a, b := num, den;
      var gcd1 := Gcd(num, rNum);
      var gcd2 := Gcd(rDen, den);
      GcdPositive(num, rNum);
      GcdPositive(rDen, den);
      CoprimeSym(rNum, rDen);
      num := TruncDiv(num, gcd1) * TruncDiv(rDen, gcd2);
      den := TruncDiv(den, gcd2) * TruncDiv(rNum, gcd1);
      CrossCancel(a, b, rDen, rNum, num, den);
      if den < 0 {
        CoprimeNegate(num, den);
        ValueOfNegation(num, den);
        num := -num;
        den := -den;
      }
      return true;
    }

    method AddInt(i: int)
      requires Valid()
      modifies this
      ensures Valid() && Val() == old(Val()) + i as real
    {
      CoprimeShift(num, den, i);
      ValueOfShift(num, den, i);
      num := num + i * den;
    }

    method SubInt(i: int)
      requires Valid()
      modifies this
      ensures Valid() && Val() == old(Val()) - i as real
    {
      CoprimeShift(num, den, -i);
      ValueOfShift(num, den, -i);
      assert -i * den == -(i * den);
      num := num - i * den;
    }

    method MulInt(i: int)
      requires Valid()
      modifies this
      ensures Valid() && Val() == old(Val()) * i as real
    {
      hide TruncDiv, Gcd, Value, Coprime;
      ghost var a, b := num, den;
      var gcd := Gcd(i, den);
      GcdPositive(i, den);
      CoprimeIntro(i, 1, 0, 1);
      OneCancels(a);
      num := num * TruncDiv(i, gcd);
      den := TruncDiv(den, gcd);
      CrossCancel(a, b, i, 1, num, den);
      ValueOfInt(i);
    }

    method DivInt(i: int) returns (ok: bool)
      requires Valid()
      modifies this
      ensures ok <==> i != 0
      ensures Valid()
      ensures ok ==> Val() == old(Val()) / i as real
      ensures !ok ==> unchanged(this)
    {
      hide TruncDiv, Gcd, Value, Coprime;
      if i == 0 {
        return false;
      }
      QuotientValue(num, den, i, 1);
      if num == 0 {
        return true;
      }
      ghost var a, b := num, den;
      var gcd := Gcd(num, i);
      GcdPositive(num, i);
      CoprimeIntro(1, i, 1, 0);
      OneCancels(b);
      num := TruncDiv(num, gcd);
      den := den * TruncDiv(i, gcd);
      CrossCancel(a, b, 1, i, num, den);
      if den < 0 {
        CoprimeNegate(num, den);
        ValueOfNegation(num, den);
        num := -num;
        den := -den;
      }
      return true;
    }

    method Increment()
      requires Valid()
      modifies this
      ensures Valid() && Val() == old(Val()) + 1.0
    {
      CoprimeShift(num, den, 1);
      ValueOfShift(num, den, 1);
      num := num + den;
    }

    method Decrement()
      requires Valid()
      modifies this
      ensures Valid() && Val() == old(Val()) - 1.0
    {
      CoprimeShift(num, den, -1);
      ValueOfShift(num, den, -1);
      num := num - den;
    }

    /** Unary minus goes through the normalizing constructor. */
    method Negated() returns (r: Rational)
      requires Valid()
      ensures fresh(r) && r.Valid() && r.Val() == -Val()
    {
      r := new Rational.Raw(-num, den);
      var ok := r.Normalize();
      ValueOfNegation(num, den);
    }

    /** `abs`. */
    method Absolute() returns (r: Rational)
      requires Valid()
      ensures fresh(r) && r.Valid() && r.Val() >= 0.0 && (r.Val() == Val() || r.Val() == -Val())
    {
      SignOfValue(num, den);
      if num >= 0 {
        r := new Rational.Raw(num, den);
      } else {
        r := Negated();
      }
    }

    method Equals(r: Rational) returns (b: bool)
      requires Valid() && r.Valid()
      ensures b <==> Val() == r.Val()
    {
      b := num == r.num && den == r.den;
      LowestUnique(num, den, r.num, r.den);
    }

    method EqualsInt(i: int) returns (b: bool)
      requires Valid()
      ensures b <==> Val() == i as real
    {
      b := den == 1 && num == i;
      CoprimeIntro(i, 1, 0, 1);
      LowestUnique(num, den, i, 1);
    }

    /** The order by continued fractions. `max` bounds a two's-complement type that can hold both fractions:
        every intermediate result then fits the type as well. */
    method LessThan(r: Rational, ghost max: int) returns (less: bool)
      requires den > 0 && r.den > 0
      requires InRange(max, num) && InRange(max, den) && InRange(max, r.num) && InRange(max, r.den)
      ensures less <==> Val() < r.Val()
    {
      CrossLess(num, den, r.num, r.den);
      less := LessByContinuedFractions(num, den, r.num, r.den, max);
    }

    method LessThanInt(i: int) returns (less: bool)
      requires den > 0
      ensures less <==> Val() < i as real
    {
      var q, m := FloorDivMod(num, den, Abs(num) + den);
      CrossLess(num, den, i, 1);
      FloorBelow(num, den, q, m, i);
      less := q < i;
    }

    method GreaterThanInt(i: int) returns (greater: bool)
      requires Valid()
      ensures greater <==> Val() > i as real
    {
      var equal := EqualsInt(i);
      if equal {
        return false;
      }
      var less := LessThanInt(i);
      return !less;
    }
  }

  lemma MinusAsPlus(x: int, c: int, y: int)
    ensures x - c * y == x + -c * y
  {
  }

  lemma ValueOfInt(i: int)
    ensures Value(i, 1) == i as real
  {
  }

  lemma QuotientValue(a: int, b: int, c: int, d: int)
    requires b != 0 && c != 0 && d != 0
    ensures Value(c, d) != 0.0 && Value(a, b) * Value(d, c) == Value(a, b) / Value(c, d)
    ensures a == 0 ==> Value(a, b) / Value(c, d) == 0.0 == Value(a, b)
    ensures d == 1 ==> Value(c, d) == c as real
  {
    ValueOfInverse(c, d);
    DivideAsMultiply(Value(a, b), Value(c, d));
  }

  lemma DivideAsMultiply(x: real, y: real)
    requires y != 0.0
    ensures x * (1.0 / y) == x / y
    ensures x == 0.0 ==> x / y == 0.0
  {
    var z := 1.0 / y;
    assert z * y == 1.0;
    assert x * z * y == x * (z * y) == x;
  }

  lemma CrossCofactor(n: int, d: int, g: int, p: int, q: int)
    requires d != 0 && n == g * p && d == g * q
    ensures q != 0 && Value(p, q) == Value(n, d)
  {
    assert q != 0;
    assert p * (g * q) == g * p * q;
    CrossEqual(p, q, n, d);
  }

  lemma SecondDivision(s: int, g: int, d: int, d1: int)
    requires g > 0 && d == g * d1
    ensures Gcd(s, g) > 0
    ensures s == Gcd(s, g) * TruncDiv(s, Gcd(s, g)) && d == Gcd(s, g) * TruncDiv(d, Gcd(s, g))
  {
    ExactDivisions(s, g);
    var h := Gcd(s, g);
    var t := TruncDiv(g, h);
    assert d == h * t * d1 == h * (t * d1);
    TruncDivExact(h, t * d1);
  }

  /** Multiplying a/b by c/d with the common factors taken out first. */
  lemma CrossCancel(a: int, b: int, c: int, d: int, num: int, den: int)
    requires b != 0 && d != 0 && Coprime(a, b) && Coprime(c, d) && Gcd(a, d) > 0 && Gcd(c, b) > 0
    requires num == TruncDiv(a, Gcd(a, d)) * TruncDiv(c, Gcd(c, b))
    requires den == TruncDiv(b, Gcd(c, b)) * TruncDiv(d, Gcd(a, d))
    ensures den != 0 && Coprime(num, den) && Value(num, den) == Value(a, b) * Value(c, d)
    ensures b > 0 && d > 0 ==> den > 0
  {
    hide TruncDiv;
    var g, h := Gcd(a, d), Gcd(c, b);
    ExactDivisions(a, d);
    ExactDivisions(c, b);
    ProductIsCoprime(a, b, c, d, TruncDiv(a, g), TruncDiv(d, g), TruncDiv(c, h), TruncDiv(b, h));
    ProductIsExact(a, b, c, d, g, h, TruncDiv(a, g), TruncDiv(d, g), TruncDiv(c, h), TruncDiv(b, h));
    if b > 0 && d > 0 {
      PositiveFactor(g, TruncDiv(d, g));
      PositiveFactor(h, TruncDiv(b, h));
    }
  }

  lemma OneCancels(a: int)
    ensures Gcd(a, 1) == 1 == Gcd(1, a) && TruncDiv(a, 1) == a && TruncDiv(1, 1) == 1
  {
    CoprimeIntro(a, 1, 0, 1);
    CoprimeIntro(1, a, 1, 0);
  }

  // ----- The order -----

  ghost predicate InRange(max: int, x: int) {
    -max - 1 <= x <= max
  }

  /** An integer result that must fit the machine type. */
  function Fit(ghost max: int, x: int): int
    requires InRange(max, x)
  {
    x
  }

  /** Quotient and remainder with the remainder made non-negative by the source's correcting loop. */
  method FloorDivMod(n: int, d: int, ghost max: int) returns (q: int, r: int)
    requires d > 0 && InRange(max, n) && InRange(max, d)
    ensures n == q * d + r && 0 <= r < d
    ensures InRange(max, q) && InRange(max, r)
  {
    TruncDivMod(n, d);
    q := Fit(max, TruncDiv(n, d));
    r := Fit(max, TruncMod(n, d));
    if r < 0 {
      NegativeQuotient(n, d, q, r);
    }
    while r < 0
      invariant n == q * d + r && -d < r < d
      invariant InRange(max, q) && InRange(max, r)
      invariant r < 0 ==> n < q
      decreases -r
    {
      assert (q - 1) * d == q * d - d;
      r := Fit(max, r + d);
      q := Fit(max, q - 1);
    }
  }

  lemma NegativeQuotient(n: int, d: int, q: int, r: int)
    requires n == q * d + r && d > 0 && r < 0 && n <= q <= 0
    ensures n < q
  {
    if q < 0 {
      assert q * d <= q;
    }
  }

  lemma MulLess(x: int, y: int, z: int)
    requires z > 0
    ensures x < y <==> x * z < y * z
    ensures x < y ==> x * z + z <= y * z
  {
    if x < y {
      MulAtLeast(z, y - x);
      assert (y - x) * z == y * z - x * z;
    } else {
      assert (x - y) * z >= 0;
      assert (x - y) * z == x * z - y * z;
    }
  }

  lemma FloorBelow(n: int, d: int, q: int, r: int, i: int)
    requires d > 0 && n == q * d + r && 0 <= r < d
    ensures n < i * d <==> q < i
  {
    MulLess(q, i, d);
  }

  /** n/d < n'/d' for positive denominators. */
  ghost predicate Below(n: int, d: int, n': int, d': int) {
    n * d' < n' * d
  }

  lemma DifferentQuotients(n: int, d: int, q: int, r: int, n': int, d': int, q': int, r': int)
    requires d > 0 && d' > 0 && n == q * d + r && n' == q' * d' + r' && 0 <= r < d && 0 <= r' < d' && q < q'
    ensures Below(n, d, n', d') && !Below(n', d', n, d)
  {
    MulLess(q, q', d);
    var x, y := q' * d, q' * d';
    MulLess(n, x, d');
    MulLess(n', y, d);
    assert x * d' == y * d;
  }

  /** With equal quotients the comparison passes to the reciprocals of the fractional parts, reversed. */
  lemma EqualQuotients(n: int, d: int, q: int, r: int, n': int, d': int, r': int)
    requires n == q * d + r && n' == q * d' + r'
    ensures Below(n, d, n', d') <==> Below(d', r', d, r)
  {
    var x := d * d';
    assert n * d' == q * d * d' + r * d' && q * d * d' == q * x;
    assert n' * d == q * d' * d + r' * d && q * d' * d == q * x;
  }

  lemma Ended(d: int, r: int, d': int, r': int)
    requires d > 0 && d' > 0 && r >= 0 && r' >= 0 && (r == 0 || r' == 0)
    ensures Below(d', r', d, r) <==> r == 0 && r' != 0
  {
    if r == 0 {
      assert d' * 0 == 0;
      assert r' > 0 ==> d * r' > 0;
    } else {
      assert d' * r > 0;
    }
  }

  /** `operator<`: compares two continued fractions term by term, the sense of the comparison flipping at each term. */
  method LessByContinuedFractions(n0: int, d0: int, n1: int, d1: int, ghost max: int) returns (less: bool)
    requires d0 > 0 && d1 > 0
    requires InRange(max, n0) && InRange(max, d0) && InRange(max, n1) && InRange(max, d1)
    ensures less <==> n0 * d1 < n1 * d0
  {
    var tn, td, rn, rd := n0, d0, n1, d1;
    var tq, tr := FloorDivMod(tn, td, max);
    var rq, rr := FloorDivMod(rn, rd, max);
    var reverse := false;
    assert Below(n0, d0, n1, d1) <==> n0 * d1 < n1 * d0;
    hide Below, TruncDiv, TruncMod;
    while true
      invariant td > 0 && rd > 0 && tn == tq * td + tr && rn == rq * rd + rr && 0 <= tr < td && 0 <= rr < rd
      invariant InRange(max, td) && InRange(max, rd)
      invariant Below(n0, d0, n1, d1) <==> if reverse then Below(rn, rd, tn, td) else Below(tn, td, rn, rd)
      decreases td
    {
      if tq != rq {
        if tq < rq {
          DifferentQuotients(tn, td, tq, tr, rn, rd, rq, rr);
        } else {
          DifferentQuotients(rn, rd, rq, rr, tn, td, tq, tr);
        }
        return if reverse then tq > rq else tq < rq;
      }
      EqualQuotients(tn, td, tq, tr, rn, rd, rr);
      EqualQuotients(rn, rd, rq, rr, tn, td, tr);
      reverse := !reverse;
      if tr == 0 || rr == 0 {
        break;
      }
      TruncDivMod(td, tr);
      TruncDivMod(rd, rr);
      tn, td := td, tr;
      tq, tr := Fit(max, TruncDiv(tn, td)), Fit(max, TruncMod(tn, td));
      rn, rd := rd, rr;
      rq, rr := Fit(max, TruncDiv(rn, rd)), Fit(max, TruncMod(rn, rd));
    }
    Ended(td, tr, rd, rr);
    Ended(rd, rr, td, tr);
    if tr == rr {
      return false;
    }
    return (tr != 0) != reverse;
  }

  // ----- is_normalized -----

  function InnerGcd(a: int, b: int): int
    decreases Abs(b)
  {
    if b == 0 then a else
    assert Abs(TruncMod(a, b)) == Abs(a) % Abs(b) by { AbsTruncMod(a, b); }
    InnerGcd(b, TruncMod(a, b))
  }

  lemma AbsTruncMod(a: int, b: int)
    requires b != 0
    ensures Abs(TruncMod(a, b)) == Abs(a) % Abs(b)
  {
    EuclideanSign(Abs(a), b);
    if a < 0 {
      var q := -a / b;
      assert b * -q == -(b * q);
    }
  }

  lemma EuclideanSign(a: nat, b: int)
    requires b != 0
    ensures a - b * (a / b) == a % Abs(b)
  {
    DivisionIdentity(a, b);
    var c := Abs(b);
    var q := if b < 0 then -(a / b) else a / b;
    assert c * q == b * (a / b) by {
      if b < 0 {
        assert -b * -(a / b) == b * (a / b);
      }
    }
    RemainderUnique(a, c, q, a - b * (a / b));
  }

  predicate IsNormalized(n: int, d: int) {
    d > 0 && (n != 0 || d == 1) && Abs(InnerGcd(n, d)) == 1
  }

  lemma {:induction false} InnerGcdIsGcd(a: int, b: int)
    ensures Abs(InnerGcd(a, b)) == Gcd(a, b)
    decreases Abs(b)
  {
    if b != 0 {
      AbsTruncMod(a, b);
      InnerGcdIsGcd(b, TruncMod(a, b));
    }
  }

  /** The `constexpr` test accepts exactly the fractions that satisfy the class invariant. */
  lemma NormalizedTestAgrees(n: int, d: int)
    ensures IsNormalized(n, d) <==> Lowest(n, d)
  {
    InnerGcdIsGcd(n, d);
    if n == 0 && d > 0 {
      assert GcdNat(0, d) == GcdNat(d, 0 % d) == d;
    }
  }
}
