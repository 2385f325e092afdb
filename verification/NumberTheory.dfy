/** Greatest common divisors, coprimality and the truncating division of C++. */
module NumberTheory {

  function Abs(a: int): nat {
    if a < 0 then -a else a
  }

  /** The C++ quotient, rounded toward zero. */
  function TruncDiv(a: int, b: int): int
    requires b != 0
  {
    if a >= 0 then a / b else -(-a / b)
  }

  /** The C++ remainder, which takes the sign of the dividend. */
  function TruncMod(a: int, b: int): int
    requires b != 0
  {
    a - b * TruncDiv(a, b)
  }

  /** For a positive divisor, quotient and remainder recombine and the remainder is smaller than the divisor. */
  lemma TruncDivMod(a: int, b: int)
    requires b > 0
    ensures a == TruncDiv(a, b) * b + TruncMod(a, b)
    ensures a >= 0 ==> 0 <= TruncMod(a, b) < b && 0 <= TruncDiv(a, b) <= a
    ensures a < 0 ==> -b < TruncMod(a, b) <= 0 && a <= TruncDiv(a, b) <= 0
  {
    if a < 0 {
      QuotientRange(-a, b);
    } else {
      QuotientRange(a, b);
    }
  }

  lemma QuotientRange(a: nat, b: nat)
    requires b > 0
    ensures 0 <= a / b <= a
    ensures 0 <= a - b * (a / b) < b
  {
    var q, r := a / b, a % b;
    assert a == b * q + r;
    MulAtLeast(q, b);
  }

  lemma MulAtLeast(a: nat, b: int)
    requires b >= 1
    ensures b * a >= a
  {
  }

  lemma SmallMultiple(b: int, t: int)
    requires 0 - Abs(b) < b * t < Abs(b)
    ensures t == 0
  {
    if b >= 0 {
      MulOutside(b, t);
    } else {
      assert -b * -t == b * t;
      MulOutside(-b, -t);
    }
  }

  lemma MulOutside(b: nat, t: int)
    ensures t >= 1 ==> b * t >= b
    ensures t <= -1 ==> b * t <= -(b as int)
  {
    if t >= 1 {
      MulAtLeast(b, t);
    } else if t <= -1 {
      MulAtLeast(b, -t);
      assert b * -t == -(b * t);
    }
  }

  lemma TruncDivExact(g: int, k: int)
    requires g != 0
    ensures TruncDiv(g * k, g) == k
  {
    if g * k >= 0 {
      DivExact(g, k);
    } else {
      assert -(g * k) == g * -k;
      DivExact(g, -k);
    }
  }

  lemma DivExact(g: int, k: int)
    requires g != 0
    ensures g * k / g == k
  {
    var a := g * k;
    DivisionIdentity(a, g);
    var q := a / g;
    assert g * (k - q) == g * k - g * q;
    SmallMultiple(g, k - q);
  }

  lemma DivisionIdentity(a: int, g: int)
    requires g != 0
    ensures 0 <= a - g * (a / g) < Abs(g)
  {
    assert a == g * (a / g) + a % g;
  }

  lemma RemainderUnique(a: int, c: int, q: int, r: int)
    requires c > 0 && a == c * q + r && 0 <= r < c
    ensures a % c == r
  {
    DivisionIdentity(a, c);
    assert c * (a / c - q) == c * (a / c) - c * q;
    SmallMultiple(c, a / c - q);
  }

  ghost predicate Divides(d: int, a: int) {
    exists k: int :: a == d * k
  }

  lemma DividesIntro(d: int, k: int, a: int)
    requires a == d * k
    ensures Divides(d, a)
  {
  }

  lemma Cofactor(d: int, a: int) returns (k: int)
    requires Divides(d, a)
    ensures a == d * k
  {
    k :| a == d * k;
  }

  function GcdNat(a: nat, b: nat): nat
    decreases b
  {
    if b == 0 then a else GcdNat(b, a % b)
  }

  /** The non-negative greatest common divisor; zero only for two zeros. */
  function Gcd(a: int, b: int): nat {
    GcdNat(Abs(a), Abs(b))
  }

  lemma {:induction false} BezoutNat(a: nat, b: nat) returns (x: int, y: int)
    ensures a * x + b * y == GcdNat(a, b)
    decreases b
  {
    if b == 0 {
      x, y := 1, 0;
    } else {
      var u, v := BezoutNat(b, a % b);
      var q := a / b;
      x, y := v, u - q * v;
      BezoutStep(a, b, q, a % b, u, v);
    }
  }

  lemma BezoutStep(a: int, b: int, q: int, r: int, u: int, v: int)
    requires r == a - b * q
    ensures a * v + b * (u - q * v) == b * u + r * v
  {
    var t := b * q;
    assert (a - t) * v == a * v - t * v && t * v == b * (q * v);
    assert b * (u - q * v) == b * u - b * (q * v);
  }

  lemma DividesStep(g: int, q: int, u: int, v: int)
    ensures g * u * q + g * v == g * (u * q + v)
  {
    var t := u * q;
    assert g * u * q == g * t;
    assert g * (t + v) == g * t + g * v;
  }

  /** The greatest common divisor is an integer combination of its arguments. */
  lemma Bezout(a: int, b: int) returns (x: int, y: int)
    ensures a * x + b * y == Gcd(a, b)
  {
    x, y := BezoutNat(Abs(a), Abs(b));
    x, y := if a < 0 then -x else x, if b < 0 then -y else y;
  }

  lemma {:induction false} GcdNatDivides(a: nat, b: nat) returns (j: int, k: int)
    ensures a == GcdNat(a, b) * j && b == GcdNat(a, b) * k
    decreases b
  {
    if b == 0 {
      j, k := 1, 0;
    } else {
      var g := GcdNat(b, a % b);
      var u, v := GcdNatDivides(b, a % b);
      var q := a / b;
      j, k := u * q + v, u;
      DividesStep(g, q, u, v);
    }
  }

  lemma GcdDivides(a: int, b: int) returns (j: int, k: int)
    ensures a == Gcd(a, b) * j && b == Gcd(a, b) * k
  {
    j, k := GcdNatDivides(Abs(a), Abs(b));
    j, k := if a < 0 then -j else j, if b < 0 then -k else k;
  }

  /** Every common divisor divides the greatest one. */
  lemma CommonDivisorDividesGcd(d: int, a: int, b: int)
    requires Divides(d, a) && Divides(d, b)
    ensures Divides(d, Gcd(a, b))
  {
    var j := Cofactor(d, a);
    var k := Cofactor(d, b);
    var x, y := Bezout(a, b);
    assert d * j * x + d * k * y == d * (j * x + k * y);
    DividesIntro(d, j * x + k * y, Gcd(a, b));
  }

  lemma GcdPositive(a: int, b: int)
    requires a != 0 || b != 0
    ensures Gcd(a, b) > 0
  {
    var j, k := GcdDivides(a, b);
  }

  ghost predicate Coprime(a: int, b: int) {
    Gcd(a, b) == 1
  }

  lemma CoprimeIntro(a: int, b: int, x: int, y: int)
    requires a * x + b * y == 1
    ensures Coprime(a, b)
  {
    var g := Gcd(a, b);
    var j, k := GcdDivides(a, b);
    assert g * j * x + g * k * y == g * (j * x + k * y);
    UnitFactor(g, j * x + k * y);
  }

  lemma UnitFactor(g: nat, t: int)
    requires g * t == 1
    ensures g == 1 && t == 1
  {
    assert t >= 1 ==> g * t >= g;
    assert t <= 0 ==> g * t <= 0;
    assert g == 1 ==> g * t == t;
  }

  lemma CoprimeSym(a: int, b: int)
    requires Coprime(a, b)
    ensures Coprime(b, a)
  {
    var x, y := Bezout(a, b);
    CoprimeIntro(b, a, y, x);
  }

  lemma CoprimeProduct(a: int, b: int, c: int)
    requires Coprime(a, b) && Coprime(a, c)
    ensures Coprime(a, b * c)
  {
    var x, y := Bezout(a, b);
    var u, v := Bezout(a, c);
    BezoutProduct(a, b, c, x, y, u, v);
    CoprimeIntro(a, b * c, x + b * y * u, y * v);
  }

  lemma BezoutProduct(a: int, b: int, c: int, x: int, y: int, u: int, v: int)
    requires a * x + b * y == 1 && a * u + c * v == 1
    ensures a * (x + b * y * u) + b * c * (y * v) == 1
  {
    var t := b * y;
    assert t * (a * u + c * v) == t * (a * u) + t * (c * v);
    assert t * (a * u) == a * (t * u) && t * (c * v) == b * c * (y * v);
    assert a * (x + t * u) == a * x + a * (t * u);
  }

  lemma CoprimeFactor(d: int, k: int, b: int)
    requires Coprime(d * k, b)
    ensures Coprime(d, b)
  {
    var x, y := Bezout(d * k, b);
    assert d * k * x == d * (k * x);
    CoprimeIntro(d, b, k * x, y);
  }

  lemma CoprimeShift(a: int, b: int, k: int)
    requires Coprime(a, b)
    ensures Coprime(a + k * b, b)
  {
    var x, y := Bezout(a, b);
    calc {
      1;
      a * x + b * y;
      (a + k * b) * x + b * (y - k * x);
    }
    CoprimeIntro(a + k * b, b, x, y - k * x);
  }

  lemma CoprimeNegate(a: int, b: int)
    requires Coprime(a, b)
    ensures Coprime(-a, b) && Coprime(a, -b) && Coprime(-a, -b)
  {
  }

  /** Dividing both arguments by their greatest common divisor leaves coprime cofactors. */
  lemma CoprimeCofactors(a: int, b: int) returns (j: int, k: int)
    requires a != 0 || b != 0
    ensures Gcd(a, b) > 0 && a == Gcd(a, b) * j && b == Gcd(a, b) * k && Coprime(j, k)
    ensures b > 0 ==> k > 0
  {
    GcdPositive(a, b);
    j, k := GcdDivides(a, b);
    CofactorsCoprime(a, b, j, k);
    assert k <= 0 ==> Gcd(a, b) * k <= 0;
  }

  lemma CofactorsCoprime(a: int, b: int, j: int, k: int)
    requires Gcd(a, b) > 0 && a == Gcd(a, b) * j && b == Gcd(a, b) * k
    ensures Coprime(j, k)
  {
    var g := Gcd(a, b);
    var x, y := Bezout(a, b);
    assert g * j * x + g * k * y == g * (j * x + k * y);
    CancelOne(g, j * x + k * y);
    CoprimeIntro(j, k, x, y);
  }

  lemma CancelOne(g: nat, t: int)
    requires g > 0 && g * t == g
    ensures t == 1
  {
    assert t > 1 ==> g * (t - 1) > 0;
    assert t < 1 ==> g * (1 - t) > 0;
  }

  /** Euclid's lemma. */
  lemma EuclidLemma(a: int, b: int, c: int)
    requires Coprime(a, b) && Divides(a, b * c)
    ensures Divides(a, c)
  {
    var x, y := Bezout(a, b);
    var k := Cofactor(a, b * c);
    EuclidStep(a, b, c, x, y, k);
    DividesIntro(a, x * c + k * y, c);
  }

  lemma EuclidStep(a: int, b: int, c: int, x: int, y: int, k: int)
    requires a * x + b * y == 1 && b * c == a * k
    ensures c == a * (x * c + k * y)
  {
    var s, t := a * x, b * y;
    assert (s + t) * c == s * c + t * c;
    assert t * c == b * c * y == a * k * y;
    assert a * (x * c + k * y) == a * (x * c) + a * (k * y);
    assert a * (x * c) == s * c && a * (k * y) == a * k * y;
  }

  lemma MutualDivisors(a: int, b: int)
    requires a > 0 && b > 0 && Divides(a, b) && Divides(b, a)
    ensures a == b
  {
    var j := Cofactor(a, b);
    var k := Cofactor(b, a);
    assert a * (j * k) == a by {
      assert a * j * k == a * (j * k);
    }
    CancelOne(a, j * k);
    assert j <= 0 ==> a * j <= 0;
    UnitFactor(j, k);
  }

  /** The non-negative least common multiple. */
  function Lcm(a: int, b: int): nat {
    if a == 0 || b == 0 then 0 else assert Gcd(a, b) > 0 by { GcdPositive(a, b); } Abs(a * b) / Gcd(a, b)
  }

  lemma LcmCofactors(a: int, b: int) returns (j: int, k: int)
    requires a != 0 && b != 0
    ensures Gcd(a, b) > 0 && a == Gcd(a, b) * j && b == Gcd(a, b) * k && Coprime(j, k)
    ensures a * k == b * j && Lcm(a, b) == Abs(a * k) > 0
  {
    var g := Gcd(a, b);
    j, k := CoprimeCofactors(a, b);
    CrossCofactors(a, b, g, j, k);
    DivExact(g, Abs(a * k));
  }

  lemma CrossCofactors(a: int, b: int, g: nat, j: int, k: int)
    requires a != 0 && b != 0 && a == g * j && b == g * k
    ensures a * k == b * j != 0 && Abs(a * b) == g * Abs(a * k)
  {
    var m := a * k;
    assert m == g * j * k == g * k * j == b * j;
    assert a * b == a * (g * k) == g * m;
    AbsProduct(g, m);
  }

  lemma AbsProduct(g: nat, m: int)
    ensures Abs(g * m) == g * Abs(m)
  {
    assert g * -m == -(g * m);
    assert m >= 0 ==> g * m >= 0;
    assert m < 0 ==> g * m <= 0;
  }

  lemma DividesAbs(a: int, k: int)
    ensures Divides(a, Abs(a * k))
  {
    assert a * -k == -(a * k);
    DividesIntro(a, if a * k < 0 then -k else k, Abs(a * k));
  }

  lemma LcmIsMultiple(a: int, b: int)
    ensures Divides(a, Lcm(a, b)) && Divides(b, Lcm(a, b))
  {
    if a == 0 || b == 0 {
      DividesIntro(a, 0, 0);
      DividesIntro(b, 0, 0);
    } else {
      var j, k := LcmCofactors(a, b);
      DividesAbs(a, k);
      DividesAbs(b, j);
    }
  }

  /** Every common multiple is a multiple of the least one. */
  lemma LcmDividesCommonMultiple(a: int, b: int, m: int)
    requires Divides(a, m) && Divides(b, m)
    ensures Divides(Lcm(a, b), m)
  {
    var x := Cofactor(a, m);
    var y := Cofactor(b, m);
    if a == 0 || b == 0 {
      DividesIntro(0, 0, m);
    } else {
      var j, k := LcmCofactors(a, b);
      CancelCommon(Gcd(a, b), j, x, k, y);
      CoprimeSym(j, k);
      DividesIntro(k, y, j * x);
      EuclidLemma(k, j, x);
      var t := Cofactor(k, x);
      DividesByAbs(a * k, t, m, a, k, x);
    }
  }

  lemma CancelCommon(g: nat, j: int, x: int, k: int, y: int)
    requires g > 0 && g * j * x == g * k * y
    ensures j * x == k * y
  {
    var p, q := j * x, k * y;
    assert g * p == g * j * x && g * q == g * k * y;
    assert g * (p - q) == g * p - g * q;
    SmallMultiple(g, p - q);
  }

  lemma DividesByAbs(l: int, t: int, m: int, a: int, k: int, x: int)
    requires m == a * x && x == k * t && l == a * k
    ensures Divides(Abs(l), m)
  {
    assert m == a * (k * t) == l * t;
    assert -l * -t == l * t;
    DividesIntro(Abs(l), if l < 0 then -t else t, m);
  }
}
