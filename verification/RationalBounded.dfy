/** Boost.Rational's normalization in a two's-complement type, where the least value has no negation. */
module RationalBounded {
  import opened Wrappers
  import opened NumberTheory
  import opened RationalTheory
  import opened BoostRational

  /** A result one beyond the greatest value comes out as the least. */
  function Wrap(max: int, x: int): (r: int)
    requires 1 <= max && -max - 1 <= x <= max + 1
    ensures InRange(max, r)
  {
    if x == max + 1 then -max - 1 else x
  }

  lemma GcdReach(max: int, n: int, d: int)
    requires 1 <= max && InRange(max, n) && InRange(max, d) && n != 0 && d != 0
    ensures 0 < Gcd(n, d) <= max + 1
    ensures Gcd(n, d) == max + 1 ==> n == d == -max - 1
  {
    GcdPositive(n, d);
    var g := Gcd(n, d);
    var j, k := GcdDivides(n, d);
    Multiple(g, j);
    Multiple(g, k);
  }

  lemma Multiple(g: nat, j: int)
    requires g * j != 0
    ensures g <= Abs(g * j)
  {
    if j > 0 {
      assert g * (j - 1) >= 0;
    } else {
      assert g * (-j - 1) >= 0;
    }
  }

  /** The parts after the division by the wrapped gcd. */
  lemma Reduced(max: int, n: int, d: int, g: int, p: int, q: int)
    requires 1 <= max && InRange(max, n) && InRange(max, d) && n != 0 && d != 0
    requires g != 0 && g == (if Gcd(n, d) == max + 1 then -max - 1 else Gcd(n, d))
    requires p == TruncDiv(n, g) && q == TruncDiv(d, g)
    ensures Coprime(p, q) && p != 0 && q != 0 && Value(p, q) == Value(n, d) && InRange(max, p) && InRange(max, q)
    ensures p == -max - 1 && q < 0 <==> n == -max - 1 && d < 0 && Coprime(n, d)
    ensures q == -max - 1 <==> d == -max - 1 && Coprime(n, d)
  {
    GcdReach(max, n, d);
    if g < 0 {
      TruncDivExact(-max - 1, 1);
      CoprimeIntro(1, 1, 1, 0);
      CrossEqual(1, 1, n, d);
    } else {
      ExactDivisions(n, d);
      CofactorsCoprime(n, d, p, q);
      CrossCofactor(n, d, g, p, q);
      CofactorSize(max, g, p);
      CofactorSize(max, g, q);
      assert q < 0 <==> g * q < 0;
    }
  }

  lemma CofactorSize(max: int, g: nat, p: int)
    requires max >= 1 && g > 0 && InRange(max, g * p)
    ensures InRange(max, p) && (p == -max - 1 <==> g == 1 && g * p == -max - 1)
  {
    if p >= 0 {
      assert (g - 1) * p >= 0;
    } else {
      assert (g - 1) * -p >= 0;
      assert g > 1 ==> (g - 1) * -p > 0;
    }
  }

  /** `normalize`: the first exception is for a zero denominator, the second exactly for the least value as a
      denominator already in lowest terms. Otherwise the result is in lowest terms, and it has the value asked for
      unless the least value is the numerator over a negative denominator in lowest terms: then the sign is lost. */
  method Normalize(max: int, n: int, d: int) returns (r: Result<(int, int)>)
    requires 1 <= max && InRange(max, n) && InRange(max, d)
    ensures r == Error("bad rational: zero denominator") <==> d == 0
    ensures r == Error("bad rational: non-zero singular denominator") <==> d == -max - 1 && Coprime(n, d)
    ensures r.Error? <==> d == 0 || (d == -max - 1 && Coprime(n, d))
    ensures r.Ok? ==> InRange(max, r.value.0) && InRange(max, r.value.1) && Lowest(r.value.0, r.value.1)
    ensures r.Ok? ==>
      Value(r.value.0, r.value.1) == if n == -max - 1 && d < 0 && Coprime(n, d) then -Value(n, d) else Value(n, d)
  {
    hide Gcd, TruncDiv, Value;
    var num, den := n, d;
    if den == 0 {
      return Error("bad rational: zero denominator");
    }
    if num == 0 {
      ZeroParts(d);
      den := 1;
      return Ok((num, den));
    }
    GcdReach(max, num, den);
    var g := Wrap(max, Gcd(num, den));
    num := TruncDiv(num, g);
    den := TruncDiv(den, g);
    Reduced(max, n, d, g, num, den);
    if den < 0 {
      CoprimeNegate(num, den);
      ValueOfNegation(num, den);
      ValueOfNegation(-num, -den);
      num := Wrap(max, -num);
      den := Wrap(max, -den);
    }
    if den < 0 {
      return Error("bad rational: non-zero singular denominator");
    }
    return Ok((num, den));
  }

  lemma ZeroParts(d: int)
    requires d != 0
    ensures Lowest(0, 1) && Value(0, 1) == Value(0, d) && Gcd(0, d) == Abs(d)
  {
    CoprimeIntro(0, 1, 0, 1);
    CrossEqual(0, 1, 0, d);
    assert GcdNat(0, Abs(d)) == GcdNat(Abs(d), 0 % Abs(d));
  }
}
