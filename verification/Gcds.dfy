/** Greatest common divisors by the Euclidean algorithm, with Gcd(0, 0) == 0. */
module Gcds {
  import opened DivModFacts

  function Gcd(a: nat, b: nat): nat
    decreases b
  {
    if b == 0 then a else Gcd(b, a % b)
  }

  function Gap(x: nat, y: nat): nat { if x <= y then y - x else x - y }

  predicate Divides(d: nat, a: int) { d > 0 && a % d == 0 }

  // ----- divisibility

  lemma MakeDivides(d: nat, x: int)
    requires d > 0 && x % d == 0
    ensures Divides(d, x)
  {
  }

  lemma DividesMeans(d: nat, x: int)
    requires Divides(d, x)
    ensures x % d == 0
  {
  }

  lemma DividesZero(d: nat)
    requires d > 0
    ensures Divides(d, 0)
  {
  }

  lemma DividesPositive(d: nat, x: int)
    requires Divides(d, x)
    ensures d > 0
  {
  }

  lemma DividesSum(d: nat, x: int, y: int)
    requires Divides(d, x) && Divides(d, y)
    ensures Divides(d, x + y) && Divides(d, x - y)
  {
    ZeroSum(x, y, d);
  }

  lemma DividesNegated(d: nat, x: int)
    ensures Divides(d, x) <==> Divides(d, -x)
  {
    if d > 0 {
      if Divides(d, x) { ZeroSum(0, x, d); }
      if Divides(d, -x) { ZeroSum(0, -x, d); }
    }
  }

  lemma DividesChain(c: nat, d: nat, x: int)
    requires Divides(c, d) && Divides(d, x)
    ensures Divides(c, x)
  {
    DividesTrans(x, d, c);
  }

  /** A positive multiple is at least the divisor. */
  lemma DividesBound(d: nat, x: int)
    requires Divides(d, x) && x > 0
    ensures d <= x && (d != x ==> 2 * d <= x)
  {
    DivisorBound(x, d);
  }

  lemma GapDivides(d: nat, x: nat, y: nat)
    requires d > 0
    ensures Gap(x, y) % d == 0 <==> Divides(d, x - y)
    ensures Gap(x, y) % d == 0 <==> Divides(d, y - x)
  {
    DividesNegated(d, x - y);
  }

  // ----- the algorithm

  /** One Euclidean step keeps the common divisors. */
  lemma EuclidStep(a: nat, b: nat, d: nat)
    requires b > 0 && d > 0
    ensures Divides(d, a) && Divides(d, b) <==> Divides(d, b) && Divides(d, a % b)
  {
    var q := a / b;
    assert a == b * q + a % b;
    if Divides(d, b) {
      var k := b / d;
      assert b == d * k;
      assert b * q == d * (k * q);
      MultipleMod(d, k * q);
      if Divides(d, a) {
        ZeroSum(a, b * q, d);
      }
      if Divides(d, a % b) {
        ZeroSum(b * q, a % b, d);
      }
    }
  }

  /** The divisors of the gcd are exactly the common divisors. */
  lemma {:induction false} GcdDivisors(a: nat, b: nat, d: nat)
    requires d > 0
    ensures Divides(d, Gcd(a, b)) <==> Divides(d, a) && Divides(d, b)
    decreases b
  {
    if b == 0 {
      SmallMod(0, d);
    } else {
      EuclidStep(a, b, d);
      GcdDivisors(b, a % b, d);
    }
  }

  lemma {:induction false} GcdPos(a: nat, b: nat)
    ensures Gcd(a, b) == 0 <==> a == 0 && b == 0
    decreases b
  {
    if b != 0 {
      GcdPos(b, a % b);
    }
  }

  lemma {:induction false} GcdOfZero(a: nat)
    ensures Gcd(0, a) == a
  {
    if a > 0 {
      SmallMod(0, a);
    }
  }

  lemma SelfDivides(a: nat)
    requires a > 0
    ensures Divides(a, a)
  {
    MultipleMod(a, 1);
  }

  /** The gcd is 0 for two zeros, and otherwise the greatest common divisor. */
  lemma {:induction false} GcdGreatest(a: nat, b: nat, d: nat)
    ensures a == 0 && b == 0 ==> Gcd(a, b) == 0
    ensures a > 0 || b > 0 ==> Divides(Gcd(a, b), a) && Divides(Gcd(a, b), b)
    ensures (a > 0 || b > 0) && Divides(d, a) && Divides(d, b) ==> d <= Gcd(a, b)
  {
    hide Gcd;
    GcdPos(a, b);
    if a > 0 || b > 0 {
      SelfDivides(Gcd(a, b));
      GcdDivisors(a, b, Gcd(a, b));
      if d > 0 {
        GcdDivisors(a, b, d);
        if Divides(d, Gcd(a, b)) {
          DivisorBound(Gcd(a, b), d);
        }
      }
    }
  }

  /** Numbers with the same divisors are equal. */
  lemma SameDivisors(x: nat, y: nat)
    requires x > 0 && y > 0
    requires Divides(x, y) && Divides(y, x)
    ensures x == y
  {
    DivisorBound(x, y);
    DivisorBound(y, x);
  }

  lemma {:induction false} GcdSymmetric(a: nat, b: nat)
    ensures Gcd(a, b) == Gcd(b, a)
  {
    hide Gcd;
    GcdPos(a, b);
    GcdPos(b, a);
    if a != 0 || b != 0 {
      var g, h := Gcd(a, b), Gcd(b, a);
      GcdGreatest(a, b, 1);
      GcdGreatest(b, a, 1);
      GcdDivisors(a, b, h);
      GcdDivisors(b, a, g);
      SameDivisors(g, h);
    }
  }

  /** Dividing by the gcd leaves coprime numbers. */
  lemma {:induction false} GcdReduced(a: nat, b: nat)
    requires a > 0 && b > 0
    ensures Gcd(a, b) > 0 && a / Gcd(a, b) > 0 && b / Gcd(a, b) > 0
    ensures Gcd(a / Gcd(a, b), b / Gcd(a, b)) == 1
  {
    hide Gcd;
    var g := Gcd(a, b);
    GcdGreatest(a, b, 1);
    DivisorBound(a, g);
    DivisorBound(b, g);
    var p, n := a / g, b / g;
    var d := Gcd(p, n);
    GcdGreatest(p, n, 1);
    ScaledDivides(a, g, d);
    ScaledDivides(b, g, d);
    GcdGreatest(a, b, g * d);
    if d > 1 {
      MulMono(2, d, g);
    }
  }

  lemma ScaledDivides(a: nat, g: nat, d: nat)
    requires Divides(g, a) && Divides(d, a / g)
    ensures g * d > 0 && Divides(g * d, a)
  {
    var p := a / g;
    var q := p / d;
    assert a == g * p && p == d * q;
    assert a == (g * d) * q;
    MulMono(1, d, g);
    MultipleMod(g * d, q);
  }

  /** The gcd with the machine modulus, computed from a word and its complement. */
  function GcdModulus(a: nat, m: nat): nat
    requires 0 < a < m
  {
    Gcd(a, m - a)
  }

  lemma {:induction false} GcdModulusCorrect(a: nat, m: nat)
    requires 0 < a < m
    ensures GcdModulus(a, m) == Gcd(a, m)
  {
    hide Gcd;
    var g, h := Gcd(a, m - a), Gcd(a, m);
    GcdGreatest(a, m - a, 1);
    GcdGreatest(a, m, 1);
    ZeroSum(a, m - a, g);
    ZeroSum(m, a, h);
    GcdDivisors(a, m - a, h);
    GcdDivisors(a, m, g);
    SameDivisors(g, h);
  }
}
