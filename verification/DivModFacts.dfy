/**
  Facts about Euclidean division that the domains share. Every lemma names its
  multiplier, so that no caller has to search for a nonlinear witness.
 */
module DivModFacts {

  lemma MulMono(a: int, b: int, k: int)
    requires a <= b && 0 <= k
    ensures a * k <= b * k
  {
  }

  // A quotient and a remainder in range are the quotient and the remainder.
  lemma Unique(x: int, d: int, q: int, r: int)
    requires 0 <= r < d && x == q * d + r
    ensures x / d == q && x % d == r
  {
    var q', r' := x / d, x % d;
    assert x == q' * d + r';
    assert (q - q') * d == r' - r;
    if q - q' >= 1 {
      MulMono(1, q - q', d);
    } else if q - q' <= -1 {
      MulMono(q - q', -1, d);
    }
  }

  lemma ModShift(x: int, d: int, k: int)
    requires 0 < d
    ensures (x + d * k) % d == x % d
  {
    assert x == (x / d) * d + x % d;
    assert x + d * k == (x / d + k) * d + x % d;
    Unique(x + d * k, d, x / d + k, x % d);
  }

  lemma SmallMod(x: int, d: int)
    requires 0 <= x < d
    ensures x % d == x && x / d == 0
  {
    Unique(x, d, 0, x);
  }

  // Two numbers have the same remainder exactly when they differ by a multiple.
  lemma ModEq(x: int, y: int, d: int)
    requires 0 < d
    ensures x % d == y % d <==> (x - y) % d == 0
  {
    assert x == (x / d) * d + x % d;
    assert y == (y / d) * d + y % d;
    if x % d == y % d {
      assert x - y == (x / d - y / d) * d;
      Unique(x - y, d, x / d - y / d, 0);
    }
    if (x - y) % d == 0 {
      var k := (x - y) / d;
      assert x == y + d * k;
      ModShift(y, d, k);
    }
  }

  lemma MultipleMod(d: int, k: int)
    requires 0 < d
    ensures (d * k) % d == 0 && (d * k) / d == k
  {
    Unique(d * k, d, k, 0);
  }

  lemma AddModRight(x: int, y: int, d: int)
    requires 0 < d
    ensures (x + y % d) % d == (x + y) % d
  {
    ModShift(x + y % d, d, y / d);
  }

  lemma AddMod(x: int, y: int, d: int)
    requires 0 < d
    ensures (x % d + y % d) % d == (x + y) % d
    ensures (x + y % d) % d == (x + y) % d
  {
    AddModRight(x, y, d);
    AddModRight(y % d, x, d);
  }

  lemma SubMod(x: int, y: int, d: int)
    requires 0 < d
    ensures (x % d - y % d) % d == (x - y) % d
  {
    assert x - y == x % d - y % d + d * (x / d - y / d);
    ModShift(x % d - y % d, d, x / d - y / d);
  }

  lemma DoubleProduct(a: int, b: int)
    ensures (2 * a) * b == 2 * (a * b) == a * (2 * b)
  {
  }

  /** Dividing by 2 * e is halving and then dividing by e. */
  lemma DoubleDivisor(n: nat, e: nat)
    requires e > 0
    ensures n / (2 * e) == n / 2 / e && n % (2 * e) == 2 * (n / 2 % e) + n % 2
  {
    var h, q, r := n / 2, n / 2 / e, n / 2 % e;
    assert h == q * e + r;
    DoubleProduct(q, e);
    Unique(n, 2 * e, q, 2 * r + n % 2);
  }

  lemma ModBelow(n: nat, d: nat)
    requires 0 < d
    ensures n % d < d && n % d <= n
  {
    DivAnti(n, 1, d);
    MulMono(0, n / d, d);
  }

  lemma MulMod(x: int, y: int, d: int)
    requires 0 < d
    ensures ((x % d) * y) % d == (x * y) % d
  {
    assert x * y == (x % d) * y + d * ((x / d) * y) by {
      assert x == x % d + d * (x / d);
    }
    ModShift((x % d) * y, d, (x / d) * y);
  }

  lemma MulModRight(x: int, y: int, d: int)
    requires 0 < d
    ensures (x * (y % d)) % d == (x * y) % d
  {
    MulMod(y, x, d);
    assert (y % d) * x == x * (y % d) && y * x == x * y;
  }

  // Reducing first by a multiple of d loses nothing modulo d.
  lemma ModOfMultiple(x: int, m: int, d: int)
    requires 0 < d && 0 < m && m % d == 0
    ensures (x % m) % d == x % d
  {
    var k := m / d;
    assert m == d * k;
    assert x == x % m + d * (k * (x / m)) by {
      assert x == x % m + m * (x / m);
      assert m * (x / m) == d * (k * (x / m));
    }
    ModShift(x % m, d, k * (x / m));
  }

  lemma ZeroSum(a: int, b: int, d: int)
    requires 0 < d && a % d == 0 && b % d == 0
    ensures (a + b) % d == 0 && (a - b) % d == 0
  {
    AddMod(a, b, d);
    SubMod(a, b, d);
  }

  lemma DividesTrans(a: int, b: int, d: int)
    requires 0 < b && 0 < d && a % b == 0 && b % d == 0
    ensures a % d == 0
  {
    var p, q := a / b, b / d;
    assert a == b * p && b == d * q;
    assert a == d * (q * p);
    MultipleMod(d, q * p);
  }

  // A positive multiple is at least the divisor, and a proper one at least twice it.
  lemma DivisorBound(a: int, d: int)
    requires 0 < a && 0 < d && a % d == 0
    ensures d <= a && 1 <= a / d
    ensures d != a ==> 2 * d <= a
  {
    var q := a / d;
    assert a == d * q;
    if q <= 0 {
      MulMono(q, 0, d);
    }
    MulMono(1, q, d);
    if d != a {
      MulMono(2, q, d);
    }
  }

  lemma DivMono(x: int, y: int, d: int)
    requires x <= y && 0 < d
    ensures x / d <= y / d
  {
    if x / d >= y / d + 1 {
      MulMono(y / d + 1, x / d, d);
    }
  }

  lemma DivAnti(x: int, c: int, d: int)
    requires 0 <= x && 0 < c <= d
    ensures 0 <= x / d <= x / c <= x
  {
    if x / d < 0 {
      MulMono(x / d, -1, d);
    }
    if x / d >= x / c + 1 {
      MulMono(x / c + 1, x / d, c);
      MulMono(c, d, x / d);
    }
    MulMono(1, c, x / c);
  }

  /** Equal remainders, as a relation whose laws name their multipliers. */
  predicate Equiv(x: int, y: int, d: int) { 0 < d && x % d == y % d }

  lemma EquivOf(x: int, y: int, d: int, k: int)
    requires 0 < d && x == y + d * k
    ensures Equiv(x, y, d)
  {
    ModShift(y, d, k);
  }

  lemma EquivMultiplier(x: int, y: int, d: int) returns (k: int)
    requires Equiv(x, y, d)
    ensures x == y + d * k
  {
    k := x / d - y / d;
    assert x == (x / d) * d + x % d && y == (y / d) * d + y % d;
  }

  lemma EquivMod(x: int, d: int)
    requires 0 < d
    ensures Equiv(x % d, x, d)
  {
    SmallMod(x % d, d);
  }

  lemma EquivAffine(x: int, x': int, y: int, y': int, h: int, d: int)
    requires Equiv(x, x', d) && Equiv(y, y', d)
    ensures Equiv(x + y * h, x' + y' * h, d)
  {
    hide Equiv;
    assert 0 < d by { PositiveModulus(x, x', d); }
    var p := EquivMultiplier(x, x', d);
    var q := EquivMultiplier(y, y', d);
    assert y * h == y' * h + d * (q * h);
    assert d * (p + q * h) == d * p + d * (q * h);
    EquivOf(x + y * h, x' + y' * h, d, p + q * h);
  }

  lemma PositiveModulus(x: int, y: int, d: int)
    requires Equiv(x, y, d)
    ensures 0 < d
  {
  }
}
