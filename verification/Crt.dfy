/**
  Chinese remaindering over finite words: modular products and inverses by
  iteration, and the exact intersection of two congruence classes.
 */
module Crt {
  import opened DivModFacts
  import opened Gcds

  // ----- modular products

  const U64_MAX: nat := 0xffff_ffff_ffff_ffff

  const U128_MODULUS: nat := 0x1_0000_0000_0000_0000_0000_0000_0000_0000

  /** Adds two reduced words; no intermediate value reaches the modulus. */
  function AddReduced(x: nat, y: nat, m: nat): (r: nat)
    requires x < m && y < m
    ensures r < m && Equiv(r, x + y, m)
  {
    if x >= m - y then
      EquivOf(x - (m - y), x + y, m, -1);
      x - (m - y)
    else
      x + y
  }

  lemma DoubleStep(r: nat, base: nat, e: nat, m: nat, next: nat, twice: nat)
    requires Equiv(next, if e % 2 == 1 then r + base else r, m) && Equiv(twice, base + base, m)
    ensures Equiv(next + twice * (e / 2), r + base * e, m)
  {
    hide Equiv;
    var h := e / 2;
    var s := if e % 2 == 1 then r + base else r;
    EquivAffine(next, s, twice, base + base, h, m);
    assert s + (base + base) * h == r + base * e by {
      assert e == 2 * h + e % 2;
    }
  }

  lemma EquivTrans(x: int, y: int, z: int, d: int)
    requires Equiv(x, y, d) && Equiv(y, z, d)
    ensures Equiv(x, z, d) && Equiv(z, x, d)
  {
  }

  /** Product modulo m, natively when m fits in 64 bits and else by doubling and adding. */
  method MulModWord(a: nat, b: nat, m: nat) returns (r: nat)
    requires m > 0
    ensures r < m && r == (a * b) % m
  {
    hide Equiv;
    if m <= U64_MAX {
      r := NativeProduct(a, b, m);
    } else {
      r := DoubleAndAdd(a, b, m);
    }
  }

  /** For a modulus that fits in 64 bits, the product of the reduced factors fits in 128. */
  method NativeProduct(a: nat, b: nat, m: nat) returns (r: nat)
    requires 0 < m <= U64_MAX
    ensures r < m && r == (a * b) % m
    ensures (a % m) * (b % m) < U128_MODULUS
  {
    NativeFits(a % m, b % m);
    var x, y := a % m, b % m;
    MulMod(a, b, m);
    MulModRight(a % m, b, m);
    r := (x * y) % m;
  }

  lemma NativeFits(x: nat, y: nat)
    requires x < U64_MAX && y < U64_MAX
    ensures x * y < U128_MODULUS
  {
    MulMono(x, U64_MAX, y);
    MulMono(y, U64_MAX, U64_MAX);
  }

  method DoubleAndAdd(a: nat, b: nat, m: nat) returns (r: nat)
    requires m > 0
    ensures r < m && r == (a * b) % m
  {
    hide Equiv;
    var base: nat, e: nat := a % m, b;
    r := 0;
    Start(a, b, m);
    while e > 0
      invariant r < m && base < m
      invariant Equiv(r + base * e, a * b, m)
    {
      var twice: nat, next: nat := AddReduced(base, base, m), r;
      if e % 2 == 1 {
        next := AddReduced(r, base, m);
      } else {
        Reflexive(r, m);
      }
      DoubleStep(r, base, e, m, next, twice);
      EquivTrans(next + twice * (e / 2), r + base * e, a * b, m);
      r, base, e := next, twice, e / 2;
    }
    Finish(r, base, e, a * b, m);
  }

  lemma Reflexive(x: int, d: int)
    requires 0 < d
    ensures Equiv(x, x, d)
  {
  }

  lemma Start(a: nat, b: nat, m: nat)
    requires m > 0
    ensures Equiv(0 + (a % m) * b, a * b, m)
  {
    hide Equiv;
    EquivMod(a, m);
    Reflexive(0, m);
    EquivAffine(0, 0, a % m, a, b, m);
  }

  lemma Finish(r: nat, base: nat, e: nat, x: int, m: nat)
    requires r < m && e == 0 && Equiv(r + base * e, x, m)
    ensures r == x % m
  {
    assert base * e == 0;
    SmallMod(r, m);
  }

  // ----- modular inverses

  /** Subtraction of reduced words modulo m. */
  function SubReduced(a: nat, b: nat, m: nat): (r: nat)
    requires a < m && b < m
    ensures r < m && Equiv(r, a - b, m)
  {
    if b <= a then
      a - b
    else
      EquivOf(m - (b - a), a - b, m, 1);
      m - (b - a)
  }

  function ModProduct(x: int, y: int, n: nat): (r: nat)
    requires n > 0
    ensures r < n
  {
    (x * y) % n
  }

  /** The Euclidean iteration that keeps only the coefficient of a, reduced modulo n. */
  function InverseLoop(oldR: nat, r: nat, oldS: nat, s: nat, n: nat): (x: nat)
    requires oldS < n && s < n
    ensures x < n
    decreases r
  {
    if r == 0 then oldS
    else InverseLoop(r, oldR % r, s, SubReduced(oldS, ModProduct(oldR / r, s, n), n), n)
  }

  function Inverse(a: nat, n: nat): (x: nat)
    requires n > 0
    ensures x < n
  {
    if n == 1 then 0 else InverseLoop(a, n, 1, 0, n)
  }

  /** The next coefficient, as an integer combination. */
  lemma CoefficientStep(oldS: nat, s: nat, q: int, n: nat)
    requires oldS < n && s < n
    ensures Equiv(SubReduced(oldS, ModProduct(q, s, n), n), oldS + s * (-q), n)
  {
    hide Equiv;
    var p: int := ModProduct(q, s, n);
    EquivMod(q * s, n);
    Reflexive(oldS, n);
    EquivAffine(oldS, oldS, p, q * s, -1, n);
    assert oldS + p * (-1) == oldS - p;
    assert oldS + (q * s) * (-1) == oldS + s * (-q);
    EquivTrans(SubReduced(oldS, p, n), oldS - p, oldS + s * (-q), n);
  }

  lemma FactorOut(x: int, y: int, k: int, a: int)
    ensures (x + y * k) * a == x * a + (y * a) * k
  {
  }

  lemma RemainderAsDifference(x: int, d: int)
    requires d > 0
    ensures x + d * (-(x / d)) == x % d
  {
  }

  lemma InverseStep(a: nat, n: nat, oldR: nat, r: nat, oldS: nat, s: nat)
    requires r > 0 && oldS < n && s < n
    requires Equiv(oldS * a, oldR, n) && Equiv(s * a, r, n)
    ensures Equiv(SubReduced(oldS, ModProduct(oldR / r, s, n), n) * a, oldR % r, n)
  {
    hide Equiv, SubReduced, ModProduct;
    var q: int := oldR / r;
    var t: nat := SubReduced(oldS, ModProduct(q, s, n), n);
    CoefficientStep(oldS, s, q, n);
    ScaledCombination(t, oldS, s, -q, a, n);
    EquivAffine(oldS * a, oldR, s * a, r, -q, n);
    RemainderAsDifference(oldR, r);
    EquivTrans(t * a, oldS * a + (s * a) * (-q), oldR % r, n);
  }

  lemma ScaledCombination(t: int, x: int, y: int, k: int, a: int, n: int)
    requires Equiv(t, x + y * k, n)
    ensures Equiv(t * a, x * a + (y * a) * k, n)
  {
    hide Equiv;
    PositiveModulus(t, x + y * k, n);
    Reflexive(0, n);
    EquivAffine(0, 0, t, x + y * k, a, n);
    FactorOut(x, y, k, a);
  }

  lemma {:induction false} InverseLoopCorrect(a: nat, n: nat, oldR: nat, r: nat, oldS: nat, s: nat)
    requires oldS < n && s < n && Gcd(oldR, r) == 1
    requires Equiv(oldS * a, oldR, n) && Equiv(s * a, r, n)
    ensures Equiv(InverseLoop(oldR, r, oldS, s, n) * a, 1, n)
    decreases r
  {
    hide Equiv;
    if r > 0 {
      InverseStep(a, n, oldR, r, oldS, s);
      InverseLoopCorrect(a, n, r, oldR % r, s, SubReduced(oldS, ModProduct(oldR / r, s, n), n));
    }
  }

  /** The inverse is one. */
  lemma {:induction false} InverseCorrect(a: nat, n: nat)
    requires n > 0 && Gcd(a, n) == 1
    ensures Equiv(Inverse(a, n) * a, 1, n)
  {
    hide InverseLoop, Gcd;
    if n > 1 {
      EquivOf(0 * a, n, n, -1);
      Reflexive(a, n);
      InverseLoopCorrect(a, n, a, n, 1, 0);
    }
  }

  lemma InverseLoopStep(oldR: nat, r: nat, oldS: nat, s: nat, n: nat, product: nat)
    requires oldS < n && s < n && r > 0 && product < n && product == ((oldR / r) * s) % n
    ensures InverseLoop(oldR, r, oldS, s, n) == InverseLoop(r, oldR % r, s, SubReduced(oldS, product, n), n)
  {
    assert product == ModProduct(oldR / r, s, n);
  }

  lemma InverseLoopDone(oldR: nat, oldS: nat, s: nat, n: nat, r: nat)
    requires oldS < n && s < n && r == 0
    ensures InverseLoop(oldR, r, oldS, s, n) == oldS
  {
  }

  /** The loop, with machine products, computes that inverse. */
  method InverseMod(a: nat, n: nat) returns (x: nat)
    requires n > 0 && Gcd(a, n) == 1
    ensures x < n && Equiv(x * a, 1, n)
    ensures x == Inverse(a, n)
  {
    hide Equiv, Gcd, InverseLoop, ModProduct;
    InverseCorrect(a, n);
    if n == 1 {
      return 0;
    }
    var oldR: nat, r: nat, oldS: nat, s: nat := a, n, 1, 0;
    while r != 0
      invariant oldS < n && s < n
      invariant InverseLoop(oldR, r, oldS, s, n) == Inverse(a, n)
      decreases r
    {
      var product := MulModWord(oldR / r, s, n);
      InverseLoopStep(oldR, r, oldS, s, n, product);
      oldR, r, oldS, s := r, oldR % r, s, SubReduced(oldS, product, n);
    }
    InverseLoopDone(oldR, oldS, s, n, r);
    x := oldS;
  }

  // ----- merging two classes

  /** The common words of two congruence classes. */
  datatype Merged = Class(modulus: nat, residue: nat) | Singleton(value: nat) | Empty {
    predicate Wf(m: nat) { Class? ==> residue < modulus && residue + modulus < m }

    predicate Has(x: nat) {
      match this
      case Class(k, r) => k > 0 && x % k == r
      case Singleton(v) => x == v
      case Empty => false
    }
  }

  predicate Solves(x: int, m1: nat, r1: nat, m2: nat, r2: nat) { Equiv(x, r1, m1) && Equiv(x, r2, m2) }

  /** The multiplier k for which a1 + m1 * k is the least common solution. */
  function Multiplier(m1: nat, a1: nat, m2: nat, a2: nat, g: nat): (k: nat)
    requires g > 0 && m2 / g > 0
    ensures k < m2 / g
  {
    var n := m2 / g;
    ModProduct(SubReduced((a2 / g) % n, (a1 / g) % n, n), Inverse(m1 / g, n), n)
  }

  function Times(a: nat, b: nat): nat { a * b }

  /** Outcome for least solution c and period lcm: what is left of the class below m. */
  function Clip(c: nat, lcm: nat, m: nat): Merged {
    if c >= m then Empty
    else if lcm >= m || c + lcm >= m then Singleton(c)
    else Class(lcm, c)
  }

  function Merge(m1: nat, r1: nat, m2: nat, r2: nat, m: nat): Merged
    requires 0 < m1 && 0 < m2
  {
    GcdReduced(m1, m2);
    var a1, a2, g := r1 % m1, r2 % m2, Gcd(m1, m2);
    if a1 % g != a2 % g then Empty
    else Clip(a1 + Times(m1, Multiplier(m1, a1, m2, a2, g)), Times(m1 / g, m2), m)
  }

  /** Incompatible residues have no common solution. */
  lemma {:induction false} Incompatible(x: int, m1: nat, r1: nat, m2: nat, r2: nat)
    requires Gcd(m1, m2) > 0
    requires Solves(x, m1, r1, m2, r2)
    ensures (r1 % m1) % Gcd(m1, m2) == (r2 % m2) % Gcd(m1, m2)
  {
    hide Gcd;
    GcdGreatest(m1, m2, 1);
    ModOfMultiple(x, m1, Gcd(m1, m2));
    ModOfMultiple(x, m2, Gcd(m1, m2));
  }

  /** What the proof needs of a gcd: the cofactors, and an inverse of the first modulo the second. */
  predicate Cofactors(m1: nat, m2: nat, g: nat, p: nat, n: nat, s: nat) {
    g > 0 && p > 0 && n > 0 && m1 == Times(g, p) && m2 == Times(g, n) && Equiv(Times(s, p), 1, n)
  }

  lemma {:induction false} GcdCofactors(m1: nat, m2: nat)
    requires m1 > 0 && m2 > 0
    ensures var g := Gcd(m1, m2);
            g > 0 && m2 / g > 0 && Cofactors(m1, m2, g, m1 / g, m2 / g, Inverse(m1 / g, m2 / g))
  {
    hide Gcd, Inverse, Equiv;
    GcdReduced(m1, m2);
    GcdGreatest(m1, m2, 1);
    var g := Gcd(m1, m2);
    InverseCorrect(m1 / g, m2 / g);
  }

  /** The multiplier solves the reduced congruence. */
  lemma MultiplierCorrect(m1: nat, a1: nat, m2: nat, a2: nat, g: nat, p: nat, n: nat)
    requires g > 0 && p == m1 / g && n == m2 / g && n > 0
    requires Equiv(Times(Inverse(p, n), p), 1, n)
    ensures Equiv(p * Multiplier(m1, a1, m2, a2, g), a2 / g - a1 / g, n)
  {
    hide Equiv, Inverse;
    var s, u1, u2 := Inverse(p, n), a1 / g, a2 / g;
    var d := SubReduced(u2 % n, u1 % n, n);
    var k := Multiplier(m1, a1, m2, a2, g);
    assert k == ModProduct(d, s, n);
    EquivMod(u1, n);
    EquivMod(u2, n);
    EquivAffine(u2 % n, u2, u1 % n, u1, -1, n);
    assert u2 % n + (u1 % n) * (-1) == u2 % n - u1 % n && u2 + u1 * (-1) == u2 - u1;
    EquivTrans(d, u2 % n - u1 % n, u2 - u1, n);
    ProductCorrect(p, n, s, d, k);
    EquivTrans(p * k, d, u2 - u1, n);
  }

  lemma ProductCorrect(p: nat, n: nat, s: nat, d: nat, k: nat)
    requires n > 0 && Equiv(Times(s, p), 1, n) && k == ModProduct(d, s, n)
    ensures Equiv(p * k, d, n)
  {
    hide Equiv;
    EquivMod(d * s, n);
    Reflexive(0, n);
    EquivAffine(0, 0, k, d * s, p, n);
    EquivAffine(0, 0, Times(s, p), 1, d, n);
    assert (d * s) * p == Times(s, p) * d;
    EquivTrans(k * p, Times(s, p) * d, d, n);
    assert k * p == p * k;
  }

  /** The candidate lies in both classes. */
  lemma CandidateSolves(m1: nat, a1: nat, m2: nat, a2: nat, g: nat, p: nat, n: nat, k: nat)
    requires g > 0 && n > 0 && m1 == Times(g, p) && m2 == Times(g, n) && m1 > 0 && m2 > 0
    requires a1 % g == a2 % g && Equiv(p * k, a2 / g - a1 / g, n)
    ensures Equiv(a1 + Times(m1, k), a1, m1) && Equiv(a1 + Times(m1, k), a2, m2)
  {
    hide Equiv;
    EquivOf(a1 + m1 * k, a1, m1, k);
    var t := EquivMultiplier(p * k, a2 / g - a1 / g, n);
    CandidateArithmetic(m1, a1, m2, a2, g, p, n, a1 / g, a2 / g, k, t);
    EquivOf(a1 + m1 * k, a2, m2, t);
  }

  lemma CandidateArithmetic(m1: int, a1: int, m2: int, a2: int, g: int, p: int, n: int,
                            u1: int, u2: int, k: int, t: int)
    requires m1 == g * p && m2 == g * n && p * k == u2 - u1 + n * t
    requires a1 - g * u1 == a2 - g * u2
    ensures a1 + m1 * k == a2 + m2 * t
  {
    assert m1 * k == g * (p * k);
    assert g * (p * k) == g * (u2 - u1) + g * (n * t);
    assert g * (n * t) == m2 * t;
  }

  /** A number divisible by both moduli is divisible by their lcm. */
  lemma CommonMultiple(z: int, u: int, v: int, m1: nat, m2: nat, g: nat, p: nat, n: nat, s: nat) returns (w: int)
    requires Cofactors(m1, m2, g, p, n, s)
    requires z == m1 * u && z == m2 * v
    ensures z == Times(m1, n) * w
  {
    hide Equiv;
    assert p * u == n * v by { CancelCommon(z, g, p, n, u, v, m1, m2); }
    var c := EquivMultiplier(Times(s, p), 1, n);
    w := s * v - c * u;
    assert u == n * w by { CoprimeCancel(s, p, n, c, u, v); }
    assert m1 * (n * w) == (m1 * n) * w;
  }

  lemma CancelCommon(z: int, g: int, p: int, n: int, u: int, v: int, m1: int, m2: int)
    requires g > 0 && m1 == g * p && m2 == g * n && z == m1 * u && z == m2 * v
    ensures p * u == n * v
  {
    assert g * (p * u) == g * (n * v);
  }

  lemma CoprimeCancel(s: int, p: int, n: int, c: int, u: int, v: int)
    requires s * p == 1 + n * c && p * u == n * v
    ensures u == n * (s * v - c * u)
  {
    assert s * (p * u) == (s * p) * u;
    assert (1 + n * c) * u == u + n * (c * u);
    assert s * (n * v) == n * (s * v);
  }

  /** The solutions are exactly one class modulo the lcm. */
  lemma SolutionClass(x: int, c: int, m1: nat, r1: nat, m2: nat, r2: nat, g: nat, p: nat, n: nat, s: nat)
    requires Cofactors(m1, m2, g, p, n, s) && m1 > 0 && m2 > 0
    requires Solves(c, m1, r1, m2, r2)
    ensures Times(m1, n) == Times(p, m2) > 0
    ensures Solves(x, m1, r1, m2, r2) <==> Equiv(x, c, Times(m1, n))
  {
    assert Times(m1, n) == Times(p, m2) > 0 by { LcmTwoWays(m1, m2, g, p, n); }
    if Solves(x, m1, r1, m2, r2) {
      SolutionsDiffer(x, c, m1, m2, g, p, n, s);
    }
    if Equiv(x, c, Times(m1, n)) {
      SolutionShift(x, c, m1, m2, p, n);
    }
  }

  lemma LcmTwoWays(m1: nat, m2: nat, g: nat, p: nat, n: nat)
    requires m1 > 0 && n > 0 && m1 == Times(g, p) && m2 == Times(g, n)
    ensures Times(m1, n) == Times(p, m2) > 0
  {
    assert (g * p) * n == p * (g * n);
    MulMono(1, n, m1);
  }

  lemma SolutionsDiffer(x: int, c: int, m1: nat, m2: nat, g: nat, p: nat, n: nat, s: nat)
    requires Cofactors(m1, m2, g, p, n, s)
    requires Equiv(x, c, m1) && Equiv(x, c, m2)
    ensures Equiv(x, c, Times(m1, n))
  {
    hide Equiv;
    assert m1 > 0 by { PositiveModulus(x, c, m1); }
    var u := EquivMultiplier(x, c, m1);
    var v := EquivMultiplier(x, c, m2);
    var w := CommonMultiple(x - c, u, v, m1, m2, g, p, n, s);
    assert Times(m1, n) > 0 by { MulMono(1, n, m1); }
    EquivOf(x, c, Times(m1, n), w);
  }

  lemma SolutionShift(x: int, c: int, m1: nat, m2: nat, p: nat, n: nat)
    requires m1 > 0 && m2 > 0
    requires Times(m1, n) == Times(p, m2) && Equiv(x, c, Times(m1, n))
    ensures Equiv(x, c, m1) && Equiv(x, c, m2)
  {
    hide Equiv;
    var k := EquivMultiplier(x, c, Times(m1, n));
    assert (m1 * n) * k == m1 * (n * k) && (p * m2) * k == m2 * (p * k);
    EquivOf(x, c, m1, n * k);
    EquivOf(x, c, m2, p * k);
  }

  /** The clipped class keeps exactly the words of the class. */
  lemma ClipExact(c: nat, lcm: nat, m: nat, x: nat)
    requires c < lcm && x < m
    ensures Clip(c, lcm, m).Wf(m)
    ensures Clip(c, lcm, m).Has(x) <==> Equiv(x, c, lcm)
  {
    SmallMod(c, lcm);
    if x % lcm == c {
      var q := x / lcm;
      assert x == lcm * q + c;
      if q < 0 { MulMono(q, -1, lcm); }
      if q > 0 { MulMono(1, q, lcm); }
    }
  }

  lemma CandidateBound(m1: nat, a1: nat, n: nat, k: nat)
    requires a1 < m1 && k < n
    ensures a1 + Times(m1, k) < Times(m1, n)
  {
    MulMono(k, n - 1, m1);
    assert (n - 1) * m1 == m1 * n - m1;
  }

  /** The least solution for compatible residues. */
  lemma {:induction false} CandidateCorrect(m1: nat, r1: nat, m2: nat, r2: nat)
    requires m1 > 0 && m2 > 0 && Gcd(m1, m2) > 0 && m2 / Gcd(m1, m2) > 0
    requires (r1 % m1) % Gcd(m1, m2) == (r2 % m2) % Gcd(m1, m2)
    ensures var g := Gcd(m1, m2);
            var c := r1 % m1 + Times(m1, Multiplier(m1, r1 % m1, m2, r2 % m2, g));
            Solves(c, m1, r1, m2, r2) && c < Times(m1, m2 / g)
  {
    hide Gcd, Inverse, Equiv, Multiplier;
    var a1, a2, g := r1 % m1, r2 % m2, Gcd(m1, m2);
    var k := Multiplier(m1, a1, m2, a2, g);
    var c := a1 + Times(m1, k);
    GcdCofactors(m1, m2);
    MultiplierCorrect(m1, a1, m2, a2, g, m1 / g, m2 / g);
    CandidateSolves(m1, a1, m2, a2, g, m1 / g, m2 / g, k);
    EquivMod(r1, m1);
    EquivMod(r2, m2);
    EquivTrans(c, a1, r1, m1);
    EquivTrans(c, a2, r2, m2);
    CandidateBound(m1, a1, m2 / g, k);
  }

  /** The merge is exactly the set of words that satisfy both congruences. */
  lemma {:induction false} MergeExact(m1: nat, r1: nat, m2: nat, r2: nat, m: nat, x: nat)
    requires 0 < m1 && 0 < m2 && x < m
    ensures Merge(m1, r1, m2, r2, m).Wf(m)
    ensures Merge(m1, r1, m2, r2, m).Has(x) <==> Solves(x, m1, r1, m2, r2)
  {
    hide Gcd, Inverse, Multiplier, Times, Clip, Solves;
    GcdCofactors(m1, m2);
    var a1, a2, g := r1 % m1, r2 % m2, Gcd(m1, m2);
    if a1 % g != a2 % g {
      if Solves(x, m1, r1, m2, r2) {
        Incompatible(x, m1, r1, m2, r2);
      }
    } else {
      var c := a1 + Times(m1, Multiplier(m1, a1, m2, a2, g));
      CandidateCorrect(m1, r1, m2, r2);
      SolutionClass(x, c, m1, r1, m2, r2, g, m1 / g, m2 / g, Inverse(m1 / g, m2 / g));
      ClipExact(c, Times(m1 / g, m2), m, x);
    }
  }

  datatype Checked = None | Some(word: nat)

  function CheckedAdd(a: nat, b: nat, m: nat): Checked { if a + b < m then Some(a + b) else None }

  function CheckedMul(a: nat, b: nat, m: nat): Checked { if Times(a, b) < m then Some(Times(a, b)) else None }

  /** The merge computed on words below m with checked products and sums. */
  method MergeWords(m1: nat, r1: nat, m2: nat, r2: nat, m: nat) returns (merged: Merged)
    requires 0 < m1 < m && 0 < m2 < m && r1 < m && r2 < m
    ensures merged == Merge(m1, r1, m2, r2, m)
    ensures forall x: nat :: x < m ==> (merged.Has(x) <==> Solves(x, m1, r1, m2, r2))
  {
    hide Gcd, Inverse, SubReduced, Times, Equiv;
    forall x: nat | x < m
      ensures Merge(m1, r1, m2, r2, m).Has(x) <==> Solves(x, m1, r1, m2, r2)
    {
      MergeExact(m1, r1, m2, r2, m, x);
    }
    GcdReduced(m1, m2);
    var a1, a2, g := r1 % m1, r2 % m2, Gcd(m1, m2);
    if a1 % g != a2 % g {
      return Empty;
    }
    var p, n := m1 / g, m2 / g;
    var s := InverseMod(p, n);
    var k := MulModWord(SubReduced((a2 / g) % n, (a1 / g) % n, n), s, n);
    assert k == Multiplier(m1, a1, m2, a2, g);
    var modulus, term := CheckedMul(p, m2, m), CheckedMul(m1, k, m);
    var residue := if term.None? then None else CheckedAdd(term.word, a1, m);
    if residue.None? {
      return Empty;
    }
    if modulus.None? || CheckedAdd(residue.word, modulus.word, m).None? {
      return Singleton(residue.word);
    }
    return Class(modulus.word, residue.word);
  }
}
