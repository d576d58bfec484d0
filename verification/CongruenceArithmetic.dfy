/** Wrapping addition and subtraction of congruence classes. */
module CongruenceArithmetic {
  import opened DivModFacts
  import opened Gcds
  import opened Congruences

  /** The greatest word of a class. */
  function MaxMember(c: Congruence, m: nat): nat
    requires c.Wf(m)
  {
    if c.modulus == 0 then c.residue
    else
      DivAnti(m - 1 - c.residue, 1, c.modulus);
      MulMono(0, (m - 1 - c.residue) / c.modulus, c.modulus);
      m - 1 - (m - 1 - c.residue) % c.modulus
  }

  lemma MaxMemberCorrect(c: Congruence, m: nat, x: nat)
    requires c.Wf(m) && x < m
    ensures MaxMember(c, m) < m && c.Has(MaxMember(c, m))
    ensures c.Has(x) ==> c.residue <= x <= MaxMember(c, m)
  {
    if c.modulus > 0 {
      var k, last := c.modulus, MaxMember(c, m);
      var q := (m - 1 - c.residue) / k;
      assert last == c.residue + k * q;
      ModShift(c.residue, k, q);
      SmallMod(c.residue, k);
      if c.Has(x) {
        NextMember(x, k, c.residue);
        if x > last {
          ModEq(x, last, k);
          SmallMod(x - last, k);
        }
      }
    }
  }

  /** The modulus of a result whose operands have the given stride. */
  function ResultModulus(stride: nat, uniform: bool, m: nat): nat
    requires 0 < stride < m
  {
    if uniform then stride else GcdModulus(stride, m)
  }

  lemma {:induction false} StrideBound(a: Congruence, b: Congruence, m: nat)
    requires a.Wf(m) && b.Wf(m)
    ensures Gcd(a.modulus, b.modulus) < m
  {
    hide Gcd;
    GcdPos(a.modulus, b.modulus);
    var g := Gcd(a.modulus, b.modulus);
    if g > 0 {
      GcdGreatest(a.modulus, b.modulus, 1);
      if a.modulus > 0 { DivisorBound(a.modulus, g); } else { DivisorBound(b.modulus, g); }
    }
  }

  function Add(a: Congruence, b: Congruence, m: nat): Congruence
    requires a.Wf(m) && b.Wf(m)
  {
    StrideBound(a, b, m);
    var stride, sum := Gcd(a.modulus, b.modulus), (a.residue + b.residue) % m;
    if stride == 0 then Constant(sum)
    else
      var noWrap := MaxMember(a, m) + MaxMember(b, m) < m;
      var allWrap := a.residue + b.residue >= m;
      New(ResultModulus(stride, noWrap || allWrap, m), sum, m)
  }

  function Sub(a: Congruence, b: Congruence, m: nat): Congruence
    requires a.Wf(m) && b.Wf(m)
  {
    StrideBound(a, b, m);
    var stride, difference := Gcd(a.modulus, b.modulus), (a.residue - b.residue) % m;
    if stride == 0 then Constant(difference)
    else
      var noWrap := a.residue >= MaxMember(b, m);
      var allWrap := MaxMember(a, m) < b.residue;
      New(ResultModulus(stride, noWrap || allWrap, m), difference, m)
  }

  function Neg(a: Congruence, m: nat): Congruence
    requires a.Wf(m)
  {
    Sub(Constant(0), a, m)
  }

  /** All values lie in the segment of integers [k * m, k * m + m). */
  predicate InSegment(v: int, k: int, m: nat) { k * m <= v < k * m + m }

  lemma SegmentMod(v: int, k: int, m: nat)
    requires InSegment(v, k, m)
    ensures v % m == v - k * m
  {
    Unique(v, m, k, v - k * m);
  }

  /** Wrapping keeps an equivalence inside one segment, or modulo a divisor of the machine modulus. */
  lemma WrapEquiv(v: int, base: int, d: nat, m: nat, k: int)
    requires Equiv(v, base, d) && m > 0
    requires (InSegment(v, k, m) && InSegment(base, k, m)) || m % d == 0
    ensures Equiv(v % m, base % m, d)
  {
    if m % d == 0 {
      ModOfMultiple(v, m, d);
      ModOfMultiple(base, m, d);
    } else {
      SegmentMod(v, k, m);
      SegmentMod(base, k, m);
      ModEq(v, base, d);
      ModEq(v % m, base % m, d);
      assert v % m - base % m == v - base;
    }
  }

  lemma {:induction false} ResultModulusFacts(a: Congruence, b: Congruence, m: nat, uniform: bool)
    requires a.Wf(m) && b.Wf(m) && 0 < Gcd(a.modulus, b.modulus) < m
    ensures var d := ResultModulus(Gcd(a.modulus, b.modulus), uniform, m);
            Divides(d, a.modulus) && Divides(d, b.modulus) && (uniform || m % d == 0)
  {
    hide Gcd, GcdModulus;
    var stride := Gcd(a.modulus, b.modulus);
    var d := ResultModulus(stride, uniform, m);
    GcdModulusCorrect(stride, m);
    GcdGreatest(stride, m, 1);
    SelfDivides(stride);
    GcdDivisors(a.modulus, b.modulus, d);
  }

  lemma {:induction false} StrideZero(a: Congruence, b: Congruence)
    ensures Gcd(a.modulus, b.modulus) == 0 <==> a.modulus == 0 && b.modulus == 0
  {
    GcdPos(a.modulus, b.modulus);
  }

  /** Every wrapped sum of members is in the sum. */
  lemma {:induction false} AddSound(a: Congruence, b: Congruence, m: nat, x: nat, y: nat)
    requires a.Wf(m) && b.Wf(m) && x < m && y < m && a.Has(x) && b.Has(y)
    ensures Add(a, b, m).Wf(m) && Add(a, b, m).Has((x + y) % m)
  {
    hide Gcd, MaxMember, ResultModulus;
    StrideBound(a, b, m);
    StrideZero(a, b);
    var stride := Gcd(a.modulus, b.modulus);
    if stride > 0 {
      var noWrap := MaxMember(a, m) + MaxMember(b, m) < m;
      var uniform := noWrap || a.residue + b.residue >= m;
      var d := ResultModulus(stride, uniform, m);
      ResultModulusFacts(a, b, m, uniform);
      MaxMemberCorrect(a, m, x);
      MaxMemberCorrect(b, m, y);
      MemberModDivisor(a, m, x, d);
      MemberModDivisor(b, m, y, d);
      AddMod(x, y, d);
      AddMod(a.residue, b.residue, d);
      var k := if noWrap then 0 else 1;
      WrapEquiv(x + y, a.residue + b.residue, d, m, k);
      NewExact(d, (a.residue + b.residue) % m, m, (x + y) % m);
    }
  }

  /** Every wrapped difference of members is in the difference. */
  lemma {:induction false} SubSound(a: Congruence, b: Congruence, m: nat, x: nat, y: nat)
    requires a.Wf(m) && b.Wf(m) && x < m && y < m && a.Has(x) && b.Has(y)
    ensures Sub(a, b, m).Wf(m) && Sub(a, b, m).Has((x - y) % m)
  {
    hide Gcd, MaxMember, ResultModulus;
    StrideBound(a, b, m);
    StrideZero(a, b);
    var stride := Gcd(a.modulus, b.modulus);
    if stride > 0 {
      var noWrap := a.residue >= MaxMember(b, m);
      var uniform := noWrap || MaxMember(a, m) < b.residue;
      var d := ResultModulus(stride, uniform, m);
      ResultModulusFacts(a, b, m, uniform);
      MaxMemberCorrect(a, m, x);
      MaxMemberCorrect(b, m, y);
      MemberModDivisor(a, m, x, d);
      MemberModDivisor(b, m, y, d);
      SubMod(x, y, d);
      SubMod(a.residue, b.residue, d);
      var k := if noWrap then 0 else -1;
      WrapEquiv(x - y, a.residue - b.residue, d, m, k);
      NewExact(d, (a.residue - b.residue) % m, m, (x - y) % m);
    }
  }

  /** Every wrapped negation of a member is in the negation. */
  lemma {:induction false} NegSound(a: Congruence, m: nat, x: nat)
    requires a.Wf(m) && x < m && a.Has(x)
    ensures Neg(a, m).Wf(m) && Neg(a, m).Has((-(x as int)) % m)
  {
    hide Sub;
    SubSound(Constant(0), a, m, 0, x);
  }

  /** A constant negates to the constant. */
  lemma {:induction false} NegConstant(x: nat, m: nat)
    requires x < m
    ensures Neg(Constant(x), m) == Constant(if x == 0 then 0 else m - x)
  {
    hide Gcd;
    StrideZero(Constant(0), Constant(x));
    SegmentMod(0 - x, if x == 0 then 0 else -1, m);
  }

  // ----- mixed wrapping

  predicate SumWrapsUniformly(a: Congruence, b: Congruence, m: nat)
    requires a.Wf(m) && b.Wf(m)
  {
    MaxMember(a, m) + MaxMember(b, m) < m || a.residue + b.residue >= m
  }

  predicate DifferenceWrapsUniformly(a: Congruence, b: Congruence, m: nat)
    requires a.Wf(m) && b.Wf(m)
  {
    a.residue >= MaxMember(b, m) || MaxMember(a, m) < b.residue
  }

  lemma {:induction false} MixedClass(stride: nat, base: int, m: nat, z: nat)
    requires 0 < stride < m && z < m
    ensures New(GcdModulus(stride, m), base % m, m).Has(z) <==> Equiv(z, base, Gcd(stride, m))
  {
    hide Gcd, GcdModulus, New;
    GcdModulusCorrect(stride, m);
    GcdGreatest(stride, m, 1);
    var g := Gcd(stride, m);
    NewExact(g, base % m, m, z);
    ModOfMultiple(base, m, g);
  }

  /** When some sums wrap and some do not, the sum is the class modulo the gcd of the stride and m. */
  lemma {:induction false} AddMixed(a: Congruence, b: Congruence, m: nat, z: nat)
    requires a.Wf(m) && b.Wf(m) && z < m && !SumWrapsUniformly(a, b, m) && Gcd(a.modulus, b.modulus) > 0
    ensures Add(a, b, m).Has(z) <==> Equiv(z, a.residue + b.residue, Gcd(Gcd(a.modulus, b.modulus), m))
  {
    hide Gcd, GcdModulus, New, MaxMember, Equiv;
    StrideBound(a, b, m);
    MixedClass(Gcd(a.modulus, b.modulus), a.residue + b.residue, m, z);
  }

  /** The same for differences. */
  lemma {:induction false} SubMixed(a: Congruence, b: Congruence, m: nat, z: nat)
    requires a.Wf(m) && b.Wf(m) && z < m && !DifferenceWrapsUniformly(a, b, m) && Gcd(a.modulus, b.modulus) > 0
    ensures Sub(a, b, m).Has(z) <==> Equiv(z, a.residue - b.residue, Gcd(Gcd(a.modulus, b.modulus), m))
  {
    hide Gcd, GcdModulus, New, MaxMember, Equiv;
    StrideBound(a, b, m);
    MixedClass(Gcd(a.modulus, b.modulus), a.residue - b.residue, m, z);
  }

  // ----- least classes

  /** The class with the operands' stride is least among those with these members. */
  lemma {:induction false} LeastByStride(a: Congruence, b: Congruence, m: nat, base: nat, c: Congruence, stride: nat)
    requires a.Wf(m) && b.Wf(m) && c.Wf(m) && base < m && c.Has(base)
    requires stride == Gcd(a.modulus, b.modulus) > 0
    requires c.modulus > 0 && a.modulus % c.modulus == 0 && b.modulus % c.modulus == 0
    ensures Subset(New(stride, base, m), c, m)
  {
    hide Gcd, New;
    GcdDivisors(a.modulus, b.modulus, c.modulus);
    DividedSubset(stride, base, c, m);
  }

  /** Two members of c that are d apart before wrapping in one segment. */
  lemma StepDivides(c: Congruence, u: int, v: int, d: nat, k: int, m: nat)
    requires InSegment(u, k, m) && InSegment(v, k, m) && c.Has(u % m) && c.Has(v % m)
    requires d > 0 && (v == u + d || v == u - d)
    ensures c.modulus > 0 && d % c.modulus == 0
  {
    SegmentMod(u, k, m);
    SegmentMod(v, k, m);
    DistinctMembers(c, u % m, v % m);
  }

  ghost predicate HoldsSums(c: Congruence, a: Congruence, b: Congruence, m: nat) {
    m > 0 && forall x: nat, y: nat | x < m && y < m && a.Has(x) && b.Has(y) :: c.Has((x + y) % m)
  }

  ghost predicate SumsInSegment(a: Congruence, b: Congruence, m: nat, k: int) {
    forall x: nat, y: nat | x < m && y < m && a.Has(x) && b.Has(y) :: InSegment(x + y, k, m)
  }

  lemma {:induction false} SumSteps(a: Congruence, b: Congruence, m: nat, k: int, c: Congruence)
    requires a.Wf(m) && b.Wf(m) && c.Wf(m) && HoldsSums(c, a, b, m) && SumsInSegment(a, b, m, k)
    ensures a.modulus > 0 || b.modulus > 0 ==>
              c.modulus > 0 && a.modulus % c.modulus == 0 && b.modulus % c.modulus == 0
  {
    ResidueMember(a, m);
    ResidueMember(b, m);
    var base := a.residue + b.residue;
    assert InSegment(base, k, m) && c.Has(base % m);
    if a.modulus > 0 {
      assert InSegment(a.residue + a.modulus + b.residue, k, m) && c.Has((a.residue + a.modulus + b.residue) % m);
      StepDivides(c, base, base + a.modulus, a.modulus, k, m);
    }
    if b.modulus > 0 {
      assert InSegment(a.residue + (b.residue + b.modulus), k, m) && c.Has((a.residue + (b.residue + b.modulus)) % m);
      StepDivides(c, base, base + b.modulus, b.modulus, k, m);
    }
  }

  /** When no sum wraps or all do, the sum is the least class that holds every wrapped sum. */
  lemma {:induction false} AddLeast(a: Congruence, b: Congruence, m: nat, k: int, c: Congruence)
    requires a.Wf(m) && b.Wf(m) && c.Wf(m) && SumsInSegment(a, b, m, k) && 0 <= k <= 1
    requires HoldsSums(c, a, b, m)
    ensures Subset(Add(a, b, m), c, m)
  {
    hide Gcd, MaxMember, New, InSegment;
    StrideZero(a, b);
    StrideBound(a, b, m);
    ResidueMember(a, m);
    ResidueMember(b, m);
    var stride, base := Gcd(a.modulus, b.modulus), (a.residue + b.residue) % m;
    assert c.Has(base);
    if stride > 0 {
      SumSteps(a, b, m, k, c);
      LeastByStride(a, b, m, base, c, stride);
      MaxMemberCorrect(a, m, 0);
      MaxMemberCorrect(b, m, 0);
      assert InSegment(MaxMember(a, m) + MaxMember(b, m), k, m) && InSegment(a.residue + b.residue, k, m);
      SegmentEnds(MaxMember(a, m) + MaxMember(b, m), k, m);
      SegmentEnds(a.residue + b.residue, k, m);
      assert Add(a, b, m) == New(stride, base, m);
    }
  }

  lemma SegmentEnds(v: int, k: int, m: nat)
    requires InSegment(v, k, m) && -1 <= k <= 1
    ensures k == 0 ==> 0 <= v < m
    ensures k == 1 ==> m <= v
    ensures k == -1 ==> v < 0
  {
  }

  ghost predicate HoldsDifferences(c: Congruence, a: Congruence, b: Congruence, m: nat) {
    m > 0 && forall x: nat, y: nat | x < m && y < m && a.Has(x) && b.Has(y) :: c.Has((x - y) % m)
  }

  ghost predicate DifferencesInSegment(a: Congruence, b: Congruence, m: nat, k: int) {
    forall x: nat, y: nat | x < m && y < m && a.Has(x) && b.Has(y) :: InSegment(x - y, k, m)
  }

  lemma {:induction false} DifferenceSteps(a: Congruence, b: Congruence, m: nat, k: int, c: Congruence)
    requires a.Wf(m) && b.Wf(m) && c.Wf(m) && HoldsDifferences(c, a, b, m) && DifferencesInSegment(a, b, m, k)
    ensures a.modulus > 0 || b.modulus > 0 ==>
              c.modulus > 0 && a.modulus % c.modulus == 0 && b.modulus % c.modulus == 0
  {
    ResidueMember(a, m);
    ResidueMember(b, m);
    var base := a.residue - b.residue;
    assert InSegment(base, k, m) && c.Has(base % m);
    if a.modulus > 0 {
      assert InSegment(a.residue + a.modulus - b.residue, k, m) && c.Has((a.residue + a.modulus - b.residue) % m);
      StepDivides(c, base, base + a.modulus, a.modulus, k, m);
    }
    if b.modulus > 0 {
      assert InSegment(a.residue - (b.residue + b.modulus), k, m) && c.Has((a.residue - (b.residue + b.modulus)) % m);
      StepDivides(c, base, base - b.modulus, b.modulus, k, m);
    }
  }

  /** When no difference wraps or all do, the difference is the least class that holds them all. */
  lemma {:induction false} SubLeast(a: Congruence, b: Congruence, m: nat, k: int, c: Congruence)
    requires a.Wf(m) && b.Wf(m) && c.Wf(m) && DifferencesInSegment(a, b, m, k) && -1 <= k <= 0
    requires HoldsDifferences(c, a, b, m)
    ensures Subset(Sub(a, b, m), c, m)
  {
    hide Gcd, MaxMember, New, InSegment;
    StrideZero(a, b);
    StrideBound(a, b, m);
    ResidueMember(a, m);
    ResidueMember(b, m);
    var stride, base := Gcd(a.modulus, b.modulus), (a.residue - b.residue) % m;
    assert c.Has(base);
    if stride > 0 {
      DifferenceSteps(a, b, m, k, c);
      LeastByStride(a, b, m, base, c, stride);
      MaxMemberCorrect(a, m, 0);
      MaxMemberCorrect(b, m, 0);
      assert InSegment(MaxMember(a, m) - b.residue, k, m) && InSegment(a.residue - MaxMember(b, m), k, m);
      SegmentEnds(MaxMember(a, m) - b.residue, k, m);
      SegmentEnds(a.residue - MaxMember(b, m), k, m);
      assert Sub(a, b, m) == New(stride, base, m);
    }
  }

  /** With mixed wrapping the sum need not be least: {0, 200} + {100} on 8 bits. */
  lemma AddMixedNotLeast(a: Congruence, b: Congruence, c: Congruence, m: nat)
    requires m == 256 && a == Congruence(200, 0) && b == Congruence(0, 100) && c == Congruence(56, 44)
    ensures a.Wf(m) && b.Wf(m) && c.Wf(m) && HoldsSums(c, a, b, m)
    ensures Add(a, b, m) == Congruence(8, 4) && !Subset(Add(a, b, m), c, m)
  {
    hide Gcd, HoldsSums;
    ExampleSums(a, b, c, m);
    ExampleGcds();
    assert MaxMember(a, m) == 200;
    assert Congruence(8, 4).Has(4) && !c.Has(4);
  }

  lemma ExampleSums(a: Congruence, b: Congruence, c: Congruence, m: nat)
    requires m == 256 && a == Congruence(200, 0) && b == Congruence(0, 100) && c == Congruence(56, 44)
    ensures HoldsSums(c, a, b, m)
  {
    forall x: nat, y: nat | x < m && y < m && a.Has(x) && b.Has(y)
      ensures c.Has((x + y) % m)
    {
      assert x == 0 || x == 200;
    }
  }

  lemma ExampleGcds()
    ensures Gcd(200, 0) == 200 && Gcd(200, 56) == 8
  {
    assert Gcd(200, 56) == Gcd(56, 32) == Gcd(32, 24) == Gcd(24, 8) == Gcd(8, 0) == 8;
  }
}
