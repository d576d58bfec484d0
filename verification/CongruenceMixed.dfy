/**
  When the sum or the difference of two congruence classes is the least class
  that holds every wrapped result, for operands of which some results wrap and
  some do not. Both operations are a base plus two progressions of steps.
 */
module CongruenceMixed {
  import opened DivModFacts
  import opened Gcds
  import opened Congruences
  import opened CongruenceArithmetic

  /** The offsets 0, step, ..., last; step 0 is the single offset 0. */
  datatype Steps = Steps(step: nat, last: nat) {
    predicate Wf() { (step == 0 <==> last == 0) && (step > 0 ==> Divides(step, last)) }

    predicate Has(i: nat) { i <= last && (step > 0 ==> Divides(step, i)) }
  }

  /** The least value is a word and the greatest wraps once. */
  predicate Straddles(base: nat, s: Steps, t: Steps, m: nat) {
    s.Wf() && t.Wf() && s.last < m && t.last < m && base < m <= base + s.last + t.last < 2 * m
  }

  ghost predicate HoldsValues(c: Congruence, base: nat, s: Steps, t: Steps, m: nat) {
    m > 0 && forall i: nat, j: nat | s.Has(i) && t.Has(j) :: c.Has((base + i + j) % m)
  }

  /** Some two values one step of s apart wrap alike. */
  predicate Seen(base: nat, s: Steps, t: Steps, m: nat) {
    s.step == 0 || base + s.step < m || base + s.last + t.last >= m + s.step
  }

  function CommonModulus(s: Steps, t: Steps, m: nat): nat { Gcd(Gcd(s.step, t.step), m) }

  /** The class modulo the gcd of both steps and m is the least that holds the values. */
  predicate LeastWhenMixed(base: nat, s: Steps, t: Steps, m: nat) {
    if !Seen(base, s, t, m) then s.step <= m && Gcd(t.step, m - s.step) == CommonModulus(s, t, m)
    else if !Seen(base, t, s, m) then t.step <= m && Gcd(s.step, m - t.step) == CommonModulus(s, t, m)
    else true
  }

  lemma WrapsOnce(v: nat, m: nat)
    requires v < 2 * m
    ensures v % m == if v < m then v else v - m
  {
    if v < m {
      SmallMod(v, m);
    } else {
      Unique(v, m, 1, v - m);
    }
  }

  // ----- what the values force on a class that holds them

  lemma StepsEnds(s: Steps)
    requires s.Wf()
    ensures s.Has(0) && s.Has(s.last)
    ensures s.step > 0 ==> s.step <= s.last && s.Has(s.step) && s.Has(s.last - s.step)
    ensures s.step > 0 && s.last != s.step ==> 2 * s.step <= s.last
  {
    if s.step > 0 {
      MultipleMod(s.step, 0);
      SelfDivides(s.step);
      DivisorBound(s.last, s.step);
      ZeroSum(s.last, s.step, s.step);
    }
  }

  lemma MembersDiffer(c: Congruence, u: nat, v: nat)
    requires c.Has(u) && c.Has(v) && c.modulus > 0
    ensures Divides(c.modulus, u - v)
  {
    ModEq(u, v, c.modulus);
  }

  /** A step seen on one side of the wrap is a multiple of the modulus. */
  lemma SeenDivides(c: Congruence, base: nat, s: Steps, t: Steps, m: nat)
    requires Straddles(base, s, t, m) && HoldsValues(c, base, s, t, m) && Seen(base, s, t, m) && s.step > 0
    ensures c.modulus > 0 && Divides(c.modulus, s.step)
  {
    hide Divides;
    StepsEnds(s);
    StepsEnds(t);
    if base + s.step < m {
      WrapsOnce(base, m);
      WrapsOnce(base + s.step, m);
      assert c.Has((base + 0 + 0) % m) && c.Has((base + s.step + 0) % m);
      DistinctStep(c, base, s.step);
    } else {
      var top := base + s.last + t.last - m;
      WrapsOnce(top + m, m);
      WrapsOnce(top + m - s.step, m);
      assert c.Has((base + s.last + t.last) % m) && c.Has((base + (s.last - s.step) + t.last) % m);
      DistinctStep(c, top - s.step, s.step);
    }
  }

  lemma DistinctStep(c: Congruence, u: nat, d: nat)
    requires c.Has(u) && c.Has(u + d) && d > 0
    ensures c.modulus > 0 && Divides(c.modulus, d)
  {
    DistinctMembers(c, u, u + d);
  }

  lemma HoldsSwapped(c: Congruence, base: nat, s: Steps, t: Steps, m: nat)
    requires HoldsValues(c, base, s, t, m)
    ensures HoldsValues(c, base, t, s, m)
  {
    forall i: nat, j: nat | t.Has(i) && s.Has(j) ensures c.Has((base + i + j) % m) {
      assert c.Has((base + j + i) % m);
    }
  }

  lemma StepDividesLast(d: nat, s: Steps, i: nat)
    requires s.Wf() && s.Has(i) && d > 0 && (s.step > 0 ==> Divides(d, s.step))
    ensures Divides(d, i)
  {
    if s.step > 0 {
      DividesChain(d, s.step, i);
    }
  }

  /** With both steps seen, the modulus divides m as well. */
  lemma {:induction false} BothSeenModulus(c: Congruence, base: nat, s: Steps, t: Steps, m: nat)
    requires Straddles(base, s, t, m) && HoldsValues(c, base, s, t, m)
    requires Seen(base, s, t, m) && Seen(base, t, s, m)
    ensures c.modulus > 0 && Divides(c.modulus, CommonModulus(s, t, m))
  {
    hide Divides, Gcd;
    StepsEnds(s);
    StepsEnds(t);
    if s.step > 0 { SeenDivides(c, base, s, t, m); }
    if t.step > 0 {
      HoldsSwapped(c, base, s, t, m);
      SeenDivides(c, base, t, s, m);
    }
    var d := c.modulus;
    StepDividesLast(d, s, s.last);
    StepDividesLast(d, t, t.last);
    WrapsOnce(base, m);
    WrapsOnce(base + s.last + t.last, m);
    assert c.Has((base + 0 + 0) % m) && c.Has((base + s.last + t.last) % m);
    MembersDiffer(c, base + s.last + t.last - m, base);
    DividesSum(d, s.last, t.last);
    DividesSum(d, s.last + t.last, s.last + t.last - m);
    assert s.last + t.last - (s.last + t.last - m) == m;
    DividesGcd3(d, s, t, m);
  }

  lemma {:induction false} DividesGcd3(d: nat, s: Steps, t: Steps, m: nat)
    requires d > 0 && (s.step > 0 ==> Divides(d, s.step)) && (t.step > 0 ==> Divides(d, t.step)) && Divides(d, m)
    ensures Divides(d, CommonModulus(s, t, m))
  {
    hide Gcd, Divides;
    DividesZero(d);
    GcdDivisors(s.step, t.step, d);
    GcdDivisors(Gcd(s.step, t.step), m, d);
  }

  // ----- a step that always wraps

  /** An unseen progression has two offsets: the first never wraps, the second always does. */
  lemma UnseenShape(base: nat, s: Steps, t: Steps, m: nat)
    requires Straddles(base, s, t, m) && !Seen(base, s, t, m)
    ensures 0 < s.step == s.last < m && base + t.last < m <= base + s.step && Seen(base, t, s, m)
  {
    StepsEnds(s);
    StepsEnds(t);
  }

  lemma {:induction false} UnseenModulus(c: Congruence, base: nat, s: Steps, t: Steps, m: nat)
    requires Straddles(base, s, t, m) && !Seen(base, s, t, m) && HoldsValues(c, base, s, t, m)
    ensures s.step <= m && c.modulus > 0 && Divides(c.modulus, Gcd(t.step, m - s.step))
  {
    hide Divides, Gcd;
    UnseenShape(base, s, t, m);
    StepsEnds(s);
    StepsEnds(t);
    WrapsOnce(base, m);
    WrapsOnce(base + s.step, m);
    assert c.Has((base + 0 + 0) % m) && c.Has((base + s.step + 0) % m);
    DistinctStep(c, base + s.step - m, m - s.step);
    var d := c.modulus;
    DividesZero(d);
    if t.step > 0 {
      HoldsSwapped(c, base, s, t, m);
      SeenDivides(c, base, t, s, m);
    }
    GcdDivisors(t.step, m - s.step, d);
  }

  /** The class modulo the gcd of the other step and the distance left by the wrap holds every value. */
  lemma {:induction false} UnseenHolds(base: nat, s: Steps, t: Steps, m: nat)
    requires Straddles(base, s, t, m) && !Seen(base, s, t, m) && s.step <= m
    ensures HoldsValues(New(Gcd(t.step, m - s.step), base, m), base, s, t, m)
  {
    hide Gcd, New, Divides;
    UnseenShape(base, s, t, m);
    var g := Gcd(t.step, m - s.step);
    GcdGreatest(t.step, m - s.step, 1);
    assert g > 0 by { DividesPositive(g, m - s.step); }
    forall i: nat, j: nat | s.Has(i) && t.Has(j)
      ensures New(g, base, m).Has((base + i + j) % m)
    {
      UnseenValue(base, s, t, m, g, i, j);
    }
  }

  lemma UnseenValue(base: nat, s: Steps, t: Steps, m: nat, g: nat, i: nat, j: nat)
    requires Straddles(base, s, t, m) && !Seen(base, s, t, m) && s.step <= m && s.Has(i) && t.Has(j) && g > 0
    requires (t.step > 0 ==> Divides(g, t.step)) && Divides(g, m - s.step)
    ensures New(g, base, m).Has((base + i + j) % m)
  {
    hide Divides, New, Equiv;
    UnseenShape(base, s, t, m);
    StepDividesLast(g, t, j);
    var v := (base + i + j) % m;
    WrapsOnce(base + i + j, m);
    if i == 0 {
      EquivByDivides(v, base, g);
    } else {
      assert i == s.step by { OnlyStep(s, i); }
      DividesSum(g, j, m - s.step);
      EquivByDivides(v, base, g);
    }
    NewExact(g, base, m, v);
  }

  lemma OnlyStep(s: Steps, i: nat)
    requires s.Has(i) && 0 < s.step == s.last && i > 0
    ensures i == s.step
  {
    DivisorBound(i, s.step);
  }

  lemma EquivByDivides(x: int, y: int, d: nat)
    requires Divides(d, x - y)
    ensures Equiv(x, y, d)
  {
    ModEq(x, y, d);
  }

  // ----- the exact condition

  lemma {:induction false} CommonModulusFacts(base: nat, s: Steps, t: Steps, m: nat)
    requires Straddles(base, s, t, m)
    ensures var g := CommonModulus(s, t, m);
            && Divides(g, s.step) && Divides(g, t.step) && Divides(g, m) && 2 * g <= m
            && New(g, base, m).modulus == g && New(g, base, m).Wf(m)
  {
    hide Gcd;
    var g, gg := CommonModulus(s, t, m), Gcd(s.step, t.step);
    GcdPos(s.step, t.step);
    GcdGreatest(s.step, t.step, 1);
    GcdGreatest(gg, m, 1);
    GcdDivisors(s.step, t.step, g);
    StepsEnds(s);
    StepsEnds(t);
    if s.step > 0 { DivisorBound(s.step, g); } else { DivisorBound(t.step, g); }
    DivisorBound(m, g);
    NewExact(g, base, m, base);
  }

  lemma {:induction false} LeastFromModulus(c: Congruence, base: nat, s: Steps, t: Steps, m: nat)
    requires Straddles(base, s, t, m) && c.Wf(m) && HoldsValues(c, base, s, t, m)
    requires c.modulus > 0 && Divides(c.modulus, CommonModulus(s, t, m))
    ensures Subset(New(CommonModulus(s, t, m), base, m), c, m)
  {
    hide Gcd, New;
    CommonModulusFacts(base, s, t, m);
    StepsEnds(s);
    StepsEnds(t);
    WrapsOnce(base, m);
    assert c.Has((base + 0 + 0) % m);
    DividedSubset(CommonModulus(s, t, m), base, c, m);
  }

  /** Where the gcd with the remaining distance is coarser, its class is a smaller one. */
  lemma {:induction false} UnseenNotLeast(base: nat, s: Steps, t: Steps, m: nat)
    requires Straddles(base, s, t, m) && !Seen(base, s, t, m) && s.step <= m
    requires Gcd(t.step, m - s.step) != CommonModulus(s, t, m)
    ensures var c := New(Gcd(t.step, m - s.step), base, m);
            c.Wf(m) && HoldsValues(c, base, s, t, m) && !Subset(New(CommonModulus(s, t, m), base, m), c, m)
  {
    hide Gcd, HoldsValues, CommonModulus;
    var g, k := CommonModulus(s, t, m), Gcd(t.step, m - s.step);
    var c := New(k, base, m);
    UnseenShape(base, s, t, m);
    UnseenHolds(base, s, t, m);
    CommonModulusFacts(base, s, t, m);
    GcdGreatest(t.step, m - s.step, 1);
    NewExact(k, base, m, base);
    ZeroSum(m, s.step, g);
    GcdDivisors(t.step, m - s.step, g);
    if Subset(New(g, base, m), c, m) {
      SubsetStride(New(g, base, m), c, m);
      SameDivisors(g, k);
    }
  }

  ghost predicate IsLeast(r: Congruence, base: nat, s: Steps, t: Steps, m: nat) {
    forall c: Congruence | c.Wf(m) && HoldsValues(c, base, s, t, m) :: Subset(r, c, m)
  }

  lemma {:induction false} UnseenLeastIff(base: nat, s: Steps, t: Steps, m: nat)
    requires Straddles(base, s, t, m) && !Seen(base, s, t, m) && s.step <= m
    ensures IsLeast(New(CommonModulus(s, t, m), base, m), base, s, t, m)
       <==> Gcd(t.step, m - s.step) == CommonModulus(s, t, m)
  {
    hide Gcd, New, HoldsValues, CommonModulus, Subset, Divides, Seen, Straddles;
    var g := CommonModulus(s, t, m);
    if Gcd(t.step, m - s.step) == g {
      forall c: Congruence | c.Wf(m) && HoldsValues(c, base, s, t, m) ensures Subset(New(g, base, m), c, m) {
        UnseenModulus(c, base, s, t, m);
        LeastFromModulus(c, base, s, t, m);
      }
    } else {
      UnseenNotLeast(base, s, t, m);
    }
  }

  lemma {:induction false} CommonModulusSwapped(s: Steps, t: Steps, m: nat)
    ensures CommonModulus(s, t, m) == CommonModulus(t, s, m)
  {
    GcdSymmetric(s.step, t.step);
  }

  lemma LeastSwapped(r: Congruence, base: nat, s: Steps, t: Steps, m: nat)
    requires IsLeast(r, base, s, t, m)
    ensures IsLeast(r, base, t, s, m)
  {
    hide Subset;
    forall c: Congruence | c.Wf(m) && HoldsValues(c, base, t, s, m) ensures Subset(r, c, m) {
      HoldsSwapped(c, base, t, s, m);
    }
  }

  /** Exactly when the class modulo the gcd of both steps and m is least. */
  lemma {:induction false} MixedLeastIff(base: nat, s: Steps, t: Steps, m: nat)
    requires Straddles(base, s, t, m)
    ensures IsLeast(New(CommonModulus(s, t, m), base, m), base, s, t, m) <==> LeastWhenMixed(base, s, t, m)
  {
    hide Gcd, New, HoldsValues, CommonModulus, Subset, Divides, IsLeast;
    var r := New(CommonModulus(s, t, m), base, m);
    if !Seen(base, s, t, m) {
      UnseenShape(base, s, t, m);
      UnseenLeastIff(base, s, t, m);
    } else if !Seen(base, t, s, m) {
      UnseenShape(base, t, s, m);
      CommonModulusSwapped(s, t, m);
      UnseenLeastIff(base, t, s, m);
      if IsLeast(r, base, s, t, m) { LeastSwapped(r, base, s, t, m); }
      if IsLeast(r, base, t, s, m) { LeastSwapped(r, base, t, s, m); }
    } else {
      BothSeenLeast(base, s, t, m);
    }
  }

  lemma {:induction false} BothSeenLeast(base: nat, s: Steps, t: Steps, m: nat)
    requires Straddles(base, s, t, m) && Seen(base, s, t, m) && Seen(base, t, s, m)
    ensures IsLeast(New(CommonModulus(s, t, m), base, m), base, s, t, m)
  {
    hide New, HoldsValues, CommonModulus, Subset, Divides, Seen, Straddles;
    forall c: Congruence | c.Wf(m) && HoldsValues(c, base, s, t, m)
      ensures Subset(New(CommonModulus(s, t, m), base, m), c, m)
    {
      BothSeenModulus(c, base, s, t, m);
      LeastFromModulus(c, base, s, t, m);
    }
  }

  // ----- sums

  /** The distances of the members of a class from its least one. */
  function StepsOf(a: Congruence, m: nat): Steps
    requires a.Wf(m)
  {
    MaxMemberCorrect(a, m, a.residue);
    ResidueMember(a, m);
    Steps(a.modulus, MaxMember(a, m) - a.residue)
  }

  lemma StepsOfMembers(a: Congruence, m: nat, x: nat)
    requires a.Wf(m) && x < m
    ensures StepsOf(a, m).Wf() && StepsOf(a, m).last < m
    ensures a.Has(x) <==> a.residue <= x && StepsOf(a, m).Has(x - a.residue)
    ensures a.Has(x) <==> x <= MaxMember(a, m) && StepsOf(a, m).Has(MaxMember(a, m) - x)
  {
    hide MaxMember;
    var top := MaxMember(a, m);
    ResidueMember(a, m);
    MaxMemberCorrect(a, m, x);
    MaxMemberCorrect(a, m, a.residue);
    if a.modulus > 0 {
      MaxMemberCorrect(a, m, a.residue + a.modulus);
      SmallMod(a.residue, a.modulus);
      ModEq(x, a.residue, a.modulus);
      ModEq(top, a.residue, a.modulus);
      ModEq(top, x, a.modulus);
    }
  }

  /** Values of the progressions of two classes are the sums of their members. */
  lemma SumsAreValues(a: Congruence, b: Congruence, m: nat, c: Congruence)
    requires a.Wf(m) && b.Wf(m) && a.residue + b.residue < m
    ensures HoldsSums(c, a, b, m) <==> HoldsValues(c, a.residue + b.residue, StepsOf(a, m), StepsOf(b, m), m)
  {
    hide StepsOf, MaxMember;
    var s, t, base := StepsOf(a, m), StepsOf(b, m), a.residue + b.residue;
    if HoldsSums(c, a, b, m) {
      forall i: nat, j: nat | s.Has(i) && t.Has(j) ensures c.Has((base + i + j) % m) {
        var x, y := a.residue + i, b.residue + j;
        StepsWithin(a, m, i);
        StepsWithin(b, m, j);
        StepsOfMembers(a, m, x);
        StepsOfMembers(b, m, y);
        assert c.Has((x + y) % m);
      }
    }
    if HoldsValues(c, base, s, t, m) {
      forall x: nat, y: nat | x < m && y < m && a.Has(x) && b.Has(y) ensures c.Has((x + y) % m) {
        StepsOfMembers(a, m, x);
        StepsOfMembers(b, m, y);
        assert c.Has((base + (x - a.residue) + (y - b.residue)) % m);
      }
    }
  }

  lemma StepsWithin(a: Congruence, m: nat, i: nat)
    requires a.Wf(m) && StepsOf(a, m).Has(i)
    ensures a.residue + i <= MaxMember(a, m) < m
  {
    MaxMemberCorrect(a, m, a.residue);
    ResidueMember(a, m);
  }

  lemma MixedStraddles(a: Congruence, b: Congruence, m: nat)
    requires a.Wf(m) && b.Wf(m) && !SumWrapsUniformly(a, b, m)
    ensures Straddles(a.residue + b.residue, StepsOf(a, m), StepsOf(b, m), m)
  {
    hide MaxMember;
    ResidueMember(a, m);
    ResidueMember(b, m);
    StepsOfMembers(a, m, a.residue);
    StepsOfMembers(b, m, b.residue);
    MaxMemberCorrect(a, m, a.residue);
    MaxMemberCorrect(b, m, b.residue);
  }

  /** The sum is the least class that holds every wrapped sum. */
  ghost predicate SumIsLeast(a: Congruence, b: Congruence, m: nat)
    requires a.Wf(m) && b.Wf(m)
  {
    forall c: Congruence | c.Wf(m) && HoldsSums(c, a, b, m) :: Subset(Add(a, b, m), c, m)
  }

  lemma {:induction false} MixedSumClass(a: Congruence, b: Congruence, m: nat)
    requires a.Wf(m) && b.Wf(m) && !SumWrapsUniformly(a, b, m)
    ensures Add(a, b, m) == New(CommonModulus(StepsOf(a, m), StepsOf(b, m), m), a.residue + b.residue, m)
  {
    hide Gcd, New, MaxMember, GcdModulus;
    StrideBound(a, b, m);
    StrideZero(a, b);
    MixedHasSteps(a, b, m);
    var stride := Gcd(a.modulus, b.modulus);
    GcdModulusCorrect(stride, m);
    SmallMod(a.residue + b.residue, m);
  }

  lemma MixedHasSteps(a: Congruence, b: Congruence, m: nat)
    requires a.Wf(m) && b.Wf(m) && !SumWrapsUniformly(a, b, m)
    ensures a.modulus > 0 || b.modulus > 0
  {
  }

  /** The sum is least exactly when wrapping is uniform or every hidden step is already in the common modulus. */
  lemma {:induction false} AddLeastIff(a: Congruence, b: Congruence, m: nat)
    requires a.Wf(m) && b.Wf(m)
    ensures SumIsLeast(a, b, m)
       <==> SumWrapsUniformly(a, b, m) || LeastWhenMixed(a.residue + b.residue, StepsOf(a, m), StepsOf(b, m), m)
  {
    hide Gcd, New, StepsOf, Add, HoldsSums, HoldsValues, CommonModulus, Subset, SumWrapsUniformly, LeastWhenMixed;
    if SumWrapsUniformly(a, b, m) {
      forall c: Congruence | c.Wf(m) && HoldsSums(c, a, b, m) ensures Subset(Add(a, b, m), c, m) {
        UniformSumLeast(a, b, m, c);
      }
    } else {
      var base, s, t := a.residue + b.residue, StepsOf(a, m), StepsOf(b, m);
      MixedStraddles(a, b, m);
      MixedLeastIff(base, s, t, m);
      MixedSumClass(a, b, m);
      forall c: Congruence ensures HoldsSums(c, a, b, m) <==> HoldsValues(c, base, s, t, m) {
        SumsAreValues(a, b, m, c);
      }
    }
  }

  lemma {:induction false} UniformSumLeast(a: Congruence, b: Congruence, m: nat, c: Congruence)
    requires a.Wf(m) && b.Wf(m) && c.Wf(m) && SumWrapsUniformly(a, b, m) && HoldsSums(c, a, b, m)
    ensures Subset(Add(a, b, m), c, m)
  {
    hide MaxMember, Add, HoldsSums, Subset;
    var k := if a.residue + b.residue >= m then 1 else 0;
    forall x: nat, y: nat | x < m && y < m && a.Has(x) && b.Has(y) ensures InSegment(x + y, k, m) {
      MaxMemberCorrect(a, m, x);
      MaxMemberCorrect(b, m, y);
    }
    AddLeast(a, b, m, k, c);
  }

  // ----- differences

  /** The least difference, moved up by m. */
  function DifferenceBase(a: Congruence, b: Congruence, m: nat): (base: nat)
    requires a.Wf(m) && b.Wf(m)
  {
    MaxMemberCorrect(b, m, 0);
    m + a.residue - MaxMember(b, m)
  }

  lemma DifferencesAreValues(a: Congruence, b: Congruence, m: nat, c: Congruence)
    requires a.Wf(m) && b.Wf(m) && a.residue < MaxMember(b, m)
    ensures HoldsDifferences(c, a, b, m) <==> HoldsValues(c, DifferenceBase(a, b, m), StepsOf(a, m), StepsOf(b, m), m)
  {
    hide StepsOf, MaxMember;
    var s, t, base, top := StepsOf(a, m), StepsOf(b, m), DifferenceBase(a, b, m), MaxMember(b, m);
    if HoldsDifferences(c, a, b, m) {
      forall i: nat, j: nat | s.Has(i) && t.Has(j) ensures c.Has((base + i + j) % m) {
        StepsWithin(a, m, i);
        StepsWithin(b, m, j);
        var x, y: nat := a.residue + i, top - j;
        StepsOfMembers(a, m, x);
        StepsOfMembers(b, m, y);
        ShiftedDifference(x, y, m);
        assert c.Has((x - y) % m);
      }
    }
    if HoldsValues(c, base, s, t, m) {
      forall x: nat, y: nat | x < m && y < m && a.Has(x) && b.Has(y) ensures c.Has((x - y) % m) {
        StepsOfMembers(a, m, x);
        StepsOfMembers(b, m, y);
        ShiftedDifference(x, y, m);
        assert c.Has((base + (x - a.residue) + (top - y)) % m);
      }
    }
  }

  lemma ShiftedDifference(x: nat, y: nat, m: nat)
    requires x < m && y < m
    ensures (m + x - y) % m == (x - y) % m
  {
    ModShift(x - y, m, 1);
  }

  lemma MixedDifferenceStraddles(a: Congruence, b: Congruence, m: nat)
    requires a.Wf(m) && b.Wf(m) && !DifferenceWrapsUniformly(a, b, m)
    ensures Straddles(DifferenceBase(a, b, m), StepsOf(a, m), StepsOf(b, m), m)
  {
    hide MaxMember;
    ResidueMember(a, m);
    ResidueMember(b, m);
    StepsOfMembers(a, m, a.residue);
    StepsOfMembers(b, m, b.residue);
    MaxMemberCorrect(a, m, a.residue);
    MaxMemberCorrect(b, m, b.residue);
  }

  /** The difference is the least class that holds every wrapped difference. */
  ghost predicate DifferenceIsLeast(a: Congruence, b: Congruence, m: nat)
    requires a.Wf(m) && b.Wf(m)
  {
    forall c: Congruence | c.Wf(m) && HoldsDifferences(c, a, b, m) :: Subset(Sub(a, b, m), c, m)
  }

  lemma MixedDifferenceHasSteps(a: Congruence, b: Congruence, m: nat)
    requires a.Wf(m) && b.Wf(m) && !DifferenceWrapsUniformly(a, b, m)
    ensures a.modulus > 0 || b.modulus > 0
  {
  }

  lemma {:induction false} MixedDifferenceClass(a: Congruence, b: Congruence, m: nat)
    requires a.Wf(m) && b.Wf(m) && !DifferenceWrapsUniformly(a, b, m)
    ensures Sub(a, b, m) == New(CommonModulus(StepsOf(a, m), StepsOf(b, m), m), DifferenceBase(a, b, m), m)
  {
    hide Gcd, New, MaxMember, GcdModulus;
    StrideBound(a, b, m);
    StrideZero(a, b);
    MixedDifferenceHasSteps(a, b, m);
    var stride := Gcd(a.modulus, b.modulus);
    GcdModulusCorrect(stride, m);
    MixedDifferenceStraddles(a, b, m);
    CommonModulusFacts(DifferenceBase(a, b, m), StepsOf(a, m), StepsOf(b, m), m);
    var g := CommonModulus(StepsOf(a, m), StepsOf(b, m), m);
    DifferenceResidue(a, b, m, g);
    NewSame(g, (a.residue - b.residue) % m, DifferenceBase(a, b, m), m);
  }

  lemma NewSame(g: nat, x: nat, y: nat, m: nat)
    requires g > 0 && x % g == y % g
    ensures New(g, x, m) == New(g, y, m)
  {
  }

  lemma DifferenceResidue(a: Congruence, b: Congruence, m: nat, g: nat)
    requires a.Wf(m) && b.Wf(m) && g > 0 && Divides(g, b.modulus) && Divides(g, m)
    ensures ((a.residue - b.residue) % m) % g == DifferenceBase(a, b, m) % g
  {
    hide MaxMember;
    var top := MaxMember(b, m);
    MaxMemberCorrect(b, m, 0);
    MemberModDivisor(b, m, top, g);
    ModOfMultiple(a.residue - b.residue, m, g);
    SubMod(a.residue, b.residue, g);
    SubMod(a.residue, top, g);
    AddMod(a.residue - top, m, g);
  }

  /** The difference is least exactly when wrapping is uniform or every hidden step is already in the common modulus. */
  lemma {:induction false} SubLeastIff(a: Congruence, b: Congruence, m: nat)
    requires a.Wf(m) && b.Wf(m)
    ensures DifferenceIsLeast(a, b, m)
       <==> DifferenceWrapsUniformly(a, b, m)
            || LeastWhenMixed(DifferenceBase(a, b, m), StepsOf(a, m), StepsOf(b, m), m)
  {
    hide Gcd, New, StepsOf, Sub, HoldsDifferences, HoldsValues, CommonModulus, Subset, LeastWhenMixed, MaxMember;
    if DifferenceWrapsUniformly(a, b, m) {
      forall c: Congruence | c.Wf(m) && HoldsDifferences(c, a, b, m) ensures Subset(Sub(a, b, m), c, m) {
        UniformDifferenceLeast(a, b, m, c);
      }
    } else {
      var base, s, t := DifferenceBase(a, b, m), StepsOf(a, m), StepsOf(b, m);
      MixedDifferenceStraddles(a, b, m);
      MixedLeastIff(base, s, t, m);
      MixedDifferenceClass(a, b, m);
      forall c: Congruence ensures HoldsDifferences(c, a, b, m) <==> HoldsValues(c, base, s, t, m) {
        DifferencesAreValues(a, b, m, c);
      }
    }
  }

  /** With mixed wrapping the difference need not be least: {0, 200} - {100} on 8 bits. */
  lemma SubMixedNotLeast(a: Congruence, b: Congruence, c: Congruence, m: nat)
    requires m == 256 && a == Congruence(200, 0) && b == Congruence(0, 100) && c == Congruence(56, 44)
    ensures a.Wf(m) && b.Wf(m) && c.Wf(m) && HoldsDifferences(c, a, b, m)
    ensures Sub(a, b, m) == Congruence(8, 4) && !Subset(Sub(a, b, m), c, m)
  {
    hide Gcd, HoldsDifferences;
    ExampleDifferences(a, b, c, m);
    ExampleGcds();
    assert MaxMember(a, m) == 200;
    assert Congruence(8, 4).Has(4) && !c.Has(4);
  }

  lemma ExampleDifferences(a: Congruence, b: Congruence, c: Congruence, m: nat)
    requires m == 256 && a == Congruence(200, 0) && b == Congruence(0, 100) && c == Congruence(56, 44)
    ensures HoldsDifferences(c, a, b, m)
  {
    forall x: nat, y: nat | x < m && y < m && a.Has(x) && b.Has(y)
      ensures c.Has((x - y) % m)
    {
      assert x == 0 || x == 200;
    }
  }

  lemma {:induction false} UniformDifferenceLeast(a: Congruence, b: Congruence, m: nat, c: Congruence)
    requires a.Wf(m) && b.Wf(m) && c.Wf(m) && DifferenceWrapsUniformly(a, b, m) && HoldsDifferences(c, a, b, m)
    ensures Subset(Sub(a, b, m), c, m)
  {
    hide MaxMember, Sub, HoldsDifferences, Subset;
    var k := if MaxMember(a, m) < b.residue then -1 else 0;
    forall x: nat, y: nat | x < m && y < m && a.Has(x) && b.Has(y) ensures InSegment(x - y, k, m) {
      MaxMemberCorrect(a, m, x);
      MaxMemberCorrect(b, m, y);
    }
    SubLeast(a, b, m, k, c);
  }

  // ----- negations

  ghost predicate HoldsNegations(c: Congruence, a: Congruence, m: nat) {
    m > 0 && forall x: nat | x < m && a.Has(x) :: c.Has((0 - x) % m)
  }

  lemma NegationsAreDifferences(c: Congruence, a: Congruence, m: nat)
    ensures HoldsNegations(c, a, m) <==> HoldsDifferences(c, Constant(0), a, m)
  {
    if HoldsDifferences(c, Constant(0), a, m) {
      forall x: nat | x < m && a.Has(x) ensures c.Has((0 - x) % m) { assert Constant(0).Has(0); }
    }
  }

  lemma LastMultiple(a: Congruence, m: nat)
    requires a.Wf(m) && a.modulus > 0 && a.residue == 0
    ensures MaxMember(a, m) >= a.modulus && (MaxMember(a, m) > a.modulus <==> 2 * a.modulus < m)
  {
    hide MaxMember;
    var p, top := a.modulus, MaxMember(a, m);
    MaxMemberCorrect(a, m, p);
    MultipleMod(p, 1);
    MultipleMod(p, 2);
    if 2 * p < m {
      MaxMemberCorrect(a, m, 2 * p);
    }
    if p < top < 2 * p {
      Unique(top, p, 1, top - p);
    }
  }

  /** The class that starts at zero has a single nonzero member, and its negation hides the step. */
  predicate NegHidesStep(a: Congruence, m: nat)
    requires a.Wf(m)
  {
    a.modulus > 0 && a.residue == 0 && 2 * a.modulus >= m && Gcd(a.modulus, m) != m - a.modulus
  }

  lemma {:induction false} NegMixed(a: Congruence, m: nat)
    requires a.Wf(m) && a.modulus > 0 && a.residue == 0
    ensures LeastWhenMixed(DifferenceBase(Constant(0), a, m), StepsOf(Constant(0), m), StepsOf(a, m), m)
       <==> !NegHidesStep(a, m)
  {
    hide MaxMember, Gcd;
    LastMultiple(a, m);
    ConstantSteps(m);
    GcdOfZero(a.modulus);
    GcdOfZero(m - a.modulus);
  }

  lemma ConstantSteps(m: nat)
    requires m > 0
    ensures StepsOf(Constant(0), m) == Steps(0, 0)
  {
  }

  /** Negation is the least class that holds every wrapped negation exactly when it hides no step. */
  lemma {:induction false} NegLeastIff(a: Congruence, m: nat)
    requires a.Wf(m)
    ensures (forall c: Congruence | c.Wf(m) && HoldsNegations(c, a, m) :: Subset(Neg(a, m), c, m))
       <==> !NegHidesStep(a, m)
  {
    hide Sub, HoldsNegations, HoldsDifferences, Subset, LeastWhenMixed, StepsOf, DifferenceBase, MaxMember, Gcd;
    var zero := Constant(0);
    SubLeastIff(zero, a, m);
    forall c: Congruence ensures HoldsNegations(c, a, m) <==> HoldsDifferences(c, zero, a, m) {
      NegationsAreDifferences(c, a, m);
    }
    if a.modulus > 0 && a.residue == 0 {
      NegMixed(a, m);
      LastMultiple(a, m);
      ConstantMax(m);
    } else {
      ConstantWraps(a, m);
    }
  }

  lemma ConstantMax(m: nat)
    requires m > 0
    ensures MaxMember(Constant(0), m) == 0
  {
  }

  lemma ConstantWraps(a: Congruence, m: nat)
    requires a.Wf(m) && (a.modulus == 0 || a.residue > 0)
    ensures DifferenceWrapsUniformly(Constant(0), a, m)
  {
  }
}
