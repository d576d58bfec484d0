/**
  Canonical nonempty congruence classes over the words below a modulus m.
  Modulus 0 is a constant, and (1, 0) is the whole range; every other class
  has a reduced residue and a representable second member.
 */
module Congruences {
  import opened DivModFacts
  import opened Gcds
  import opened Crt
  import opened Lattice

  datatype Congruence = Congruence(modulus: nat, residue: nat) {
    predicate Wf(m: nat) {
      if modulus == 0 then residue < m else residue < modulus && residue + modulus < m
    }

    predicate Has(x: nat) {
      if modulus == 0 then x == residue else x % modulus == residue
    }
  }

  function Constant(x: nat): Congruence { Congruence(0, x) }

  function Top(): Congruence { Congruence(1, 0) }

  /** Reduces a raw pair and collapses a class that holds only one word. */
  function New(modulus: nat, residue: nat, m: nat): Congruence {
    if modulus == 0 then Constant(residue)
    else
      var rem := residue % modulus;
      if rem + modulus < m then Congruence(modulus, rem) else Constant(rem)
  }

  predicate Refines(a: Congruence, b: Congruence) {
    b.Has(a.residue)
    && (a.modulus == 0 || (b.modulus != 0 && a.modulus % b.modulus == 0))
  }

  function Join(a: Congruence, b: Congruence, m: nat): Congruence {
    var modulus := Gcd(Gcd(a.modulus, b.modulus), Gap(a.residue, b.residue));
    if modulus == 0 then Constant(a.residue) else New(modulus, a.residue, m)
  }

  function Meet(a: Congruence, b: Congruence, m: nat): BotOr<Congruence> {
    if a.modulus == 0 then (if b.Has(a.residue) then Val(a) else Bot)
    else if b.modulus == 0 then (if a.Has(b.residue) then Val(b) else Bot)
    else
      match Merge(a.modulus, a.residue, b.modulus, b.residue, m)
      case Class(k, r) => Val(New(k, r, m))
      case Singleton(v) => Val(Constant(v))
      case Empty => Bot
  }

  ghost predicate Subset(a: Congruence, b: Congruence, m: nat) {
    forall x: nat | x < m && a.Has(x) :: b.Has(x)
  }

  // ----- members

  /** Every member agrees with the residue modulo each divisor of the stride. */
  lemma MemberModDivisor(c: Congruence, m: nat, x: nat, d: nat)
    requires c.Wf(m) && c.Has(x) && d > 0 && c.modulus % d == 0
    ensures Equiv(x, c.residue, d)
  {
    if c.modulus > 0 {
      ModOfMultiple(x, c.modulus, d);
    }
  }

  lemma ResidueMember(c: Congruence, m: nat)
    requires c.Wf(m)
    ensures c.residue < m && c.Has(c.residue)
    ensures c.modulus > 0 ==> c.residue + c.modulus < m && c.Has(c.residue + c.modulus)
  {
    if c.modulus > 0 {
      SmallMod(c.residue, c.modulus);
      ModShift(c.residue, c.modulus, 1);
    }
  }

  /** A member is the residue or at least one stride above it. */
  lemma NextMember(x: nat, k: nat, r: nat)
    requires r < k && x % k == r
    ensures x == r || r + k <= x
  {
    var q := x / k;
    assert x == k * q + r;
    if q < 0 { MulMono(q, -1, k); }
    if q > 0 { MulMono(1, q, k); }
  }

  /** Normalization keeps exactly the words of the raw class. */
  lemma NewExact(modulus: nat, residue: nat, m: nat, x: nat)
    requires residue < m && x < m
    ensures New(modulus, residue, m).Wf(m)
    ensures New(modulus, residue, m).Has(x) <==> if modulus == 0 then x == residue else Equiv(x, residue, modulus)
  {
    if modulus > 0 {
      var rem := residue % modulus;
      SmallMod(rem, modulus);
      DivAnti(residue, 1, modulus);
      MulMono(0, residue / modulus, modulus);
      assert residue == modulus * (residue / modulus) + rem;
      if x % modulus == rem {
        NextMember(x, modulus, rem);
      }
    }
  }

  // ----- order

  /** Two distinct members of a class differ by a multiple of its stride. */
  lemma DistinctMembers(c: Congruence, u: nat, v: nat)
    requires c.Has(u) && c.Has(v) && u != v
    ensures c.modulus > 0 && (v - u) % c.modulus == 0 && (u - v) % c.modulus == 0
  {
    ModEq(u, v, c.modulus);
    ModEq(v, u, c.modulus);
  }

  lemma SubsetStride(a: Congruence, b: Congruence, m: nat)
    requires a.Wf(m) && b.Wf(m) && Subset(a, b, m)
    ensures b.Has(a.residue) && (a.modulus > 0 ==> b.modulus > 0)
    ensures b.modulus > 0 ==> a.modulus % b.modulus == 0
  {
    hide Congruence.Has;
    ResidueMember(a, m);
    if a.modulus > 0 {
      DistinctMembers(b, a.residue, a.residue + a.modulus);
    } else if b.modulus > 0 {
      SmallMod(0, b.modulus);
    }
  }

  /** A class whose stride is a multiple of b's and that starts in b lies inside b. */
  lemma DividedSubset(stride: nat, start: nat, b: Congruence, m: nat)
    requires b.Wf(m) && start < m && b.Has(start) && stride > 0
    requires b.modulus > 0 && stride % b.modulus == 0
    ensures Subset(New(stride, start, m), b, m)
  {
    forall x: nat | x < m && New(stride, start, m).Has(x)
      ensures b.Has(x)
    {
      NewExact(stride, start, m, x);
      ModOfMultiple(x, stride, b.modulus);
      ModOfMultiple(start, stride, b.modulus);
    }
  }

  /** The refinement test decides inclusion. */
  lemma RefinesExact(a: Congruence, b: Congruence, m: nat)
    requires a.Wf(m) && b.Wf(m)
    ensures Refines(a, b) <==> Subset(a, b, m)
  {
    if Subset(a, b, m) {
      SubsetStride(a, b, m);
    }
    if Refines(a, b) && a.modulus > 0 {
      DividedSubset(a.modulus, a.residue, b, m);
      SmallMod(a.residue, a.modulus);
      assert New(a.modulus, a.residue, m) == a;
    }
  }

  /** Equal sets have equal representations. */
  lemma Canonical(a: Congruence, b: Congruence, m: nat)
    requires a.Wf(m) && b.Wf(m) && Subset(a, b, m) && Subset(b, a, m)
    ensures a == b
  {
    ResidueMember(a, m);
    ResidueMember(b, m);
    SubsetStride(a, b, m);
    SubsetStride(b, a, m);
    if a.modulus > 0 {
      SameDivisors(a.modulus, b.modulus);
      SmallMod(b.residue, b.modulus);
    }
  }

  // ----- join

  lemma {:induction false} JoinStride(a: Congruence, b: Congruence, d: nat)
    requires d > 0
    ensures Divides(d, Gcd(Gcd(a.modulus, b.modulus), Gap(a.residue, b.residue)))
       <==> Divides(d, a.modulus) && Divides(d, b.modulus) && Equiv(a.residue, b.residue, d)
  {
    hide Gcd;
    GcdDivisors(a.modulus, b.modulus, d);
    GcdDivisors(Gcd(a.modulus, b.modulus), Gap(a.residue, b.residue), d);
    ModEq(a.residue, b.residue, d);
    ModEq(b.residue, a.residue, d);
  }

  lemma {:induction false} JoinZero(a: Congruence, b: Congruence)
    ensures Gcd(Gcd(a.modulus, b.modulus), Gap(a.residue, b.residue)) == 0
       <==> a.modulus == 0 && b.modulus == 0 && a.residue == b.residue
  {
    hide Gcd;
    GcdPos(a.modulus, b.modulus);
    GcdPos(Gcd(a.modulus, b.modulus), Gap(a.residue, b.residue));
  }

  lemma {:induction false} JoinUpper(a: Congruence, b: Congruence, m: nat)
    requires a.Wf(m) && b.Wf(m)
    ensures Join(a, b, m).Wf(m) && Subset(a, Join(a, b, m), m) && Subset(b, Join(a, b, m), m)
  {
    hide Gcd;
    JoinZero(a, b);
    var g := Gcd(Gcd(a.modulus, b.modulus), Gap(a.residue, b.residue));
    ResidueMember(a, m);
    if g > 0 {
      JoinStride(a, b, g);
      SelfDivides(g);
      NewExact(g, a.residue, m, a.residue);
      forall x: nat | x < m
        ensures a.Has(x) ==> Join(a, b, m).Has(x)
        ensures b.Has(x) ==> Join(a, b, m).Has(x)
      {
        NewExact(g, a.residue, m, x);
        if a.Has(x) { MemberModDivisor(a, m, x, g); }
        if b.Has(x) { MemberModDivisor(b, m, x, g); }
      }
    }
  }

  lemma {:induction false} JoinLeast(a: Congruence, b: Congruence, m: nat, c: Congruence)
    requires a.Wf(m) && b.Wf(m) && c.Wf(m) && Subset(a, c, m) && Subset(b, c, m)
    ensures Subset(Join(a, b, m), c, m)
  {
    hide Gcd;
    JoinZero(a, b);
    var g := Gcd(Gcd(a.modulus, b.modulus), Gap(a.residue, b.residue));
    ResidueMember(a, m);
    ResidueMember(b, m);
    SubsetStride(a, c, m);
    SubsetStride(b, c, m);
    if g > 0 {
      var d := c.modulus;
      if a.residue != b.residue {
        DistinctMembers(c, a.residue, b.residue);
      }
      JoinStride(a, b, d);
      DividedSubset(g, a.residue, c, m);
    }
  }

  /** Join is the least upper bound: it lies below exactly the common upper bounds. */
  lemma {:induction false} JoinIsLub(a: Congruence, b: Congruence, m: nat, c: Congruence)
    requires a.Wf(m) && b.Wf(m) && c.Wf(m)
    ensures Join(a, b, m).Wf(m)
    ensures Subset(Join(a, b, m), c, m) <==> Subset(a, c, m) && Subset(b, c, m)
  {
    hide Gcd, Join;
    JoinUpper(a, b, m);
    if Subset(a, c, m) && Subset(b, c, m) {
      JoinLeast(a, b, m, c);
    }
  }

  // ----- meet

  predicate WfBot(c: BotOr<Congruence>, m: nat) { c.Val? ==> c.value.Wf(m) }

  predicate HasBot(c: BotOr<Congruence>, x: nat) { c.Val? && c.value.Has(x) }

  /** Meet is the exact intersection, and bottom exactly when that is empty. */
  lemma {:induction false} MeetExact(a: Congruence, b: Congruence, m: nat, x: nat)
    requires a.Wf(m) && b.Wf(m) && x < m
    ensures WfBot(Meet(a, b, m), m)
    ensures HasBot(Meet(a, b, m), x) <==> a.Has(x) && b.Has(x)
  {
    hide Merge, Gcd;
    if a.modulus > 0 && b.modulus > 0 {
      SmallMod(a.residue, a.modulus);
      SmallMod(b.residue, b.modulus);
      MergeExact(a.modulus, a.residue, b.modulus, b.residue, m, x);
      var merged := Merge(a.modulus, a.residue, b.modulus, b.residue, m);
      match merged
      case Class(k, r) =>
        NewExact(k, r, m, x);
        SmallMod(r, k);
      case Singleton(v) =>
        MergeSingletonWord(a.modulus, a.residue, b.modulus, b.residue, m);
      case Empty =>
    }
  }

  lemma {:induction false} MergeSingletonWord(m1: nat, r1: nat, m2: nat, r2: nat, m: nat)
    requires 0 < m1 && 0 < m2
    ensures var merged := Merge(m1, r1, m2, r2, m); merged.Singleton? ==> merged.value < m
  {
    hide Gcd, Multiplier, Times;
  }
}
