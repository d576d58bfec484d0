/**
  Tnum addition. The three-addition formula equals the ripple of tristate
  adders, and the result is the smallest tnum holding every sum.
 */
module TnumAddition {
  import opened Bitstrings
  import opened Tnums

  // ----- one position

  lemma {:induction false} BitAddSound(s: TBit, t: TBit, c: TBit, x: bool, y: bool, z: bool)
    requires s.Has(x) && t.Has(y) && c.Has(z)
    ensures s.Add(t, c).0.Has(FullAdd(x, y, z).0) && s.Add(t, c).1.Has(FullAdd(x, y, z).1)
  {
  }

  lemma {:induction false} BitAddInv(s: TBit, t: TBit, c: TBit)
    ensures s.Add(t, c).0.Inv() && s.Add(t, c).1.Inv()
  {
  }

  /** Every sum bit of the tristate adder is the sum of some members. */
  lemma {:induction false} SumAttained(s: TBit, t: TBit, c: TBit, b: bool) returns (x: bool, y: bool, z: bool)
    requires s.Inv() && t.Inv() && c.Inv() && s.Add(t, c).0.Has(b)
    ensures s.Has(x) && t.Has(y) && c.Has(z) && FullAdd(x, y, z).0 == b
  {
    x, y, z := s.val, t.val, c.val;
    if FullAdd(x, y, z).0 != b {
      if s.mask { x := true; } else if t.mask { y := true; } else { z := true; }
    }
  }

  /** Every carry of the tristate adder is the carry of some members. */
  lemma {:induction false} CarryAttained(s: TBit, t: TBit, c: TBit, b: bool) returns (x: bool, y: bool, z: bool)
    requires s.Inv() && t.Inv() && c.Inv() && s.Add(t, c).1.Has(b)
    ensures s.Has(x) && t.Has(y) && c.Has(z) && FullAdd(x, y, z).1 == b
  {
    x, y, z := s.val, t.val, c.val;
    if b {
      x, y, z := s.val || s.mask, t.val || t.mask, c.val || c.mask;
    }
  }

  /**
    Carry compensation. Where the ripple's carry is unknown, exactly one of the
    mask carry and the carry of the final addition is set.
   */
  lemma {:induction false} CarryCompensation(s: TBit, t: TBit, c: TBit)
    requires s.Inv() && t.Inv() && c.Inv()
    ensures var (sumV, carryV) := FullAdd(s.val, t.val, c.val);
            var (sumM, carryM) := FullAdd(s.mask, t.mask, c.mask);
            var c1 := s.Add(t, c).1;
            c1.val == carryV && N(c1.mask) == N(carryM) + N(sumV && sumM)
  {
  }

  // ----- the broadword formula

  lemma {:induction false} BroadwordStep(s: Tnum, t: Tnum, cv: bool, cm: bool)
    requires s.Inv() && t.Inv() && !(cv && cm)
    ensures var (b, c1) := s.Head().Add(t.Head(), TBit(cv, cm));
            s.AddBroadwordCarry(t, cv, cm)
            == s.Tail().AddBroadwordCarry(t.Tail(), c1.val, c1.mask).Push(b)
  {
    var (b, c1) := s.Head().Add(t.Head(), TBit(cv, cm));
    hide Map, Hd, Tl, N;
    var r := s.AddBroadwordCarry(t, cv, cm);
    var lv, lm := s.val + t.val + N(cv), s.mask + t.mask + N(cm);
    BroadwordStepSums(s, t, cv, cm);
    BroadwordStepMask(s, t, lv, lv + lm);
    ConsHdTl(r.val);
    ConsHdTl(r.mask);
    assert r.Head() == b && r.Tail() == s.Tail().AddBroadwordCarry(t.Tail(), c1.val, c1.mask);
  }

  // The two tails may route the extra carry differently; their sum is one number.
  lemma {:induction false} BroadwordStepSums(s: Tnum, t: Tnum, cv: bool, cm: bool)
    requires s.Inv() && t.Inv() && !(cv && cm)
    ensures var c1 := s.Head().Add(t.Head(), TBit(cv, cm)).1;
            var lv, lm := s.val + t.val + N(cv), s.mask + t.mask + N(cm);
            && Hd(lv) == FullAdd(Hd(s.val), Hd(t.val), cv).0
            && Hd(lv + lm) == (Hd(lv) != FullAdd(Hd(s.mask), Hd(t.mask), cm).0)
            && Tl(lv) == Tl(s.val) + Tl(t.val) + N(c1.val)
            && Tl(lv + lm) == Tl(lv) + (Tl(s.mask) + Tl(t.mask) + N(c1.mask))
  {
    InvStep(s);
    InvStep(t);
    hide Map, TBit.Add, Tnum.Inv, Hd, Tl;
    CarryCompensation(s.Head(), t.Head(), TBit(cv, cm));
    SumHdTl(s.val, t.val, cv);
    SumHdTl(s.mask, t.mask, cm);
    SumHdTl(s.val + t.val + N(cv), s.mask + t.mask + N(cm), false);
  }

  lemma {:induction false} BroadwordStepMask(s: Tnum, t: Tnum, lv: nat, ub: nat)
    ensures var m := BwOr(BwOr(BwXor(ub, lv), s.mask), t.mask);
            && Hd(m) == ((Hd(ub) != Hd(lv)) || Hd(s.mask) || Hd(t.mask))
            && Tl(m) == BwOr(BwOr(BwXor(Tl(ub), Tl(lv)), Tl(s.mask)), Tl(t.mask))
            && Hd(BwAndNot(lv, m)) == (Hd(lv) && !Hd(m))
            && Tl(BwAndNot(lv, m)) == BwAndNot(Tl(lv), Tl(m))
  {
    MapHdTl(Xor, ub, lv);
    MapHdTl(Or, BwXor(ub, lv), s.mask);
    MapHdTl(Or, BwOr(BwXor(ub, lv), s.mask), t.mask);
    MapHdTl(AndNot, lv, BwOr(BwOr(BwXor(ub, lv), s.mask), t.mask));
  }

  /** The three-addition formula is the ripple, for every consistent carry. */
  lemma {:induction false} BroadwordIsRipple(s: Tnum, t: Tnum, c: TBit)
    requires s.Inv() && t.Inv() && c.Inv()
    ensures s.AddBroadwordCarry(t, c.val, c.mask) == s.AddRipple(t, c)
    decreases s.val + s.mask + t.val + t.mask
  {
    hide Map, TBit.Add;
    if s == ZERO && t == ZERO {
      BroadwordOfCarries(c);
    } else {
      hide Tnum.AddBroadwordCarry, Tnum.AddRipple;
      RippleStep(s, t, c);
      BroadwordStep(s, t, c.val, c.mask);
      InvStep(s);
      InvStep(t);
      BitAddInv(s.Head(), t.Head(), c);
      BroadwordIsRipple(s.Tail(), t.Tail(), s.Head().Add(t.Head(), c).1);
    }
  }

  lemma {:induction false} BroadwordOfCarries(c: TBit)
    requires c.Inv()
    ensures ZERO.AddBroadwordCarry(ZERO, c.val, c.mask) == ZERO.Push(c)
  {
    SmallMaps();
    hide Map;
  }

  lemma {:induction false} RippleStep(s: Tnum, t: Tnum, c: TBit)
    requires s != ZERO || t != ZERO
    ensures var (b, c1) := s.Head().Add(t.Head(), c);
            s.AddRipple(t, c) == s.Tail().AddRipple(t.Tail(), c1).Push(b)
  {
    hide TBit.Add, Hd, Tl;
  }

  // ----- soundness and optimality

  lemma {:induction false} RippleSound(s: Tnum, t: Tnum, c: TBit, x: nat, y: nat, z: bool)
    requires s.Inv() && t.Inv() && c.Inv()
    requires s.Has(x) && t.Has(y) && c.Has(z)
    ensures s.AddRipple(t, c).Inv()
    ensures s.AddRipple(t, c).Has(x + y + N(z))
    decreases s.val + s.mask + t.val + t.mask
  {
    hide Map, Tnum.Has, TBit.Add, Tnum.AddRipple, FullAdd;
    if s == ZERO && t == ZERO {
      RippleOfZero(s, t, c, N(z));
      RippleOfZero(s, t, c, x);
      RippleOfZero(s, t, c, y);
    } else {
      RippleStep(s, t, c);
      var (b, c1) := s.Head().Add(t.Head(), c);
      InvStep(s);
      InvStep(t);
      HasStep(s, x);
      HasStep(t, y);
      BitAddInv(s.Head(), t.Head(), c);
      BitAddSound(s.Head(), t.Head(), c, Hd(x), Hd(y), z);
      SumHdTl(x, y, z);
      RippleSound(s.Tail(), t.Tail(), c1, Tl(x), Tl(y), FullAdd(Hd(x), Hd(y), z).1);
      PushStep(s.Tail().AddRipple(t.Tail(), c1), b, x + y + N(z));
    }
  }

  lemma {:induction false} RippleOfZeroIsPush(s: Tnum, t: Tnum, c: TBit)
    requires s == t == ZERO
    ensures s.AddRipple(t, c) == s.Push(c)
  {
    hide Map, TBit.Add, Tnum.Has, Hd, Tl;
  }

  lemma {:induction false} RippleOfZero(s: Tnum, t: Tnum, c: TBit, n: nat)
    requires s == t == ZERO
    ensures s.Has(n) <==> n == 0
    ensures s.AddRipple(t, c).Inv() <==> c.Inv()
    ensures s.AddRipple(t, c).Has(n) <==> n == N(Hd(n)) && c.Has(Hd(n))
  {
    hide Tnum.AddRipple, Tnum.Has, Map, Hd, Tl;
    TailOfBit(n);
    RippleOfZeroIsPush(s, t, c);
    ZeroHas(s, n);
    ZeroHas(s, Tl(n));
    PushStep(s, c, n);
  }

  lemma TailOfBit(n: nat)
    ensures Tl(n) == 0 <==> n == N(Hd(n))
  {
  }

  ghost predicate HoldsSums(u: Tnum, s: Tnum, t: Tnum, c: TBit) {
    forall x: nat, y: nat, z :: s.Has(x) && t.Has(y) && c.Has(z) ==> u.Has(x + y + N(z))
  }

  /** A tnum holding every sum holds, above the head, every sum of the tails. */
  lemma {:induction false} HoldsSumsTail(u: Tnum, s: Tnum, t: Tnum, c: TBit)
    requires s.Inv() && t.Inv() && c.Inv() && HoldsSums(u, s, t, c)
    ensures HoldsSums(u.Tail(), s.Tail(), t.Tail(), s.Head().Add(t.Head(), c).1)
    ensures forall b :: s.Head().Add(t.Head(), c).0.Has(b) ==> u.Head().Has(b)
  {
    var sh, th := s.Head(), t.Head();
    InvStep(s);
    InvStep(t);
    forall x: nat, y: nat, z | s.Tail().Has(x) && t.Tail().Has(y) && sh.Add(th, c).1.Has(z)
      ensures u.Tail().Has(x + y + N(z))
    {
      var x0, y0, z0 := CarryAttained(sh, th, c, z);
      HoldsOneSum(u, s, t, c, x, y, x0, y0, z0);
    }
    forall b | sh.Add(th, c).0.Has(b)
      ensures u.Head().Has(b)
    {
      var x0, y0, z0 := SumAttained(sh, th, c, b);
      Bounds(s.Tail(), 0);
      Bounds(t.Tail(), 0);
      HoldsOneSum(u, s, t, c, s.Tail().Min(), t.Tail().Min(), x0, y0, z0);
    }
  }

  lemma {:induction false} HoldsOneSum(u: Tnum, s: Tnum, t: Tnum, c: TBit, x: nat, y: nat, x0: bool, y0: bool, z0: bool)
    requires HoldsSums(u, s, t, c)
    requires s.Head().Has(x0) && t.Head().Has(y0) && c.Has(z0)
    requires s.Tail().Has(x) && t.Tail().Has(y)
    ensures var (r, c1) := FullAdd(x0, y0, z0); u.Head().Has(r) && u.Tail().Has(x + y + N(c1))
  {
    hide Tnum.Has, FullAdd;
    var p, q := Cons(x, x0), Cons(y, y0);
    HdTlCons(x, x0);
    HdTlCons(y, y0);
    HasStep(s, p);
    HasStep(t, q);
    assert u.Has(p + q + N(z0));
    HasStep(u, p + q + N(z0));
    SumHdTl(p, q, z0);
  }

  lemma {:induction false} RippleBest(s: Tnum, t: Tnum, c: TBit, u: Tnum, n: nat)
    requires s.Inv() && t.Inv() && c.Inv() && HoldsSums(u, s, t, c)
    requires s.AddRipple(t, c).Has(n)
    ensures u.Has(n)
    decreases s.val + s.mask + t.val + t.mask
  {
    hide Map, Tnum.Has, TBit.Add, Tnum.AddRipple, FullAdd;
    if s == ZERO && t == ZERO {
      RippleOfZero(s, t, c, n);
      RippleOfZero(s, t, c, 0);
      assert s.Has(0) && t.Has(0) && c.Has(Hd(n)) && n == 0 + 0 + N(Hd(n));
    } else {
      RippleStep(s, t, c);
      var (b, c1) := s.Head().Add(t.Head(), c);
      InvStep(s);
      InvStep(t);
      BitAddInv(s.Head(), t.Head(), c);
      HoldsSumsTail(u, s, t, c);
      PushStep(s.Tail().AddRipple(t.Tail(), c1), b, n);
      RippleBest(s.Tail(), t.Tail(), c1, u.Tail(), Tl(n));
      HasStep(u, n);
    }
  }

  /** Addition holds every sum and is well formed. */
  lemma {:induction false} AddSound(s: Tnum, t: Tnum, x: nat, y: nat)
    requires s.Inv() && t.Inv() && s.Has(x) && t.Has(y)
    ensures s.Add(t).Inv() && s.Add(t).Has(x + y)
  {
    hide Map, Tnum.AddRipple, Tnum.Has;
    BroadwordIsRipple(s, t, KNOWN_ZERO);
    RippleSound(s, t, KNOWN_ZERO, x, y, false);
  }

  lemma {:induction false} AddInv(s: Tnum, t: Tnum)
    requires s.Inv() && t.Inv()
    ensures s.Add(t).Inv()
  {
    Bounds(s, 0);
    Bounds(t, 0);
    AddSound(s, t, s.Min(), t.Min());
  }

  /** Addition is the best abstraction: below every tnum that holds all the sums. */
  lemma {:induction false} AddBest(s: Tnum, t: Tnum, u: Tnum, n: nat)
    requires s.Inv() && t.Inv()
    requires forall x: nat, y: nat :: s.Has(x) && t.Has(y) ==> u.Has(x + y)
    requires s.Add(t).Has(n)
    ensures u.Has(n)
  {
    BroadwordIsRipple(s, t, KNOWN_ZERO);
    forall x: nat, y: nat, z | s.Has(x) && t.Has(y) && KNOWN_ZERO.Has(z)
      ensures u.Has(x + y + N(z))
    {
      assert u.Has(x + y);
    }
    RippleBest(s, t, KNOWN_ZERO, u, n);
  }
}
