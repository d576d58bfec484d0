/**
  Long division of tnums. The abstract remainder is shifted, extended by the next
  dividend bit and compared with the divisor's bounds; undecided steps join both
  outcomes.
 */
module TnumDivision {
  import opened DivModFacts
  import opened Bitstrings
  import opened Tnums
  import opened TnumLattice
  import opened TnumAddition
  import opened WordTnums

  /** Concrete long division over bits i - 1 down to 0 of n. */
  function LongDiv(n: nat, d: nat, q: nat, r: nat, i: nat): (nat, nat)
    decreases i
  {
    if i == 0 then (q, r)
    else
      var r1 := 2 * r + N(Bit(n, i - 1));
      if r1 >= d then LongDiv(n, d, BwOr(q, Exp(i - 1)), r1 - d, i - 1)
      else LongDiv(n, d, q, r1, i - 1)
  }

  /** Two's complement negation on w bits. */
  function Neg(t: Tnum, w: nat): Tnum {
    ExpPos(w);
    t.Xor(Unit(Ones(w))).Add(Unit(1)).Chopped(w)
  }

  function Sub(s: Tnum, t: Tnum, w: nat): Tnum { s.Add(Neg(t, w)).Chopped(w) }

  function SetKnown(q: Tnum, i: nat): Tnum { Tnum(BwOr(q.val, Exp(i)), q.mask) }

  function SetUnknown(q: Tnum, i: nat): Tnum { Tnum(q.val, BwOr(q.mask, Exp(i))) }

  function DivLoop(n: Tnum, d: Tnum, w: nat, i: nat, q: Tnum, r: Tnum): (Tnum, Tnum)
    decreases i
  {
    if i == 0 then (q, r)
    else
      var r1 := r.Push(n.At(i - 1));
      if r1.Min() >= d.Max() then DivLoop(n, d, w, i - 1, SetKnown(q, i - 1), Sub(r1, d, w + 1))
      else if r1.Max() < d.Min() then DivLoop(n, d, w, i - 1, q, r1)
      else DivLoop(n, d, w, i - 1, SetUnknown(q, i - 1), r1.Join(Sub(r1, d, w + 1)))
  }

  function Div(s: Tnum, t: Tnum, w: nat): (Tnum, Tnum) { DivLoop(s, t, w, w, ZERO, ZERO) }

  // ----- concrete long division is division

  ghost predicate LowClear(n: nat, i: nat) { forall j: nat :: j < i ==> !Bit(n, j) }

  lemma {:induction false} SetBit(q: nat, i: nat)
    requires LowClear(q, i + 1)
    ensures BwOr(q, Exp(i)) == q + Exp(i) && LowClear(BwOr(q, Exp(i)), i)
  {
    forall j: nat
      ensures !(Bit(q, j) && Bit(Exp(i), j))
      ensures j < i ==> !Bit(BwOr(q, Exp(i)), j)
    {
      BitExp(i, j);
      MapBit(Or, q, Exp(i), j);
    }
    DisjointFromBits(q, Exp(i));
    DisjointSum(q, Exp(i));
  }

  /** The part of the dividend not yet divided. */
  function Rest(n: nat, r: nat, i: nat): nat { Prod(r, Exp(i)) + Chop(n, i) }

  /** The low i + 1 bits are the low i bits and bit i. */
  lemma {:induction false} ChopNext(n: nat, i: nat)
    ensures Chop(n, i + 1) == Chop(n, i) + Prod(N(Bit(n, i)), Exp(i))
  {
    if i > 0 {
      ChopNext(Tl(n), i - 1);
    }
  }

  lemma {:induction false} RestNext(n: nat, r: nat, i: nat, d: nat)
    requires i > 0
    ensures Rest(n, r, i) == Rest(n, 2 * r + N(Bit(n, i - 1)), i - 1)
    ensures r >= d ==> Rest(n, r, i) == Prod(d, Exp(i)) + Rest(n, r - d, i)
  {
    hide Bit, Chop;
    ChopNext(n, i - 1);
    var e, b := Exp(i - 1), N(Bit(n, i - 1));
    assert (2 * r + b) * e == r * (2 * e) + b * e;
    if r >= d {
      assert r * Exp(i) == d * Exp(i) + (r - d) * Exp(i);
    }
  }

  lemma {:induction false} LongDivIsDiv(n: nat, d: nat, q: nat, r: nat, i: nat)
    requires d > 0 && r < d && LowClear(q, i)
    ensures LongDiv(n, d, q, r, i) == (q + Rest(n, r, i) / d, Rest(n, r, i) % d)
    decreases i
  {
    hide Bit, Chop, Map, Rest;
    if i == 0 {
      RestEnd(n, r);
      SmallMod(r, d);
    } else {
      var r1, e := 2 * r + N(Bit(n, i - 1)), Exp(i - 1);
      RestNext(n, r, i, d);
      if r1 >= d {
        RestDrop(n, r1, i - 1, d);
        SetBit(q, i - 1);
        LongDivIsDiv(n, d, BwOr(q, e), r1 - d, i - 1);
      } else {
        LongDivIsDiv(n, d, q, r1, i - 1);
      }
    }
  }

  lemma RestEnd(n: nat, r: nat)
    ensures Rest(n, r, 0) == r
  {
  }

  lemma {:induction false} RestDrop(n: nat, r: nat, i: nat, d: nat)
    requires d > 0 && r >= d
    ensures Rest(n, r, i) / d == Exp(i) + Rest(n, r - d, i) / d
    ensures Rest(n, r, i) % d == Rest(n, r - d, i) % d
  {
    hide Chop, Exp;
    var v := Rest(n, r - d, i);
    assert r * Exp(i) == d * Exp(i) + (r - d) * Exp(i);
    assert Rest(n, r, i) == (Exp(i) + v / d) * d + v % d;
    Unique(Rest(n, r, i), d, Exp(i) + v / d, v % d);
  }

  /** Long division of the low w bits returns their true quotient and remainder. */
  lemma {:induction false} LongDivCorrect(n: nat, d: nat, w: nat)
    requires d > 0
    ensures LongDiv(n, d, 0, 0, w) == (Chop(n, w) / d, Chop(n, w) % d)
  {
    hide Chop, LongDiv;
    forall j: nat
      ensures !Bit(0, j)
    {
      BitZero(j);
    }
    LongDivIsDiv(n, d, 0, 0, w);
  }

  // ----- abstract negation and subtraction

  lemma {:induction false} XorHas(s: Tnum, t: Tnum, x: nat, y: nat)
    requires s.Has(x) && t.Has(y)
    ensures s.Xor(t).Inv() && s.Xor(t).Has(BwXor(x, y))
  {
    var r := s.Xor(t);
    forall i: nat
      ensures r.At(i).Has(Bit(BwXor(x, y), i)) && r.At(i).Inv()
    {
      HasAt(s, x, i);
      HasAt(t, y, i);
      MapBit(Xor, x, y, i);
      MapBit(Xor, s.val, t.val, i);
      MapBit(Or, s.mask, t.mask, i);
      MapBit(AndNot, BwXor(s.val, t.val), BwOr(s.mask, t.mask), i);
    }
    HasFromBits(r, BwXor(x, y));
    InvFromBits(r);
  }

  lemma {:induction false} NegSound(t: Tnum, w: nat, y: nat)
    requires t.Inv() && t.Has(y)
    ensures Neg(t, w).Inv()
    ensures y < Exp(w) ==> Neg(t, w).Has(Chop(Exp(w) - y, w))
  {
    hide Map, Chop, Exp, Tnum.Has, Tnum.Add, Tnum.Xor, Tnum.Inv;
    ExpPos(w);
    UnitHas(Ones(w));
    UnitHas(1);
    var flipped := t.Xor(Unit(Ones(w)));
    XorHas(t, Unit(Ones(w)), y, Ones(w));
    AddSound(flipped, Unit(1), BwXor(y, Ones(w)), 1);
    ChoppedHas(flipped.Add(Unit(1)), w, BwXor(y, Ones(w)) + 1);
    if y < Exp(w) {
      FlipIsComplement(y, w);
    }
  }

  lemma {:induction false} SubSound(s: Tnum, t: Tnum, w: nat, x: nat, y: nat)
    requires s.Inv() && t.Inv() && s.Has(x) && t.Has(y)
    ensures Sub(s, t, w).Inv()
    ensures y < Exp(w) ==> Sub(s, t, w).Has(Chop(x + (Exp(w) - y), w))
    ensures y <= x < Exp(w) ==> Sub(s, t, w).Has(x - y)
  {
    hide Map, Chop, Exp, Tnum.Has, Tnum.Add, Tnum.Inv, Neg;
    NegSound(t, w, y);
    Bounds(Neg(t, w), 0);
    AddSound(s, Neg(t, w), x, Neg(t, w).Min());
    ChoppedHas(s.Add(Neg(t, w)), w, x + Neg(t, w).Min());
    if y < Exp(w) {
      var z := Chop(Exp(w) - y, w);
      AddSound(s, Neg(t, w), x, z);
      ChoppedHas(s.Add(Neg(t, w)), w, x + z);
      ChopRight(x, Exp(w) - y, w);
      if y <= x < Exp(w) {
        ChopOver(x - y, w);
      }
    }
  }

  lemma {:induction false} ChopRight(a: nat, b: nat, w: nat)
    ensures Chop(a + Chop(b, w), w) == Chop(a + b, w)
  {
    hide Chop, Exp;
    ChopIsMod(b, w);
    ChopIsMod(a + Chop(b, w), w);
    ChopIsMod(a + b, w);
    AddMod(a, b, Exp(w));
  }

  lemma {:induction false} ChopOver(n: nat, w: nat)
    requires n < Exp(w)
    ensures Chop(n + Exp(w), w) == n
  {
    hide Chop, Exp;
    ChopIsMod(n + Exp(w), w);
    ModShift(n, Exp(w), 1);
    SmallMod(n, Exp(w));
  }

  // ----- quotient bits

  ghost predicate ClearBelow(q: Tnum, i: nat) { LowClear(q.val, i) && LowClear(q.mask, i) }

  lemma {:induction false} SetKnownHas(q: Tnum, i: nat, n: nat)
    requires q.Inv() && q.Has(n) && ClearBelow(q, i + 1)
    ensures SetKnown(q, i).Inv() && ClearBelow(SetKnown(q, i), i)
    ensures SetKnown(q, i).Has(BwOr(n, Exp(i)))
  {
    var r := SetKnown(q, i);
    forall j: nat
      ensures r.At(j).Inv() && r.At(j).Has(Bit(BwOr(n, Exp(i)), j))
      ensures j < i ==> !Bit(r.val, j)
    {
      BitExp(i, j);
      MapBit(Or, q.val, Exp(i), j);
      MapBit(Or, n, Exp(i), j);
      HasAt(q, n, j);
      AtInv(q, j);
    }
    InvFromBits(r);
    HasFromBits(r, BwOr(n, Exp(i)));
  }

  lemma {:induction false} SetUnknownHas(q: Tnum, i: nat, n: nat)
    requires q.Inv() && q.Has(n) && ClearBelow(q, i + 1)
    ensures SetUnknown(q, i).Inv() && ClearBelow(SetUnknown(q, i), i)
    ensures SetUnknown(q, i).Has(BwOr(n, Exp(i))) && SetUnknown(q, i).Has(n)
  {
    var r := SetUnknown(q, i);
    forall j: nat
      ensures r.At(j).Inv() && r.At(j).Has(Bit(BwOr(n, Exp(i)), j)) && r.At(j).Has(Bit(n, j))
      ensures j < i ==> !Bit(r.mask, j)
    {
      BitExp(i, j);
      MapBit(Or, q.mask, Exp(i), j);
      MapBit(Or, n, Exp(i), j);
      HasAt(q, n, j);
      AtInv(q, j);
    }
    InvFromBits(r);
    HasFromBits(r, BwOr(n, Exp(i)));
    HasFromBits(r, n);
  }

  lemma {:induction false} PushHas(r: Tnum, b: TBit, n: nat, y: bool)
    requires r.Inv() && b.Inv() && r.Has(n) && b.Has(y)
    ensures r.Push(b).Inv() && r.Push(b).Has(2 * n + N(y))
  {
    hide Map, Tnum.Has;
    HdTlCons(n, y);
    PushStep(r, b, 2 * n + N(y));
  }

  // ----- the loop

  /** The abstract loop state follows the concrete one. */
  ghost predicate Follows(n: Tnum, d: Tnum, w: nat, i: nat, q: Tnum, r: Tnum, nv: nat, dv: nat, qv: nat, rv: nat) {
    && n.Inv() && d.Inv() && q.Inv() && r.Inv() && ClearBelow(q, i)
    && n.Has(nv) && d.Has(dv) && q.Has(qv) && r.Has(rv)
    && rv < dv && (dv < Exp(w) || (i <= w && rv < Exp(w - i)))
  }

  lemma {:induction false} FollowsNext(n: Tnum, d: Tnum, w: nat, i: nat, q: Tnum, r: Tnum,
                                       nv: nat, dv: nat, qv: nat, rv: nat)
    requires i > 0 && Follows(n, d, w, i, q, r, nv, dv, qv, rv)
    ensures var r1, rc := r.Push(n.At(i - 1)), 2 * rv + N(Bit(nv, i - 1));
            && r1.Inv() && r1.Has(rc) && r1.Min() <= rc <= r1.Max()
            && d.Min() <= dv <= d.Max()
            && (dv < Exp(w) || (i <= w && rc < Exp(w - (i - 1)))) && rc < 2 * dv && rc < Exp(w + 1)
  {
    hide Map, Tnum.Has, Bit, Exp, ClearBelow, Tnum.Inv, TBit.Inv, TBit.Has, Tnum.Max;
    var r1, rc := r.Push(n.At(i - 1)), 2 * rv + N(Bit(nv, i - 1));
    AtInv(n, i - 1);
    HasAt(n, nv, i - 1);
    PushHas(r, n.At(i - 1), rv, Bit(nv, i - 1));
    Bounds(r1, rc);
    Bounds(d, dv);
    ExpStep(w);
    if i <= w {
      ExpStep(w - i);
      ExpMono(w - i + 1, w);
    }
  }

  lemma {:induction false} DivLoopSound(n: Tnum, d: Tnum, w: nat, i: nat, q: Tnum, r: Tnum,
                                        nv: nat, dv: nat, qv: nat, rv: nat)
    requires Follows(n, d, w, i, q, r, nv, dv, qv, rv)
    ensures DivLoop(n, d, w, i, q, r).0.Has(LongDiv(nv, dv, qv, rv, i).0)
    ensures DivLoop(n, d, w, i, q, r).1.Has(LongDiv(nv, dv, qv, rv, i).1)
    decreases i
  {
    hide Map, Tnum.Has, Bit, Exp, ClearBelow, Tnum.Inv, Tnum.Max, Tnum.Join, Sub, SetKnown, SetUnknown, Tnum.Push;
    if i > 0 {
      var r1, rc := r.Push(n.At(i - 1)), 2 * rv + N(Bit(nv, i - 1));
      FollowsNext(n, d, w, i, q, r, nv, dv, qv, rv);
      var sub := Sub(r1, d, w + 1);
      SubSound(r1, d, w + 1, rc, dv);
      if r1.Min() >= d.Max() {
        SetKnownHas(q, i - 1, qv);
        DivLoopSound(n, d, w, i - 1, SetKnown(q, i - 1), sub, nv, dv, BwOr(qv, Exp(i - 1)), rc - dv);
      } else if r1.Max() < d.Min() {
        ClearBelowWeaken(q, i);
        DivLoopSound(n, d, w, i - 1, q, r1, nv, dv, qv, rc);
      } else {
        SetUnknownHas(q, i - 1, qv);
        JoinInv(r1, sub);
        if rc >= dv {
          JoinSound(r1, sub, rc - dv);
          DivLoopSound(n, d, w, i - 1, SetUnknown(q, i - 1), r1.Join(sub), nv, dv, BwOr(qv, Exp(i - 1)), rc - dv);
        } else {
          JoinSound(r1, sub, rc);
          DivLoopSound(n, d, w, i - 1, SetUnknown(q, i - 1), r1.Join(sub), nv, dv, qv, rc);
        }
      }
    }
  }

  lemma ClearBelowWeaken(q: Tnum, i: nat)
    requires i > 0 && ClearBelow(q, i)
    ensures ClearBelow(q, i - 1)
  {
  }

  /**
    Every member pair with a positive divisor has its true quotient and remainder
    in the abstract result, whatever the bounds of the abstract divisor.
   */
  lemma {:induction false} DivSound(s: Tnum, t: Tnum, w: nat, x: nat, y: nat)
    requires s.Inv() && t.Inv() && s.Has(x) && t.Has(y) && y > 0
    ensures Div(s, t, w).0.Has(Chop(x, w) / y)
    ensures Div(s, t, w).1.Has(Chop(x, w) % y)
  {
    hide Map, Tnum.Has, Chop, DivLoop, LongDiv, Tnum.Inv;
    LongDivCorrect(x, y, w);
    ZeroHas(ZERO, 0);
    forall j: nat
      ensures !Bit(0, j)
    {
      BitZero(j);
    }
    ExpPos(0);
    DivLoopSound(s, t, w, w, ZERO, ZERO, x, y, 0, 0);
  }

  // ----- constants

  lemma {:induction false} AddUnits(s: Tnum, t: Tnum)
    requires s.mask == 0 && t.mask == 0
    ensures s.Add(t).mask == 0
  {
    hide Map;
    MapNeutral(s.val + t.val);
    MapNeutral(0);
  }

  lemma {:induction false} SubUnits(s: Tnum, t: Tnum, w: nat)
    requires s.mask == 0 && t.mask == 0
    ensures Neg(t, w).mask == 0 && Sub(s, t, w).mask == 0
  {
    hide Map, Tnum.Add, Chop, Exp;
    ExpPos(w);
    MapNeutral(0);
    ChopZero(w);
    AddUnits(t.Xor(Unit(Ones(w))), Unit(1));
    AddUnits(s, Neg(t, w));
  }

  lemma {:induction false} OnlyMember(t: Tnum, n: nat)
    requires t.mask == 0 && t.Has(n)
    ensures t == Unit(n)
  {
    hide Map, Tnum.Has;
    HasIsBroadword(t, n);
    MapNeutral(n);
  }

  lemma {:induction false} DivLoopUnits(n: Tnum, d: Tnum, w: nat, i: nat, q: Tnum, r: Tnum)
    requires n.mask == 0 && d.mask == 0 && q.mask == 0 && r.mask == 0
    ensures DivLoop(n, d, w, i, q, r).0.mask == 0 && DivLoop(n, d, w, i, q, r).1.mask == 0
    decreases i
  {
    hide Map, Bit, Exp, Sub;
    if i > 0 {
      var r1 := r.Push(n.At(i - 1));
      BitZero(i - 1);
      MapNeutral(r1.val);
      MapNeutral(d.val);
      SubUnits(r1, d, w + 1);
      if r1.Min() >= d.Max() {
        DivLoopUnits(n, d, w, i - 1, SetKnown(q, i - 1), Sub(r1, d, w + 1));
      } else {
        DivLoopUnits(n, d, w, i - 1, q, r1);
      }
    }
  }

  /** Dividing constants gives exactly the constant quotient and remainder. */
  lemma {:induction false} DivOfUnits(x: nat, y: nat, w: nat)
    requires y > 0
    ensures var (q, r) := Div(Unit(x), Unit(y), w);
            q.mask == 0 && q.val == Chop(x, w) / y && r.mask == 0 && r.val == Chop(x, w) % y
  {
    hide Map, Tnum.Has, Tnum.Inv, Chop, DivLoop;
    UnitHas(x);
    UnitHas(y);
    DivSound(Unit(x), Unit(y), w, x, y);
    DivLoopUnits(Unit(x), Unit(y), w, w, ZERO, ZERO);
    OnlyMember(Div(Unit(x), Unit(y), w).0, Chop(x, w) / y);
    OnlyMember(Div(Unit(x), Unit(y), w).1, Chop(x, w) % y);
  }

  function SubConst(s: Tnum, d: nat, w: nat): Tnum
    requires d <= Exp(w)
  {
    s.Add(Unit(Exp(w) - d)).Chopped(w)
  }

  /** Division by a constant, as written separately from the general loop. */
  function DivConstLoop(n: Tnum, d: nat, w: nat, i: nat, q: Tnum, r: Tnum): (Tnum, Tnum)
    requires d <= Exp(w + 1)
    decreases i
  {
    if i == 0 then (q, r)
    else
      var r1 := r.Push(n.At(i - 1));
      if r1.Min() >= d then DivConstLoop(n, d, w, i - 1, SetKnown(q, i - 1), SubConst(r1, d, w + 1))
      else if r1.Max() < d then DivConstLoop(n, d, w, i - 1, q, r1)
      else DivConstLoop(n, d, w, i - 1, SetUnknown(q, i - 1), r1.Join(SubConst(r1, d, w + 1)))
  }

  lemma {:induction false} NegOfUnit(d: nat, w: nat)
    requires 0 < d < Exp(w)
    ensures Neg(Unit(d), w) == Unit(Exp(w) - d)
  {
    hide Map, Tnum.Has, Exp, Neg, Tnum.Inv;
    UnitHas(d);
    NegSound(Unit(d), w, d);
    ChopSmall(Exp(w) - d, w);
    SubUnits(ZERO, Unit(d), w);
    OnlyMember(Neg(Unit(d), w), Exp(w) - d);
  }

  /** Division by a constant is the general division by that constant. */
  lemma {:induction false} DivConstIsDiv(n: Tnum, d: nat, w: nat, i: nat, q: Tnum, r: Tnum)
    requires 0 < d < Exp(w + 1)
    ensures DivConstLoop(n, d, w, i, q, r) == DivLoop(n, Unit(d), w, i, q, r)
    decreases i
  {
    hide Map, Bit, Exp, Neg, Tnum.Add, Chop;
    if i > 0 {
      var r1 := r.Push(n.At(i - 1));
      MapNeutral(d);
      NegOfUnit(d, w + 1);
      assert SubConst(r1, d, w + 1) == Sub(r1, Unit(d), w + 1);
      DivConstIsDiv(n, d, w, i - 1, SetKnown(q, i - 1), Sub(r1, Unit(d), w + 1));
      DivConstIsDiv(n, d, w, i - 1, q, r1);
      DivConstIsDiv(n, d, w, i - 1, SetUnknown(q, i - 1), r1.Join(Sub(r1, Unit(d), w + 1)));
    }
  }
}
