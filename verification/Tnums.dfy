/**
  Tristate numbers. Each bit is known to be 0, known to be 1, or unknown; the
  pair (val, mask) holds the known ones and the unknown positions.
 */
module Tnums {
  import opened Bitstrings

  /** One tristate bit; (true, true) is the empty set. */
  datatype TBit = TBit(val: bool, mask: bool) {
    predicate Inv() { !(val && mask) }

    predicate Has(b: bool) { (b && !mask) == val }

    /** Adds two tristate bits and a tristate carry. */
    function Add(t: TBit, c: TBit): (TBit, TBit) {
      var (sumV, carryV) := FullAdd(val, t.val, c.val);
      var (sumM, carryM) := FullAdd(mask, t.mask, c.mask);
      var (upper, upperCarry) := FullAdd(sumV, sumM, false);
      var upperOut := FullAdd(carryV, carryM, upperCarry).0;
      var maskV := (upper != sumV) || mask || t.mask;
      var maskC := upperOut != carryV;
      (TBit(sumV && !maskV, maskV), TBit(carryV && !maskC, maskC))
    }
  }

  const KNOWN_ZERO := TBit(false, false)

  datatype Tnum = Tnum(val: nat, mask: nat) {
    predicate Inv() { Disjoint(val, mask) }

    function Head(): TBit { TBit(Hd(val), Hd(mask)) }

    function Tail(): Tnum { Tnum(Tl(val), Tl(mask)) }

    function At(i: nat): TBit { TBit(Bit(val, i), Bit(mask, i)) }

    function Min(): nat { val }

    function Max(): nat { BwOr(val, mask) }

    /** The bits that some member may have. */
    function Upper(): nat { BwXor(val, mask) }

    function Push(b: TBit): Tnum { Tnum(Cons(val, b.val), Cons(mask, b.mask)) }

    /** Membership, bit by bit from the lowest. */
    predicate Has(n: nat)
      decreases val + mask
    {
      if val == 0 && mask == 0 then n == 0
      else Head().Has(Hd(n)) && Tail().Has(Tl(n))
    }

    /** Membership in one step: the bits outside the mask are the value. */
    predicate HasBroadword(n: nat) { BwAndNot(n, mask) == val }

    /** Addition, one tristate adder per position. */
    function AddRipple(t: Tnum, c: TBit): Tnum
      decreases val + mask + t.val + t.mask
    {
      if val == 0 && mask == 0 && t.val == 0 && t.mask == 0 then ZERO.Push(c)
      else
        var (b, c1) := Head().Add(t.Head(), c);
        Tail().AddRipple(t.Tail(), c1).Push(b)
    }

    /** Addition by three machine additions, with a split incoming carry. */
    function AddBroadwordCarry(t: Tnum, cv: bool, cm: bool): Tnum {
      var lowerV := val + t.val + N(cv);
      var lowerM := mask + t.mask + N(cm);
      var m := BwOr(BwOr(BwXor(lowerV + lowerM, lowerV), mask), t.mask);
      Tnum(BwAndNot(lowerV, m), m)
    }

    function Add(t: Tnum): Tnum { AddBroadwordCarry(t, false, false) }

    function Join(t: Tnum): Tnum { FromBounds(BwAnd(val, t.val), BwOr(Upper(), t.Upper())) }

    function Meet(t: Tnum): Tnum { FromBounds(BwOr(val, t.val), BwAnd(Upper(), t.Upper())) }

    /** The test offered as the precondition of Meet. */
    predicate MeetOk(t: Tnum) { BwAnd(BwOr(val, t.val), BwAndNot(Upper(), t.Upper())) == 0 }

    function Xor(t: Tnum): Tnum {
      var m := BwOr(mask, t.mask);
      Tnum(BwAndNot(BwXor(val, t.val), m), m)
    }

    function Chopped(w: nat): Tnum { Tnum(Chop(val, w), Chop(mask, w)) }

    /** The known one bits and the possible one bits. */
    static function FromBounds(v: nat, u: nat): Tnum { Tnum(v, BwXor(v, u)) }
  }

  const ZERO := Tnum(0, 0)

  function Unit(n: nat): Tnum { Tnum(n, 0) }

  // ----- membership

  lemma {:induction false} HasStep(t: Tnum, n: nat)
    ensures t.Has(n) <==> t.Head().Has(Hd(n)) && t.Tail().Has(Tl(n))
  {
  }

  lemma {:induction false} ZeroHas(t: Tnum, n: nat)
    requires t == ZERO
    ensures t.Inv() && (t.Has(n) <==> n == 0)
  {
  }

  lemma {:induction false} InvStep(t: Tnum)
    ensures t.Inv() <==> t.Head().Inv() && t.Tail().Inv()
  {
    DisjointHdTl(t.val, t.mask);
  }

  lemma {:induction false} PushStep(t: Tnum, b: TBit, n: nat)
    ensures t.Push(b).Head() == b && t.Push(b).Tail() == t
    ensures t.Push(b).Has(n) <==> b.Has(Hd(n)) && t.Has(Tl(n))
    ensures t.Push(b).Inv() <==> b.Inv() && t.Inv()
  {
    HasStep(t.Push(b), n);
    InvStep(t.Push(b));
  }

  /** The recursive and the one-step membership test agree. */
  lemma {:induction false} HasIsBroadword(t: Tnum, n: nat)
    ensures t.Has(n) <==> t.HasBroadword(n)
    decreases t.val + t.mask + n
  {
    if t.val != 0 || t.mask != 0 || n != 0 {
      HasStep(t, n);
      MapHdTl(AndNot, n, t.mask);
      HasIsBroadword(t.Tail(), Tl(n));
    }
  }

  lemma {:induction false} HasAt(t: Tnum, n: nat, i: nat)
    requires t.Has(n)
    ensures t.At(i).Has(Bit(n, i))
  {
    HasIsBroadword(t, n);
    MapBit(AndNot, n, t.mask, i);
  }

  lemma {:induction false} AtInv(t: Tnum, i: nat)
    requires t.Inv()
    ensures t.At(i).Inv()
  {
    DisjointBit(t.val, t.mask, i);
  }

  lemma {:induction false} HasFromBits(t: Tnum, n: nat)
    requires forall i: nat :: t.At(i).Has(Bit(n, i))
    ensures t.Has(n)
  {
    forall i: nat
      ensures Bit(BwAndNot(n, t.mask), i) == Bit(t.val, i)
    {
      MapBit(AndNot, n, t.mask, i);
      assert t.At(i).Has(Bit(n, i));
    }
    EqFromBits(BwAndNot(n, t.mask), t.val);
    HasIsBroadword(t, n);
  }

  lemma {:induction false} UnitHas(n: nat)
    ensures Unit(n).Inv() && Unit(n).Has(n)
  {
    forall i: nat
      ensures Unit(n).At(i).Has(Bit(n, i)) && !(Bit(n, i) && Bit(0, i))
    {
      BitZero(i);
    }
    HasFromBits(Unit(n), n);
    DisjointFromBits(n, 0);
  }

  /** Both bounds of a well-formed tnum are members, and they are the extremes. */
  lemma {:induction false} Bounds(t: Tnum, n: nat)
    requires t.Inv()
    ensures t.Has(t.Min()) && t.Has(t.Max())
    ensures t.Has(n) ==> t.Min() <= n <= t.Max()
    decreases t.val + t.mask + n
  {
    MapHdTl(Or, t.val, t.mask);
    HasStep(t, n);
    HasStep(t, t.Min());
    HasStep(t, t.Max());
    InvStep(t);
    if t.val != 0 || t.mask != 0 || n != 0 {
      Bounds(t.Tail(), Tl(n));
    }
  }

  /** Well-formed tnums with the same members are the same pair. */
  lemma {:induction false} Extensional(s: Tnum, t: Tnum)
    requires s.Inv() && t.Inv()
    requires forall n: nat :: s.Has(n) <==> t.Has(n)
    ensures s == t
  {
    Bounds(s, t.Min());
    Bounds(t, s.Min());
    Bounds(s, t.Max());
    Bounds(t, s.Max());
    assert s.Has(t.Min()) && t.Has(s.Min()) && s.Has(t.Max()) && t.Has(s.Max());
    DisjointSum(s.val, s.mask);
    DisjointSum(t.val, t.mask);
  }

  /** Inclusion of the sets, in terms of the bits. */
  lemma {:induction false} SubsetAt(s: Tnum, t: Tnum, i: nat)
    requires s.Inv()
    requires forall n: nat :: s.Has(n) ==> t.Has(n)
    ensures forall b :: s.At(i).Has(b) ==> t.At(i).Has(b)
  {
    Bounds(s, 0);
    assert t.Has(s.Min()) && t.Has(s.Max());
    HasAt(t, s.Min(), i);
    HasAt(t, s.Max(), i);
    MapBit(Or, s.val, s.mask, i);
  }
}
