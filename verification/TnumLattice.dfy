/** Join and meet of tristate numbers, against the sets of their members. */
module TnumLattice {
  import opened Bitstrings
  import opened Tnums

  lemma {:induction false} JoinAt(s: Tnum, t: Tnum, i: nat, b: bool)
    requires s.At(i).Inv() && t.At(i).Inv()
    ensures s.Join(t).At(i).Inv()
    ensures s.Join(t).At(i).Has(b) <==> s.At(i).Has(b) || t.At(i).Has(b)
  {
    MapBit(And, s.val, t.val, i);
    MapBit(Xor, s.val, s.mask, i);
    MapBit(Xor, t.val, t.mask, i);
    MapBit(Or, s.Upper(), t.Upper(), i);
    MapBit(Xor, BwAnd(s.val, t.val), BwOr(s.Upper(), t.Upper()), i);
  }

  lemma {:induction false} InvFromBits(t: Tnum)
    requires forall i: nat :: t.At(i).Inv()
    ensures t.Inv()
  {
    forall i: nat
      ensures !(Bit(t.val, i) && Bit(t.mask, i))
    {
      assert t.At(i).Inv();
    }
    DisjointFromBits(t.val, t.mask);
  }

  lemma {:induction false} JoinInv(s: Tnum, t: Tnum)
    requires s.Inv() && t.Inv()
    ensures s.Join(t).Inv()
  {
    forall i: nat
      ensures s.Join(t).At(i).Inv()
    {
      AtInv(s, i);
      AtInv(t, i);
      JoinAt(s, t, i, false);
    }
    InvFromBits(s.Join(t));
  }

  lemma {:induction false} JoinSound(s: Tnum, t: Tnum, n: nat)
    requires s.Inv() && t.Inv()
    requires s.Has(n) || t.Has(n)
    ensures s.Join(t).Has(n)
  {
    forall i: nat
      ensures s.Join(t).At(i).Has(Bit(n, i))
    {
      AtInv(s, i);
      AtInv(t, i);
      JoinAt(s, t, i, Bit(n, i));
      if s.Has(n) { HasAt(s, n, i); } else { HasAt(t, n, i); }
    }
    HasFromBits(s.Join(t), n);
  }

  /** The join is the least tnum above both operands. */
  lemma {:induction false} JoinLeast(s: Tnum, t: Tnum, u: Tnum, n: nat)
    requires s.Inv() && t.Inv()
    requires forall k: nat :: s.Has(k) || t.Has(k) ==> u.Has(k)
    requires s.Join(t).Has(n)
    ensures u.Has(n)
  {
    forall i: nat
      ensures u.At(i).Has(Bit(n, i))
    {
      AtInv(s, i);
      AtInv(t, i);
      JoinAt(s, t, i, Bit(n, i));
      HasAt(s.Join(t), n, i);
      SubsetAt(s, u, i);
      SubsetAt(t, u, i);
    }
    HasFromBits(u, n);
  }

  lemma {:induction false} MeetAt(s: Tnum, t: Tnum, i: nat, b: bool)
    ensures s.Meet(t).At(i).Has(b) <==> s.At(i).Has(b) && t.At(i).Has(b)
  {
    MapBit(Or, s.val, t.val, i);
    MapBit(Xor, s.val, s.mask, i);
    MapBit(Xor, t.val, t.mask, i);
    MapBit(And, s.Upper(), t.Upper(), i);
    MapBit(Xor, BwOr(s.val, t.val), BwAnd(s.Upper(), t.Upper()), i);
  }

  /** The meet is exactly the intersection. */
  lemma {:induction false} MeetExact(s: Tnum, t: Tnum, n: nat)
    ensures s.Meet(t).Has(n) <==> s.Has(n) && t.Has(n)
  {
    if s.Meet(t).Has(n) {
      forall i: nat
        ensures s.At(i).Has(Bit(n, i)) && t.At(i).Has(Bit(n, i))
      {
        HasAt(s.Meet(t), n, i);
        MeetAt(s, t, i, Bit(n, i));
      }
      HasFromBits(s, n);
      HasFromBits(t, n);
    }
    if s.Has(n) && t.Has(n) {
      forall i: nat
        ensures s.Meet(t).At(i).Has(Bit(n, i))
      {
        HasAt(s, n, i);
        HasAt(t, n, i);
        MeetAt(s, t, i, Bit(n, i));
      }
      HasFromBits(s.Meet(t), n);
    }
  }

  lemma {:induction false} MeetOkAt(s: Tnum, t: Tnum, i: nat)
    requires s.Inv() && t.Inv() && s.MeetOk(t)
    ensures !(Bit(s.val, i) && !Bit(t.val, i) && !Bit(t.mask, i))
  {
    AtInv(s, i);
    MapBit(And, BwOr(s.val, t.val), BwAndNot(s.Upper(), t.Upper()), i);
    MapBit(Or, s.val, t.val, i);
    MapBit(Xor, s.val, s.mask, i);
    MapBit(Xor, t.val, t.mask, i);
    MapBit(AndNot, s.Upper(), t.Upper(), i);
    BitZero(i);
  }

  lemma {:induction false} MeetOkFromMember(s: Tnum, t: Tnum, n: nat)
    requires s.Inv() && t.Inv() && s.Has(n) && t.Has(n)
    ensures s.MeetOk(t)
  {
    var z := BwAnd(BwOr(s.val, t.val), BwAndNot(s.Upper(), t.Upper()));
    forall i: nat
      ensures Bit(z, i) == Bit(0, i)
    {
      AtInv(s, i);
      AtInv(t, i);
      HasAt(s, n, i);
      HasAt(t, n, i);
      MapBit(And, BwOr(s.val, t.val), BwAndNot(s.Upper(), t.Upper()), i);
      MapBit(Or, s.val, t.val, i);
      MapBit(Xor, s.val, s.mask, i);
      MapBit(Xor, t.val, t.mask, i);
      MapBit(AndNot, s.Upper(), t.Upper(), i);
      BitZero(i);
    }
    EqFromBits(z, 0);
  }

  /** MeetOk alone does not decide compatibility: {0} and {1} pass it one way. */
  lemma {:induction false} MeetOkIsOneSided(zero: Tnum, one: Tnum)
    requires zero == Unit(0) && one == Unit(1)
    ensures zero.MeetOk(one)
    ensures forall n: nat :: !(zero.Has(n) && one.Has(n))
  {
    SmallMaps();
    hide Map;
    assert zero.val == N(false) && zero.mask == N(false) && one.val == N(true) && one.mask == N(false);
    forall n: nat
      ensures !(zero.Has(n) && one.Has(n))
    {
      HasStep(one, n);
    }
  }

  lemma {:induction false} MeetOkWitness(s: Tnum, t: Tnum) returns (n: nat)
    requires s.Inv() && t.Inv() && s.MeetOk(t) && t.MeetOk(s)
    ensures s.Has(n) && t.Has(n)
  {
    n := BwOr(s.val, t.val);
    forall i: nat
      ensures s.At(i).Has(Bit(n, i)) && t.At(i).Has(Bit(n, i))
    {
      MapBit(Or, s.val, t.val, i);
      MeetOkAt(s, t, i);
      MeetOkAt(t, s, i);
      AtInv(s, i);
      AtInv(t, i);
    }
    HasFromBits(s, n);
    HasFromBits(t, n);
  }

  /** Asked in both directions it decides whether the operands share a member. */
  lemma {:induction false} MeetOkBothWays(s: Tnum, t: Tnum)
    requires s.Inv() && t.Inv()
    ensures (exists n: nat :: s.Has(n) && t.Has(n)) <==> s.MeetOk(t) && t.MeetOk(s)
  {
    hide Tnum.MeetOk, Tnum.Has;
    if s.MeetOk(t) && t.MeetOk(s) {
      var n := MeetOkWitness(s, t);
    }
    if n: nat :| s.Has(n) && t.Has(n) {
      MeetOkFromMember(s, t, n);
      MeetOkFromMember(t, s, n);
      assert s.MeetOk(t);
      assert t.MeetOk(s);
      assert exists k: nat :: s.Has(k) && t.Has(k);
    }
  }
}
