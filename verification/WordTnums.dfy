/**
  Tnums on w-bit words. The machine addition wraps at every step and is still
  the unbounded one cut to w bits; the shift-and-add loop multiplies modulo 2^w.
 */
module WordTnums {
  import opened DivModFacts
  import opened Bitstrings
  import opened Tnums
  import opened TnumAddition
  import opened Anums

  predicate Fits(t: Tnum, w: nat) { t.val < Exp(w) && t.mask < Exp(w) }

  function AddWord(s: Tnum, t: Tnum, w: nat): Tnum {
    var lowerV := Chop(s.val + t.val, w);
    var lowerM := Chop(s.mask + t.mask, w);
    var upper := Chop(lowerV + lowerM, w);
    var m := BwOr(BwOr(BwXor(upper, lowerV), s.mask), t.mask);
    Tnum(BwAndNot(lowerV, m), m)
  }

  function ShlWord(t: Tnum, w: nat): Tnum { Tnum(Chop(2 * t.val, w), Chop(2 * t.mask, w)) }

  lemma {:induction false} ChopSum(a: nat, b: nat, w: nat)
    ensures Chop(Chop(a, w) + Chop(b, w), w) == Chop(a + b, w)
  {
    hide Chop, Exp;
    ChopIsMod(a, w);
    ChopIsMod(b, w);
    ChopIsMod(a + b, w);
    ChopIsMod(Chop(a, w) + Chop(b, w), w);
    AddMod(a, b, Exp(w));
  }

  /** Cutting to w bits keeps the cut of every member. */
  lemma {:induction false} ChoppedHas(t: Tnum, w: nat, n: nat)
    requires t.Inv() && t.Has(n)
    ensures t.Chopped(w).Inv() && Fits(t.Chopped(w), w)
    ensures t.Chopped(w).Has(Chop(n, w))
  {
    HasIsBroadword(t, n);
    ChopMap(And, t.val, t.mask, w);
    ChopMap(AndNot, n, t.mask, w);
    ChopBound(t.val, w);
    ChopBound(t.mask, w);
    ExpPos(w);
    ChopSmall(0, w);
    hide Map, Chop, Tnum.Has, Exp;
    HasIsBroadword(t.Chopped(w), Chop(n, w));
  }

  /** The wrapping formula is the unbounded sum cut to w bits. */
  lemma {:induction false} AddWordIsChopped(s: Tnum, t: Tnum, w: nat)
    requires Fits(s, w) && Fits(t, w)
    ensures AddWord(s, t, w) == s.Add(t).Chopped(w)
  {
    hide Map, Chop, Exp;
    var lv, lm := s.val + t.val, s.mask + t.mask;
    ChopSum(lv, lm, w);
    ChopSmall(s.mask, w);
    ChopSmall(t.mask, w);
    var x := BwXor(lv + lm, lv);
    ChopMap(Xor, lv + lm, lv, w);
    ChopMap(Or, x, s.mask, w);
    ChopMap(Or, BwOr(x, s.mask), t.mask, w);
    ChopMap(AndNot, lv, BwOr(BwOr(x, s.mask), t.mask), w);
  }

  /** Machine addition holds every wrapped sum. */
  lemma {:induction false} AddWordSound(s: Tnum, t: Tnum, w: nat, x: nat, y: nat)
    requires s.Inv() && t.Inv() && Fits(s, w) && Fits(t, w) && s.Has(x) && t.Has(y)
    ensures AddWord(s, t, w).Inv() && Fits(AddWord(s, t, w), w)
    ensures AddWord(s, t, w).Has(Chop(x + y, w))
  {
    hide Map, Chop, Exp, Tnum.Has, Tnum.Add, AddWord, Fits;
    AddSound(s, t, x, y);
    AddWordIsChopped(s, t, w);
    ChoppedHas(s.Add(t), w, x + y);
  }

  /** The low w bits of a below the high bits of b. */
  function Splice(a: nat, b: nat, w: nat): nat
    decreases w
  {
    if w == 0 then b else Cons(Splice(Tl(a), Tl(b), w - 1), Hd(a))
  }

  lemma {:induction false} SpliceBit(a: nat, b: nat, w: nat, i: nat)
    ensures Bit(Splice(a, b, w), i) == if i < w then Bit(a, i) else Bit(b, i)
    decreases w
  {
    if w > 0 {
      HdTlCons(Splice(Tl(a), Tl(b), w - 1), Hd(a));
      if i > 0 {
        SpliceBit(Tl(a), Tl(b), w - 1, i - 1);
      }
    }
  }

  /** Low bits from u, high bits from r. */
  function SpliceTnum(u: Tnum, r: Tnum, w: nat): Tnum { Tnum(Splice(u.val, r.val, w), Splice(u.mask, r.mask, w)) }

  lemma {:induction false} SpliceTnumAt(u: Tnum, r: Tnum, w: nat, i: nat)
    ensures SpliceTnum(u, r, w).At(i) == if i < w then u.At(i) else r.At(i)
  {
    hide Splice, Bit;
    SpliceBit(u.val, r.val, w, i);
    SpliceBit(u.mask, r.mask, w, i);
  }

  /** A number in r whose low bits are in u is in the splice. */
  lemma {:induction false} SpliceTnumHas(u: Tnum, r: Tnum, w: nat, n: nat)
    requires r.Has(n) && u.Has(Chop(n, w))
    ensures SpliceTnum(u, r, w).Has(n)
  {
    hide SpliceTnum, Bit, Tnum.Has, TBit.Has, Chop;
    forall i: nat
      ensures SpliceTnum(u, r, w).At(i).Has(Bit(n, i))
    {
      SpliceTnumAt(u, r, w, i);
      HasAt(r, n, i);
      HasAt(u, Chop(n, w), i);
      ChopBit(n, w, i);
    }
    HasFromBits(SpliceTnum(u, r, w), n);
  }

  /** A member of the cut of r extends to a member of r by the known high bits. */
  lemma {:induction false} SpliceExtends(r: Tnum, w: nat, n: nat)
    requires r.Inv() && r.Chopped(w).Has(n)
    ensures r.Has(Splice(n, r.val, w))
  {
    hide Splice, Bit, Tnum.Has, Chop;
    var z := Splice(n, r.val, w);
    Bounds(r, 0);
    forall i: nat
      ensures r.At(i).Has(Bit(z, i))
    {
      SpliceBit(n, r.val, w, i);
      HasAt(r.Chopped(w), n, i);
      ChopBit(r.val, w, i);
      ChopBit(r.mask, w, i);
      HasAt(r, r.Min(), i);
    }
    HasFromBits(r, z);
  }

  /** A sum cut to w bits is the best abstraction of the wrapped sums. */
  lemma {:induction false} ChoppedSumBest(s: Tnum, t: Tnum, w: nat, u: Tnum, n: nat)
    requires s.Inv() && t.Inv()
    requires forall x: nat, y: nat :: s.Has(x) && t.Has(y) ==> u.Has(Chop(x + y, w))
    requires s.Add(t).Chopped(w).Has(n)
    ensures u.Has(n)
  {
    hide Map, Chop, Exp, Tnum.Has, Tnum.Add, Splice, SpliceTnum, Tnum.Chopped;
    var r := s.Add(t);
    var v, z := SpliceTnum(u, r, w), Splice(n, r.val, w);
    AddInv(s, t);
    forall x: nat, y: nat | s.Has(x) && t.Has(y) ensures v.Has(x + y) {
      AddSound(s, t, x, y);
      SpliceTnumHas(u, r, w, x + y);
    }
    SpliceExtends(r, w, n);
    AddBest(s, t, v, z);
    Bounds(s, 0);
    Bounds(t, 0);
    LowBitsFromSplice(u, r, w, n, s.Min() + t.Min());
  }

  /** The word sum is the best abstraction of the wrapped sums. */
  lemma {:induction false} AddWordBest(s: Tnum, t: Tnum, w: nat, u: Tnum, n: nat)
    requires s.Inv() && t.Inv() && Fits(s, w) && Fits(t, w)
    requires forall x: nat, y: nat :: s.Has(x) && t.Has(y) ==> u.Has(Chop(x + y, w))
    requires AddWord(s, t, w).Has(n)
    ensures u.Has(n)
  {
    hide Map, Chop, Exp, Tnum.Has, Tnum.Add, AddWord, Fits, Tnum.Chopped;
    AddWordIsChopped(s, t, w);
    ChoppedSumBest(s, t, w, u, n);
  }

  lemma {:induction false} LowBitsFromSplice(u: Tnum, r: Tnum, w: nat, n: nat, k: nat)
    requires SpliceTnum(u, r, w).Has(Splice(n, r.val, w)) && r.Chopped(w).Has(n) && u.Has(Chop(k, w))
    ensures u.Has(n)
  {
    hide Splice, SpliceTnum, Bit, Tnum.Has, TBit.Has, Chop;
    forall i: nat
      ensures u.At(i).Has(Bit(n, i))
    {
      HasAt(SpliceTnum(u, r, w), Splice(n, r.val, w), i);
      SpliceTnumAt(u, r, w, i);
      SpliceBit(n, r.val, w, i);
      if i >= w {
        HighBitClear(r, w, n, i);
        HasAt(u, Chop(k, w), i);
        ChopBit(k, w, i);
      }
    }
    HasFromBits(u, n);
  }

  lemma {:induction false} HighBitClear(r: Tnum, w: nat, n: nat, i: nat)
    requires r.Chopped(w).Has(n) && i >= w
    ensures !Bit(n, i)
  {
    hide Bit, Tnum.Has, Chop;
    HasAt(r.Chopped(w), n, i);
    ChopBit(r.val, w, i);
    ChopBit(r.mask, w, i);
  }

  lemma {:induction false} MemberFits(t: Tnum, w: nat, n: nat)
    requires t.Inv() && Fits(t, w) && t.Has(n)
    ensures n < Exp(w)
  {
    hide Map, Tnum.Has, Exp;
    Bounds(t, n);
    ChopMap(Or, t.val, t.mask, w);
    ChopSmall(t.val, w);
    ChopSmall(t.mask, w);
    ChopBound(t.Max(), w);
  }

  lemma {:induction false} MaxFits(t: Tnum, w: nat)
    requires t.Inv() && Fits(t, w)
    ensures t.Max() < Exp(w)
  {
    hide Map, Tnum.Has, Exp;
    Bounds(t, 0);
    MemberFits(t, w, t.Max());
  }

  // ----- the multiplication loop

  /** Shift and add with a tnum accumulator: p is consumed bit by bit, q doubles. */
  function ShiftAdd(p: Tnum, q: Tnum, acc: Tnum): Tnum
    decreases p.val + p.mask
  {
    if p == ZERO then acc
    else ShiftAdd(p.Tail(), Shl(q), acc.Add(MulBit(q, p.Head())))
  }

  function ShiftProduct(s: Tnum, t: Tnum): Tnum { ShiftAdd(t, s, ZERO) }

  lemma {:induction false} ShiftAddStep(p: Tnum, q: Tnum, acc: Tnum)
    requires acc.Inv()
    ensures ShiftAdd(p, q, acc) == ShiftAdd(p.Tail(), Shl(q), acc.Add(MulBit(q, p.Head())))
  {
    hide Tnum.Add, Map;
    if p == ZERO {
      AddZero(acc);
    }
  }

  lemma {:induction false} ShiftAddDone(p: Tnum, q: Tnum, acc: Tnum)
    requires p == ZERO
    ensures ShiftAdd(p, q, acc) == acc
  {
  }

  lemma {:induction false} ShiftAddSound(p: Tnum, q: Tnum, acc: Tnum, x: nat, y: nat, z: nat)
    requires p.Inv() && q.Inv() && acc.Inv() && p.Has(x) && q.Has(y) && acc.Has(z)
    ensures ShiftAdd(p, q, acc).Inv() && ShiftAdd(p, q, acc).Has(z + Prod(x, y))
    decreases p.val + p.mask
  {
    hide Tnum.Add, Tnum.Has, Map, MulBit;
    if p == ZERO {
      ZeroHas(p, x);
    } else {
      InvStep(p);
      HasStep(p, x);
      ShlHas(q, y);
      MulBitSound(q, p.Head(), y, Hd(x));
      var k := if Hd(x) then y else 0;
      AddSound(acc, MulBit(q, p.Head()), z, k);
      ShiftAddSound(p.Tail(), Shl(q), acc.Add(MulBit(q, p.Head())), Tl(x), 2 * y, z + k);
      ProdStep(x, y);
    }
  }

  lemma {:induction false} UnitsAdd(x: nat, y: nat)
    ensures Unit(x).Add(Unit(y)) == Unit(x + y)
  {
    hide Map;
    MapNeutral(x + y);
    MapNeutral(0);
  }

  lemma {:induction false} ShiftAddOfUnits(x: nat, y: nat, z: nat)
    ensures ShiftAdd(Unit(x), Unit(y), Unit(z)) == Unit(z + Prod(x, y))
    decreases x
  {
    hide Tnum.Add, Map;
    if x > 0 {
      var k := if Hd(x) then y else 0;
      UnitsAdd(z, k);
      ShiftAddOfUnits(Tl(x), 2 * y, z + k);
      ProdStep(x, y);
    }
  }

  // ----- cutting to words commutes with every step

  lemma {:induction false} ChopZero(w: nat)
    ensures Chop(0, w) == 0
  {
    ExpPos(w);
    ChopSmall(0, w);
  }

  lemma {:induction false} AddWordOfChopped(s: Tnum, t: Tnum, w: nat)
    ensures AddWord(s.Chopped(w), t.Chopped(w), w) == s.Add(t).Chopped(w)
  {
    hide Map, Chop, Exp;
    var lv, lm := s.val + t.val, s.mask + t.mask;
    ChopSum(s.val, t.val, w);
    ChopSum(s.mask, t.mask, w);
    ChopSum(lv, lm, w);
    var x := BwXor(lv + lm, lv);
    ChopMap(Xor, lv + lm, lv, w);
    ChopMap(Or, x, s.mask, w);
    ChopMap(Or, BwOr(x, s.mask), t.mask, w);
    ChopMap(AndNot, lv, BwOr(BwOr(x, s.mask), t.mask), w);
  }

  lemma {:induction false} MulBitOfChopped(q: Tnum, b: TBit, w: nat)
    ensures MulBit(q.Chopped(w), b) == MulBit(q, b).Chopped(w)
  {
    hide Map, Chop;
    ChopMap(Or, q.val, q.mask, w);
    ChopZero(w);
  }

  lemma {:induction false} ShlWordOfChopped(q: Tnum, w: nat)
    ensures ShlWord(q.Chopped(w), w) == Shl(q).Chopped(w)
  {
    hide Chop;
    ChopSum(q.val, q.val, w);
    ChopSum(q.mask, q.mask, w);
  }

  lemma {:induction false} ChoppedFits(t: Tnum, w: nat)
    requires Fits(t, w)
    ensures t.Chopped(w) == t
  {
    hide Chop, Exp;
    ChopSmall(t.val, w);
    ChopSmall(t.mask, w);
  }

  /** The word loop follows the unbounded one: rest of the multiplier, multiplicand and accumulator. */
  ghost predicate Tracks(rest: Tnum, md: Tnum, acc: Tnum, mdU: Tnum, accU: Tnum, w: nat, product: Tnum) {
    && rest.Inv() && mdU.Inv() && accU.Inv()
    && md == mdU.Chopped(w) && acc == accU.Chopped(w)
    && ShiftAdd(rest, mdU, accU) == product
  }

  lemma {:induction false} TracksStart(s: Tnum, t: Tnum, w: nat)
    requires s.Inv() && t.Inv() && Fits(s, w)
    ensures Tracks(t, s, ZERO, s, ZERO, w, ShiftProduct(s, t))
  {
    hide Map, Chop, Exp, ShiftAdd, Tnum.Has;
    ChoppedFits(s, w);
    ChopZero(w);
    ZeroHas(ZERO, 0);
  }

  lemma {:induction false} TracksNext(rest: Tnum, md: Tnum, acc: Tnum, mdU: Tnum, accU: Tnum, w: nat, product: Tnum)
    requires Tracks(rest, md, acc, mdU, accU, w, product)
    ensures var b := rest.Head();
            var next := if b.val || b.mask then AddWord(acc, MulBit(md, b), w) else acc;
            Tracks(rest.Tail(), ShlWord(md, w), next, Shl(mdU), accU.Add(MulBit(mdU, b)), w, product)
  {
    hide Map, Chop, Exp, ShiftAdd, Tnum.Has, Tnum.Add, AddWord, ShlWord, Tnum.Chopped, MulBit;
    var b := rest.Head();
    InvStep(rest);
    Bounds(mdU, 0);
    Bounds(accU, 0);
    ShiftAddStep(rest, mdU, accU);
    MulBitInv(mdU, b);
    AddInv(accU, MulBit(mdU, b));
    ShlHas(mdU, mdU.Min());
    ShlWordOfChopped(mdU, w);
    AddWordOfChopped(accU, MulBit(mdU, b), w);
    MulBitOfChopped(mdU, b, w);
    if !b.val && !b.mask {
      NothingAdded(mdU, accU, b);
    }
  }

  lemma {:induction false} NothingAdded(q: Tnum, acc: Tnum, b: TBit)
    requires acc.Inv() && !b.val && !b.mask
    ensures acc.Add(MulBit(q, b)) == acc
  {
    hide Tnum.Add;
    AddZero(acc);
  }

  lemma {:induction false} MulBitInv(t: Tnum, b: TBit)
    requires t.Inv() && b.Inv()
    ensures MulBit(t, b).Inv()
  {
    hide Tnum.Has, Map;
    Bounds(t, 0);
    MulBitSound(t, b, t.Min(), b.val);
  }

  lemma {:induction false} ShrNext(n: nat, i: nat)
    ensures Shr(n, i + 1) == Tl(Shr(n, i))
    decreases i
  {
    if i > 0 {
      ShrNext(Tl(n), i - 1);
    }
  }

  lemma {:induction false} ShrAll(n: nat, w: nat)
    requires n < Exp(w)
    ensures Shr(n, w) == 0
  {
    hide Shr;
    ShrIsDiv(n, w);
    SmallMod(n, Exp(w));
  }

  lemma {:induction false} ShrStart(t: Tnum)
    ensures Shr(t.val, 0) == t.val && Shr(t.mask, 0) == t.mask
  {
  }

  /** What the cut of the shift-and-add product holds. */
  lemma {:induction false} ShiftProductSound(s: Tnum, t: Tnum, w: nat, x: nat, y: nat)
    requires s.Inv() && t.Inv() && s.Has(x) && t.Has(y)
    ensures var r := ShiftProduct(s, t).Chopped(w); r.Inv() && Fits(r, w) && r.Has(Chop(Prod(x, y), w))
  {
    hide Map, Tnum.Has, ShiftAdd, Tnum.Chopped, Fits;
    ZeroHas(ZERO, 0);
    ShiftAddSound(t, s, ZERO, y, x, 0);
    ProdCommutes(x, y);
    ChoppedHas(ShiftProduct(s, t), w, Prod(x, y));
  }

  lemma ProdCommutes(x: nat, y: nat)
    ensures Prod(x, y) == Prod(y, x)
  {
  }

  lemma {:induction false} ShiftProductOfUnits(s: Tnum, t: Tnum, w: nat)
    requires s.mask == 0 && t.mask == 0
    ensures ShiftProduct(s, t).Chopped(w) == Unit(Chop(Prod(s.val, t.val), w))
  {
    hide ShiftAdd, Chop;
    assert s == Unit(s.val) && t == Unit(t.val);
    ShiftAddOfUnits(t.val, s.val, 0);
    ProdCommutes(s.val, t.val);
    ChopZero(w);
  }

  /**
    Shift-and-add multiplication of w-bit tnums: the product of the unbounded loop,
    cut to words.
   */
  method MulWord(s: Tnum, t: Tnum, w: nat) returns (acc: Tnum)
    requires s.Inv() && t.Inv() && Fits(s, w) && Fits(t, w)
    ensures acc == ShiftProduct(s, t).Chopped(w)
    ensures acc.Inv() && Fits(acc, w)
    ensures forall x: nat, y: nat :: s.Has(x) && t.Has(y) ==> acc.Has(Chop(Prod(x, y), w))
    ensures s.mask == 0 && t.mask == 0 ==> acc == Unit(Chop(Prod(s.val, t.val), w))
  {
    hide Map, Tnum.Has, Chop, ShiftAdd, ShiftProduct, AddWord, MulBit, ShlWord, Tnum.Inv, Tracks, Shr, Exp;
    hide Tnum.Chopped;
    acc := ZERO;
    var md, mr: nat, mm: nat, i := s, t.val, t.mask, 0;
    ghost var mdU, accU := s, ZERO;
    TracksStart(s, t, w);
    ShrStart(t);
    while i < w
      invariant 0 <= i <= w
      invariant mr == Shr(t.val, i) && mm == Shr(t.mask, i)
      invariant Tracks(Tnum(mr, mm), md, acc, mdU, accU, w, ShiftProduct(s, t))
    {
      TracksNext(Tnum(mr, mm), md, acc, mdU, accU, w, ShiftProduct(s, t));
      UnknownHead(Tnum(mr, mm), md);
      ShrNext(t.val, i);
      ShrNext(t.mask, i);
      accU := accU.Add(MulBit(mdU, Tnum(mr, mm).Head()));
      mdU := Shl(mdU);
      if Hd(mr) {
        acc := AddWord(acc, md, w);
      } else if Hd(mm) {
        acc := AddWord(acc, MulBit(md, TBit(false, true)), w);
      }
      md := ShlWord(md, w);
      mr, mm := Tl(mr), Tl(mm);
      i := i + 1;
    }
    ShrAll(t.val, w);
    ShrAll(t.mask, w);
    TracksEnd(Tnum(mr, mm), md, acc, mdU, accU, w, ShiftProduct(s, t));
    forall x: nat, y: nat | s.Has(x) && t.Has(y) ensures acc.Has(Chop(Prod(x, y), w)) {
      ShiftProductSound(s, t, w, x, y);
    }
    Bounds(s, 0);
    Bounds(t, 0);
    ShiftProductSound(s, t, w, s.Min(), t.Min());
    if s.mask == 0 && t.mask == 0 { ShiftProductOfUnits(s, t, w); }
  }

  lemma UnknownHead(rest: Tnum, md: Tnum)
    ensures Hd(rest.val) ==> MulBit(md, rest.Head()) == md
    ensures !Hd(rest.val) && Hd(rest.mask) ==> rest.Head() == TBit(false, true)
  {
  }

  lemma TracksEnd(rest: Tnum, md: Tnum, acc: Tnum, mdU: Tnum, accU: Tnum, w: nat, product: Tnum)
    requires Tracks(rest, md, acc, mdU, accU, w, product) && rest == ZERO
    ensures acc == product.Chopped(w)
  {
    ShiftAddDone(rest, mdU, accU);
  }
}
