/**
  How tight tnum division is: negation and subtraction are best abstractions, a
  step of long division is decided exactly when all members agree, and dividing by
  a power of two is exact when only the bits below it are unknown.
 */
module TnumQuotients {
  import opened Bitstrings
  import opened Tnums
  import opened TnumAddition
  import opened Anums
  import opened WordTnums
  import opened TnumProducts
  import opened TnumDivision

  // ----- negation and subtraction

  /** Flipping twice gives a member back. */
  lemma {:induction false} FlippedMember(t: Tnum, w: nat, x: nat)
    requires t.Inv() && Fits(t, w) && Ones(w) >= 0 && t.Xor(Unit(Ones(w))).Has(x)
    ensures t.Has(BwXor(x, Ones(w)))
  {
    hide Map, Tnum.Has, Bit, Exp;
    var ones: nat := Ones(w);
    var y := BwXor(x, ones);
    MapNeutral(t.mask);
    forall i: nat
      ensures t.At(i).Has(Bit(y, i))
    {
      HasAt(t.Xor(Unit(ones)), x, i);
      AtInv(t, i);
      MapBit(Xor, x, ones, i);
      MapBit(Xor, t.val, ones, i);
      MapBit(AndNot, BwXor(t.val, ones), t.mask, i);
    }
    HasFromBits(t, y);
  }

  lemma {:induction false} XorTwice(x: nat, k: nat)
    ensures BwXor(BwXor(x, k), k) == x
  {
    hide Map, Bit;
    forall i: nat
      ensures Bit(BwXor(BwXor(x, k), k), i) == Bit(x, i)
    {
      MapBit(Xor, x, k, i);
      MapBit(Xor, BwXor(x, k), k, i);
    }
    EqFromBits(BwXor(BwXor(x, k), k), x);
  }

  /** Negation of words is the best abstraction of the negations. */
  lemma {:induction false} NegBest(t: Tnum, w: nat, u: Tnum, n: nat)
    requires t.Inv() && Fits(t, w)
    requires forall y: nat :: t.Has(y) && y < Exp(w) ==> u.Has(Chop(Exp(w) - y, w))
    requires Neg(t, w).Has(n)
    ensures u.Has(n)
  {
    hide Map, Tnum.Has, Chop, Exp, Tnum.Add, Tnum.Xor;
    ExpPos(w);
    var ones: nat := Ones(w);
    var flipped := t.Xor(Unit(ones));
    Bounds(t, 0);
    UnitHas(ones);
    UnitHas(1);
    XorHas(t, Unit(ones), t.Min(), ones);
    forall x: nat, y: nat | flipped.Has(x) && Unit(1).Has(y) ensures u.Has(Chop(x + y, w)) {
      UnitOnly(1, y);
      FlippedMember(t, w, x);
      MemberFits(t, w, BwXor(x, ones));
      FlipIsComplement(BwXor(x, ones), w);
      XorTwice(x, ones);
    }
    ChoppedSumBest(flipped, Unit(1), w, u, n);
  }

  /** Subtraction is the best abstraction of adding members of the negation. */
  lemma {:induction false} SubBest(s: Tnum, t: Tnum, w: nat, u: Tnum, n: nat)
    requires s.Inv() && t.Inv()
    requires forall x: nat, z: nat :: s.Has(x) && Neg(t, w).Has(z) ==> u.Has(Chop(x + z, w))
    requires Sub(s, t, w).Has(n)
    ensures u.Has(n)
  {
    hide Map, Tnum.Has, Chop, Exp, Tnum.Add, Neg;
    Bounds(t, 0);
    NegSound(t, w, t.Min());
    ChoppedSumBest(s, Neg(t, w), w, u, n);
  }

  /** Subtracting a constant is the best abstraction of the wrapped differences. */
  lemma {:induction false} SubConstBest(s: Tnum, d: nat, w: nat, u: Tnum, n: nat)
    requires s.Inv() && d < Exp(w)
    requires forall x: nat :: s.Has(x) ==> u.Has(Chop(x + (Exp(w) - d), w))
    requires Sub(s, Unit(d), w).Has(n)
    ensures u.Has(n)
  {
    hide Map, Tnum.Has, Chop, Exp, Tnum.Add, Neg, Sub;
    UnitHas(d);
    var c := Chop(Exp(w) - d, w);
    NegSound(Unit(d), w, d);
    SubUnits(ZERO, Unit(d), w);
    OnlyMember(Neg(Unit(d), w), c);
    forall x: nat, z: nat | s.Has(x) && Neg(Unit(d), w).Has(z) ensures u.Has(Chop(x + z, w)) {
      UnitOnly(c, z);
      ChopRight(x, Exp(w) - d, w);
    }
    SubBest(s, Unit(d), w, u, n);
  }

  // ----- one step of long division

  /** A quotient bit is known exactly when every member of the remainder compares alike with every divisor. */
  lemma {:induction false} DivStep(n: Tnum, d: Tnum, w: nat, i: nat, q: Tnum, r: Tnum)
    requires n.Inv() && d.Inv() && r.Inv() && i > 0
    ensures var r1 := r.Push(n.At(i - 1));
            var sub := Sub(r1, d, w + 1);
            var result := DivLoop(n, d, w, i, q, r);
            if forall x: nat, y: nat :: r1.Has(x) && d.Has(y) ==> x >= y
            then result == DivLoop(n, d, w, i - 1, SetKnown(q, i - 1), sub)
            else if forall x: nat, y: nat :: r1.Has(x) && d.Has(y) ==> x < y
            then result == DivLoop(n, d, w, i - 1, q, r1)
            else result == DivLoop(n, d, w, i - 1, SetUnknown(q, i - 1), r1.Join(sub))
  {
    hide Map, Tnum.Has, Tnum.Max, Tnum.Inv, Sub, SetKnown, SetUnknown, Tnum.Join, Bit, Tnum.Push;
    var r1 := r.Push(n.At(i - 1));
    AtInv(n, i - 1);
    Bounds(r, 0);
    Bounds(n, 0);
    HasAt(n, n.Min(), i - 1);
    PushHas(r, n.At(i - 1), r.Min(), Bit(n.Min(), i - 1));
    Bounds(r1, 0);
    Bounds(d, 0);
    forall x: nat, y: nat | r1.Has(x) && d.Has(y)
      ensures r1.Min() <= x <= r1.Max() && d.Min() <= y <= d.Max()
    {
      Bounds(r1, x);
      Bounds(d, y);
    }
    assert r1.Has(r1.Min()) && r1.Has(r1.Max()) && d.Has(d.Min()) && d.Has(d.Max());
  }

  // ----- powers of two

  /** Bits i to i + k - 1. */
  function Window(t: Tnum, i: nat, k: nat): Tnum { Tnum(Chop(Shr(t.val, i), k), Chop(Shr(t.mask, i), k)) }

  lemma {:induction false} ShrHdTl(n: nat, i: nat)
    ensures Hd(Shr(n, i)) == Bit(n, i) && Tl(Shr(n, i)) == Shr(n, i + 1)
    decreases i
  {
    if i > 0 {
      ShrHdTl(Tl(n), i - 1);
    }
  }

  /** Pushing the next bit widens the window downwards. */
  lemma {:induction false} WindowPush(t: Tnum, i: nat, k: nat)
    ensures Window(t, i + 1, k).Push(t.At(i)) == Window(t, i, k + 1)
  {
    hide Shr, Chop, Bit;
    ShrHdTl(t.val, i);
    ShrHdTl(t.mask, i);
    ChopStep(Shr(t.val, i), k + 1);
    ChopStep(Shr(t.mask, i), k + 1);
  }

  lemma {:induction false} WindowTop(t: Tnum, i: nat, k: nat)
    ensures Window(t, i, k + 1).val == Window(t, i, k).val + Prod(N(Bit(t.val, i + k)), Exp(k))
    ensures Window(t, i, k + 1).mask == Window(t, i, k).mask + Prod(N(Bit(t.mask, i + k)), Exp(k))
  {
    hide Shr, Chop, Bit, Exp;
    ChopNext(Shr(t.val, i), k);
    ChopNext(Shr(t.mask, i), k);
    BitShr(t.val, i, k);
    BitShr(t.mask, i, k);
  }

  lemma {:induction false} WindowInv(t: Tnum, i: nat, k: nat)
    requires t.Inv()
    ensures Window(t, i, k).Inv() && Fits(Window(t, i, k), k)
  {
    hide Map, Shr, Chop, Bit, Exp;
    var v, m := Shr(t.val, i), Shr(t.mask, i);
    forall j: nat
      ensures !(Bit(Chop(v, k), j) && Bit(Chop(m, k), j))
    {
      ChopBit(v, k, j);
      ChopBit(m, k, j);
      BitShr(t.val, i, j);
      BitShr(t.mask, i, j);
      DisjointBit(t.val, t.mask, i + j);
    }
    DisjointFromBits(Chop(v, k), Chop(m, k));
    ChopBound(v, k);
    ChopBound(m, k);
  }

  /** A tnum below 2^k with bit k put on top. */
  function WithTop(t: Tnum, k: nat): Tnum { Tnum(t.val + Exp(k), t.mask) }

  lemma {:induction false} WithTopIsSum(t: Tnum, k: nat)
    requires t.Inv() && Fits(t, k)
    ensures t.Add(Unit(Exp(k))) == WithTop(t, k) && WithTop(t, k).Inv()
  {
    hide Map, Exp, Tnum.Add;
    MaxFits(t, k);
    UnitHas(Exp(k));
    MapNeutral(Exp(k));
    LowHighDisjoint(t.Max(), 1, k);
    DisjointAdd(t, Unit(Exp(k)));
    AddInv(t, Unit(Exp(k)));
  }

  lemma {:induction false} WithTopAt(t: Tnum, k: nat, i: nat)
    requires t.Inv() && Fits(t, k)
    ensures WithTop(t, k).At(i) == if i < k then t.At(i) else TBit(i == k, false)
    ensures i >= k ==> t.At(i) == KNOWN_ZERO
  {
    hide Map, Exp, Bit;
    ChopSmall(t.val, k);
    ChopSmall(t.mask, k);
    ChopBit(t.val, k, i);
    ChopBit(t.mask, k, i);
    LowHighDisjoint(t.val, 1, k);
    DisjointSum(t.val, Exp(k));
    MapBit(Or, t.val, Exp(k), i);
    BitExp(k, i);
  }

  /** Its members are the members below with 2^k added. */
  lemma {:induction false} WithTopMember(t: Tnum, k: nat, x: nat)
    requires t.Inv() && Fits(t, k) && WithTop(t, k).Has(x)
    ensures t.Has(Chop(x, k)) && x == Chop(x, k) + Exp(k)
  {
    hide Map, Exp, Bit, Tnum.Has, Chop, WithTop;
    var z := Chop(x, k);
    forall i: nat
      ensures t.At(i).Has(Bit(z, i)) && Bit(BwOr(z, Exp(k)), i) == Bit(x, i)
    {
      WithTopAt(t, k, i);
      HasAt(WithTop(t, k), x, i);
      ChopBit(x, k, i);
      MapBit(Or, z, Exp(k), i);
      BitExp(k, i);
    }
    HasFromBits(t, z);
    EqFromBits(BwOr(z, Exp(k)), x);
    ChopBound(x, k);
    LowHighDisjoint(z, 1, k);
    DisjointSum(z, Exp(k));
  }

  /** Subtracting 2^k takes the top bit off again. */
  lemma {:induction false} SubTopBit(t: Tnum, k: nat, w: nat)
    requires t.Inv() && Fits(t, k) && k < w
    ensures Sub(WithTop(t, k), Unit(Exp(k)), w) == t
  {
    hide Map, Exp, Bit, Tnum.Has, Chop, WithTop, Sub, Tnum.Add;
    var r := Sub(WithTop(t, k), Unit(Exp(k)), w);
    ExpPos(k);
    ExpStep(k);
    ExpMono(k + 1, w);
    WithTopIsSum(t, k);
    UnitHas(Exp(k));
    Bounds(WithTop(t, k), 0);
    SubSound(WithTop(t, k), Unit(Exp(k)), w, WithTop(t, k).Min(), Exp(k));
    forall x: nat | WithTop(t, k).Has(x) ensures t.Has(Chop(x + (Exp(w) - Exp(k)), w)) {
      WithTopMember(t, k, x);
      ChopBound(x, k);
      ChopOver(Chop(x, k), w);
    }
    forall n: nat ensures r.Has(n) <==> t.Has(n) {
      if r.Has(n) {
        SubConstBest(WithTop(t, k), Exp(k), w, t, n);
      }
      if t.Has(n) {
        MemberFits(t, k, n);
        AddSound(t, Unit(Exp(k)), n, Exp(k));
        SubSound(WithTop(t, k), Unit(Exp(k)), w, n + Exp(k), Exp(k));
      }
    }
    Extensional(r, t);
  }

  /** With no unknown bit from k on, every step is decided and the window moves down. */
  lemma {:induction false} PowerLoop(s: Tnum, k: nat, w: nat, i: nat, q: Tnum)
    requires s.Inv() && Shr(s.mask, k) == 0 && i <= w && q.mask == 0
    ensures var result := DivLoop(s, Unit(Exp(k)), w, i, q, Window(s.Chopped(w), i, k));
            result.0.mask == 0 && result.1 == Window(s.Chopped(w), 0, k)
    decreases i
  {
    hide Map, Exp, Bit, Tnum.Has, Chop, Shr, Window, Sub, SetKnown, SetUnknown, Tnum.Join, Tnum.Max, WithTop, Tnum.Push,
         Tnum.Chopped, Tnum.Inv;
    if i > 0 {
      var n, d := s.Chopped(w), Unit(Exp(k));
      var r1 := Window(n, i, k).Push(s.At(i - 1));
      NextWindow(s, k, w, i);
      UnitMax(Exp(k));
      if Bit(n.val, i - 1 + k) {
        SubTopBit(Window(n, i - 1, k), k, w + 1);
        SetKnownMask(q, i - 1);
        PowerLoop(s, k, w, i - 1, SetKnown(q, i - 1));
      } else {
        PowerLoop(s, k, w, i - 1, q);
      }
    }
  }

  lemma {:induction false} UnitMax(e: nat)
    ensures Unit(e).Max() == e == Unit(e).Min()
  {
    MapNeutral(e);
  }

  lemma SetKnownMask(q: Tnum, i: nat)
    ensures SetKnown(q, i).mask == q.mask
  {
  }

  /** The remainder with the next bit: either the top bit is set, or it lies below 2^k. */
  lemma {:induction false} NextWindow(s: Tnum, k: nat, w: nat, i: nat)
    requires s.Inv() && Shr(s.mask, k) == 0 && 0 < i <= w
    ensures var n := s.Chopped(w);
            var r1, low := Window(n, i, k).Push(s.At(i - 1)), Window(n, i - 1, k);
            && low.Inv() && Fits(low, k)
            && (Bit(n.val, i - 1 + k) ==> r1 == WithTop(low, k) && r1.Min() >= Exp(k) && k < w)
            && (!Bit(n.val, i - 1 + k) ==> r1 == low && r1.Max() < Exp(k) && r1.Min() < Exp(k))
  {
    hide Map, Exp, Bit, Tnum.Has, Chop, Shr, Window, Tnum.Push;
    var n := s.Chopped(w);
    var low := Window(n, i - 1, k);
    Bounds(s, 0);
    ChoppedHas(s, w, s.Min());
    ChopBit(s.val, w, i - 1);
    ChopBit(s.mask, w, i - 1);
    assert s.At(i - 1) == n.At(i - 1);
    WindowPush(n, i - 1, k);
    WindowTop(n, i - 1, k);
    WindowInv(n, i - 1, k);
    MaxFits(low, k);
    HighMaskClear(s.mask, k, i - 1 + k);
    ChopBit(s.mask, w, i - 1 + k);
    ChopBit(s.val, w, i - 1 + k);
    UnitProd(Exp(k));
  }

  lemma UnitProd(e: nat)
    ensures Prod(N(true), e) == e && Prod(N(false), e) == 0
  {
  }

  lemma {:induction false} HighMaskClear(m: nat, k: nat, j: nat)
    requires Shr(m, k) == 0 && j >= k
    ensures !Bit(m, j)
  {
    hide Shr, Bit;
    BitShr(m, k, j - k);
    BitZero(j - k);
  }

  lemma {:induction false} WindowEnds(n: Tnum, w: nat, k: nat)
    requires Fits(n, w)
    ensures Window(n, w, k) == ZERO && Window(n, 0, k) == n.Chopped(k)
  {
    hide Chop, Exp;
    ShrAll(n.val, w);
    ShrAll(n.mask, w);
    ChopZero(k);
    ShrStart(n);
  }

  /** Dividing by 2^k is exact when only the low k bits are unknown. */
  lemma {:induction false} DivByPower(s: Tnum, k: nat, w: nat)
    requires s.Inv() && Shr(s.mask, k) == 0
    ensures Div(s, Unit(Exp(k)), w) == (Unit(Shr(Chop(s.val, w), k)), s.Chopped(w).Chopped(k))
  {
    hide Map, Exp, Tnum.Has, Chop, Shr, DivLoop, Window;
    var n := s.Chopped(w);
    Bounds(s, 0);
    ChoppedHas(s, w, s.Min());
    WindowEnds(n, w, k);
    PowerLoop(s, k, w, w, ZERO);
    ExpPos(k);
    UnitHas(Exp(k));
    DivSound(s, Unit(Exp(k)), w, s.Min(), Exp(k));
    ShrIsDiv(Chop(s.val, w), k);
    OnlyMember(Div(s, Unit(Exp(k)), w).0, Shr(Chop(s.val, w), k));
  }
}
