/**
  How tight tnum multiplication is: the partial products are best abstractions,
  powers of two multiply exactly, and low zero bits add up.
 */
module TnumProducts {
  import opened DivModFacts
  import opened Bitstrings
  import opened Tnums
  import opened TnumAddition
  import opened Anums
  import opened WordTnums

  // ----- partial products

  /** The product with one tristate bit is the best abstraction of the products. */
  lemma {:induction false} MulBitBest(t: Tnum, b: TBit, u: Tnum, n: nat)
    requires t.Inv() && b.Inv()
    requires forall x: nat, y :: t.Has(x) && b.Has(y) ==> u.Has(if y then x else 0)
    requires MulBit(t, b).Has(n)
    ensures u.Has(n)
  {
    hide Map, Tnum.Has;
    if b.val {
      assert b.Has(true);
    } else {
      Bounds(t, 0);
      assert b.Has(false) && u.Has(0);
      if b.mask {
        assert b.Has(true) && u.Has(t.Max());
        BelowMax(t.Max(), u, n);
      } else {
        ZeroHas(ZERO, n);
      }
    }
  }

  /** A tnum that holds 0 and k holds every number made of bits of k. */
  lemma {:induction false} BelowMax(k: nat, u: Tnum, n: nat)
    requires u.Has(0) && u.Has(k) && Tnum(0, k).Has(n)
    ensures u.Has(n)
  {
    hide Map, Tnum.Has, Bit;
    forall i: nat
      ensures u.At(i).Has(Bit(n, i))
    {
      HasAt(u, 0, i);
      HasAt(u, k, i);
      HasAt(Tnum(0, k), n, i);
      BitZero(i);
    }
    HasFromBits(u, n);
  }

  // ----- sums without common bits

  /** Tnums with no common possible bit add bit by bit. */
  lemma {:induction false} DisjointAdd(s: Tnum, t: Tnum)
    requires s.Inv() && t.Inv() && Disjoint(s.Max(), t.Max())
    ensures s.Add(t) == Tnum(s.val + t.val, s.mask + t.mask)
  {
    hide Map, Bit;
    var v, m := BwOr(s.val, t.val), BwOr(s.mask, t.mask);
    forall i: nat
      ensures !(Bit(s.val, i) && Bit(t.val, i)) && !(Bit(s.mask, i) && Bit(t.mask, i)) && !(Bit(v, i) && Bit(m, i))
      ensures Bit(m, i) == (Bit(s.mask, i) || Bit(t.mask, i)) && Bit(v, i) == (Bit(s.val, i) || Bit(t.val, i))
    {
      DisjointBit(s.Max(), t.Max(), i);
      AtInv(s, i);
      AtInv(t, i);
      MapBit(Or, s.val, s.mask, i);
      MapBit(Or, t.val, t.mask, i);
      MapBit(Or, s.val, t.val, i);
      MapBit(Or, s.mask, t.mask, i);
    }
    DisjointFromBits(s.val, t.val);
    DisjointFromBits(s.mask, t.mask);
    DisjointFromBits(v, m);
    DisjointSum(s.val, t.val);
    DisjointSum(s.mask, t.mask);
    DisjointSum(v, m);
    DisjointFormula(s, t, v, m);
  }

  lemma {:induction false} DisjointFormula(s: Tnum, t: Tnum, v: nat, m: nat)
    requires v == s.val + t.val && m == s.mask + t.mask && v + m == BwOr(v, m)
    requires forall i: nat :: !(Bit(v, i) && Bit(m, i))
    requires forall i: nat :: Bit(m, i) == (Bit(s.mask, i) || Bit(t.mask, i))
    ensures s.Add(t) == Tnum(v, m)
  {
    hide Map, Bit;
    var x := BwXor(v + m, v);
    var mask := BwOr(BwOr(x, s.mask), t.mask);
    forall i: nat
      ensures Bit(mask, i) == Bit(m, i)
    {
      MapBit(Or, v, m, i);
      MapBit(Xor, v + m, v, i);
      MapBit(Or, x, s.mask, i);
      MapBit(Or, BwOr(x, s.mask), t.mask, i);
    }
    EqFromBits(mask, m);
    forall i: nat
      ensures Bit(BwAndNot(v, m), i) == Bit(v, i)
    {
      MapBit(AndNot, v, m, i);
    }
    EqFromBits(BwAndNot(v, m), v);
  }

  // ----- shifting

  /** Both parts times 2^k. */
  function ShlBy(t: Tnum, k: nat): Tnum { Tnum(Prod(t.val, Exp(k)), Prod(t.mask, Exp(k))) }

  lemma {:induction false} ShlByStep(t: Tnum, k: nat)
    ensures ShlBy(t, k + 1) == ShlBy(Shl(t), k)
  {
    hide Exp;
    ExpStep(k);
    DoubleProduct(t.val, Exp(k));
    DoubleProduct(t.mask, Exp(k));
  }

  lemma {:induction false} ShlByZero(t: Tnum, k: nat)
    requires k == 0
    ensures ShlBy(t, k) == t
  {
  }

  lemma {:induction false} ShlByInv(t: Tnum, k: nat)
    requires t.Inv()
    ensures ShlBy(t, k).Inv()
    decreases k
  {
    hide Map, ShlBy;
    if k == 0 {
      ShlByZero(t, k);
    } else {
      ShlByStep(t, k - 1);
      InvStep(Shl(t));
      ShlTail(t);
      ShlByInv(Shl(t), k - 1);
    }
  }

  lemma ShlTail(t: Tnum)
    ensures Shl(t).Tail() == t && Shl(t).Head() == KNOWN_ZERO
  {
  }

  /** Numbers below 2^k and multiples of 2^k have no common bit. */
  lemma {:induction false} LowHighDisjoint(a: nat, b: nat, k: nat)
    requires a < Exp(k)
    ensures Disjoint(a, Prod(b, Exp(k)))
    decreases k
  {
    hide Map;
    if k == 0 {
      MapNeutralAnd(b);
    } else {
      ExpStep(k - 1);
      DoubleProduct(b, Exp(k - 1));
      assert Prod(b, Exp(k)) == 2 * Prod(b, Exp(k - 1));
      DisjointHdTl(a, Prod(b, Exp(k)));
      LowHighDisjoint(Tl(a), b, k - 1);
    }
  }

  lemma {:induction false} MapNeutralAnd(b: nat)
    ensures Disjoint(0, Prod(b, Exp(0)))
  {
    hide Map;
    forall i: nat ensures !Bit(0, i) { BitZero(i); }
    DisjointFromBits(0, Prod(b, Exp(0)));
  }

  // ----- powers of two

  lemma {:induction false} MaxOfParts(t: Tnum)
    requires t.Inv()
    ensures t.Max() == t.val + t.mask
  {
    DisjointSum(t.val, t.mask);
  }

  /** The partial product of a power of two. */
  lemma {:induction false} MulBitOfPower(k: nat, b: TBit)
    requires b.Inv()
    ensures MulBit(Unit(Exp(k)), b) == ShlBy(Tnum(N(b.val), N(b.mask)), k)
  {
    hide Map, Exp;
    MapNeutral(Exp(k));
  }

  lemma {:induction false} SplitLowBit(t: Tnum, k: nat)
    ensures ShlBy(t, k).val == ShlBy(Tnum(N(t.Head().val), N(t.Head().mask)), k).val + ShlBy(t.Tail(), k + 1).val
    ensures ShlBy(t, k).mask == ShlBy(Tnum(N(t.Head().val), N(t.Head().mask)), k).mask + ShlBy(t.Tail(), k + 1).mask
  {
    hide Exp;
    ExpStep(k);
    ProdStep(t.val, Exp(k));
    ProdStep(t.mask, Exp(k));
  }

  /** One step with a power of two fills the next bits of the accumulator. */
  lemma {:induction false} PowerStep(acc: Tnum, b: TBit, k: nat)
    requires acc.Inv() && b.Inv() && acc.val + acc.mask < Exp(k)
    ensures var next := acc.Add(MulBit(Unit(Exp(k)), b));
            var add := ShlBy(Tnum(N(b.val), N(b.mask)), k);
            && next == Tnum(acc.val + add.val, acc.mask + add.mask)
            && next.Inv() && next.val + next.mask < Exp(k + 1)
  {
    hide Map, Exp, Tnum.Add;
    var bit := Tnum(N(b.val), N(b.mask));
    var add := ShlBy(bit, k);
    ExpPos(k);
    ExpStep(k);
    MulBitOfPower(k, b);
    BitInv(b);
    ShlByInv(bit, k);
    MaxOfParts(acc);
    MaxOfParts(add);
    LowHighDisjoint(acc.Max(), N(b.val) + N(b.mask), k);
    assert add.Max() == Prod(N(b.val) + N(b.mask), Exp(k));
    DisjointAdd(acc, add);
    AddInv(acc, add);
  }

  lemma {:induction false} BitInv(b: TBit)
    requires b.Inv()
    ensures Tnum(N(b.val), N(b.mask)).Inv()
  {
    SmallMaps();
  }

  lemma {:induction false} ShiftAddByPower(p: Tnum, k: nat, acc: Tnum)
    requires p.Inv() && acc.Inv() && acc.val + acc.mask < Exp(k)
    ensures ShiftAdd(p, Unit(Exp(k)), acc) == Tnum(acc.val + ShlBy(p, k).val, acc.mask + ShlBy(p, k).mask)
    decreases p.val + p.mask
  {
    hide Map, Exp, Tnum.Add, ShlBy, MulBit;
    if p == ZERO {
      ShlByOfZero(p, k);
    } else {
      InvStep(p);
      PowerStep(acc, p.Head(), k);
      ExpStep(k);
      SplitLowBit(p, k);
      ShiftAddByPower(p.Tail(), k + 1, acc.Add(MulBit(Unit(Exp(k)), p.Head())));
    }
  }

  lemma ShlByOfZero(p: Tnum, k: nat)
    requires p == ZERO
    ensures ShlBy(p, k) == ZERO
  {
  }

  /** The word loop, before it is cut to words, is exact for a constant power of two on either side. */
  lemma {:induction false} ShiftProductByPower(t: Tnum, k: nat)
    requires t.Inv()
    ensures ShiftProduct(Unit(Exp(k)), t) == ShlBy(t, k)
    ensures ShiftProduct(t, Unit(Exp(k))) == ShlBy(t, k)
  {
    hide Map, Exp, Tnum.Add, ShlBy, ShiftAdd;
    ZeroInv();
    ExpPos(k);
    ShiftAddByPower(t, k, ZERO);
    ShiftAddPowerFirst(t, k);
  }

  lemma {:induction false} ZeroInv()
    ensures ZERO.Inv()
  {
    ZeroHas(ZERO, 0);
  }

  lemma {:induction false} ShiftAddPowerFirst(q: Tnum, k: nat)
    requires q.Inv()
    ensures ShiftAdd(Unit(Exp(k)), q, ZERO) == ShlBy(q, k)
    decreases k
  {
    hide Map, Tnum.Add, ShlBy, ShiftAdd, Exp;
    ZeroInv();
    ShiftAddStep(Unit(Exp(k)), q, ZERO);
    PowerHeadTail(k);
    if k == 0 {
      ShlByZero(q, k);
      ZeroPlus(q);
      ShiftAddDone(ZERO, Shl(q), q);
    } else {
      AddZero(ZERO);
      InvStep(Shl(q));
      ShlTail(q);
      ShiftAddPowerFirst(Shl(q), k - 1);
      ShlByStep(q, k - 1);
    }
  }

  lemma {:induction false} PowerHeadTail(k: nat)
    ensures Unit(Exp(k)).Head() == TBit(k == 0, false)
    ensures Unit(Exp(k)).Tail() == if k == 0 then ZERO else Unit(Exp(k - 1))
  {
  }

  lemma {:induction false} ZeroPlus(q: Tnum)
    requires q.Inv()
    ensures ZERO.Add(q) == q
  {
    hide Map, Tnum.Add;
    ZeroInv();
    forall i: nat ensures !Bit(ZERO.Max(), i) { MapBit(Or, 0, 0, i); BitZero(i); }
    DisjointFromBits(ZERO.Max(), q.Max());
    DisjointAdd(ZERO, q);
  }

  // ----- the same for the product with an additive accumulator

  /** The anum loop ends where the tnum loop ends, one conversion earlier, and its base is exact. */
  lemma {:induction false} MulStepOfAnum(p: Tnum, q: Tnum, a: Anum)
    ensures MulStepAnum(p, q, a).ToTnum() == MulStep(p, q, a)
    ensures MulStepAnum(p, q, a).base == a.base + Prod(p.val, q.val)
    decreases p.val + p.mask
  {
    hide Tnum.Add, Map;
    if p != ZERO {
      var b := p.Head();
      MulStepOfAnum(p.Tail(), Shl(q), a.Add(Anum.FromTnum(MulBit(q, b))));
      ProdStep(p.val, q.val);
    }
  }

  lemma {:induction false} AnumPowerStep(a: Anum, b: TBit, k: nat)
    requires b.Inv() && a.span < Exp(k)
    ensures var add := ShlBy(Tnum(N(b.val), N(b.mask)), k);
            var next := a.Add(Anum.FromTnum(MulBit(Unit(Exp(k)), b)));
            next == Anum(a.base + add.val, a.span + add.mask) && next.span < Exp(k + 1)
  {
    hide Map, Exp, Tnum.Add;
    var add := ShlBy(Tnum(N(b.val), N(b.mask)), k);
    MulBitOfPower(k, b);
    ExpStep(k);
    FreeInv(a.span);
    FreeInv(add.mask);
    MaxOfParts(Tnum(0, a.span));
    MaxOfParts(Tnum(0, add.mask));
    LowHighDisjoint(a.span, N(b.mask), k);
    DisjointAdd(Tnum(0, a.span), Tnum(0, add.mask));
  }

  lemma {:induction false} MulStepByPower(p: Tnum, k: nat, a: Anum)
    requires p.Inv() && a.span < Exp(k)
    ensures MulStep(p, Unit(Exp(k)), a) == Anum(a.base + ShlBy(p, k).val, a.span + ShlBy(p, k).mask).ToTnum()
    decreases p.val + p.mask
  {
    hide Map, Exp, Tnum.Add, ShlBy, MulBit, Anum.Add, Anum.ToTnum;
    if p == ZERO {
      ShlByOfZero(p, k);
    } else {
      InvStep(p);
      AnumPowerStep(a, p.Head(), k);
      ExpStep(k);
      SplitLowBit(p, k);
      MulStepByPower(p.Tail(), k + 1, a.Add(Anum.FromTnum(MulBit(Unit(Exp(k)), p.Head()))));
    }
  }

  /** Multiplying by a power of two shifts. */
  lemma {:induction false} MulByPower(s: Tnum, k: nat)
    requires s.Inv()
    ensures Mul(s, Unit(Exp(k))) == Tnum(Prod(s.val, Exp(k)), Prod(s.mask, Exp(k)))
  {
    hide Map, Exp, Tnum.Add, MulStep;
    ExpPos(k);
    MulStepByPower(s, k, ZERO_ANUM);
    var r := ShlBy(s, k);
    ShlByInv(s, k);
    FreeThenBase(r);
  }

  lemma {:induction false} FreeThenBase(r: Tnum)
    requires r.Inv()
    ensures Anum(r.val, r.mask).ToTnum() == r
  {
    hide Map, Tnum.Add;
    FreeInv(r.mask);
    UnitHas(r.val);
    MaxOfParts(Tnum(0, r.mask));
    MaxOfParts(Unit(r.val));
    DisjointSwap(r.val, r.mask);
    DisjointAdd(Tnum(0, r.mask), Unit(r.val));
  }

  lemma {:induction false} DisjointSwap(a: nat, b: nat)
    requires Disjoint(a, b)
    ensures Disjoint(b, a)
  {
    hide Map;
    forall i: nat ensures !(Bit(b, i) && Bit(a, i)) { DisjointBit(a, b, i); }
    DisjointFromBits(b, a);
  }

  // ----- low zero bits

  /** No member of t has a bit below k. */
  predicate LowClear(t: Tnum, k: nat) { Chop(t.val, k) == 0 && Chop(t.mask, k) == 0 }

  lemma {:induction false} LowClearMax(t: Tnum, k: nat)
    ensures LowClear(t, k) <==> Chop(t.Max(), k) == 0
  {
    hide Map, Chop, Bit;
    ChopMap(Or, t.val, t.mask, k);
    var a, b := Chop(t.val, k), Chop(t.mask, k);
    MapNeutral(0);
    if BwOr(a, b) == 0 {
      forall i: nat ensures Bit(a, i) == Bit(0, i) && Bit(b, i) == Bit(0, i) { MapBit(Or, a, b, i); BitZero(i); }
      EqFromBits(a, 0);
      EqFromBits(b, 0);
    }
  }

  lemma {:induction false} LowClearAdd(s: Tnum, t: Tnum, k: nat)
    requires LowClear(s, k) && LowClear(t, k)
    ensures LowClear(s.Add(t), k)
  {
    hide Map, Chop;
    var v, m := s.val + t.val, s.mask + t.mask;
    ChopSum(s.val, t.val, k);
    ChopSum(s.mask, t.mask, k);
    ChopSum(v, m, k);
    ChopZero(k);
    var x := BwXor(v + m, v);
    ChopMap(Xor, v + m, v, k);
    ChopMap(Or, x, s.mask, k);
    ChopMap(Or, BwOr(x, s.mask), t.mask, k);
    ChopMap(AndNot, v, BwOr(BwOr(x, s.mask), t.mask), k);
    MapNeutral(0);
  }

  lemma {:induction false} LowClearShl(t: Tnum, k: nat)
    requires LowClear(t, k)
    ensures LowClear(Shl(t), k + 1) && LowClear(Shl(t), k)
  {
    hide Chop;
    ChopStep(2 * t.val, k + 1);
    ChopStep(2 * t.mask, k + 1);
    ChopSum(t.val, t.val, k);
    ChopSum(t.mask, t.mask, k);
    ChopZero(k);
  }

  lemma {:induction false} LowClearTail(t: Tnum, k: nat)
    requires k > 0 && LowClear(t, k)
    ensures t.Head() == KNOWN_ZERO && LowClear(t.Tail(), k - 1)
  {
    hide Chop;
    ChopStep(t.val, k);
    ChopStep(t.mask, k);
  }

  lemma {:induction false} LowClearMulBit(q: Tnum, b: TBit, k: nat)
    requires LowClear(q, k)
    ensures LowClear(MulBit(q, b), k)
  {
    hide Chop, Map;
    LowClearMax(q, k);
    ChopZero(k);
  }

  lemma {:induction false} ZeroLow(k: nat)
    ensures LowClear(ZERO, k)
  {
    ChopZero(k);
  }

  /** With i low zero bits left in p and j in q, a product step keeps i + j low zero bits. */
  lemma {:induction false} LowClearStep(p: Tnum, q: Tnum, i: nat, j: nat)
    requires LowClear(p, i) && LowClear(q, j)
    ensures LowClear(MulBit(q, p.Head()), i + j)
    ensures if i > 0 then LowClear(p.Tail(), i - 1) && LowClear(Shl(q), j + 1) else LowClear(Shl(q), j)
  {
    hide LowClear;
    LowClearShl(q, j);
    LowClearMulBit(q, p.Head(), j);
    if i > 0 {
      LowClearTail(p, i);
      ZeroLow(i + j);
    }
  }

  lemma {:induction false} MulStepLow(p: Tnum, q: Tnum, a: Anum, i: nat, j: nat)
    requires LowClear(p, i) && LowClear(q, j) && LowClear(Tnum(a.base, a.span), i + j)
    ensures LowClear(MulStep(p, q, a), i + j)
    decreases p.val + p.mask
  {
    hide Tnum.Add, Map, MulBit, Chop;
    ChopZero(i + j);
    if p == ZERO {
      LowClearAdd(Tnum(0, a.span), Unit(a.base), i + j);
    } else {
      LowClearStep(p, q, i, j);
      var r := MulBit(q, p.Head());
      var next := a.Add(Anum.FromTnum(r));
      ChopSum(a.base, r.val, i + j);
      LowClearAdd(Tnum(0, a.span), Tnum(0, r.mask), i + j);
      NoLowBits(p.Tail());
      if i > 0 {
        MulStepLow(p.Tail(), Shl(q), next, i - 1, j + 1);
      } else {
        MulStepLow(p.Tail(), Shl(q), next, 0, j);
      }
    }
  }

  lemma NoLowBits(t: Tnum)
    ensures LowClear(t, 0)
  {
  }

  lemma {:induction false} ShiftAddLow(p: Tnum, q: Tnum, acc: Tnum, i: nat, j: nat)
    requires LowClear(p, i) && LowClear(q, j) && LowClear(acc, i + j)
    ensures LowClear(ShiftAdd(p, q, acc), i + j)
    decreases p.val + p.mask
  {
    hide Tnum.Add, Map, MulBit, Chop, LowClear;
    if p != ZERO {
      LowClearStep(p, q, i, j);
      var next := acc.Add(MulBit(q, p.Head()));
      LowClearAdd(acc, MulBit(q, p.Head()), i + j);
      NoLowBits(p.Tail());
      if i > 0 {
        ShiftAddLow(p.Tail(), Shl(q), next, i - 1, j + 1);
      } else {
        ShiftAddLow(p.Tail(), Shl(q), next, 0, j);
      }
    }
  }

  /** Low zero bits of the factors add up in the product. */
  lemma {:induction false} MulLowZeros(s: Tnum, t: Tnum, i: nat, j: nat)
    requires Chop(s.Max(), i) == 0 && Chop(t.Max(), j) == 0
    ensures Chop(Mul(s, t).Max(), i + j) == 0
    ensures Chop(ShiftProduct(s, t).Max(), i + j) == 0
  {
    hide Tnum.Max, MulStep, ShiftAdd, LowClear;
    LowClearMax(s, i);
    LowClearMax(t, j);
    ZeroLow(i + j);
    MulStepLow(s, t, ZERO_ANUM, i, j);
    ShiftAddLow(t, s, ZERO, j, i);
    LowClearMax(Mul(s, t), i + j);
    LowClearMax(ShiftProduct(s, t), i + j);
  }

  // ----- words

  /** On words a constant power of two on either side shifts and cuts. */
  lemma {:induction false} WordByPower(t: Tnum, k: nat, w: nat)
    requires t.Inv()
    ensures var r := Tnum(Chop(Prod(t.val, Exp(k)), w), Chop(Prod(t.mask, Exp(k)), w));
            ShiftProduct(Unit(Exp(k)), t).Chopped(w) == r && ShiftProduct(t, Unit(Exp(k))).Chopped(w) == r
  {
    hide ShiftAdd, ShiftProduct, Chop, Exp;
    ShiftProductByPower(t, k);
  }

  lemma {:induction false} LowStaysClear(n: nat, w: nat, k: nat)
    requires Chop(n, k) == 0
    ensures Chop(Chop(n, w), k) == 0
  {
    hide Chop, Bit;
    forall i: nat ensures Bit(Chop(Chop(n, w), k), i) == Bit(0, i) {
      ChopBit(Chop(n, w), k, i);
      ChopBit(n, w, i);
      ChopBit(n, k, i);
      BitZero(i);
    }
    EqFromBits(Chop(Chop(n, w), k), 0);
  }

  lemma {:induction false} LowClearChopped(t: Tnum, w: nat, k: nat)
    requires Chop(t.Max(), k) == 0
    ensures Chop(t.Chopped(w).Max(), k) == 0
  {
    hide Tnum.Max, Chop;
    LowClearMax(t, k);
    LowStaysClear(t.val, w, k);
    LowStaysClear(t.mask, w, k);
    LowClearMax(t.Chopped(w), k);
  }

  /** Low zero bits add up on words too. */
  lemma {:induction false} WordLowZeros(s: Tnum, t: Tnum, w: nat, i: nat, j: nat)
    requires Chop(s.Max(), i) == 0 && Chop(t.Max(), j) == 0
    ensures Chop(ShiftProduct(s, t).Chopped(w).Max(), i + j) == 0
  {
    hide Tnum.Max, Tnum.Chopped, ShiftProduct, ShiftAdd, Mul, MulStep, Chop;
    MulLowZeros(s, t, i, j);
    LowClearChopped(ShiftProduct(s, t), w, i + j);
  }

  // ----- conversions

  /** The tnum of an anum is the best abstraction of its members. */
  lemma {:induction false} ToTnumBest(a: Anum, u: Tnum, n: nat)
    requires forall x: nat :: a.Has(x) ==> u.Has(x)
    requires a.ToTnum().Has(n)
    ensures u.Has(n)
  {
    hide Tnum.Add, Map, Tnum.Has;
    FreeInv(a.span);
    UnitHas(a.base);
    forall x: nat, y: nat | a.Free().Has(x) && Unit(a.base).Has(y) ensures u.Has(x + y) {
      UnitOnly(a.base, y);
      assert a.Has(a.base + x);
    }
    AddBest(a.Free(), Unit(a.base), u, n);
  }

  lemma {:induction false} UnitOnly(n: nat, y: nat)
    requires Unit(n).Has(y)
    ensures y == n
  {
    hide Map, Tnum.Has;
    HasIsBroadword(Unit(n), y);
    MapNeutral(y);
  }
}
