/**
  Additive tristate numbers, a base plus free bits, and tnum multiplication by
  shift and add with an additive accumulator.
 */
module Anums {
  import opened Bitstrings
  import opened Tnums
  import opened TnumAddition

  datatype Anum = Anum(base: nat, span: nat) {
    function Free(): Tnum { Tnum(0, span) }

    predicate Has(x: nat) { base <= x && Free().Has(x - base) }

    function Add(a: Anum): Anum { Anum(base + a.base, Free().Add(a.Free()).mask) }

    function ToTnum(): Tnum { Free().Add(Unit(base)) }

    static function FromTnum(t: Tnum): Anum { Anum(t.val, t.mask) }
  }

  const ZERO_ANUM := Anum(0, 0)

  function Shl(t: Tnum): Tnum { Tnum(2 * t.val, 2 * t.mask) }

  /** A tnum times one tristate bit. */
  function MulBit(t: Tnum, b: TBit): Tnum {
    if b.val then t else if b.mask then Tnum(0, t.Max()) else ZERO
  }

  function MulStep(p: Tnum, q: Tnum, a: Anum): Tnum
    decreases p.val + p.mask
  {
    if p == ZERO then a.ToTnum()
    else MulStep(p.Tail(), Shl(q), a.Add(Anum.FromTnum(MulBit(q, p.Head()))))
  }

  function Mul(s: Tnum, t: Tnum): Tnum { MulStep(s, t, ZERO_ANUM) }

  /** The loop that keeps the known product aside and accumulates only masks. */
  function HoistedStep(p: Tnum, q: Tnum, known: Tnum, free: Tnum): Tnum
    decreases p.val + p.mask
  {
    if p == ZERO then free.Add(known)
    else if p.Head().val then HoistedStep(p.Tail(), Shl(q), known, free.Add(Tnum(0, q.mask)))
    else if p.Head().mask then HoistedStep(p.Tail(), Shl(q), known, free.Add(Tnum(0, q.Max())))
    else HoistedStep(p.Tail(), Shl(q), known, free)
  }

  function MulHoisted(s: Tnum, t: Tnum): Tnum { HoistedStep(s, t, Unit(Prod(s.val, t.val)), ZERO) }

  /** Returns an anum, so that the base stays exact. */
  function MulStepAnum(p: Tnum, q: Tnum, a: Anum): Anum
    decreases p.val + p.mask
  {
    if p == ZERO then a
    else MulStepAnum(p.Tail(), Shl(q), a.Add(Anum.FromTnum(MulBit(q, p.Head()))))
  }

  // ----- anums

  lemma {:induction false} FreeInv(m: nat)
    ensures Tnum(0, m).Inv() && Tnum(0, m).Has(0)
  {
    forall i: nat
      ensures !(Bit(0, i) && Bit(m, i))
    {
      BitZero(i);
    }
    DisjointFromBits(0, m);
    Bounds(Tnum(0, m), 0);
  }

  lemma {:induction false} FreeAdd(m: nat, k: nat)
    ensures Tnum(0, m).Add(Tnum(0, k)).Inv()
    ensures Tnum(0, m).Add(Tnum(0, k)).val == 0
  {
    hide Tnum.Add, Tnum.Has, Map;
    FreeInv(m);
    FreeInv(k);
    AddSound(Tnum(0, m), Tnum(0, k), 0, 0);
    Bounds(Tnum(0, m).Add(Tnum(0, k)), 0);
  }

  lemma {:induction false} AnumAddSound(a: Anum, b: Anum, x: nat, y: nat)
    requires a.Has(x) && b.Has(y)
    ensures a.Add(b).Has(x + y)
  {
    hide Tnum.Add, Tnum.Has, Map;
    FreeInv(a.span);
    FreeInv(b.span);
    AddSound(a.Free(), b.Free(), x - a.base, y - b.base);
    FreeAdd(a.span, b.span);
    assert a.Add(b).Free() == a.Free().Add(b.Free());
  }

  /** No anum with the same base that holds every sum leaves out a member of the sum. */
  lemma {:induction false} AnumAddLeast(a: Anum, b: Anum, c: Anum, n: nat)
    requires c.base == a.base + b.base && a.Add(b).Has(n)
    requires forall x: nat, y: nat | a.Has(x) && b.Has(y) :: c.Has(x + y)
    ensures c.Has(n)
  {
    hide Tnum.Add, Tnum.Has, Map;
    FreeInv(a.span);
    FreeInv(b.span);
    FreeAdd(a.span, b.span);
    assert a.Add(b).Free() == a.Free().Add(b.Free());
    forall x: nat, y: nat | a.Free().Has(x) && b.Free().Has(y) ensures c.Free().Has(x + y) {
      assert a.Has(a.base + x) && b.Has(b.base + y);
      assert c.Has(a.base + x + (b.base + y));
    }
    AddBest(a.Free(), b.Free(), c.Free(), n - c.base);
  }

  /** Adding zero changes nothing, because the sum is the best abstraction. */
  lemma {:induction false} AddZero(t: Tnum)
    requires t.Inv()
    ensures t.Add(ZERO) == t
  {
    hide Tnum.Add, Tnum.Has, Map;
    var r := t.Add(ZERO);
    UnitHas(0);
    AddInv(t, ZERO);
    forall n: nat
      ensures r.Has(n) <==> t.Has(n)
    {
      if t.Has(n) {
        AddSound(t, ZERO, n, 0);
      }
      if r.Has(n) {
        forall x: nat, y: nat | t.Has(x) && ZERO.Has(y)
          ensures t.Has(x + y)
        {
          ZeroHas(ZERO, y);
        }
        AddBest(t, ZERO, t, n);
      }
    }
    Extensional(r, t);
  }

  /** A well-formed tnum and its anum have the same members. */
  lemma {:induction false} FromTnumExact(t: Tnum, n: nat)
    requires t.Inv()
    ensures t.Has(n) <==> Anum.FromTnum(t).Has(n)
    decreases t.val + t.mask + n
  {
    hide Map, Tnum.Has, Anum.Has, Hd, Tl;
    if t.val == 0 && t.mask == 0 && n == 0 {
      ZeroIsFree(t, n);
    } else {
      InvStep(t);
      HasStep(t, n);
      FromTnumStep(t, n);
      TailsSmaller(t.val, t.mask, n);
      FromTnumExact(t.Tail(), Tl(n));
    }
  }

  lemma {:induction false} ZeroIsFree(t: Tnum, n: nat)
    requires t == ZERO && n == 0
    ensures t.Has(n) && Anum.FromTnum(t).Has(n)
  {
    ZeroHas(t, n);
  }

  lemma TailsSmaller(a: nat, b: nat, c: nat)
    requires a > 0 || b > 0 || c > 0
    ensures Tl(a) + Tl(b) + Tl(c) < a + b + c
  {
  }

  /** Membership in the anum of a tnum, one bit at a time. */
  lemma {:induction false} FromTnumStep(t: Tnum, n: nat)
    requires t.Inv()
    ensures Anum.FromTnum(t).Has(n) <==> t.Head().Has(Hd(n)) && Anum.FromTnum(t.Tail()).Has(Tl(n))
  {
    hide Map, Tnum.Has, Hd, Tl;
    InvStep(t);
    if t.val <= n {
      HasStep(Tnum(0, t.mask), n - t.val);
      SubHdTl(n, t.val);
      ZeroHdTl();
    } else {
      LessHdTl(n, t.val);
    }
  }

  lemma ZeroHdTl()
    ensures !Hd(0) && Tl(0) == 0
  {
  }

  /** Subtraction one bit at a time, when the low bits do not borrow. */
  lemma SubHdTl(n: nat, v: nat)
    requires v <= n
    ensures Hd(n - v) == (Hd(n) != Hd(v))
    ensures Hd(n) || !Hd(v) ==> Tl(v) <= Tl(n) && Tl(n - v) == Tl(n) - Tl(v)
  {
  }

  lemma LessHdTl(n: nat, v: nat)
    requires n < v
    ensures Hd(n) || !Hd(v) ==> Tl(n) < Tl(v)
  {
  }

  lemma {:induction false} ToTnumSound(a: Anum, z: nat)
    requires a.Has(z)
    ensures a.ToTnum().Inv() && a.ToTnum().Has(z)
  {
    hide Tnum.Add, Tnum.Has, Map;
    FreeInv(a.span);
    UnitHas(a.base);
    AddSound(a.Free(), Unit(a.base), z - a.base, a.base);
  }

  // ----- multiplication

  lemma {:induction false} MulBitSound(t: Tnum, b: TBit, x: nat, y: bool)
    requires t.Inv() && t.Has(x) && b.Has(y)
    ensures MulBit(t, b).Inv()
    ensures MulBit(t, b).Has(if y then x else 0)
  {
    FreeInv(t.Max());
    FreeInv(0);
    if !b.val && b.mask && y {
      forall i: nat
        ensures Tnum(0, t.Max()).At(i).Has(Bit(x, i))
      {
        HasAt(t, x, i);
        MapBit(Or, t.val, t.mask, i);
        BitZero(i);
      }
      HasFromBits(Tnum(0, t.Max()), x);
    }
  }

  lemma {:induction false} ShlHas(t: Tnum, x: nat)
    requires t.Inv() && t.Has(x)
    ensures Shl(t).Inv() && Shl(t).Has(2 * x)
  {
    hide Map, Tnum.Has;
    assert Shl(t) == t.Push(KNOWN_ZERO);
    PushStep(t, KNOWN_ZERO, 2 * x);
  }

  /** One iteration keeps every partial product in the accumulator. */
  lemma {:induction false} AccumulatorStep(q: Tnum, b: TBit, a: Anum, x: bool, y: nat, z: nat)
    requires q.Inv() && q.Has(y) && b.Has(x) && a.Has(z)
    ensures a.Add(Anum.FromTnum(MulBit(q, b))).Has(z + Prod(N(x), y))
  {
    hide Tnum.Add, Tnum.Has, Map, MulBit, Anum.Has, Anum.Add;
    var k := if x then y else 0;
    MulBitSound(q, b, y, x);
    FromTnumExact(MulBit(q, b), k);
    AnumAddSound(a, Anum.FromTnum(MulBit(q, b)), z, k);
  }

  lemma {:induction false} MulStepSound(p: Tnum, q: Tnum, a: Anum, x: nat, y: nat, z: nat)
    requires p.Inv() && q.Inv() && p.Has(x) && q.Has(y) && a.Has(z)
    ensures MulStep(p, q, a).Inv() && MulStep(p, q, a).Has(z + Prod(x, y))
    ensures MulStepAnum(p, q, a).Has(z + Prod(x, y))
    decreases p.val + p.mask
  {
    hide Tnum.Add, Tnum.Has, Map, MulBit, Anum.Has, Anum.Add;
    if p == ZERO {
      ZeroHas(p, x);
      ToTnumSound(a, z);
    } else {
      InvStep(p);
      HasStep(p, x);
      ShlHas(q, y);
      AccumulatorStep(q, p.Head(), a, Hd(x), y, z);
      MulStepSound(p.Tail(), Shl(q), a.Add(Anum.FromTnum(MulBit(q, p.Head()))),
                   Tl(x), 2 * y, z + Prod(N(Hd(x)), y));
      ProdStep(x, y);
    }
  }

  /** Tnum multiplication holds every product. */
  lemma {:induction false} MulSound(s: Tnum, t: Tnum, x: nat, y: nat)
    requires s.Inv() && t.Inv() && s.Has(x) && t.Has(y)
    ensures Mul(s, t).Inv() && Mul(s, t).Has(Prod(x, y))
  {
    hide Tnum.Has, Tnum.Add, MulStep, MulStepAnum;
    ZeroHas(ZERO, 0);
    MulStepSound(s, t, ZERO_ANUM, x, y, 0);
  }

  // ----- hoisting the known product

  lemma {:induction false} HoistedIsStep(p: Tnum, q: Tnum, a: Anum)
    ensures HoistedStep(p, q, Unit(a.base + Prod(p.val, q.val)), a.Free()) == MulStep(p, q, a)
    decreases p.val + p.mask
  {
    hide Tnum.Add, Tnum.Has, Map;
    if p != ZERO {
      var b := p.Head();
      var a1 := a.Add(Anum.FromTnum(MulBit(q, b)));
      HoistedIsStep(p.Tail(), Shl(q), a1);
      FreeInv(a.span);
      AddZero(a.Free());
      var r := MulBit(q, b);
      FreeAdd(a.span, r.mask);
      assert a1.Free() == a.Free().Add(Tnum(0, r.mask));
      ProdStep(p.val, q.val);
      assert a1.base == a.base + Prod(N(b.val), q.val);
    }
  }

  /** Taking the known product out of the loop gives the identical tnum. */
  lemma {:induction false} HoistedIsMul(s: Tnum, t: Tnum)
    ensures MulHoisted(s, t) == Mul(s, t)
  {
    hide HoistedStep, MulStep;
    HoistedIsStep(s, t, ZERO_ANUM);
  }

  /** Products of constants are constant. */
  lemma {:induction false} MulOfUnits(x: nat, y: nat)
    ensures Mul(Unit(x), Unit(y)) == Unit(Prod(x, y))
  {
    hide Tnum.Has, Tnum.Add, MulStep, HoistedStep, Map;
    HoistedIsMul(Unit(x), Unit(y));
    HoistedOfUnits(x, y, Unit(Prod(x, y)));
    AddZeroLeft(Prod(x, y));
  }

  lemma {:induction false} HoistedOfUnits(x: nat, y: nat, known: Tnum)
    ensures HoistedStep(Unit(x), Unit(y), known, ZERO) == ZERO.Add(known)
    decreases x
  {
    hide Tnum.Has, Tnum.Add, Map;
    if x != 0 {
      FreeInv(0);
      AddZero(ZERO);
      HoistedOfUnits(Tl(x), 2 * y, known);
    }
  }

  lemma {:induction false} AddZeroLeft(n: nat)
    ensures ZERO.Add(Unit(n)) == Unit(n)
  {
    hide Map;
    MapNeutral(n);
    MapNeutral(0);
  }
}
