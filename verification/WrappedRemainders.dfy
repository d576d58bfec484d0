/**
  How tight remainders of arcs are. On single pieces they are exactly the words
  with the dividend's sign and the size of an unsigned remainder; on any arcs a
  bound within half the circle is kept.
 */
module WrappedRemainders {
  import opened Lattice
  import opened WrappedIntervals
  import opened WrappedArithmetic
  import opened WrappedDivision
  import opened WrappedDivRem
  import opened WrappedPrecision
  import I = Intervals

  // ----- remainders

  function View(signed: bool, x: nat, m: nat): int { if signed then SignedView(x, m) else x }

  /** The remainder of one-signed pieces takes the sign of the dividend; its magnitudes are the unsigned remainder. */
  lemma SignedPieceRem(a: I.Interval, b: I.Interval, aneg: bool, bneg: bool, m: nat, z: nat)
    requires a.Wf(m) && b.Wf(m) && OneSign(a, aneg, m) && OneSign(b, bneg, m) && m >= 2 && m % 2 == 0 && z < m
    ensures var t := IntervalOp(true, MagnitudeInterval(a, aneg, m), MagnitudeInterval(b, bneg, m), m);
            HasBot(SignedPieceOp(true, a, b, aneg, bneg, m), z, m)
            <==> (z == 0 || (SignedView(z, m) < 0 <==> aneg)) && I.HasBot(t, Magnitude(SignedView(z, m)))
  {
    hide IntervalOp, MagnitudeInterval, OneSign, Neg, New;
    var t := IntervalOp(true, MagnitudeInterval(a, aneg, m), MagnitudeInterval(b, bneg, m), m);
    PieceRemHigh(a, b, aneg, bneg, m);
    if aneg {
      if t.Val? {
        NegExact(FromLinear(t, m).value, m, z);
      }
      FromLinearHas(t, m, WordNeg(z, m));
    } else {
      FromLinearHas(t, m, z);
    }
  }

  lemma PieceRemHigh(a: I.Interval, b: I.Interval, aneg: bool, bneg: bool, m: nat)
    requires a.Wf(m) && b.Wf(m) && OneSign(a, aneg, m) && OneSign(b, bneg, m) && m >= 2 && m % 2 == 0
    ensures var aa, bb := MagnitudeInterval(a, aneg, m), MagnitudeInterval(b, bneg, m);
            var t := IntervalOp(true, aa, bb, m);
            (t.Val? <==> bb.hi > 0) && (t.Val? ==> t.value.hi <= aa.hi && t.value.hi < bb.hi <= m / 2)
  {
    hide I.Rem;
    var aa, bb := MagnitudeInterval(a, aneg, m), MagnitudeInterval(b, bneg, m);
    if bb.hi > 0 {
      I.RemSound(aa, bb, m, aa.lo, bb.hi);
    } else {
      NoRemainder(aa, bb);
    }
  }

  lemma NoRemainder(a: I.Interval, d: I.Interval)
    requires a.lo <= a.hi && d.lo <= d.hi && d.hi == 0
    ensures I.Rem(a, d).Bot?
  {
  }

  /** Operands that are a single piece. */
  predicate Single(signed: bool, a: Wrapped, m: nat) { if signed then OneSided(a, m) else Plain(a) }

  predicate Negative(signed: bool, a: Wrapped, m: nat)
    requires Single(signed, a, m)
  {
    signed && Side(a, m) == 1
  }

  function Magnitudes(signed: bool, a: Wrapped, m: nat): (r: I.Interval)
    requires a.Wf(m) && Single(signed, a, m) && m >= 2 && m % 2 == 0
    ensures r.Wf(m)
  {
    var i := I.Interval(a.lo, a.hi);
    if signed then MagnitudeInterval(i, Negative(signed, a, m), m) else i
  }

  /** A remainder is zero or has the sign of the dividend. */
  predicate SignOf(signed: bool, a: Wrapped, z: nat, m: nat)
    requires Single(signed, a, m)
  {
    z == 0 || (View(signed, z, m) < 0 <==> Negative(signed, a, m))
  }

  lemma MagnitudesHigh(signed: bool, d: Wrapped, m: nat)
    requires d.Wf(m) && Single(signed, d, m) && m >= 2 && m % 2 == 0 && d.hi > 0
    ensures Magnitudes(signed, d, m).hi > 0
  {
  }

  /** On single pieces: exactly the words with the dividend's sign and the size of an unsigned remainder. */
  lemma {:induction false} RemainderExact(signed: bool, a: Wrapped, d: Wrapped, m: nat, z: nat)
    requires a.Wf(m) && d.Wf(m) && m >= 2 && m % 2 == 0 && z < m
    requires Single(signed, a, m) && Single(signed, d, m) && d.hi > 0
    ensures var t := I.Rem(Magnitudes(signed, a, m), Magnitudes(signed, d, m));
            HasBot(DivRem(signed, true, a, d, m).0, z, m)
            <==> SignOf(signed, a, z, m) && I.HasBot(t, Magnitude(View(signed, z, m)))
  {
    hide SignedUpTo, UnsignedDivRem, I.Rem, PieceOf, SignedPieceOp, MagnitudeInterval, FromLinear;
    if signed {
      OneSidedUpTo(true, a, d, m, 16);
      OneSidedPieces(a, m, Side(a, m));
      OneSidedPieces(d, m, Side(d, m));
      SignedPieceRem(I.Interval(a.lo, a.hi), I.Interval(d.lo, d.hi), Side(a, m) == 1, Side(d, m) == 1, m, z);
    } else {
      UnsignedLinear(true, a, d, m);
      FromLinearHas(IntervalOp(true, I.Interval(a.lo, a.hi), I.Interval(d.lo, d.hi), m), m, z);
    }
  }

  /** So it has the dividend's sign, is no larger than the dividend and smaller than the divisor. */
  lemma {:induction false} RemainderBounded(signed: bool, a: Wrapped, d: Wrapped, m: nat, z: nat)
    requires a.Wf(m) && d.Wf(m) && m >= 2 && m % 2 == 0
    requires Single(signed, a, m) && Single(signed, d, m) && d.hi > 0
    requires HasBot(DivRem(signed, true, a, d, m).0, z, m)
    ensures SignOf(signed, a, z, m)
    ensures Magnitude(View(signed, z, m)) <= Magnitudes(signed, a, m).hi
    ensures Magnitude(View(signed, z, m)) < Magnitudes(signed, d, m).hi
  {
    hide DivRem, I.Rem, Magnitudes, SignOf, View;
    RemainderExact(signed, a, d, m, z);
    MagnitudesHigh(signed, d, m);
    var aa, dd := Magnitudes(signed, a, m), Magnitudes(signed, d, m);
    I.RemSound(aa, dd, m, aa.lo, dd.hi);
  }

  /** Both ends of the remainder interval are remainders. */
  ghost predicate TightRemainders(a: I.Interval, d: I.Interval)
    requires a.lo <= a.hi && d.hi > 0
  {
    a.lo / d.hi == a.hi / I.LeastDivisor(d) || (I.ZeroReached(a, d) && I.TopReached(a, d))
  }

  /** Unsigned remainders of arcs that do not pass zero are the least interval under exactly that condition. */
  lemma UnsignedRemainderLeastIff(a: Wrapped, d: Wrapped, m: nat)
    requires a.Wf(m) && d.Wf(m) && m >= 2 && m % 2 == 0 && Plain(a) && Plain(d) && d.hi > 0
    ensures LeastRemainder(a, d, m) <==> TightRemainders(I.Interval(a.lo, a.hi), I.Interval(d.lo, d.hi))
  {
    hide DivRem, I.Rem, I.HoldsRemainders, TightRemainders;
    var i, j := I.Interval(a.lo, a.hi), I.Interval(d.lo, d.hi);
    I.RemLeastIff(i, j, m);
    I.RemSound(i, j, m, a.lo, d.hi);
    TightIs(i, j);
    forall z: nat | z < m ensures HasBot(DivRem(false, true, a, d, m).0, z, m) <==> I.HasBot(I.Rem(i, j), z) {
      RemainderExact(false, a, d, m, z);
    }
    forall c: I.Interval | I.HoldsRemainders(c, i, j)
      ensures HoldsAll(c, DivRem(false, true, a, d, m).0, m) <==> I.Leq(I.Rem(i, j).value, c)
    {
      var t := I.Rem(i, j).value;
      assert I.HasBot(I.Rem(i, j), t.lo) && I.HasBot(I.Rem(i, j), t.hi);
    }
  }

  ghost predicate HoldsAll(c: I.Interval, r: BotOr<Wrapped>, m: nat)
    requires WfBot(r, m)
  {
    forall z: nat | HasBot(r, z, m) :: c.Has(z)
  }

  /** Every interval that holds the remainders holds the whole result. */
  ghost predicate LeastRemainder(a: Wrapped, d: Wrapped, m: nat)
    requires a.Wf(m) && d.Wf(m) && m >= 2 && m % 2 == 0 && Plain(a) && Plain(d)
  {
    forall c: I.Interval | I.HoldsRemainders(c, I.Interval(a.lo, a.hi), I.Interval(d.lo, d.hi)) ::
      HoldsAll(c, DivRem(false, true, a, d, m).0, m)
  }

  lemma TightIs(a: I.Interval, d: I.Interval)
    requires a.lo <= a.hi && d.hi > 0
    ensures TightRemainders(a, d)
       <==> a.lo / d.hi == a.hi / I.LeastDivisor(d) || (I.ZeroReached(a, d) && I.TopReached(a, d))
  {
  }

  // ----- signed remainders as the smallest arc

  ghost predicate IsRemainder(a: I.Interval, d: I.Interval, k: nat) {
    exists x: nat, y: nat :: a.Has(x) && d.Has(y) && y > 0 && x % y == k
  }

  lemma WithoutEnd(a: I.Interval, d: I.Interval, m: nat, c: I.Interval, k: nat)
    requires a.Wf(m) && d.Wf(m) && d.hi > 0 && !IsRemainder(a, d, k)
    requires I.Rem(a, d).Val? && forall x: nat | I.Rem(a, d).value.Has(x) && x != k :: c.Has(x)
    ensures I.HoldsRemainders(c, a, d)
  {
    hide I.Rem;
    forall x: nat, y: nat | a.Has(x) && d.Has(y) && y > 0 ensures c.Has(x % y) { I.RemSound(a, d, m, x, y); }
  }

  lemma TightAttained(a: I.Interval, d: I.Interval, m: nat)
    requires a.Wf(m) && d.Wf(m) && d.hi > 0 && TightRemainders(a, d)
    ensures I.Rem(a, d).Val? && IsRemainder(a, d, I.Rem(a, d).value.lo) && IsRemainder(a, d, I.Rem(a, d).value.hi)
  {
    hide I.Rem, TightRemainders, IsRemainder, I.HoldsRemainders;
    I.RemLeastIff(a, d, m);
    TightIs(a, d);
    I.RemSound(a, d, m, a.lo, d.hi);
    var t := I.Rem(a, d).value;
    if !IsRemainder(a, d, t.lo) {
      WithoutEnd(a, d, m, I.Interval(t.lo + 1, t.hi), t.lo);
    }
    if !IsRemainder(a, d, t.hi) {
      SomeRemainder(a, d);
      WithoutEnd(a, d, m, I.Interval(t.lo, if t.hi == 0 then 0 else t.hi - 1), t.hi);
    }
  }

  lemma SomeRemainder(a: I.Interval, d: I.Interval)
    requires a.lo <= a.hi && d.lo <= d.hi && d.hi > 0
    ensures IsRemainder(a, d, a.lo % d.hi)
  {
    assert a.Has(a.lo) && d.Has(d.hi);
  }

  /** The word with magnitude k and the given sign. */
  function WithSign(k: nat, negative: bool, m: nat): (z: nat)
    requires k < m
    ensures z < m
  {
    if negative then WordNeg(k, m) else k
  }

  lemma OneSidedRemainder(a: Wrapped, d: Wrapped, m: nat, x: nat, y: nat)
    requires a.Wf(m) && d.Wf(m) && m >= 2 && m % 2 == 0 && OneSided(a, m) && OneSided(d, m)
    requires a.Has(x, m) && d.Has(y, m) && y > 0
    ensures var k, l := Magnitude(SignedView(x, m)), Magnitude(SignedView(y, m));
            && l > 0 && k % l < m && WordOp(true, true, x, y, m) == WithSign(k % l, Negative(true, a, m), m)
            && Magnitudes(true, a, m).Has(k) && Magnitudes(true, d, m).Has(l)
  {
    hide WordOp, SignedView, I.Remainder, I.Quotient, MagnitudeInterval;
    SignedOpOnMagnitudes(true, x, y, m);
    var k, l := Magnitude(SignedView(x, m)), Magnitude(SignedView(y, m));
    RemainderIs(k, l);
    MagnitudeHas(I.Interval(a.lo, a.hi), Negative(true, a, m), m, x);
    MagnitudeHas(I.Interval(d.lo, d.hi), Negative(true, d, m), m, y);
  }

  lemma RemainderHeld(a: Wrapped, d: Wrapped, m: nat, c: Wrapped, k: nat)
    requires a.Wf(m) && d.Wf(m) && c.Wf(m) && m >= 2 && m % 2 == 0 && OneSided(a, m) && OneSided(d, m)
    requires HoldsResults(true, true, c, a, d, m) && k < m
    requires IsRemainder(Magnitudes(true, a, m), Magnitudes(true, d, m), k)
    ensures c.Has(WithSign(k, Negative(true, a, m), m), m)
  {
    hide WordOp, SignedView, WithSign, MagnitudeInterval;
    var aa, dd := Magnitudes(true, a, m), Magnitudes(true, d, m);
    var p: nat, q: nat :| aa.Has(p) && dd.Has(q) && q > 0 && p % q == k;
    var x := MagnitudePreimage(I.Interval(a.lo, a.hi), Negative(true, a, m), m, p);
    var y := MagnitudePreimage(I.Interval(d.lo, d.hi), Negative(true, d, m), m, q);
    PlainHas(a, m, x);
    PlainHas(d, m, y);
    OneSidedRemainder(a, d, m, x, y);
  }

  lemma PlainHas(a: Wrapped, m: nat, x: nat)
    requires a.Wf(m) && Plain(a)
    ensures a.Has(x, m) <==> a.lo <= x <= a.hi
  {
  }

  /** The arc of the words with these magnitudes and this sign. */
  function SignedArc(i: I.Interval, negative: bool, m: nat): (r: Wrapped)
    requires i.Wf(m)
    ensures r.Wf(m)
  {
    if negative then New(WithSign(i.hi, true, m), WithSign(i.lo, true, m), m) else New(i.lo, i.hi, m)
  }

  lemma SignedArcHas(i: I.Interval, negative: bool, m: nat, k: nat)
    requires i.Wf(m) && i.Has(k)
    ensures SignedArc(i, negative, m).Has(WithSign(k, negative, m), m)
    ensures SignedArc(i, negative, m).Size(m) == i.hi - i.lo + 1
  {
  }

  lemma {:induction false} OneSidedRemIs(a: Wrapped, d: Wrapped, m: nat)
    requires a.Wf(m) && d.Wf(m) && m >= 2 && m % 2 == 0 && OneSided(a, m) && OneSided(d, m) && d.hi > 0
    ensures var t := I.Rem(Magnitudes(true, a, m), Magnitudes(true, d, m));
            && t.Val? && t.value.lo <= t.value.hi < m / 2
            && DivRem(true, true, a, d, m).0 == Val(SignedArc(t.value, Negative(true, a, m), m))
  {
    hide SignedUpTo, I.Rem, PieceOf, MagnitudeInterval;
    OneSidedUpTo(true, a, d, m, 16);
    OneSidedPieces(a, m, Side(a, m));
    OneSidedPieces(d, m, Side(d, m));
    PieceRemHigh(I.Interval(a.lo, a.hi), I.Interval(d.lo, d.hi), Side(a, m) == 1, Side(d, m) == 1, m);
    MagnitudesHigh(true, d, m);
  }

  /** The signed remainder of one-sided operands is the smallest arc under exactly the same condition on magnitudes. */
  lemma {:induction false} SignedRemainderSmallestIff(a: Wrapped, d: Wrapped, m: nat)
    requires a.Wf(m) && d.Wf(m) && m >= 2 && m % 2 == 0 && OneSided(a, m) && OneSided(d, m) && d.hi > 0
    ensures Magnitudes(true, d, m).hi > 0
    ensures Smallest(true, true, a, d, m)
       <==> TightRemainders(Magnitudes(true, a, m), Magnitudes(true, d, m))
  {
    hide DivRem, HoldsResults, TightRemainders, SignedArc, WithSign, I.Rem, Magnitudes, IsRemainder;
    OneSidedRemIs(a, d, m);
    MagnitudesHigh(true, d, m);
    var aa, dd := Magnitudes(true, a, m), Magnitudes(true, d, m);
    if TightRemainders(aa, dd) {
      forall c: Wrapped | c.Wf(m) && HoldsResults(true, true, c, a, d, m)
        ensures DivRem(true, true, a, d, m).0.value.Size(m) <= c.Size(m)
      {
        TightIsSmallest(a, d, m, c);
      }
    } else {
      var c := LooseCover(a, d, m);
    }
  }

  lemma {:induction false} TightIsSmallest(a: Wrapped, d: Wrapped, m: nat, c: Wrapped)
    requires a.Wf(m) && d.Wf(m) && c.Wf(m) && m >= 2 && m % 2 == 0 && OneSided(a, m) && OneSided(d, m) && d.hi > 0
    requires Magnitudes(true, d, m).hi > 0 && TightRemainders(Magnitudes(true, a, m), Magnitudes(true, d, m))
    requires HoldsResults(true, true, c, a, d, m)
    ensures DivRem(true, true, a, d, m).0.Val? && DivRem(true, true, a, d, m).0.value.Size(m) <= c.Size(m)
  {
    hide DivRem, HoldsResults, TightRemainders, SignedArc, WithSign, I.Rem, Magnitudes, IsRemainder;
    OneSidedRemIs(a, d, m);
    var aa, dd := Magnitudes(true, a, m), Magnitudes(true, d, m);
    TightAttained(aa, dd, m);
    var t := I.Rem(aa, dd).value;
    RemainderHeld(a, d, m, c, t.lo);
    RemainderHeld(a, d, m, c, t.hi);
    SignedArcEnds(t, Negative(true, a, m), m);
    ShortIsSmallest(SignedArc(t, Negative(true, a, m), m), c, m);
  }

  lemma SignedArcEnds(i: I.Interval, negative: bool, m: nat)
    requires i.Wf(m) && i.hi < m / 2
    ensures var r := SignedArc(i, negative, m);
            && r.Arc? && r.Size(m) == i.hi - i.lo + 1
            && r.lo == WithSign(if negative then i.hi else i.lo, negative, m)
            && r.hi == WithSign(if negative then i.lo else i.hi, negative, m)
  {
  }

  lemma {:induction false} LooseCover(a: Wrapped, d: Wrapped, m: nat) returns (c: Wrapped)
    requires a.Wf(m) && d.Wf(m) && m >= 2 && m % 2 == 0 && OneSided(a, m) && OneSided(d, m) && d.hi > 0
    requires Magnitudes(true, d, m).hi > 0 && !TightRemainders(Magnitudes(true, a, m), Magnitudes(true, d, m))
    ensures c.Wf(m) && HoldsResults(true, true, c, a, d, m)
    ensures DivRem(true, true, a, d, m).0.Val? && c.Size(m) < DivRem(true, true, a, d, m).0.value.Size(m)
  {
    hide DivRem, TightRemainders, SignedArc, WithSign, I.Rem, Magnitudes, WordOp, SignedView;
    OneSidedRemIs(a, d, m);
    var aa, dd := Magnitudes(true, a, m), Magnitudes(true, d, m);
    var i := SmallerInterval(aa, dd, m);
    c := SignedArc(i, Negative(true, a, m), m);
    forall x: nat, y: nat | a.Has(x, m) && d.Has(y, m) && y > 0
      ensures 0 <= WordOp(true, true, x, y, m) && c.Has(WordOp(true, true, x, y, m), m)
    {
      OneSidedRemainder(a, d, m, x, y);
      SignedArcHas(i, Negative(true, a, m), m, Magnitude(SignedView(x, m)) % Magnitude(SignedView(y, m)));
    }
    SignedArcHas(i, Negative(true, a, m), m, i.lo);
    SignedArcHas(I.Rem(aa, dd).value, Negative(true, a, m), m, I.Rem(aa, dd).value.lo);
  }

  lemma CommonCover(a: I.Interval, d: I.Interval, m: nat, c: I.Interval)
    requires a.Wf(m) && d.Wf(m) && d.hi > 0 && I.Rem(a, d).Val? && I.HoldsRemainders(c, a, d)
    ensures I.Meet(I.Rem(a, d).value, c).Val? && I.HoldsRemainders(I.Meet(I.Rem(a, d).value, c).value, a, d)
  {
    hide I.Rem, I.Quotient, I.Remainder;
    assert a.Has(a.lo) && d.Has(d.hi) && c.Has(a.lo % d.hi);
    I.RemSound(a, d, m, a.lo, d.hi);
    var i := I.Meet(I.Rem(a, d).value, c).value;
    forall x: nat, y: nat | a.Has(x) && d.Has(y) && y > 0 ensures i.Has(x % y) { I.RemSound(a, d, m, x, y); }
  }

  lemma SmallerInterval(a: I.Interval, d: I.Interval, m: nat) returns (i: I.Interval)
    requires a.Wf(m) && d.Wf(m) && d.hi > 0 && !TightRemainders(a, d)
    ensures i.Wf(m) && I.HoldsRemainders(i, a, d)
    ensures I.Rem(a, d).Val? && i.hi - i.lo < I.Rem(a, d).value.hi - I.Rem(a, d).value.lo
  {
    hide I.Rem, TightRemainders, I.HoldsRemainders, I.ZeroReached, I.TopReached;
    I.RemLeastIff(a, d, m);
    TightIs(a, d);
    I.RemSound(a, d, m, a.lo, d.hi);
    var c: I.Interval :| I.HoldsRemainders(c, a, d) && !I.Leq(I.Rem(a, d).value, c);
    CommonCover(a, d, m, c);
    i := I.Meet(I.Rem(a, d).value, c).value;
  }

  // ----- remainders of any arcs

  /** Every dividend is at most b in size, or every divisor at most b + 1. */
  ghost predicate SizeBound(signed: bool, a: Wrapped, d: Wrapped, m: nat, b: nat)
    requires a.Wf(m) && d.Wf(m)
  {
    || (forall x: nat | a.Has(x, m) :: Magnitude(View(signed, x, m)) <= b)
    || (forall y: nat | d.Has(y, m) :: Magnitude(View(signed, y, m)) <= b + 1)
  }

  /** The words of size at most b. */
  function Small(signed: bool, b: nat, m: nat): (c: Wrapped)
    requires 2 * b + 2 <= m
    ensures c.Wf(m)
  {
    if signed then New(WordNeg(b, m), b, m) else New(0, b, m)
  }

  lemma SmallHas(signed: bool, b: nat, m: nat, z: nat)
    requires 2 * b + 2 <= m && m % 2 == 0 && z < m
    ensures Small(signed, b, m).Has(z, m) <==> Magnitude(View(signed, z, m)) <= b
    ensures Small(signed, b, m).Size(m) == if signed then 2 * b + 1 else b + 1
  {
  }

  lemma PieceTop(i: I.Interval, negative: bool, m: nat) returns (x: nat)
    requires i.Wf(m) && OneSign(i, negative, m) && m >= 2 && m % 2 == 0
    ensures i.Has(x) && Magnitude(SignedView(x, m)) == MagnitudeInterval(i, negative, m).hi
  {
    x := if negative then i.lo else i.hi;
  }

  lemma QuadrantSmall(a: Wrapped, d: Wrapped, m: nat, b: nat, i: nat, j: nat)
    requires a.Wf(m) && d.Wf(m) && i < 4 && j < 4 && m >= 2 && m % 2 == 0
    requires 2 * b + 2 <= m && SizeBound(true, a, d, m, b)
    ensures SubsetBot(Quadrant(true, a, d, m, i, j), Small(true, b, m), m)
  {
    hide PieceOf, SignedPieceOp, PieceIndex, Small, SignedView, MagnitudeInterval;
    var p, q := PieceOf(a, i, m), PieceOf(d, j, m);
    if p.Val? && q.Val? {
      var x := PieceTop(p.value, i % 2 == 1, m);
      var y := PieceTop(q.value, j % 2 == 1, m);
      PieceExact(a, i, m, x);
      PieceExact(d, j, m, y);
      PieceRemHigh(p.value, q.value, i % 2 == 1, j % 2 == 1, m);
      var r := Quadrant(true, a, d, m, i, j);
      forall z: nat | HasBot(r, z, m) ensures Small(true, b, m).Has(z, m) {
        SignedPieceRem(p.value, q.value, i % 2 == 1, j % 2 == 1, m, z);
        SmallHas(true, b, m, z);
      }
    }
  }

  lemma UnsignedPieceSmall(a: Wrapped, d: Wrapped, m: nat, b: nat, i: nat, j: nat)
    requires a.Wf(m) && d.Wf(m) && i < 2 && j < 2 && m >= 2 && m % 2 == 0
    requires 2 * b + 2 <= m && SizeBound(false, a, d, m, b)
    ensures SubsetBot(UnsignedPieceOp(true, UnsignedPiece(a, i, m), UnsignedPiece(d, j, m), m), Small(false, b, m), m)
  {
    hide UnsignedPiece, I.Rem, Lap, Small, FromLinear;
    var p, q := UnsignedPiece(a, i, m), UnsignedPiece(d, j, m);
    if p.Val? && q.Val? {
      UnsignedPieceExact(a, i, m, p.value.hi);
      UnsignedPieceExact(d, j, m, q.value.hi);
      var t := IntervalOp(true, p.value, q.value, m);
      if q.value.hi > 0 {
        I.RemSound(p.value, q.value, m, p.value.lo, q.value.hi);
      } else {
        NoRemainder(p.value, q.value);
      }
      forall z: nat | HasBot(FromLinear(t, m), z, m) ensures Small(false, b, m).Has(z, m) {
        FromLinearHas(t, m, z);
        SmallHas(false, b, m, z);
      }
    }
  }

  /** For any arcs a bound within half the circle is kept: no remainder grows past dividends or reaches the divisors. */
  lemma {:induction false} RemainderSmall(signed: bool, a: Wrapped, d: Wrapped, m: nat, b: nat, z: nat)
    requires a.Wf(m) && d.Wf(m) && m >= 2 && m % 2 == 0 && SizeBound(signed, a, d, m, b)
    requires if signed then 4 * b + 2 <= m else 2 * b + 2 <= m
    requires HasBot(DivRem(signed, true, a, d, m).0, z, m)
    ensures Magnitude(View(signed, z, m)) <= b
  {
    hide SignedUpTo, UnsignedDivRem, Quadrant, UnsignedPiece, UnsignedPieceOp, Small, View, SizeBound;
    var c := Small(signed, b, m);
    SmallHas(signed, b, m, z);
    if signed {
      forall i: nat, j: nat | i < 4 && j < 4 ensures SubsetBot(Quadrant(true, a, d, m, i, j), c, m) {
        QuadrantSmall(a, d, m, b, i, j);
      }
      UpToWithin(true, a, d, m, 16, c);
    } else {
      forall i: nat, j: nat | i < 2 && j < 2
        ensures SubsetBot(UnsignedPieceOp(true, UnsignedPiece(a, i, m), UnsignedPiece(d, j, m), m), c, m)
      {
        UnsignedPieceSmall(a, d, m, b, i, j);
      }
      UnsignedWithin(true, a, d, m, c);
    }
  }

  lemma EscapePieces()
    ensures Quadrant(true, Arc(5, 11), Arc(8, 8), 16, 0, 1) == Val(Arc(5, 7))
    ensures Quadrant(true, Arc(5, 11), Arc(8, 8), 16, 1, 1) == Val(Arc(9, 0))
    ensures Quadrant(true, Arc(5, 11), Arc(8, 8), 16, 2, 1) == Bot
    ensures Quadrant(true, Arc(5, 11), Arc(8, 8), 16, 3, 1) == Bot
  {
    assert I.Rem(I.Interval(5, 7), I.Interval(8, 8)) == Val(I.Interval(5, 7));
    assert I.Rem(I.Interval(5, 8), I.Interval(8, 8)) == Val(I.Interval(0, 7));
  }

  /**
    On 4 bits the words from 5 to -5 by -8: the pieces give [5, 7] and [-7, 0],
    which join the other way round and so hold -8, the divisor itself.
   */
  lemma {:induction false} RemainderEscapes()
    ensures DivRem(true, true, Arc(5, 11), Arc(8, 8), 16).0 == Val(Arc(5, 0))
    ensures SizeBound(true, Arc(5, 11), Arc(8, 8), 16, 7) && Magnitude(View(true, 8, 16)) == 8
  {
    hide SignedUpTo, Quadrant;
    DivisorRows(true, Arc(5, 11), Arc(8, 8), 16);
    EscapePieces();
  }
}
