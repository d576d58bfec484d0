/**
  Unsigned and signed division and remainder of arcs. Operands are cut into
  linear pieces, pieces are divided as unsigned intervals of magnitudes, and the
  results are joined.
 */
module WrappedDivision {
  import opened DivModFacts
  import opened Lattice
  import opened WrappedIntervals
  import opened WrappedArithmetic
  import I = Intervals

  // ----- concrete semantics

  /** The two's-complement reading of a word below an even modulus. */
  function SignedView(x: nat, m: nat): int { if x < m / 2 then x else x - m }

  function Magnitude(a: int): nat { if a < 0 then -a else a }

  /** Quotient rounded toward zero. */
  function TruncDiv(a: int, b: int): int
    requires b != 0
  {
    var q := Magnitude(a) / Magnitude(b);
    if (a < 0) != (b < 0) then -q else q
  }

  function TruncRem(a: int, b: int): int
    requires b != 0
  {
    a - b * TruncDiv(a, b)
  }

  function UnsignedOp(rem: bool, x: nat, y: nat): (r: nat)
    requires y > 0
    ensures r <= x
  {
    if rem then I.Remainder(x, y) else I.Quotient(x, y)
  }

  /** Division or remainder of words, with wrap-around of the signed result. */
  function WordOp(signed: bool, rem: bool, x: nat, y: nat, m: nat): int
    requires x < m && 0 < y < m
  {
    if !signed then UnsignedOp(rem, x, y)
    else if rem then TruncRem(SignedView(x, m), SignedView(y, m)) % m
    else TruncDiv(SignedView(x, m), SignedView(y, m)) % m
  }

  // ----- cutting an arc into intervals

  function UnsignedPiece(a: Wrapped, k: nat, m: nat): (r: BotOr<I.Interval>)
    requires a.Wf(m) && m > 0
    ensures I.WfBot(r, m)
  {
    if a.Top? then (if k == 0 then Val(I.Interval(0, m - 1)) else Bot)
    else if a.lo <= a.hi then (if k == 0 then Val(I.Interval(a.lo, a.hi)) else Bot)
    else if k == 0 then Val(I.Interval(a.lo, m - 1))
    else Val(I.Interval(0, a.hi))
  }

  /** On which side of zero a member lies, going clockwise from the start of its arc. */
  function Lap(a: Wrapped, x: nat): nat { if a.Arc? && a.lo > a.hi && x < a.lo then 1 else 0 }

  /** Piece k holds exactly the members on lap k. */
  lemma UnsignedPieceExact(a: Wrapped, k: nat, m: nat, x: nat)
    requires a.Wf(m) && k < 2 && x < m
    ensures I.HasBot(UnsignedPiece(a, k, m), x) <==> a.Has(x, m) && Lap(a, x) == k
  {
  }

  /** Pieces 0 and 1 precede zero, 2 and 3 follow it; odd pieces are negative. */
  function PieceOf(a: Wrapped, k: nat, m: nat): (r: BotOr<I.Interval>)
    requires a.Wf(m) && k < 4 && m >= 2 && m % 2 == 0
    ensures I.WfBot(r, m)
    ensures r.Val? ==> OneSign(r.value, k % 2 == 1, m)
  {
    match UnsignedPiece(a, k / 2, m)
    case Bot => Bot
    case Val(i) =>
      if k % 2 == 0 then I.New(i.lo, if m / 2 - 1 < i.hi then m / 2 - 1 else i.hi)
      else I.New(if i.lo < m / 2 then m / 2 else i.lo, i.hi)
  }

  predicate OneSign(i: I.Interval, negative: bool, m: nat) { if negative then m / 2 <= i.lo else i.hi < m / 2 }

  function PieceIndex(a: Wrapped, x: nat, m: nat): nat { 2 * Lap(a, x) + if x < m / 2 then 0 else 1 }

  /** The four pieces partition the arc by lap and sign. */
  lemma PieceExact(a: Wrapped, k: nat, m: nat, x: nat)
    requires a.Wf(m) && k < 4 && x < m && m >= 2 && m % 2 == 0
    ensures I.HasBot(PieceOf(a, k, m), x) <==> a.Has(x, m) && PieceIndex(a, x, m) == k
  {
    hide UnsignedPiece, Lap;
    UnsignedPieceExact(a, k / 2, m, x);
    assert Lap(a, x) <= 1 by { LapBound(a, x); }
  }

  lemma LapBound(a: Wrapped, x: nat)
    ensures Lap(a, x) <= 1
  {
  }

  /** The piece, computed by moving the two bounds. */
  method Piece(a: Wrapped, k: nat, m: nat) returns (r: BotOr<I.Interval>)
    requires a.Wf(m) && k < 4 && m >= 2 && m % 2 == 0
    ensures r == PieceOf(a, k, m)
    ensures forall x: nat | x < m :: I.HasBot(r, x) <==> a.Has(x, m) && PieceIndex(a, x, m) == k
  {
    forall x: nat | x < m
      ensures I.HasBot(PieceOf(a, k, m), x) <==> a.Has(x, m) && PieceIndex(a, x, m) == k
    {
      PieceExact(a, k, m, x);
    }
    var half := m / 2;
    var lo: nat, hi: nat := 0, m - 1;
    if a.Top? {
      if k >= 2 { return Bot; }
    } else if a.lo <= a.hi {
      if k >= 2 { return Bot; }
      lo, hi := a.lo, a.hi;
    } else if k < 2 {
      lo := a.lo;
    } else {
      hi := a.hi;
    }
    if k == 0 || k == 2 {
      if half - 1 < hi { hi := half - 1; }
    } else {
      if lo < half { lo := half; }
    }
    return I.New(lo, hi);
  }

  // ----- dividing pieces

  predicate WfBot(v: BotOr<Wrapped>, m: nat) { v.Val? ==> v.value.Wf(m) }

  function FromLinear(v: BotOr<I.Interval>, m: nat): (r: BotOr<Wrapped>)
    requires I.WfBot(v, m)
    ensures WfBot(r, m)
  {
    if v.Bot? then Bot else Val(New(v.value.lo, v.value.hi, m))
  }

  lemma FromLinearHas(v: BotOr<I.Interval>, m: nat, x: nat)
    requires I.WfBot(v, m) && x < m
    ensures HasBot(FromLinear(v, m), x, m) <==> I.HasBot(v, x)
  {
  }

  function IntervalOp(rem: bool, a: I.Interval, b: I.Interval, m: nat): (r: BotOr<I.Interval>)
    requires a.Wf(m) && b.Wf(m)
    ensures I.WfBot(r, m)
  {
    IntervalOpWf(rem, a, b, m);
    if rem then I.Rem(a, b) else I.Div(a, b)
  }

  lemma IntervalOpWf(rem: bool, a: I.Interval, b: I.Interval, m: nat)
    requires a.Wf(m) && b.Wf(m)
    ensures I.WfBot(I.Rem(a, b), m) && I.WfBot(I.Div(a, b), m)
  {
    if b.hi > 0 {
      I.RemSound(a, b, m, a.lo, b.hi);
      I.DivIsHull(a, b, m, a.lo, b.hi);
    }
  }

  lemma IntervalOpSound(rem: bool, a: I.Interval, b: I.Interval, m: nat, x: nat, y: nat)
    requires a.Wf(m) && b.Wf(m) && a.Has(x) && b.Has(y) && y > 0
    ensures I.HasBot(IntervalOp(rem, a, b, m), UnsignedOp(rem, x, y))
  {
    I.RemSound(a, b, m, x, y);
    I.DivIsHull(a, b, m, x, y);
  }

  function UnsignedPieceOp(rem: bool, a: BotOr<I.Interval>, b: BotOr<I.Interval>, m: nat): (r: BotOr<Wrapped>)
    requires I.WfBot(a, m) && I.WfBot(b, m)
    ensures WfBot(r, m)
  {
    if a.Val? && b.Val? then FromLinear(IntervalOp(rem, a.value, b.value, m), m) else Bot
  }

  lemma UnsignedPieceOpSound(rem: bool, a: BotOr<I.Interval>, b: BotOr<I.Interval>, m: nat, x: nat, y: nat)
    requires I.WfBot(a, m) && I.WfBot(b, m) && I.HasBot(a, x) && I.HasBot(b, y) && y > 0
    ensures HasBot(UnsignedPieceOp(rem, a, b, m), UnsignedOp(rem, x, y), m)
  {
    hide UnsignedOp, IntervalOp, FromLinear;
    IntervalOpSound(rem, a.value, b.value, m, x, y);
    FromLinearHas(IntervalOp(rem, a.value, b.value, m), m, UnsignedOp(rem, x, y));
  }

  function MagnitudeInterval(i: I.Interval, negative: bool, m: nat): (r: I.Interval)
    requires i.Wf(m) && OneSign(i, negative, m) && m >= 2 && m % 2 == 0
    ensures r.Wf(m)
  {
    if negative then I.Interval(WordNeg(i.hi, m), WordNeg(i.lo, m)) else i
  }

  lemma MagnitudeHas(i: I.Interval, negative: bool, m: nat, x: nat)
    requires i.Wf(m) && OneSign(i, negative, m) && m >= 2 && m % 2 == 0 && i.Has(x)
    ensures SignedView(x, m) < 0 <==> negative
    ensures MagnitudeInterval(i, negative, m).Has(Magnitude(SignedView(x, m)))
    ensures Magnitude(SignedView(x, m)) <= m / 2
    ensures x > 0 ==> Magnitude(SignedView(x, m)) > 0
  {
  }

  function SignedPieceOp(rem: bool, a: I.Interval, b: I.Interval, aneg: bool, bneg: bool, m: nat): (r: BotOr<Wrapped>)
    requires a.Wf(m) && b.Wf(m) && OneSign(a, aneg, m) && OneSign(b, bneg, m) && m >= 2 && m % 2 == 0
    ensures WfBot(r, m)
  {
    var u := FromLinear(IntervalOp(rem, MagnitudeInterval(a, aneg, m), MagnitudeInterval(b, bneg, m), m), m);
    if u.Val? && (if rem then aneg else aneg != bneg) then Val(Neg(u.value, m)) else u
  }

  // ----- signed operations on magnitudes

  lemma TruncRemIsSigned(a: int, b: int)
    requires b != 0
    ensures var r := Magnitude(a) % Magnitude(b); TruncRem(a, b) == if a < 0 then -r else r
  {
    var x, y: int := Magnitude(a), Magnitude(b);
    var q := x / y;
    assert x == y * q + x % y;
    var t := TruncDiv(a, b);
    assert b * t == if a < 0 then -(y * q) else y * q by {
      SignsCancel(b, q);
    }
  }

  lemma SignsCancel(b: int, q: int)
    ensures b * (-q) == -(b * q) && (-b) * q == -(b * q) && (-b) * (-q) == b * q
  {
  }

  lemma ModOfNegative(v: int, m: nat)
    requires 0 <= v < m
    ensures v % m == v && (-v) % m == WordNeg(v, m)
  {
    SmallMod(v, m);
    if v > 0 {
      Unique(-v, m, -1, m - v);
    }
  }

  /** A signed result is the unsigned result of the magnitudes, negated when its sign is negative. */
  lemma SignedOpOnMagnitudes(rem: bool, x: nat, y: nat, m: nat)
    requires x < m && 0 < y < m && m >= 2 && m % 2 == 0
    ensures var sx, sy := SignedView(x, m), SignedView(y, m);
            sy != 0 && UnsignedOp(rem, Magnitude(sx), Magnitude(sy)) < m
            && WordOp(true, rem, x, y, m)
               == (var u := UnsignedOp(rem, Magnitude(sx), Magnitude(sy));
                   if (if rem then sx < 0 else (sx < 0) != (sy < 0)) then WordNeg(u, m) else u)
  {
    hide I.Quotient, I.Remainder, TruncRem;
    var sx, sy := SignedView(x, m), SignedView(y, m);
    var u: int := UnsignedOp(rem, Magnitude(sx), Magnitude(sy));
    assert Magnitude(sx) <= m / 2;
    if rem {
      TruncRemIsSigned(sx, sy);
      assert u == Magnitude(sx) % Magnitude(sy) by { RemainderIs(Magnitude(sx), Magnitude(sy)); }
    } else {
      assert u == Magnitude(sx) / Magnitude(sy) by { QuotientIs(Magnitude(sx), Magnitude(sy)); }
    }
    ModOfNegative(u, m);
  }

  lemma RemainderIs(x: nat, y: nat)
    requires y > 0
    ensures I.Remainder(x, y) == x % y
  {
  }

  lemma QuotientIs(x: nat, y: nat)
    requires y > 0
    ensures I.Quotient(x, y) == x / y
  {
  }

  /** A pair of one-signed pieces yields every signed result, including MIN / -1. */
  lemma SignedPieceOpSound(rem: bool, a: I.Interval, b: I.Interval, aneg: bool, bneg: bool, m: nat, x: nat, y: nat)
    requires a.Wf(m) && b.Wf(m) && OneSign(a, aneg, m) && OneSign(b, bneg, m) && m >= 2 && m % 2 == 0
    requires a.Has(x) && b.Has(y) && y > 0
    ensures 0 <= WordOp(true, rem, x, y, m) < m
    ensures HasBot(SignedPieceOp(rem, a, b, aneg, bneg, m), WordOp(true, rem, x, y, m), m)
  {
    hide UnsignedOp, IntervalOp, FromLinear, MagnitudeInterval, WordOp, Neg, SignedView;
    var sx, sy := Magnitude(SignedView(x, m)), Magnitude(SignedView(y, m));
    MagnitudeHas(a, aneg, m, x);
    MagnitudeHas(b, bneg, m, y);
    var aa, bb := MagnitudeInterval(a, aneg, m), MagnitudeInterval(b, bneg, m);
    IntervalOpSound(rem, aa, bb, m, sx, sy);
    SignedOpOnMagnitudes(rem, x, y, m);
    var u := UnsignedOp(rem, sx, sy);
    FromLinearHas(IntervalOp(rem, aa, bb, m), m, u);
    var v := FromLinear(IntervalOp(rem, aa, bb, m), m);
    NegExact(v.value, m, WordNeg(u, m));
    assert WordNeg(WordNeg(u, m), m) == u;
  }

  /** The member of a one-signed piece with a given magnitude. */
  lemma MagnitudePreimage(i: I.Interval, negative: bool, m: nat, k: nat) returns (x: nat)
    requires i.Wf(m) && OneSign(i, negative, m) && m >= 2 && m % 2 == 0
    requires MagnitudeInterval(i, negative, m).Has(k)
    ensures i.Has(x) && Magnitude(SignedView(x, m)) == k && (SignedView(x, m) < 0 <==> negative)
    ensures k > 0 ==> x > 0
  {
    x := if negative then m - k else k;
  }

  /** Each end of the quotient of two one-signed pieces is the quotient of two members. */
  lemma SignedDivAttained(a: I.Interval, b: I.Interval, aneg: bool, bneg: bool, m: nat, first: bool)
    returns (x: nat, y: nat)
    requires a.Wf(m) && b.Wf(m) && OneSign(a, aneg, m) && OneSign(b, bneg, m) && m >= 2 && m % 2 == 0 && b.hi > 0
    ensures a.Has(x) && b.Has(y) && 0 < y < m && x < m
    ensures var r := SignedPieceOp(false, a, b, aneg, bneg, m);
            r.Val? && (r.value.Arc? ==> WordOp(true, false, x, y, m) == if first then r.value.lo else r.value.hi)
  {
    hide WordOp, SignedView, MagnitudeInterval, I.Quotient;
    var aa, bb := MagnitudeInterval(a, aneg, m), MagnitudeInterval(b, bneg, m);
    MagnitudeHas(b, bneg, m, b.hi);
    var low := first == (aneg == bneg);
    var p, q := if low then aa.lo else aa.hi, if low then bb.hi else I.LeastDivisor(bb);
    x := MagnitudePreimage(a, aneg, m, p);
    y := MagnitudePreimage(b, bneg, m, q);
    SignedOpOnMagnitudes(false, x, y, m);
    I.DivIsHull(aa, bb, m, aa.lo, bb.hi);
    QuotientIs(p, q);
  }
}
