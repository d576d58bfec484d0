/**
  How tight quotients of arcs are. The ends are quotients of members, no cover of
  at most half the circle is left, one-sided operands get the smallest arc, and
  dividing by one changes nothing.
 */
module WrappedQuotients {
  import opened DivModFacts
  import opened Lattice
  import opened WrappedIntervals
  import opened WrappedDivision
  import opened WrappedDivRem
  import opened WrappedPrecision
  import I = Intervals

  // ----- quotients

  ghost predicate IsQuotient(signed: bool, z: nat, a: Wrapped, d: Wrapped, m: nat)
    requires a.Wf(m) && d.Wf(m)
  {
    exists x: nat, y: nat :: a.Has(x, m) && d.Has(y, m) && y > 0 && WordOp(signed, false, x, y, m) == z
  }

  ghost predicate EndsAreQuotients(signed: bool, r: BotOr<Wrapped>, a: Wrapped, d: Wrapped, m: nat)
    requires a.Wf(m) && d.Wf(m)
  {
    r.Val? && r.value.Arc? ==> IsQuotient(signed, r.value.lo, a, d, m) && IsQuotient(signed, r.value.hi, a, d, m)
  }

  lemma JoinBotEnds(signed: bool, p: BotOr<Wrapped>, q: BotOr<Wrapped>, a: Wrapped, d: Wrapped, m: nat)
    requires a.Wf(m) && d.Wf(m) && WfBot(p, m) && WfBot(q, m)
    requires EndsAreQuotients(signed, p, a, d, m) && EndsAreQuotients(signed, q, a, d, m)
    ensures EndsAreQuotients(signed, JoinBot(p, q, m), a, d, m)
  {
    hide Join, IsQuotient;
    if p.Val? && q.Val? && Join(p.value, q.value, m).Arc? {
      JoinEnds(p.value, q.value, m);
    }
  }

  /** Magnitudes reach no further than half the circle, so one pair of pieces never fills it. */
  lemma SignedPieceShort(rem: bool, a: I.Interval, b: I.Interval, aneg: bool, bneg: bool, m: nat)
    requires a.Wf(m) && b.Wf(m) && OneSign(a, aneg, m) && OneSign(b, bneg, m) && m >= 2 && m % 2 == 0
    ensures var r := SignedPieceOp(rem, a, b, aneg, bneg, m);
            r.Val? ==> b.hi > 0 && r.value.Arc? && 2 * r.value.Size(m) <= m + 2
  {
    hide IntervalOp, MagnitudeInterval, OneSign;
    var aa, bb := MagnitudeInterval(a, aneg, m), MagnitudeInterval(b, bneg, m);
    MagnitudesShort(a, aneg, m);
    MagnitudesShort(b, bneg, m);
    IntervalOpShort(rem, aa, bb, m);
  }

  lemma MagnitudesShort(a: I.Interval, negative: bool, m: nat)
    requires a.Wf(m) && OneSign(a, negative, m) && m >= 2 && m % 2 == 0
    ensures var r := MagnitudeInterval(a, negative, m);
            r.hi <= m / 2 && (m == 2 ==> r.lo == r.hi) && (r.hi > 0 ==> a.hi > 0)
  {
  }

  lemma IntervalOpShort(rem: bool, a: I.Interval, b: I.Interval, m: nat)
    requires a.Wf(m) && b.Wf(m) && m >= 2 && m % 2 == 0 && a.hi <= m / 2 && b.hi <= m / 2
    requires m == 2 ==> a.lo == a.hi && b.lo == b.hi
    ensures var r := IntervalOp(rem, a, b, m);
            r.Val? ==> b.hi > 0 && r.value.hi <= m / 2 && r.value.hi - r.value.lo < m - 1
  {
    if b.hi > 0 {
      I.RemSound(a, b, m, a.lo, b.hi);
    }
  }

  lemma QuadrantEnds(a: Wrapped, d: Wrapped, m: nat, i: nat, j: nat)
    requires a.Wf(m) && d.Wf(m) && i < 4 && j < 4 && m >= 2 && m % 2 == 0
    ensures var r := Quadrant(false, a, d, m, i, j);
            EndsAreQuotients(true, r, a, d, m) && (r.Val? ==> r.value.Arc? && 2 * r.value.Size(m) <= m + 2)
  {
    hide PieceOf, SignedPieceOp, WordOp, PieceIndex;
    var r := Quadrant(false, a, d, m, i, j);
    if r.Val? {
      var p, q := PieceOf(a, i, m).value, PieceOf(d, j, m).value;
      SignedPieceShort(false, p, q, i % 2 == 1, j % 2 == 1, m);
      var x1, y1 := SignedDivAttained(p, q, i % 2 == 1, j % 2 == 1, m, true);
      var x2, y2 := SignedDivAttained(p, q, i % 2 == 1, j % 2 == 1, m, false);
      PieceExact(a, i, m, x1);
      PieceExact(a, i, m, x2);
      PieceExact(d, j, m, y1);
      PieceExact(d, j, m, y2);
    }
  }

  lemma {:induction false} UpToEnds(a: Wrapped, d: Wrapped, m: nat, n: nat)
    requires a.Wf(m) && d.Wf(m) && n <= 16 && m >= 2 && m % 2 == 0
    ensures EndsAreQuotients(true, SignedUpTo(false, a, d, m, n), a, d, m)
    decreases n
  {
    hide Quadrant, JoinBot, EndsAreQuotients;
    if n == 0 {
      NoEnds(a, d, m);
    } else {
      UpToEnds(a, d, m, n - 1);
      QuadrantEnds(a, d, m, (n - 1) / 4, (n - 1) % 4);
      JoinBotEnds(true, SignedUpTo(false, a, d, m, n - 1), Quadrant(false, a, d, m, (n - 1) / 4, (n - 1) % 4), a, d, m);
    }
  }

  lemma NoEnds(a: Wrapped, d: Wrapped, m: nat)
    requires a.Wf(m) && d.Wf(m)
    ensures EndsAreQuotients(true, Bot, a, d, m)
  {
  }

  lemma UnsignedPieceEnds(a: Wrapped, d: Wrapped, m: nat, i: nat, j: nat)
    requires a.Wf(m) && d.Wf(m) && i < 2 && j < 2 && m >= 2
    ensures EndsAreQuotients(false, UnsignedPieceOp(false, UnsignedPiece(a, i, m), UnsignedPiece(d, j, m), m), a, d, m)
  {
    hide UnsignedPiece, I.Quotient, Lap;
    var p, q := UnsignedPiece(a, i, m), UnsignedPiece(d, j, m);
    var r := UnsignedPieceOp(false, p, q, m);
    if r.Val? && r.value.Arc? {
      var least := I.LeastDivisor(q.value);
      UnsignedPieceExact(a, i, m, p.value.lo);
      UnsignedPieceExact(a, i, m, p.value.hi);
      UnsignedPieceExact(d, j, m, q.value.hi);
      UnsignedPieceExact(d, j, m, least);
      I.DivIsHull(p.value, q.value, m, p.value.lo, q.value.hi);
      QuotientIs(p.value.lo, q.value.hi);
      QuotientIs(p.value.hi, least);
      assert WordOp(false, false, p.value.lo, q.value.hi, m) == r.value.lo;
      assert WordOp(false, false, p.value.hi, least, m) == r.value.hi;
    }
  }

  lemma UnsignedEnds(a: Wrapped, d: Wrapped, m: nat)
    requires a.Wf(m) && d.Wf(m) && m >= 2
    ensures EndsAreQuotients(false, UnsignedDivRem(false, a, d, m), a, d, m)
  {
    hide JoinBot, UnsignedPieceOp, UnsignedPiece, EndsAreQuotients;
    var a0, a1 := UnsignedPiece(a, 0, m), UnsignedPiece(a, 1, m);
    var d0, d1 := UnsignedPiece(d, 0, m), UnsignedPiece(d, 1, m);
    var r00, r01 := UnsignedPieceOp(false, a0, d0, m), UnsignedPieceOp(false, a0, d1, m);
    var r10, r11 := UnsignedPieceOp(false, a1, d0, m), UnsignedPieceOp(false, a1, d1, m);
    UnsignedPieceEnds(a, d, m, 0, 0);
    UnsignedPieceEnds(a, d, m, 0, 1);
    UnsignedPieceEnds(a, d, m, 1, 0);
    UnsignedPieceEnds(a, d, m, 1, 1);
    JoinBotEnds(false, r00, r01, a, d, m);
    JoinBotEnds(false, JoinBot(r00, r01, m), r10, a, d, m);
    JoinBotEnds(false, JoinBot(JoinBot(r00, r01, m), r10, m), r11, a, d, m);
  }

  /** Whatever the operands, both ends of a quotient arc are quotients of members. */
  lemma {:induction false} QuotientEnds(signed: bool, a: Wrapped, d: Wrapped, m: nat)
    requires a.Wf(m) && d.Wf(m) && m >= 2 && m % 2 == 0
    ensures EndsAreQuotients(signed, DivRem(signed, false, a, d, m).0, a, d, m)
  {
    hide SignedUpTo, UnsignedDivRem, IsQuotient;
    if signed {
      UpToEnds(a, d, m, 16);
    } else {
      UnsignedEnds(a, d, m);
    }
  }

  lemma HoldsQuotient(signed: bool, c: Wrapped, a: Wrapped, d: Wrapped, m: nat, z: nat)
    requires a.Wf(m) && d.Wf(m) && c.Wf(m) && HoldsResults(signed, false, c, a, d, m) && IsQuotient(signed, z, a, d, m)
    ensures c.Has(z, m)
  {
    hide WordOp;
  }

  lemma {:induction false} SignedHalfCircle(a: Wrapped, d: Wrapped, m: nat, c: Wrapped)
    requires a.Wf(m) && d.Wf(m) && c.Wf(m) && m >= 2 && m % 2 == 0
    requires HoldsResults(true, false, c, a, d, m) && 2 * c.Size(m) <= m
    ensures SubsetBot(SignedUpTo(false, a, d, m, 16), c, m)
  {
    hide SignedUpTo, Quadrant, IsQuotient, HoldsResults, Subset;
    forall i: nat, j: nat | i < 4 && j < 4 ensures SubsetBot(Quadrant(false, a, d, m, i, j), c, m) {
      var r := Quadrant(false, a, d, m, i, j);
      QuadrantEnds(a, d, m, i, j);
      if r.Val? {
        HoldsQuotient(true, c, a, d, m, r.value.lo);
        HoldsQuotient(true, c, a, d, m, r.value.hi);
        ShortArc(r.value, c, m);
      }
    }
    UpToWithin(false, a, d, m, 16, c);
  }

  /** The signed quotient of one-sided operands is the smallest arc that holds every quotient. */
  lemma {:induction false} SignedQuotientSmallest(a: Wrapped, d: Wrapped, m: nat, c: Wrapped)
    requires a.Wf(m) && d.Wf(m) && c.Wf(m) && m >= 2 && m % 2 == 0
    requires OneSided(a, m) && OneSided(d, m) && d.hi > 0 && HoldsResults(true, false, c, a, d, m)
    ensures var r := DivRem(true, false, a, d, m).0;
            && r.Val? && r.value.Arc? && r.value.Size(m) <= c.Size(m)
            && IsQuotient(true, r.value.lo, a, d, m) && IsQuotient(true, r.value.hi, a, d, m)
  {
    hide SignedUpTo, Quadrant, IsQuotient, HoldsResults;
    DivRemBottom(true, false, a, d, m);
    Ends(d, m);
    OneSidedUpTo(false, a, d, m, 16);
    var r := DivRem(true, false, a, d, m).0;
    QuadrantEnds(a, d, m, Side(a, m), Side(d, m));
    HoldsQuotient(true, c, a, d, m, r.value.lo);
    HoldsQuotient(true, c, a, d, m, r.value.hi);
    ShortIsSmallest(r.value, c, m);
  }

  // ----- unsigned quotients of intervals

  /** No quotient lies strictly between e and s. */
  ghost predicate Avoids(a: I.Interval, d: I.Interval, e: nat, s: nat) {
    forall x: nat, y: nat | a.Has(x) && d.Has(y) && y > 0 :: x / y <= e || s <= x / y
  }

  /** The quotients by one divisor are consecutive, so they stay on one side of a gap. */
  lemma OneColumn(a: I.Interval, d: I.Interval, e: nat, s: nat, y: nat)
    requires a.lo <= a.hi && d.Has(y) && y > 0 && Avoids(a, d, e, s) && e + 2 <= s
    ensures a.hi / y <= e || s <= a.lo / y
  {
    if a.hi / y > e && a.lo / y < s {
      assert a.Has(a.lo) && a.Has(a.hi);
      var x := (e + 1) * y;
      Unique(x, y, e + 1, 0);
      FirstAbove(a.lo, y, e);
      FirstAbove(a.hi, y, e);
      assert x / y == e + 1;
      assert a.Has(x);
    }
  }

  lemma FirstAbove(x: nat, y: nat, e: nat)
    requires y > 0
    ensures x / y <= e <==> x < (e + 1) * y
  {
    assert x == y * (x / y) + x % y;
    if x / y <= e {
      MulMono(x / y, e, y);
    } else {
      MulMono(e + 1, x / y, y);
    }
  }

  /** A gap between quotients opens between two consecutive divisors. */
  lemma {:induction false} GapBetween(a: I.Interval, d: I.Interval, e: nat, s: nat, y: nat) returns (k: nat)
    requires a.lo <= a.hi && d.Has(y) && y > 0 && Avoids(a, d, e, s) && e + 2 <= s
    requires a.lo / d.hi <= e && s <= a.lo / y
    ensures y <= k < d.hi && s <= a.lo / k && a.hi / (k + 1) <= e
    decreases d.hi - y
  {
    assert y < d.hi;
    OneColumn(a, d, e, s, y + 1);
    if a.hi / (y + 1) <= e {
      k := y;
    } else {
      k := GapBetween(a, d, e, s, y + 1);
    }
  }

  /** An arc with both ends of an interval holds the interval, or leaves a gap inside it. */
  lemma HoldsOrSkips(c: Wrapped, lo: nat, hi: nat, m: nat)
    requires c.Wf(m) && lo <= hi < m && c.Has(lo, m) && c.Has(hi, m)
    ensures Subset(New(lo, hi, m), c, m) || (c.Arc? && lo <= c.hi && c.hi + 2 <= c.lo && c.lo <= hi)
  {
    if c.Arc? && c.lo <= c.hi {
      forall x: nat | New(lo, hi, m).Has(x, m) ensures c.Has(x, m) { NewHas(lo, hi, m, x); }
    } else if c.Arc? && !(lo <= c.hi && c.lo <= hi) {
      forall x: nat | New(lo, hi, m).Has(x, m) ensures c.Has(x, m) { NewHas(lo, hi, m, x); }
    }
  }

  ghost predicate HoldsIntervalQuotients(c: Wrapped, a: I.Interval, d: I.Interval, m: nat)
    requires c.Wf(m)
  {
    forall x: nat, y: nat | a.Has(x) && d.Has(y) && y > 0 :: c.Has(x / y, m)
  }

  lemma HoldsAt(c: Wrapped, a: I.Interval, d: I.Interval, m: nat, x: nat, y: nat)
    requires c.Wf(m) && HoldsIntervalQuotients(c, a, d, m) && a.Has(x) && d.Has(y) && y > 0
    ensures c.Has(x / y, m)
  {
  }

  lemma NotSkipped(c: Wrapped, m: nat, z: nat)
    requires c.Wf(m) && c.Arc? && c.hi < c.lo && c.Has(z, m)
    ensures z <= c.hi || c.lo <= z
  {
  }

  lemma AvoidsSkipped(c: Wrapped, a: I.Interval, d: I.Interval, m: nat)
    requires c.Wf(m) && c.Arc? && c.hi < c.lo && HoldsIntervalQuotients(c, a, d, m)
    ensures Avoids(a, d, c.hi, c.lo)
  {
    hide HoldsIntervalQuotients, Distance;
    forall x: nat, y: nat | a.Has(x) && d.Has(y) && y > 0 ensures x / y <= c.hi || c.lo <= x / y {
      HoldsAt(c, a, d, m, x, y);
      NotSkipped(c, m, x / y);
    }
  }

  /** An arc that holds every quotient but not all between them skips a gap between two divisors. */
  lemma SkippedGap(c: Wrapped, a: I.Interval, d: I.Interval, m: nat, lo: nat, hi: nat) returns (k: nat)
    requires c.Wf(m) && a.Wf(m) && d.Wf(m) && d.hi > 0 && HoldsIntervalQuotients(c, a, d, m)
    requires lo == a.lo / d.hi && hi == a.hi / I.LeastDivisor(d) && lo <= hi < m && !Subset(New(lo, hi, m), c, m)
    ensures c.Arc? && I.LeastDivisor(d) <= k < d.hi && k > 0 && a.hi / (k + 1) <= c.hi < c.lo <= a.lo / k
  {
    hide Subset, New, Avoids, HoldsIntervalQuotients;
    var least := I.LeastDivisor(d);
    HoldsAt(c, a, d, m, a.lo, d.hi);
    HoldsAt(c, a, d, m, a.hi, least);
    HoldsOrSkips(c, lo, hi, m);
    AvoidsSkipped(c, a, d, m);
    OneColumn(a, d, c.hi, c.lo, least);
    k := GapBetween(a, d, c.hi, c.lo, least);
  }

  /** Consecutive quotients of a word lie no more than half the circle apart. */
  lemma HalfDrop(x: nat, k: nat, m: nat)
    requires x < m && k > 0
    ensures 2 * (x / k - x / (k + 1)) <= m
  {
    if k >= 2 {
      DivAnti(x, 2, k);
    } else {
      Unique(x, 1, x, 0);
    }
  }

  lemma UnsignedPieceHalfCircle(c: Wrapped, a: I.Interval, d: I.Interval, m: nat)
    requires c.Wf(m) && a.Wf(m) && d.Wf(m) && d.hi > 0 && HoldsIntervalQuotients(c, a, d, m) && 2 * c.Size(m) <= m
    ensures I.Div(a, d).Val? && SubsetBot(FromLinear(IntervalOp(false, a, d, m), m), c, m)
  {
    hide HoldsIntervalQuotients, Subset;
    I.DivIsHull(a, d, m, a.lo, d.hi);
    if !Subset(New(a.lo / d.hi, a.hi / I.LeastDivisor(d), m), c, m) {
      var k := SkippedGap(c, a, d, m, a.lo / d.hi, a.hi / I.LeastDivisor(d));
      DivMono(a.lo, a.hi, k);
      HalfDrop(a.hi, k, m);
    }
  }

  lemma PieceQuotients(c: Wrapped, a: Wrapped, d: Wrapped, m: nat, i: nat, j: nat)
    requires a.Wf(m) && d.Wf(m) && c.Wf(m) && i < 2 && j < 2 && m >= 2 && HoldsResults(false, false, c, a, d, m)
    requires UnsignedPiece(a, i, m).Val? && UnsignedPiece(d, j, m).Val?
    ensures HoldsIntervalQuotients(c, UnsignedPiece(a, i, m).value, UnsignedPiece(d, j, m).value, m)
  {
    hide UnsignedPiece, Lap;
    var p, q := UnsignedPiece(a, i, m).value, UnsignedPiece(d, j, m).value;
    forall x: nat, y: nat | p.Has(x) && q.Has(y) && y > 0 ensures c.Has(x / y, m) {
      UnsignedPieceExact(a, i, m, x);
      UnsignedPieceExact(d, j, m, y);
      QuotientIs(x, y);
      assert WordOp(false, false, x, y, m) == x / y;
    }
  }

  lemma UnsignedHalfCircle(a: Wrapped, d: Wrapped, m: nat, c: Wrapped)
    requires a.Wf(m) && d.Wf(m) && c.Wf(m) && m >= 2 && HoldsResults(false, false, c, a, d, m) && 2 * c.Size(m) <= m
    ensures SubsetBot(UnsignedDivRem(false, a, d, m), c, m)
  {
    hide UnsignedDivRem, UnsignedPiece, HoldsResults, HoldsIntervalQuotients, Subset, FromLinear;
    forall i: nat, j: nat | i < 2 && j < 2
      ensures SubsetBot(UnsignedPieceOp(false, UnsignedPiece(a, i, m), UnsignedPiece(d, j, m), m), c, m)
    {
      var p, q := UnsignedPiece(a, i, m), UnsignedPiece(d, j, m);
      if p.Val? && q.Val? {
        PieceQuotients(c, a, d, m, i, j);
        if q.value.hi > 0 {
          UnsignedPieceHalfCircle(c, p.value, q.value, m);
        } else {
          assert FromLinear(Bot, m).Bot? by { NothingFromBottom(m); }
        }
      }
    }
    UnsignedWithin(false, a, d, m, c);
  }

  lemma NothingFromBottom(m: nat)
    ensures FromLinear(Bot, m).Bot?
  {
  }

  /** Any arc of at most half the circle that holds every quotient holds the whole result, for all operands. */
  lemma {:induction false} HalfCircle(signed: bool, a: Wrapped, d: Wrapped, m: nat, c: Wrapped)
    requires a.Wf(m) && d.Wf(m) && c.Wf(m) && m >= 2 && m % 2 == 0
    requires HoldsResults(signed, false, c, a, d, m) && 2 * c.Size(m) <= m
    ensures SubsetBot(DivRem(signed, false, a, d, m).0, c, m)
  {
    hide SignedUpTo, UnsignedDivRem, HoldsResults, Subset;
    if signed {
      SignedHalfCircle(a, d, m, c);
    } else {
      UnsignedHalfCircle(a, d, m, c);
    }
  }

  // ----- unsigned quotients of arcs that do not pass zero

  /** On arcs that do not pass zero the unsigned quotient is the least interval that holds every quotient. */
  lemma UnsignedQuotientLeast(a: Wrapped, d: Wrapped, m: nat, c: I.Interval)
    requires a.Wf(m) && d.Wf(m) && m >= 2 && m % 2 == 0 && Plain(a) && Plain(d) && d.hi > 0
    requires HoldsQuotients(c, a, d, m)
    ensures var q := I.Interval(a.lo / d.hi, a.hi / LeastDivisor(d));
            q.Wf(m) && DivRem(false, false, a, d, m).0 == Val(New(q.lo, q.hi, m)) && I.Leq(q, c)
  {
    hide UnsignedDivRem, HoldsQuotients, I.Quotient;
    PlainQuotient(a, d, m);
    UnsignedDivLeast(a, d, m, c);
    I.DivIsHull(I.Interval(a.lo, a.hi), I.Interval(d.lo, d.hi), m, a.lo, d.hi);
  }

  function LeastDivisor(d: Wrapped): (y: nat)
    requires d.Arc?
    ensures y > 0
  {
    I.LeastDivisor(I.Interval(d.lo, d.hi))
  }

  lemma PlainQuotient(a: Wrapped, d: Wrapped, m: nat)
    requires a.Wf(m) && d.Wf(m) && m >= 2 && m % 2 == 0 && Plain(a) && Plain(d) && d.hi > 0
    ensures a.lo / d.hi <= a.hi / LeastDivisor(d) < m
    ensures DivRem(false, false, a, d, m).0 == Val(New(a.lo / d.hi, a.hi / LeastDivisor(d), m))
  {
    hide UnsignedDivRem, I.Quotient;
    UnsignedLinear(false, a, d, m);
    I.DivIsHull(I.Interval(a.lo, a.hi), I.Interval(d.lo, d.hi), m, a.lo, d.hi);
  }

  /** How far the quotients drop from divisor y to divisor y + 1. */
  function Drop(a: Wrapped, y: nat): int
    requires a.Arc? && y > 0
  {
    a.lo / y - a.hi / (y + 1)
  }

  /** No drop between two divisors is wider than the words outside the quotients. */
  predicate NoWideDrop(a: Wrapped, d: Wrapped, m: nat)
    requires a.Arc? && d.Arc? && d.hi > 0
  {
    forall y: nat | LeastDivisor(d) <= y < d.hi :: Drop(a, y) <= m - (a.hi / LeastDivisor(d) - a.lo / d.hi)
  }

  lemma DropIs(a: Wrapped, y: nat)
    requires a.Arc? && y > 0
    ensures Drop(a, y) == a.lo / y - a.hi / (y + 1)
  {
  }

  lemma PlainHolds(c: Wrapped, a: Wrapped, d: Wrapped, m: nat)
    requires a.Wf(m) && d.Wf(m) && c.Wf(m) && m >= 2 && Plain(a) && Plain(d) && HoldsResults(false, false, c, a, d, m)
    ensures HoldsIntervalQuotients(c, I.Interval(a.lo, a.hi), I.Interval(d.lo, d.hi), m)
  {
    hide HoldsResults, HoldsIntervalQuotients;
    PieceQuotients(c, a, d, m, 0, 0);
  }

  /** The arc that goes round the drop after divisor y holds every quotient. */
  lemma RoundTheGap(a: Wrapped, d: Wrapped, m: nat, y: nat, lo: nat, hi: nat)
    requires a.Wf(m) && d.Wf(m) && m >= 2 && Plain(a) && Plain(d) && LeastDivisor(d) <= y < d.hi
    requires hi == a.hi / (y + 1) && lo == a.lo / y && hi < lo < m
    ensures HoldsResults(false, false, New(lo, hi, m), a, d, m)
  {
    hide I.Quotient;
    var c := New(lo, hi, m);
    forall u: nat, v: nat | a.Has(u, m) && d.Has(v, m) && v > 0
      ensures 0 <= WordOp(false, false, u, v, m) && c.Has(WordOp(false, false, u, v, m), m)
    {
      QuotientIs(u, v);
      QuotientBelow(u, v);
      if v <= y {
        DivMono(a.lo, u, v);
        DivAnti(a.lo, v, y);
      } else {
        DivMono(u, a.hi, v);
        DivAnti(a.hi, y + 1, v);
      }
      NewHas(lo, hi, m, u / v);
    }
  }

  lemma QuotientBelow(x: nat, y: nat)
    requires y > 0
    ensures x / y <= x
  {
    DivAnti(x, 1, y);
    Unique(x, 1, x, 0);
  }

  lemma SmallCover(c: Wrapped, a: Wrapped, d: Wrapped, m: nat, lo: nat, hi: nat)
    requires a.Wf(m) && d.Wf(m) && c.Wf(m) && m >= 2 && Plain(a) && Plain(d) && d.hi > 0
    requires lo == a.lo / d.hi && hi == a.hi / LeastDivisor(d) && lo <= hi < m
    requires HoldsResults(false, false, c, a, d, m) && NoWideDrop(a, d, m)
    ensures hi - lo + 1 <= c.Size(m)
  {
    hide HoldsResults, Drop, HoldsIntervalQuotients, Subset, I.LeastDivisor, New;
    NewSize(lo, hi, m);
    PlainHolds(c, a, d, m);
    if Subset(New(lo, hi, m), c, m) {
      SizeMonotone(New(lo, hi, m), c, m);
    } else {
      var k := SkippedGap(c, I.Interval(a.lo, a.hi), I.Interval(d.lo, d.hi), m, lo, hi);
      DropIs(a, k);
    }
  }

  lemma WideDrop(a: Wrapped, d: Wrapped, m: nat, y: nat, size: nat) returns (c: Wrapped)
    requires a.Wf(m) && d.Wf(m) && m >= 2 && Plain(a) && Plain(d) && LeastDivisor(d) <= y < d.hi
    requires Drop(a, y) > m - size + 1 > 0
    ensures c.Wf(m) && HoldsResults(false, false, c, a, d, m) && c.Size(m) < size
  {
    hide HoldsResults, Drop, I.LeastDivisor, New;
    DropIs(a, y);
    QuotientBelow(a.lo, y);
    var lo, hi := a.lo / y, a.hi / (y + 1);
    RoundTheGap(a, d, m, y, lo, hi);
    c := New(lo, hi, m);
    NewSize(lo, hi, m);
  }

  /** That interval is also the smallest arc exactly when no drop is too wide. */
  lemma UnsignedSmallestIff(a: Wrapped, d: Wrapped, m: nat)
    requires a.Wf(m) && d.Wf(m) && m >= 2 && m % 2 == 0 && Plain(a) && Plain(d) && d.hi > 0
    ensures Smallest(false, false, a, d, m) <==> NoWideDrop(a, d, m)
  {
    hide DivRem, HoldsResults, New, LeastDivisor, Drop;
    PlainQuotient(a, d, m);
    var lo, hi := a.lo / d.hi, a.hi / LeastDivisor(d);
    NewSize(lo, hi, m);
    if NoWideDrop(a, d, m) {
      forall c: Wrapped | c.Wf(m) && HoldsResults(false, false, c, a, d, m)
        ensures New(lo, hi, m).Size(m) <= c.Size(m)
      {
        SmallCover(c, a, d, m, lo, hi);
      }
    } else {
      var y: nat :| LeastDivisor(d) <= y < d.hi && Drop(a, y) > m - (hi - lo);
      var c := WideDrop(a, d, m, y, hi - lo + 1);
    }
  }

  /** On 4 bits {15} by [1, 15] gives [1, 15]; the arc from 15 round to 7 holds every quotient. */
  lemma UnsignedNotSmallest()
    ensures !NoWideDrop(Arc(15, 15), Arc(1, 15), 16) && !Smallest(false, false, Arc(15, 15), Arc(1, 15), 16)
  {
    hide DivRem, HoldsResults;
    assert Drop(Arc(15, 15), 1) == 8;
    UnsignedSmallestIff(Arc(15, 15), Arc(1, 15), 16);
  }

  // ----- division by one

  lemma PieceByOne(a: Wrapped, m: nat, k: nat)
    requires a.Wf(m) && k < 4 && m >= 4 && m % 2 == 0
    ensures Quadrant(false, a, Arc(1, 1), m, k, 0) == FromLinear(PieceOf(a, k, m), m)
  {
    hide PieceOf, I.Quotient;
    var p := PieceOf(a, k, m);
    if p.Val? {
      OneSidedPieces(Arc(1, 1), m, 0);
      var aa := MagnitudeInterval(p.value, k % 2 == 1, m);
      ByOne(aa.lo);
      ByOne(aa.hi);
    } else {
      NothingFromBottom(m);
    }
  }

  lemma ByOne(x: nat)
    ensures I.Quotient(x, 1) == x
  {
    QuotientIs(x, 1);
    Unique(x, 1, x, 0);
  }

  /** Consecutive arcs join to the arc from the start of the first to the end of the second. */
  lemma JoinConsecutive(lo: nat, k: nat, hi: nat, m: nat)
    requires lo < m && k < m && hi < m && Distance(lo, k, m) < Distance(lo, hi, m)
    ensures Join(New(lo, k, m), New(Wrap(k + 1, m), hi, m), m) == New(lo, hi, m)
  {
    var a, b := New(lo, k, m), New(Wrap(k + 1, m), hi, m);
    Span(lo, Wrap(k + 1, m), hi, m);
    if b.Arc? {
      FromFirst(a, b, m);
    }
  }

  lemma LapJoin(i: I.Interval, m: nat)
    requires i.Wf(m) && m >= 4 && m % 2 == 0
    ensures var low := I.New(i.lo, if m / 2 - 1 < i.hi then m / 2 - 1 else i.hi);
            var high := I.New(if i.lo < m / 2 then m / 2 else i.lo, i.hi);
            JoinBot(FromLinear(low, m), FromLinear(high, m), m) == Val(New(i.lo, i.hi, m))
  {
    hide Join;
    if i.lo < m / 2 <= i.hi {
      JoinConsecutive(i.lo, m / 2 - 1, i.hi, m);
    }
  }

  /** The four pieces of an arc join to the arc. */
  lemma PiecesJoin(a: Wrapped, m: nat)
    requires a.Wf(m) && m >= 4 && m % 2 == 0
    ensures JoinBot(JoinBot(JoinBot(FromLinear(PieceOf(a, 0, m), m), FromLinear(PieceOf(a, 1, m), m), m),
                            FromLinear(PieceOf(a, 2, m), m), m), FromLinear(PieceOf(a, 3, m), m), m) == Val(a)
  {
    hide Join;
    LapJoin(UnsignedPiece(a, 0, m).value, m);
    if a.Arc? && a.lo > a.hi {
      SecondLap(a, m);
    }
  }

  lemma SecondLap(a: Wrapped, m: nat)
    requires a.Wf(m) && a.Arc? && a.lo > a.hi && m >= 4 && m % 2 == 0
    ensures JoinBot(JoinBot(Val(New(a.lo, m - 1, m)), FromLinear(PieceOf(a, 2, m), m), m),
                    FromLinear(PieceOf(a, 3, m), m), m) == Val(a)
  {
    hide Join;
    var top := if m / 2 - 1 < a.hi then m / 2 - 1 else a.hi;
    JoinConsecutive(a.lo, m - 1, top, m);
    if m / 2 <= a.hi {
      JoinConsecutive(a.lo, m / 2 - 1, a.hi, m);
    }
  }

  lemma LapsJoin(a: Wrapped, m: nat)
    requires a.Wf(m) && m >= 2
    ensures JoinBot(FromLinear(UnsignedPiece(a, 0, m), m), FromLinear(UnsignedPiece(a, 1, m), m), m) == Val(a)
  {
    hide Join;
    if a.Arc? && a.lo > a.hi {
      JoinConsecutive(a.lo, m - 1, a.hi, m);
    }
  }

  /** Dividing any arc by one gives the arc back. */
  lemma {:induction false} QuotientByOne(signed: bool, a: Wrapped, m: nat)
    requires a.Wf(m) && m >= 4 && m % 2 == 0
    ensures DivRem(signed, false, a, Arc(1, 1), m) == (Val(a), Never)
  {
    if signed {
      hide SignedUpTo, JoinBot, PieceOf, FromLinear, Quadrant;
      DivisorRows(false, a, Arc(1, 1), m);
      PieceByOne(a, m, 0);
      PieceByOne(a, m, 1);
      PieceByOne(a, m, 2);
      PieceByOne(a, m, 3);
      PiecesJoin(a, m);
    } else {
      hide Join, UnsignedPiece, FromLinear;
      UnsignedByOne(a, m);
      LapsJoin(a, m);
    }
  }

  lemma UnsignedPieceByOne(p: BotOr<I.Interval>, m: nat)
    requires I.WfBot(p, m) && m >= 2
    ensures UnsignedPieceOp(false, p, Val(I.Interval(1, 1)), m) == FromLinear(p, m)
  {
    hide I.Quotient;
    if p.Val? {
      ByOne(p.value.lo);
      ByOne(p.value.hi);
    }
  }

  lemma UnsignedByOne(a: Wrapped, m: nat)
    requires a.Wf(m) && m >= 4
    ensures UnsignedDivRem(false, a, Arc(1, 1), m)
         == JoinBot(FromLinear(UnsignedPiece(a, 0, m), m), FromLinear(UnsignedPiece(a, 1, m), m), m)
  {
    hide Join, IntervalOp, FromLinear;
    UnsignedPieceByOne(UnsignedPiece(a, 0, m), m);
    UnsignedPieceByOne(UnsignedPiece(a, 1, m), m);
  }
}
