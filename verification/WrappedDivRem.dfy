/** Whole-arc division: the joins over pieces, the loops that compute them, and what they contain. */
module WrappedDivRem {
  import opened Lattice
  import opened WrappedIntervals
  import opened WrappedDivision
  import I = Intervals

  function JoinBot(a: BotOr<Wrapped>, b: BotOr<Wrapped>, m: nat): (r: BotOr<Wrapped>)
    requires WfBot(a, m) && WfBot(b, m)
    ensures WfBot(r, m)
  {
    if a.Bot? then b else if b.Bot? then a else Val(Join(a.value, b.value, m))
  }

  lemma JoinBotCovers(a: BotOr<Wrapped>, b: BotOr<Wrapped>, m: nat, x: nat)
    requires WfBot(a, m) && WfBot(b, m) && (HasBot(a, x, m) || HasBot(b, x, m))
    ensures HasBot(JoinBot(a, b, m), x, m)
  {
    hide Join;
    if a.Val? && b.Val? {
      JoinCovers(a.value, b.value, m, x);
    }
  }

  function ZeroFlag(d: Wrapped, m: nat): DivZero
    requires d.Wf(m)
  {
    if !d.Has(0, m) then Never
    else if d.Arc? && d.lo == 0 && d.hi == 0 then Always
    else Maybe
  }

  /** The flag reports exactly which divisors are zero. */
  lemma ZeroFlagExact(d: Wrapped, m: nat)
    requires d.Wf(m) && m >= 2
    ensures ZeroFlag(d, m).Never? <==> !d.Has(0, m)
    ensures ZeroFlag(d, m).Always? <==> forall y: nat | d.Has(y, m) :: y == 0
  {
    if d.Arc? {
      Ends(d, m);
    } else {
      assert d.Has(1, m);
    }
  }

  // ----- unsigned

  function UnsignedDivRem(rem: bool, a: Wrapped, d: Wrapped, m: nat): (r: BotOr<Wrapped>)
    requires a.Wf(m) && d.Wf(m) && m > 0
    ensures WfBot(r, m)
  {
    var a0, a1 := UnsignedPiece(a, 0, m), UnsignedPiece(a, 1, m);
    var d0, d1 := UnsignedPiece(d, 0, m), UnsignedPiece(d, 1, m);
    JoinBot(JoinBot(JoinBot(UnsignedPieceOp(rem, a0, d0, m), UnsignedPieceOp(rem, a0, d1, m), m),
                    UnsignedPieceOp(rem, a1, d0, m), m),
            UnsignedPieceOp(rem, a1, d1, m), m)
  }

  lemma UnsignedSound(rem: bool, a: Wrapped, d: Wrapped, m: nat, x: nat, y: nat)
    requires a.Wf(m) && d.Wf(m) && a.Has(x, m) && d.Has(y, m) && y > 0
    ensures HasBot(UnsignedDivRem(rem, a, d, m), UnsignedOp(rem, x, y), m)
  {
    hide UnsignedPiece, UnsignedPieceOp, UnsignedOp, JoinBot;
    var i, j := Lap(a, x), Lap(d, y);
    LapBound(a, x);
    LapBound(d, y);
    UnsignedPieceExact(a, i, m, x);
    UnsignedPieceExact(d, j, m, y);
    var u := UnsignedOp(rem, x, y);
    UnsignedPieceOpSound(rem, UnsignedPiece(a, i, m), UnsignedPiece(d, j, m), m, x, y);
    var a0, a1 := UnsignedPiece(a, 0, m), UnsignedPiece(a, 1, m);
    var d0, d1 := UnsignedPiece(d, 0, m), UnsignedPiece(d, 1, m);
    var r00, r01 := UnsignedPieceOp(rem, a0, d0, m), UnsignedPieceOp(rem, a0, d1, m);
    var r10, r11 := UnsignedPieceOp(rem, a1, d0, m), UnsignedPieceOp(rem, a1, d1, m);
    var s1 := JoinBot(r00, r01, m);
    var s2 := JoinBot(s1, r10, m);
    if i == 0 { JoinBotCovers(r00, r01, m, u); }
    if i == 0 || j == 0 { JoinBotCovers(s1, r10, m, u); }
    JoinBotCovers(s2, r11, m, u);
  }

  /** On arcs that do not pass zero the result is that of the intervals, so no precision is lost to pieces. */
  lemma UnsignedLinear(rem: bool, a: Wrapped, d: Wrapped, m: nat)
    requires a.Wf(m) && d.Wf(m) && a.Arc? && d.Arc? && a.lo <= a.hi && d.lo <= d.hi
    ensures UnsignedDivRem(rem, a, d, m)
         == FromLinear(IntervalOp(rem, I.Interval(a.lo, a.hi), I.Interval(d.lo, d.hi), m), m)
  {
    hide IntervalOp, FromLinear;
    assert UnsignedPiece(a, 1, m).Bot? && UnsignedPiece(d, 1, m).Bot?;
  }

  ghost predicate HoldsQuotients(c: I.Interval, a: Wrapped, d: Wrapped, m: nat)
    requires a.Wf(m) && d.Wf(m)
  {
    forall x: nat, y: nat | a.Has(x, m) && d.Has(y, m) && y > 0 :: c.Has(x / y)
  }

  /** There the quotient is the least interval of quotients. */
  lemma UnsignedDivLeast(a: Wrapped, d: Wrapped, m: nat, c: I.Interval)
    requires a.Wf(m) && d.Wf(m) && a.Arc? && d.Arc? && a.lo <= a.hi && d.lo <= d.hi && d.hi > 0
    requires HoldsQuotients(c, a, d, m)
    ensures var r := IntervalOp(false, I.Interval(a.lo, a.hi), I.Interval(d.lo, d.hi), m);
            UnsignedDivRem(false, a, d, m) == FromLinear(r, m) && r.Val? && I.Leq(r.value, c)
  {
    hide UnsignedDivRem, FromLinear, I.Quotient;
    UnsignedLinear(false, a, d, m);
    var i, j := I.Interval(a.lo, a.hi), I.Interval(d.lo, d.hi);
    forall x: nat, y: nat | i.Has(x) && j.Has(y) && y > 0 ensures c.Has(x / y) {
      assert a.Has(x, m) && d.Has(y, m);
    }
    I.DivLeast(i, j, m, c);
  }

  // ----- signed

  function Quadrant(rem: bool, a: Wrapped, d: Wrapped, m: nat, i: nat, j: nat): (r: BotOr<Wrapped>)
    requires a.Wf(m) && d.Wf(m) && i < 4 && j < 4 && m >= 2 && m % 2 == 0
    ensures WfBot(r, m)
  {
    var p, q := PieceOf(a, i, m), PieceOf(d, j, m);
    if p.Val? && q.Val? then SignedPieceOp(rem, p.value, q.value, i % 2 == 1, j % 2 == 1, m) else Bot
  }

  /** The join of the first n of the sixteen pairs of pieces. */
  function SignedUpTo(rem: bool, a: Wrapped, d: Wrapped, m: nat, n: nat): (r: BotOr<Wrapped>)
    requires a.Wf(m) && d.Wf(m) && n <= 16 && m >= 2 && m % 2 == 0
    ensures WfBot(r, m)
    decreases n
  {
    if n == 0 then Bot
    else JoinBot(SignedUpTo(rem, a, d, m, n - 1), Quadrant(rem, a, d, m, (n - 1) / 4, (n - 1) % 4), m)
  }

  lemma {:induction false} UpToCovers(rem: bool, a: Wrapped, d: Wrapped, m: nat, n: nat, i: nat, j: nat, z: nat)
    requires a.Wf(m) && d.Wf(m) && n <= 16 && m >= 2 && m % 2 == 0 && i < 4 && j < 4 && 4 * i + j < n
    requires HasBot(Quadrant(rem, a, d, m, i, j), z, m)
    ensures HasBot(SignedUpTo(rem, a, d, m, n), z, m)
    decreases n
  {
    hide JoinBot, Quadrant;
    if 4 * i + j < n - 1 {
      UpToCovers(rem, a, d, m, n - 1, i, j, z);
    } else {
      assert (n - 1) / 4 == i && (n - 1) % 4 == j;
    }
    JoinBotCovers(SignedUpTo(rem, a, d, m, n - 1), Quadrant(rem, a, d, m, (n - 1) / 4, (n - 1) % 4), m, z);
  }

  lemma {:induction false} SignedSound(rem: bool, a: Wrapped, d: Wrapped, m: nat, x: nat, y: nat)
    requires a.Wf(m) && d.Wf(m) && m >= 2 && m % 2 == 0
    requires a.Has(x, m) && d.Has(y, m) && y > 0
    ensures 0 <= WordOp(true, rem, x, y, m) < m
    ensures HasBot(SignedUpTo(rem, a, d, m, 16), WordOp(true, rem, x, y, m), m)
  {
    hide PieceOf, SignedPieceOp, WordOp, SignedUpTo, Lap;
    LapBound(a, x);
    LapBound(d, y);
    var i, j := PieceIndex(a, x, m), PieceIndex(d, y, m);
    PieceExact(a, i, m, x);
    PieceExact(d, j, m, y);
    SignedPieceOpSound(rem, PieceOf(a, i, m).value, PieceOf(d, j, m).value, i % 2 == 1, j % 2 == 1, m, x, y);
    UpToCovers(rem, a, d, m, 16, i, j, WordOp(true, rem, x, y, m));
  }

  // ----- the whole operation

  /** Division or remainder with the zero flag; bottom when every divisor is zero. */
  function DivRem(signed: bool, rem: bool, a: Wrapped, d: Wrapped, m: nat): (r: (BotOr<Wrapped>, DivZero))
    requires a.Wf(m) && d.Wf(m) && m >= 2 && m % 2 == 0
    ensures WfBot(r.0, m)
  {
    var flag := ZeroFlag(d, m);
    if flag.Always? then (Bot, flag)
    else if signed then (SignedUpTo(rem, a, d, m, 16), flag)
    else (UnsignedDivRem(rem, a, d, m), flag)
  }

  /** Every result for a nonzero divisor is contained. */
  lemma {:induction false} DivRemSound(signed: bool, rem: bool, a: Wrapped, d: Wrapped, m: nat, x: nat, y: nat)
    requires a.Wf(m) && d.Wf(m) && m >= 2 && m % 2 == 0
    requires a.Has(x, m) && d.Has(y, m) && y > 0
    ensures 0 <= WordOp(signed, rem, x, y, m) < m
    ensures HasBot(DivRem(signed, rem, a, d, m).0, WordOp(signed, rem, x, y, m), m)
  {
    hide SignedUpTo, UnsignedDivRem, UnsignedOp;
    ZeroFlagExact(d, m);
    if signed {
      SignedSound(rem, a, d, m, x, y);
    } else {
      UnsignedSound(rem, a, d, m, x, y);
    }
  }

  /** The result is bottom exactly when every divisor is zero, and the flag is exact. */
  lemma {:induction false} DivRemBottom(signed: bool, rem: bool, a: Wrapped, d: Wrapped, m: nat)
    requires a.Wf(m) && d.Wf(m) && m >= 2 && m % 2 == 0
    ensures var r := DivRem(signed, rem, a, d, m);
            && (r.0.Bot? <==> forall y: nat | d.Has(y, m) :: y == 0)
            && (r.1.Always? <==> forall y: nat | d.Has(y, m) :: y == 0)
            && (r.1.Never? <==> !d.Has(0, m))
  {
    hide SignedUpTo, UnsignedDivRem, WordOp;
    ZeroFlagExact(d, m);
    if !ZeroFlag(d, m).Always? {
      var y: nat :| d.Has(y, m) && y > 0;
      Member(a, m);
      var x := if a.Top? then 0 else a.lo;
      DivRemSound(signed, rem, a, d, m, x, y);
    }
  }

  // ----- fast path

  /** Nonnegative words only, or negative words only. */
  predicate OneSided(a: Wrapped, m: nat) { a.Arc? && a.lo <= a.hi && (a.hi < m / 2 || m / 2 <= a.lo) }

  function Side(a: Wrapped, m: nat): nat
    requires OneSided(a, m)
  {
    if a.hi < m / 2 then 0 else 1
  }

  lemma OneSidedPieces(a: Wrapped, m: nat, k: nat)
    requires a.Wf(m) && OneSided(a, m) && k < 4 && m >= 2 && m % 2 == 0
    ensures PieceOf(a, k, m) == if k == Side(a, m) then Val(I.Interval(a.lo, a.hi)) else Bot
  {
  }

  /** For one-sided operands one pair of pieces is the whole join. */
  lemma {:induction false} OneSidedUpTo(rem: bool, a: Wrapped, d: Wrapped, m: nat, n: nat)
    requires a.Wf(m) && d.Wf(m) && OneSided(a, m) && OneSided(d, m) && n <= 16 && m >= 2 && m % 2 == 0
    ensures SignedUpTo(rem, a, d, m, n)
         == if n <= 4 * Side(a, m) + Side(d, m) then Bot else Quadrant(rem, a, d, m, Side(a, m), Side(d, m))
    decreases n
  {
    hide PieceOf, SignedPieceOp, OneSided;
    if n > 0 {
      OneSidedUpTo(rem, a, d, m, n - 1);
      OneSidedPieces(a, m, (n - 1) / 4);
      OneSidedPieces(d, m, (n - 1) % 4);
    }
  }

  /** The fast path for nonnegative arcs takes the only pair of pieces there is. */
  lemma FastPathAgrees(rem: bool, a: Wrapped, d: Wrapped, m: nat)
    requires a.Wf(m) && d.Wf(m) && m >= 2 && m % 2 == 0
    requires a.Arc? && d.Arc? && a.lo <= a.hi < m / 2 && d.lo <= d.hi < m / 2
    ensures SignedUpTo(rem, a, d, m, 16) == Quadrant(rem, a, d, m, 0, 0)
  {
    hide SignedUpTo, Quadrant;
    OneSidedUpTo(rem, a, d, m, 16);
  }

  // ----- the loops

  /** The operation as computed: fast paths first, then two nested loops over pieces. */
  method DivRemWords(signed: bool, rem: bool, a: Wrapped, d: Wrapped, m: nat) returns (r: BotOr<Wrapped>, flag: DivZero)
    requires a.Wf(m) && d.Wf(m) && m >= 2 && m % 2 == 0
    ensures (r, flag) == DivRem(signed, rem, a, d, m)
  {
    hide SignedUpTo, Quadrant, UnsignedDivRem, JoinBot;
    flag := ZeroFlag(d, m);
    if flag.Always? {
      return Bot, flag;
    }
    if !signed {
      r := UnsignedDivRem(rem, a, d, m);
      return;
    }
    if a.Arc? && d.Arc? && a.lo <= a.hi < m / 2 && d.lo <= d.hi < m / 2 {
      FastPathAgrees(rem, a, d, m);
      r := PieceProduct(rem, a, d, m, 0, 0);
      if r.Val? {
        return;
      }
    }
    r := SignedLoop(rem, a, d, m);
  }

  method PieceProduct(rem: bool, a: Wrapped, d: Wrapped, m: nat, i: nat, j: nat) returns (r: BotOr<Wrapped>)
    requires a.Wf(m) && d.Wf(m) && i < 4 && j < 4 && m >= 2 && m % 2 == 0
    ensures r == Quadrant(rem, a, d, m, i, j)
  {
    hide PieceOf, SignedPieceOp, PieceIndex;
    var p := Piece(a, i, m);
    var q := Piece(d, j, m);
    if p.Val? && q.Val? {
      r := SignedPieceOp(rem, p.value, q.value, i % 2 == 1, j % 2 == 1, m);
    } else {
      r := Bot;
    }
  }

  method SignedLoop(rem: bool, a: Wrapped, d: Wrapped, m: nat) returns (r: BotOr<Wrapped>)
    requires a.Wf(m) && d.Wf(m) && m >= 2 && m % 2 == 0
    ensures r == SignedUpTo(rem, a, d, m, 16)
  {
    hide Quadrant, JoinBot, SignedUpTo;
    r := Bot;
    UpToStart(rem, a, d, m, 0);
    var i := 0;
    while i < 4
      invariant i <= 4 && WfBot(r, m)
      invariant r == SignedUpTo(rem, a, d, m, 4 * i)
    {
      var j := 0;
      while j < 4
        invariant j <= 4 && i < 4 && WfBot(r, m)
        invariant r == SignedUpTo(rem, a, d, m, 4 * i + j)
      {
        var next := PieceProduct(rem, a, d, m, i, j);
        UpToStep(rem, a, d, m, i, j);
        r := JoinBot(r, next, m);
        j := j + 1;
      }
      i := i + 1;
    }
  }

  lemma UpToStart(rem: bool, a: Wrapped, d: Wrapped, m: nat, n: nat)
    requires a.Wf(m) && d.Wf(m) && n == 0 && m >= 2 && m % 2 == 0
    ensures SignedUpTo(rem, a, d, m, n) == Bot
  {
  }

  lemma UpToStep(rem: bool, a: Wrapped, d: Wrapped, m: nat, i: nat, j: nat)
    requires a.Wf(m) && d.Wf(m) && i < 4 && j < 4 && m >= 2 && m % 2 == 0
    ensures SignedUpTo(rem, a, d, m, 4 * i + j + 1)
         == JoinBot(SignedUpTo(rem, a, d, m, 4 * i + j), Quadrant(rem, a, d, m, i, j), m)
  {
    hide Quadrant, JoinBot;
    assert (4 * i + j) / 4 == i && (4 * i + j) % 4 == j;
  }

  // ----- constants

  lemma ConstantPiece(x: nat, m: nat, k: nat)
    requires x < m && k < 4 && m >= 2 && m % 2 == 0
    ensures PieceOf(Arc(x, x), k, m) == if k == PieceIndex(Arc(x, x), x, m) then Val(I.Interval(x, x)) else Bot
  {
  }

  lemma ConstantOp(rem: bool, x: nat, y: nat, m: nat)
    requires x < m && 0 < y < m
    ensures IntervalOp(rem, I.Interval(x, x), I.Interval(y, y), m)
         == Val(I.Interval(UnsignedOp(rem, x, y), UnsignedOp(rem, x, y)))
  {
    I.SameQuotientBounds(I.Interval(x, x), I.Interval(y, y), x / y);
    I.RemainderBounds(x, y);
  }

  lemma ConstantMagnitude(x: nat, m: nat)
    requires x < m && m >= 2 && m % 2 == 0
    ensures var negative := x >= m / 2;
            OneSign(I.Interval(x, x), negative, m)
            && MagnitudeInterval(I.Interval(x, x), negative, m)
               == I.Interval(Magnitude(SignedView(x, m)), Magnitude(SignedView(x, m)))
            && (SignedView(x, m) < 0 <==> negative)
  {
  }

  lemma ConstantPieceOp(rem: bool, x: nat, y: nat, m: nat)
    requires x < m && 0 < y < m && m >= 2 && m % 2 == 0
    requires OneSign(I.Interval(x, x), x >= m / 2, m) && OneSign(I.Interval(y, y), y >= m / 2, m)
    ensures 0 <= WordOp(true, rem, x, y, m) < m
    ensures SignedPieceOp(rem, I.Interval(x, x), I.Interval(y, y), x >= m / 2, y >= m / 2, m)
         == Val(Arc(WordOp(true, rem, x, y, m), WordOp(true, rem, x, y, m)))
  {
    hide WordOp, UnsignedOp, IntervalOp, MagnitudeInterval, SignedView;
    ConstantMagnitude(x, m);
    ConstantMagnitude(y, m);
    SignedOpOnMagnitudes(rem, x, y, m);
    var sx, sy := Magnitude(SignedView(x, m)), Magnitude(SignedView(y, m));
    assert sx < m && sy < m by {
      MagnitudeHas(I.Interval(x, x), x >= m / 2, m, x);
      MagnitudeHas(I.Interval(y, y), y >= m / 2, m, y);
    }
    ConstantOp(rem, sx, sy, m);
  }

  lemma {:induction false} ConstantUpTo(rem: bool, x: nat, y: nat, m: nat, n: nat)
    requires x < m && 0 < y < m && n <= 16 && m >= 2 && m % 2 == 0
    ensures 0 <= WordOp(true, rem, x, y, m) < m
    ensures SignedUpTo(rem, Arc(x, x), Arc(y, y), m, n)
         == if n <= 4 * PieceIndex(Arc(x, x), x, m) + PieceIndex(Arc(y, y), y, m) then Bot
            else Val(Arc(WordOp(true, rem, x, y, m), WordOp(true, rem, x, y, m)))
    decreases n
  {
    hide PieceOf, SignedPieceOp, WordOp, SignedView, Join;
    ConstantMagnitude(x, m);
    ConstantMagnitude(y, m);
    ConstantPieceOp(rem, x, y, m);
    if n > 0 {
      ConstantUpTo(rem, x, y, m, n - 1);
      ConstantPiece(x, m, (n - 1) / 4);
      ConstantPiece(y, m, (n - 1) % 4);
    }
  }

  /** On constants the operation is the concrete one. */
  lemma {:induction false} DivRemConstants(signed: bool, rem: bool, x: nat, y: nat, m: nat)
    requires x < m && 0 < y < m && m >= 2 && m % 2 == 0
    ensures var z := WordOp(signed, rem, x, y, m);
            0 <= z < m && DivRem(signed, rem, Arc(x, x), Arc(y, y), m) == (Val(Arc(z, z)), Never)
  {
    hide SignedUpTo, WordOp, UnsignedOp, IntervalOp;
    if signed {
      ConstantUpTo(rem, x, y, m, 16);
    } else {
      ConstantOp(rem, x, y, m);
      UnsignedWordOp(rem, x, y, m);
    }
  }

  lemma UnsignedWordOp(rem: bool, x: nat, y: nat, m: nat)
    requires x < m && 0 < y < m
    ensures WordOp(false, rem, x, y, m) == UnsignedOp(rem, x, y)
  {
  }
}
