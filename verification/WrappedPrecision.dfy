/** What arcs, joins over pieces and covers of results share in the proofs that arc division is tight. */
module WrappedPrecision {
  import opened Lattice
  import opened WrappedIntervals
  import opened WrappedDivision
  import opened WrappedDivRem

  // ----- short arcs

  /** An arc with its ends in c, too short to go round the rest of the circle, lies in c. */
  lemma ShortArc(r: Wrapped, c: Wrapped, m: nat)
    requires r.Wf(m) && c.Wf(m) && r.Arc? && c.Has(r.lo, m) && c.Has(r.hi, m) && r.Size(m) + c.Size(m) <= m + 1
    ensures Subset(r, c, m)
  {
    if c.Arc? {
      forall x: nat | r.Has(x, m) ensures c.Has(x, m) {
        HasLinear(c.lo, r, x, m);
        Rotate(c.lo, r.lo, r.hi, m);
      }
    }
  }

  /** An arc of little more than half the circle is no larger than any arc that holds its ends. */
  lemma ShortIsSmallest(r: Wrapped, c: Wrapped, m: nat)
    requires r.Wf(m) && c.Wf(m) && r.Arc? && c.Has(r.lo, m) && c.Has(r.hi, m) && 2 * r.Size(m) <= m + 2
    ensures r.Size(m) <= c.Size(m)
  {
    if c.Size(m) < r.Size(m) {
      ShortArc(r, c, m);
      SizeMonotone(r, c, m);
    }
  }

  lemma JoinEnds(a: Wrapped, b: Wrapped, m: nat)
    requires a.Wf(m) && b.Wf(m) && Join(a, b, m).Arc?
    ensures a.Arc? && b.Arc?
    ensures Join(a, b, m).lo == a.lo || Join(a, b, m).lo == b.lo
    ensures Join(a, b, m).hi == a.hi || Join(a, b, m).hi == b.hi
  {
  }

  /** Inside half of the circle the join does not leave a common cover. */
  lemma JoinWithin(a: Wrapped, b: Wrapped, c: Wrapped, m: nat)
    requires a.Wf(m) && b.Wf(m) && c.Wf(m) && m > 0
    requires Subset(a, c, m) && Subset(b, c, m) && 2 * c.Size(m) <= m
    ensures Subset(Join(a, b, m), c, m)
  {
    hide Join;
    var r := Join(a, b, m);
    JoinMinimum(a, b, m, c);
    assert r.Arc?;
    JoinEnds(a, b, m);
    Ends(a, m);
    Ends(b, m);
    ShortArc(r, c, m);
  }

  ghost predicate SubsetBot(a: BotOr<Wrapped>, c: Wrapped, m: nat)
    requires WfBot(a, m) && c.Wf(m)
  {
    a.Val? ==> Subset(a.value, c, m)
  }

  lemma JoinBotWithin(a: BotOr<Wrapped>, b: BotOr<Wrapped>, c: Wrapped, m: nat)
    requires WfBot(a, m) && WfBot(b, m) && c.Wf(m) && m > 0 && 2 * c.Size(m) <= m
    requires SubsetBot(a, c, m) && SubsetBot(b, c, m)
    ensures SubsetBot(JoinBot(a, b, m), c, m)
  {
    hide Join, Subset;
    if a.Val? && b.Val? {
      JoinWithin(a.value, b.value, c, m);
    }
  }

  // ----- joins over pieces

  ghost predicate PiecesWithin(rem: bool, a: Wrapped, d: Wrapped, m: nat, c: Wrapped)
    requires a.Wf(m) && d.Wf(m) && c.Wf(m) && m >= 2 && m % 2 == 0
  {
    forall i: nat, j: nat | i < 4 && j < 4 :: SubsetBot(Quadrant(rem, a, d, m, i, j), c, m)
  }

  lemma {:induction false} UpToWithin(rem: bool, a: Wrapped, d: Wrapped, m: nat, n: nat, c: Wrapped)
    requires a.Wf(m) && d.Wf(m) && c.Wf(m) && n <= 16 && m >= 2 && m % 2 == 0
    requires PiecesWithin(rem, a, d, m, c) && 2 * c.Size(m) <= m
    ensures SubsetBot(SignedUpTo(rem, a, d, m, n), c, m)
    decreases n
  {
    hide JoinBot, Quadrant, Subset;
    if n > 0 {
      UpToWithin(rem, a, d, m, n - 1, c);
      JoinBotWithin(SignedUpTo(rem, a, d, m, n - 1), Quadrant(rem, a, d, m, (n - 1) / 4, (n - 1) % 4), c, m);
    }
  }

  ghost predicate UnsignedPiecesWithin(rem: bool, a: Wrapped, d: Wrapped, m: nat, c: Wrapped)
    requires a.Wf(m) && d.Wf(m) && c.Wf(m) && m > 0
  {
    forall i: nat, j: nat | i < 2 && j < 2 ::
      SubsetBot(UnsignedPieceOp(rem, UnsignedPiece(a, i, m), UnsignedPiece(d, j, m), m), c, m)
  }

  lemma UnsignedWithin(rem: bool, a: Wrapped, d: Wrapped, m: nat, c: Wrapped)
    requires a.Wf(m) && d.Wf(m) && c.Wf(m) && m > 0
    requires UnsignedPiecesWithin(rem, a, d, m, c) && 2 * c.Size(m) <= m
    ensures SubsetBot(UnsignedDivRem(rem, a, d, m), c, m)
  {
    hide JoinBot, UnsignedPieceOp, UnsignedPiece, Subset;
    var a0, a1 := UnsignedPiece(a, 0, m), UnsignedPiece(a, 1, m);
    var d0, d1 := UnsignedPiece(d, 0, m), UnsignedPiece(d, 1, m);
    var r00, r01 := UnsignedPieceOp(rem, a0, d0, m), UnsignedPieceOp(rem, a0, d1, m);
    var r10, r11 := UnsignedPieceOp(rem, a1, d0, m), UnsignedPieceOp(rem, a1, d1, m);
    JoinBotWithin(r00, r01, c, m);
    JoinBotWithin(JoinBot(r00, r01, m), r10, c, m);
    JoinBotWithin(JoinBot(JoinBot(r00, r01, m), r10, m), r11, c, m);
  }

  lemma {:induction false} DivisorRow(rem: bool, a: Wrapped, d: Wrapped, m: nat, i: nat)
    requires a.Wf(m) && d.Wf(m) && OneSided(d, m) && i < 4 && m >= 2 && m % 2 == 0
    ensures SignedUpTo(rem, a, d, m, 4 * i + 4)
         == JoinBot(SignedUpTo(rem, a, d, m, 4 * i), Quadrant(rem, a, d, m, i, Side(d, m)), m)
  {
    hide SignedUpTo, Join, PieceOf, SignedPieceOp, OneSided;
    UpToStep(rem, a, d, m, i, 0);
    UpToStep(rem, a, d, m, i, 1);
    UpToStep(rem, a, d, m, i, 2);
    UpToStep(rem, a, d, m, i, 3);
    OneSidedPieces(d, m, 0);
    OneSidedPieces(d, m, 1);
    OneSidedPieces(d, m, 2);
    OneSidedPieces(d, m, 3);
  }

  /** A one-sided divisor leaves one join over the pieces of the dividend. */
  lemma {:induction false} DivisorRows(rem: bool, a: Wrapped, d: Wrapped, m: nat)
    requires a.Wf(m) && d.Wf(m) && OneSided(d, m) && m >= 2 && m % 2 == 0
    ensures var j := Side(d, m);
            SignedUpTo(rem, a, d, m, 16)
            == JoinBot(JoinBot(JoinBot(Quadrant(rem, a, d, m, 0, j), Quadrant(rem, a, d, m, 1, j), m),
                               Quadrant(rem, a, d, m, 2, j), m), Quadrant(rem, a, d, m, 3, j), m)
  {
    hide SignedUpTo, Join, Quadrant, OneSided;
    UpToStart(rem, a, d, m, 0);
    DivisorRow(rem, a, d, m, 0);
    DivisorRow(rem, a, d, m, 1);
    DivisorRow(rem, a, d, m, 2);
    DivisorRow(rem, a, d, m, 3);
  }

  // ----- covers

  predicate Plain(a: Wrapped) { a.Arc? && a.lo <= a.hi }

  ghost predicate HoldsResults(signed: bool, rem: bool, c: Wrapped, a: Wrapped, d: Wrapped, m: nat)
    requires a.Wf(m) && d.Wf(m) && c.Wf(m)
  {
    forall x: nat, y: nat | a.Has(x, m) && d.Has(y, m) && y > 0 ::
      0 <= WordOp(signed, rem, x, y, m) && c.Has(WordOp(signed, rem, x, y, m), m)
  }

  /** No arc that holds every result is smaller than the computed one. */
  ghost predicate Smallest(signed: bool, rem: bool, a: Wrapped, d: Wrapped, m: nat)
    requires a.Wf(m) && d.Wf(m) && m >= 2 && m % 2 == 0
  {
    var r := DivRem(signed, rem, a, d, m).0;
    r.Val? && forall c: Wrapped | c.Wf(m) && HoldsResults(signed, rem, c, a, d, m) :: r.value.Size(m) <= c.Size(m)
  }
}
