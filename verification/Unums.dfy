/**
  Unums: a base plus independently bounded bit fields. A set wall bit starts a new
  field; the extent holds the maximum of every field. Membership subtracts the
  offset from the extent and forbids a borrow to cross a wall.
 */
module Unums {
  import opened Bitstrings
  import opened Tnums
  import opened Anums

  predicate Borrow(x: bool, d: bool, b: bool) { N(x) < N(d) + N(b) }

  /** The borrow walk. A wall at the very first position is not tested. */
  predicate Admits(w: nat, x: nat, d: nat, borrow: bool, first: bool)
    decreases w + x + d
  {
    if w == 0 && x == 0 && d == 0 then !borrow
    else if w == 0 && x == 0 then false
    else if Hd(w) && !first && borrow then false
    else Admits(Tl(w), Tl(x), Tl(d), Borrow(Hd(x), Hd(d), borrow), false)
  }

  /** The register of carries out of every position. */
  function CarryOut(a: nat, b: nat, c: bool): nat
    decreases a + b
  {
    if a == 0 && b == 0 then 0
    else
      var c1 := FullAdd(Hd(a), Hd(b), c).1;
      Cons(CarryOut(Tl(a), Tl(b), c1), c1)
  }

  /** Walls both operands have and no carry of the extents crosses. */
  function SharedWalls(w1: nat, w2: nat, x1: nat, x2: nat, c: bool): nat {
    BwAndNot(BwAnd(w1, w2), 2 * CarryOut(x1, x2, c))
  }

  datatype Unum = Unum(base: nat, walls: nat, extent: nat) {
    predicate Has(n: nat) { base <= n && Admits(walls, extent, n - base, false, true) }

    function Add(u: Unum): Unum {
      Unum(base + u.base, SharedWalls(walls, u.walls, extent, u.extent, false), extent + u.extent)
    }

    function Mul(u: Unum): Unum {
      Unum(Prod(base, u.base), 0,
           Prod(base, u.extent) + Prod(u.base, extent) + Prod(extent, u.extent))
    }

    function ToAnum(): Anum {
      ExpPos(Len(extent));
      Anum(base, Ones(Len(extent)))
    }
  }

  // ----- the walk, one position at a time

  lemma {:induction false} AdmitsStep(w: nat, x: nat, d: nat, b: bool, first: bool)
    ensures Admits(w, x, d, b, first) <==>
              !(Hd(w) && !first && b) && Admits(Tl(w), Tl(x), Tl(d), Borrow(Hd(x), Hd(d), b), false)
  {
  }

  lemma {:induction false} CarryOutStep(a: nat, b: nat, c: bool)
    ensures var c1 := FullAdd(Hd(a), Hd(b), c).1;
            Hd(CarryOut(a, b, c)) == c1 && Tl(CarryOut(a, b, c)) == CarryOut(Tl(a), Tl(b), c1)
  {
    var c1 := FullAdd(Hd(a), Hd(b), c).1;
    if a != 0 || b != 0 {
      HdTlCons(CarryOut(Tl(a), Tl(b), c1), c1);
    }
  }

  /** An admitted offset never exceeds the extent. */
  lemma {:induction false} OffsetBounded(w: nat, x: nat, d: nat, b: bool, first: bool)
    requires Admits(w, x, d, b, first)
    ensures d + N(b) <= x
    decreases w + x + d
  {
    if w != 0 || x != 0 || d != 0 {
      OffsetBounded(Tl(w), Tl(x), Tl(d), Borrow(Hd(x), Hd(d), b), false);
    }
  }

  /** Without walls the walk is one comparison. */
  lemma {:induction false} NoWalls(x: nat, d: nat, b: bool, first: bool)
    ensures Admits(0, x, d, b, first) <==> d + N(b) <= x
    decreases x + d
  {
    hide Admits;
    AdmitsStep(0, x, d, b, first);
    if x != 0 || d != 0 {
      NoWalls(Tl(x), Tl(d), Borrow(Hd(x), Hd(d), b), false);
    } else {
      AdmitsZero(b, first);
    }
  }

  lemma AdmitsZero(b: bool, first: bool)
    ensures Admits(0, 0, 0, b, first) <==> !b
  {
  }

  lemma {:induction false} ExtremesAdmitted(w: nat, x: nat, first: bool)
    ensures Admits(w, x, 0, false, first) && Admits(w, x, x, false, first)
    decreases w + x
  {
    hide Admits;
    AdmitsStep(w, x, 0, false, first);
    AdmitsStep(w, x, x, false, first);
    if w != 0 || x != 0 {
      ExtremesAdmitted(Tl(w), Tl(x), false);
    } else {
      AdmitsZero(false, first);
    }
  }

  /** The least and the greatest member are the base and the base plus the extent. */
  lemma {:induction false} UnumBounds(u: Unum, n: nat)
    ensures u.Has(u.base) && u.Has(u.base + u.extent)
    ensures u.Has(n) ==> u.base <= n <= u.base + u.extent
  {
    hide Admits;
    ExtremesAdmitted(u.walls, u.extent, true);
    if u.Has(n) {
      OffsetBounded(u.walls, u.extent, n - u.base, false, true);
    }
  }

  // ----- the carry register

  /** The ripple register is the standard broadword expression. */
  lemma {:induction false} CarryOutFormula(a: nat, b: nat, c: bool)
    ensures CarryOut(a, b, c) == BwOr(BwAnd(a, b), BwAndNot(BwOr(a, b), a + b + N(c)))
    decreases a + b
  {
    hide CarryOut, Map, Hd, Tl, FullAdd;
    if a == 0 && b == 0 {
      CarryOutOfZero(a, b, c);
    } else {
      var c1 := FullAdd(Hd(a), Hd(b), c).1;
      var f := BwOr(BwAnd(a, b), BwAndNot(BwOr(a, b), a + b + N(c)));
      CarryOutStep(a, b, c);
      TlSmaller(a, b);
      CarryOutFormula(Tl(a), Tl(b), c1);
      FormulaStep(a, b, c);
      ConsHdTl(f);
      ConsHdTl(CarryOut(a, b, c));
    }
  }

  lemma TlSmaller(a: nat, b: nat)
    requires a != 0 || b != 0
    ensures Tl(a) + Tl(b) < a + b
  {
  }

  lemma {:induction false} CarryOutOfZero(a: nat, b: nat, c: bool)
    requires a == b == 0
    ensures CarryOut(a, b, c) == 0 == BwOr(BwAnd(a, b), BwAndNot(BwOr(a, b), a + b + N(c)))
  {
    SmallMaps();
    hide Map;
    assert a == N(false) && b == N(false);
  }

  lemma {:induction false} FormulaStep(a: nat, b: nat, c: bool)
    ensures var (r, c1) := FullAdd(Hd(a), Hd(b), c);
            var f := BwOr(BwAnd(a, b), BwAndNot(BwOr(a, b), a + b + N(c)));
            && Hd(f) == c1
            && Tl(f) == BwOr(BwAnd(Tl(a), Tl(b)), BwAndNot(BwOr(Tl(a), Tl(b)), Tl(a) + Tl(b) + N(c1)))
  {
    hide Map, Hd, Tl;
    var s := a + b + N(c);
    SumHdTl(a, b, c);
    MapHdTl(And, a, b);
    MapHdTl(Or, a, b);
    MapHdTl(AndNot, BwOr(a, b), s);
    MapHdTl(Or, BwAnd(a, b), BwAndNot(BwOr(a, b), s));
  }

  /** Carry bit i is set exactly when the low i + 1 bits overflow. */
  lemma {:induction false} CarryIsOverflow(a: nat, b: nat, c: bool, i: nat)
    ensures Bit(CarryOut(a, b, c), i) <==> Chop(a, i + 1) + Chop(b, i + 1) + N(c) >= Exp(i + 1)
    decreases i
  {
    hide CarryOut;
    CarryOutStep(a, b, c);
    FullAddCorrect(Hd(a), Hd(b), c);
    if i > 0 {
      CarryIsOverflow(Tl(a), Tl(b), FullAdd(Hd(a), Hd(b), c).1, i - 1);
    }
  }

  // ----- addition

  lemma SharedWallsStep(w1: nat, w2: nat, x1: nat, x2: nat, c: bool)
    ensures var c1 := FullAdd(Hd(x1), Hd(x2), c).1;
            var t := Tl(SharedWalls(w1, w2, x1, x2, c));
            && Hd(t) == (Hd(Tl(w1)) && Hd(Tl(w2)) && !c1)
            && Tl(t) == Tl(SharedWalls(Tl(w1), Tl(w2), Tl(x1), Tl(x2), c1))
  {
    hide Map, CarryOut, FullAdd;
    var co := CarryOut(x1, x2, c);
    CarryOutStep(x1, x2, c);
    var c1 := FullAdd(Hd(x1), Hd(x2), c).1;
    MapHdTl(And, w1, w2);
    MapHdTl(AndNot, BwAnd(w1, w2), 2 * co);
    MapHdTl(And, Tl(w1), Tl(w2));
    MapHdTl(AndNot, BwAnd(Tl(w1), Tl(w2)), co);
    MapHdTl(AndNot, BwAnd(Tl(w1), Tl(w2)), 2 * CarryOut(Tl(x1), Tl(x2), c1));
  }

  /** The carry of the offsets and the borrow of the sum are paid for by the operands. */
  predicate Budget(cd: bool, br: bool, cx: bool, b1: bool, b2: bool) { N(cd) + N(br) <= N(cx) + N(b1) + N(b2) }

  /** The invariant of the joint walk: carry and borrow out are paid for. */
  lemma BorrowBudget(x1: bool, d1: bool, x2: bool, d2: bool, b1: bool, b2: bool, cd: bool, cx: bool, br: bool)
    requires Budget(cd, br, cx, b1, b2)
    ensures var (xs, ncx) := FullAdd(x1, x2, cx);
            var (ds, ncd) := FullAdd(d1, d2, cd);
            Budget(ncd, Borrow(xs, ds, br), ncx, Borrow(x1, d1, b1), Borrow(x2, d2, b2))
  {
  }

  /** A first wall is not tested, so it may be changed freely. */
  lemma FirstWallIrrelevant(w: nat, v: nat, x: nat, d: nat, b: bool)
    requires Tl(w) == Tl(v) && Admits(v, x, d, b, true) && !(Hd(w) && b)
    ensures Admits(w, x, d, b, false)
  {
    hide Admits;
    AdmitsStep(w, x, d, b, false);
    AdmitsStep(v, x, d, b, true);
  }

  lemma TlSmaller6(a: nat, b: nat, c: nat, d: nat, e: nat, f: nat)
    requires !(a == 0 && b == 0 && c == 0 && d == 0 && e == 0 && f == 0)
    ensures Tl(a) + Tl(b) + Tl(c) + Tl(d) + Tl(e) + Tl(f) < a + b + c + d + e + f
  {
  }

  /** The walk of a sum, with carries into extent and offset and a borrow owed. */
  predicate SumAdmits(w1: nat, x1: nat, d1: nat, w2: nat, x2: nat, d2: nat, cd: bool, cx: bool, br: bool) {
    Admits(SharedWalls(w1, w2, x1, x2, cx), x1 + x2 + N(cx), d1 + d2 + N(cd), br, true)
  }

  lemma {:induction false} AdmitsAdd(w1: nat, x1: nat, d1: nat, b1: bool, f1: bool,
                                     w2: nat, x2: nat, d2: nat, b2: bool, f2: bool,
                                     cd: bool, cx: bool, br: bool)
    requires Admits(w1, x1, d1, b1, f1) && Admits(w2, x2, d2, b2, f2)
    requires Budget(cd, br, cx, b1, b2)
    ensures SumAdmits(w1, x1, d1, w2, x2, d2, cd, cx, br)
    decreases w1 + x1 + d1 + w2 + x2 + d2
  {
    hide Admits, SumAdmits, SharedWalls, FullAdd, Borrow, Hd, Tl, CarryOut, Map, N, Budget;
    if w1 == 0 && x1 == 0 && d1 == 0 && w2 == 0 && x2 == 0 && d2 == 0 {
      AdmitsAddCarries(w1, x1, d1, b1, f1, w2, x2, d2, b2, f2, cd, cx, br);
    } else {
      var (xs, ncx) := FullAdd(Hd(x1), Hd(x2), cx);
      var (ds, ncd) := FullAdd(Hd(d1), Hd(d2), cd);
      var nb1, nb2 := Borrow(Hd(x1), Hd(d1), b1), Borrow(Hd(x2), Hd(d2), b2);
      var nbr := Borrow(xs, ds, br);
      AdmitsStep(w1, x1, d1, b1, f1);
      AdmitsStep(w2, x2, d2, b2, f2);
      BorrowBudget(Hd(x1), Hd(d1), Hd(x2), Hd(d2), b1, b2, cd, cx, br);
      TlSmaller6(w1, x1, d1, w2, x2, d2);
      AdmitsAdd(Tl(w1), Tl(x1), Tl(d1), nb1, false, Tl(w2), Tl(x2), Tl(d2), nb2, false, ncd, ncx, nbr);
      AdmitsStep(Tl(w1), Tl(x1), Tl(d1), nb1, false);
      AdmitsStep(Tl(w2), Tl(x2), Tl(d2), nb2, false);
      AdmitsAddHead(w1, x1, d1, w2, x2, d2, nb1, nb2, cd, cx, br, ncd, ncx, nbr);
    }
  }

  lemma BudgetSpent(cd: bool, br: bool, cx: bool, b1: bool, b2: bool)
    requires Budget(cd, br, cx, b1, b2)
    ensures !cx && !b1 && !b2 ==> !br
  {
  }

  /** A remaining wall means that no operand borrows there, and hence neither does the sum. */
  lemma {:induction false} AdmitsAddHead(w1: nat, x1: nat, d1: nat, w2: nat, x2: nat, d2: nat,
                                         nb1: bool, nb2: bool, cd: bool, cx: bool, br: bool,
                                         ncd: bool, ncx: bool, nbr: bool)
    requires !(Hd(Tl(w1)) && nb1) && !(Hd(Tl(w2)) && nb2) && Budget(ncd, nbr, ncx, nb1, nb2)
    requires ncx == FullAdd(Hd(x1), Hd(x2), cx).1 && ncd == FullAdd(Hd(d1), Hd(d2), cd).1
    requires nbr == Borrow(FullAdd(Hd(x1), Hd(x2), cx).0, FullAdd(Hd(d1), Hd(d2), cd).0, br)
    requires SumAdmits(Tl(w1), Tl(x1), Tl(d1), Tl(w2), Tl(x2), Tl(d2), ncd, ncx, nbr)
    ensures SumAdmits(w1, x1, d1, w2, x2, d2, cd, cx, br)
  {
    hide Admits, SharedWalls, FullAdd, Borrow, Hd, Tl, CarryOut, Map, N, Budget;
    var w := SharedWalls(w1, w2, x1, x2, cx);
    SharedWallsStep(w1, w2, x1, x2, cx);
    BudgetSpent(ncd, nbr, ncx, nb1, nb2);
    FirstWallIrrelevant(Tl(w), SharedWalls(Tl(w1), Tl(w2), Tl(x1), Tl(x2), ncx),
                        Tl(x1) + Tl(x2) + N(ncx), Tl(d1) + Tl(d2) + N(ncd), nbr);
    SumHdTl(x1, x2, cx);
    SumHdTl(d1, d2, cd);
    AdmitsStep(w, x1 + x2 + N(cx), d1 + d2 + N(cd), br, true);
  }

  lemma {:induction false} AdmitsAddCarries(w1: nat, x1: nat, d1: nat, b1: bool, f1: bool,
                                            w2: nat, x2: nat, d2: nat, b2: bool, f2: bool,
                                            cd: bool, cx: bool, br: bool)
    requires w1 == x1 == d1 == w2 == x2 == d2 == 0
    requires Admits(w1, x1, d1, b1, f1) && Admits(w2, x2, d2, b2, f2)
    requires Budget(cd, br, cx, b1, b2)
    ensures SumAdmits(w1, x1, d1, w2, x2, d2, cd, cx, br)
  {
    hide Admits;
    AdmitsZero(b1, f1);
    AdmitsZero(b2, f2);
    assert SharedWalls(w1, w2, x1, x2, cx) == 0;
    NoWalls(N(cx), N(cd), br, true);
  }

  /** Unum addition holds every sum, for any number of fields. */
  lemma {:induction false} UnumAddSound(u: Unum, v: Unum, m: nat, n: nat)
    requires u.Has(m) && v.Has(n)
    ensures u.Add(v).Has(m + n)
  {
    hide Admits, SharedWalls;
    AdmitsAdd(u.walls, u.extent, m - u.base, false, true, v.walls, v.extent, n - v.base, false, true,
              false, false, false);
  }

  /** Its extremes are the sums of the extremes. */
  lemma {:induction false} UnumAddTight(u: Unum, v: Unum, k: nat)
    ensures u.Add(v).Has(u.base + v.base) && u.Add(v).Has((u.base + u.extent) + (v.base + v.extent))
    ensures u.Add(v).Has(k) ==> u.base + v.base <= k <= (u.base + u.extent) + (v.base + v.extent)
  {
    hide Admits, SharedWalls;
    UnumBounds(u.Add(v), k);
  }

  // ----- multiplication and conversion

  lemma UnumMulOffset(v1: nat, x1: nat, d1: nat, v2: nat, x2: nat, d2: nat)
    requires d1 <= x1 && d2 <= x2
    ensures Prod(v1 + d1, v2 + d2) == Prod(v1, v2) + Prod(v1, d2) + Prod(v2, d1) + Prod(d1, d2)
    ensures Prod(v1, d2) + Prod(v2, d1) + Prod(d1, d2) <= Prod(v1, x2) + Prod(v2, x1) + Prod(x1, x2)
  {
    assert (v1 + d1) * (v2 + d2) == v1 * v2 + v1 * d2 + v2 * d1 + d1 * d2;
    ProdMono(v1, d2, x2);
    ProdMono(v2, d1, x1);
    ProdMono(d1, d2, x2);
    ProdMono(x2, d1, x1);
    assert Prod(d1, x2) == Prod(x2, d1) && Prod(x2, x1) == Prod(x1, x2);
  }

  lemma ProdMono(a: nat, b: nat, c: nat)
    requires b <= c
    ensures Prod(a, b) <= Prod(a, c)
  {
    assert a * b + a * (c - b) == a * c;
    assert 0 <= a * (c - b);
  }

  /** Unum multiplication holds every product, and its extremes are products. */
  lemma {:induction false} UnumMulSound(u: Unum, v: Unum, m: nat, n: nat)
    requires u.Has(m) && v.Has(n)
    ensures u.Mul(v).Has(Prod(m, n))
    ensures u.Mul(v).base == Prod(u.base, v.base)
    ensures u.Mul(v).base + u.Mul(v).extent == Prod(u.base + u.extent, v.base + v.extent)
  {
    hide Admits, Prod;
    UnumBounds(u, m);
    UnumBounds(v, n);
    UnumMulOffset(u.base, u.extent, m - u.base, v.base, v.extent, n - v.base);
    UnumMulOffset(u.base, u.extent, u.extent, v.base, v.extent, v.extent);
    NoWalls(u.Mul(v).extent, Prod(m, n) - u.Mul(v).base, false, true);
  }

  lemma {:induction false} BelowOnes(n: nat, k: nat)
    requires n < Exp(k)
    ensures Ones(k) >= 0 && Tnum(0, Ones(k)).Has(n)
    decreases k
  {
    ExpPos(k);
    if k > 0 {
      ExpPos(k - 1);
      BelowOnes(Tl(n), k - 1);
      var t := Tnum(0, Ones(k));
      assert Tl(Ones(k)) == Ones(k - 1) && Hd(Ones(k));
      HasStep(t, n);
    }
  }

  /** Conversion to an anum keeps every member, whatever the walls. */
  lemma {:induction false} ToAnumSound(u: Unum, n: nat)
    requires u.Has(n)
    ensures u.ToAnum().Has(n)
  {
    hide Admits, Exp, Len, Tnum.Has;
    UnumBounds(u, n);
    LenBound(u.extent);
    BelowOnes(n - u.base, Len(u.extent));
  }
}
