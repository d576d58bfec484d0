/**
  Exactness of unum addition. When both operands have the same walls and no carry
  removes one, every member of the sum is a sum of members, split field by field.
 */
module UnumSplit {
  import opened DivModFacts
  import opened Bitstrings
  import opened Unums
  import opened UnumFields

  // ----- numbers cut at a position

  lemma {:induction false} PartsOf(n: nat, e: nat)
    ensures Chop(n, e) < Exp(e) && n == Chop(n, e) + Prod(Exp(e), Shr(n, e))
  {
    hide Exp, Chop, Shr;
    ChopIsMod(n, e);
    ShrIsDiv(n, e);
  }

  /** A low part and a high part put together. */
  function Together(p: nat, t: nat, e: nat): nat { p + Prod(Exp(e), t) }

  lemma {:induction false} PartsOfTogether(p: nat, t: nat, e: nat)
    requires p < Exp(e)
    ensures Chop(Together(p, t, e), e) == p && Shr(Together(p, t, e), e) == t
  {
    hide Exp, Chop, Shr;
    var n := Together(p, t, e);
    ChopIsMod(n, e);
    ShrIsDiv(n, e);
    Unique(n, Exp(e), t, p);
  }

  lemma TogetherSum(p1: nat, t1: nat, p2: nat, t2: nat, e: nat)
    ensures Together(p1, t1, e) + Together(p2, t2, e) == Together(p1 + p2, t1 + t2, e)
  {
    hide Exp;
    Distribute(Exp(e), t1, t2);
  }

  lemma Distribute(a: int, b: int, c: int)
    ensures a * (b + c) == a * b + a * c
  {
  }

  /** Sums whose low parts do not overflow are added part by part. */
  lemma {:induction false} PartsOfSum(x1: nat, x2: nat, e: nat)
    requires Chop(x1, e) + Chop(x2, e) < Exp(e)
    ensures Chop(x1 + x2, e) == Chop(x1, e) + Chop(x2, e) && Shr(x1 + x2, e) == Shr(x1, e) + Shr(x2, e)
  {
    hide Exp, Chop, Shr, Prod;
    PartsOf(x1, e);
    PartsOf(x2, e);
    TogetherSum(Chop(x1, e), Shr(x1, e), Chop(x2, e), Shr(x2, e), e);
    PartsOfTogether(Chop(x1, e) + Chop(x2, e), Shr(x1, e) + Shr(x2, e), e);
  }

  lemma {:induction false} ChopBeyond(x: nat, e: nat, i: nat)
    ensures Chop(x, e + i) == Together(Chop(x, e), Chop(Shr(x, e), i), e)
    decreases e
  {
    hide Exp;
    if e == 0 {
      ExpZero(e);
    } else {
      ChopBeyond(Tl(x), e - 1, i);
      ChopStep(x, e + i);
      ChopStep(x, e);
      ExpStep(e - 1);
      DoubleProduct(Exp(e - 1), Chop(Shr(x, e), i));
    }
  }

  // ----- walls

  /** No carry of the extents crosses a wall above bit 0. */
  ghost predicate NoCarryAcross(w: nat, x1: nat, x2: nat) {
    forall i: nat :: i > 0 && Bit(w, i) ==> Chop(x1, i) + Chop(x2, i) < Exp(i)
  }

  lemma {:induction false} NoCarryAbove(w: nat, x1: nat, x2: nat, e: nat)
    requires NoCarryAcross(w, x1, x2)
    ensures NoCarryAcross(Shr(w, e), Shr(x1, e), Shr(x2, e))
  {
    hide Exp, Chop, Shr, Bit;
    forall i: nat | i > 0 && Bit(Shr(w, e), i)
      ensures Chop(Shr(x1, e), i) + Chop(Shr(x2, e), i) < Exp(i)
    {
      BitShr(w, e, i);
      ChopBeyond(x1, e, i);
      ChopBeyond(x2, e, i);
      ExpAdd(e, i);
      ExpPos(e);
      HighPartsFit(Chop(x1, e), Chop(x2, e), Chop(Shr(x1, e), i), Chop(Shr(x2, e), i), Exp(e), Exp(i));
    }
  }

  lemma HighPartsFit(p1: nat, p2: nat, t1: nat, t2: nat, a: nat, b: nat)
    requires p1 + a * t1 + (p2 + a * t2) < a * b
    ensures t1 + t2 < b
  {
    Distribute(a, t1, t2);
    if t1 + t2 >= b {
      MulMono(b, t1 + t2, a);
    }
  }

  /** The lowest wall above bit 0. */
  function LowestWall(w: nat): (e: nat)
    requires Tl(w) != 0
    ensures e > 0 && Bit(w, e) && forall j: nat :: 0 < j < e ==> !Bit(w, j)
  {
    if Hd(Tl(w)) then 1 else 1 + LowestWall(Tl(w))
  }

  lemma {:induction false} ShrSmaller(w: nat, e: nat)
    requires e > 0 && w > 0
    ensures Shr(w, e) < w
  {
    if e > 1 && Tl(w) > 0 {
      ShrSmaller(Tl(w), e - 1);
    } else if e > 1 {
      ShrZero(Tl(w), e - 1);
    }
  }

  lemma {:induction false} ShrZero(w: nat, e: nat)
    requires w == 0
    ensures Shr(w, e) == 0
    decreases e
  {
    if e > 0 {
      ShrZero(Tl(w), e - 1);
    }
  }

  // ----- the walk, one field at a time

  /** Up to a wall the walk compares one field, and above it the walk starts afresh. */
  lemma {:induction false} FieldStep(w: nat, x: nat, d: nat, b: bool, e: nat)
    requires e > 0 && Bit(w, e) && forall j: nat :: 0 < j < e ==> !Bit(w, j)
    ensures Admits(w, x, d, b, true)
       <==> Chop(d, e) + N(b) <= Chop(x, e) && Admits(Shr(w, e), Shr(x, e), Shr(d, e), false, true)
    decreases e
  {
    hide Admits, Borrow, Chop;
    var nb := Borrow(Hd(x), Hd(d), b);
    AdmitsStep(w, x, d, b, true);
    AdmitsStep(Tl(w), Tl(x), Tl(d), nb, false);
    ChopStep(d, e);
    ChopStep(x, e);
    CompareStep(Chop(Tl(x), e - 1), Chop(Tl(d), e - 1), Hd(x), Hd(d), b);
    if e == 1 {
      assert Bit(w, 1) == Hd(Tl(w));
      AdmitsStep(Tl(w), Tl(x), Tl(d), false, true);
      ChopNone(Tl(x), Tl(d), e - 1);
    } else {
      assert Bit(w, 1) == Hd(Tl(w));
      AdmitsStep(Tl(w), Tl(x), Tl(d), nb, true);
      forall j: nat | 0 < j < e - 1 ensures !Bit(Tl(w), j) { assert Bit(w, j + 1) == Bit(Tl(w), j); }
      FieldStep(Tl(w), Tl(x), Tl(d), nb, e - 1);
    }
  }

  lemma {:induction false} ChopNone(x: nat, d: nat, e: nat)
    requires e == 0
    ensures Chop(x, e) == 0 == Chop(d, e)
  {
  }

  /** Without a wall above bit 0 the walk is one comparison. */
  lemma {:induction false} LastField(w: nat, x: nat, d: nat)
    requires Tl(w) == 0
    ensures Admits(w, x, d, false, true) <==> d <= x
  {
    hide Admits;
    AdmitsStep(w, x, d, false, true);
    AdmitsStep(0, x, d, false, true);
    NoWalls(x, d, false, true);
  }

  // ----- splitting an offset

  function Least(x: nat, y: nat): nat { if x <= y then x else y }

  /** In every field the first operand takes as much as it can, and the second the rest. */
  lemma {:induction false} SplitOffset(w: nat, x1: nat, x2: nat, d: nat) returns (d1: nat, d2: nat)
    requires NoCarryAcross(w, x1, x2) && Admits(w, x1 + x2, d, false, true)
    ensures d1 + d2 == d && Admits(w, x1, d1, false, true) && Admits(w, x2, d2, false, true)
    decreases w
  {
    hide Admits, Chop, Shr, Exp, Prod, Together, LowestWall;
    if Tl(w) == 0 {
      LastField(w, x1 + x2, d);
      d1 := Least(d, x1);
      d2 := d - d1;
      LastField(w, x1, d1);
      LastField(w, x2, d2);
    } else {
      var e := LowestWall(w);
      FieldStep(w, x1 + x2, d, false, e);
      PartsOfSum(x1, x2, e);
      NoCarryAbove(w, x1, x2, e);
      ShrSmaller(w, e);
      var t1, t2 := SplitOffset(Shr(w, e), Shr(x1, e), Shr(x2, e), Shr(d, e));
      var p1 := Least(Chop(d, e), Chop(x1, e));
      var p2 := Chop(d, e) - p1;
      d1, d2 := Together(p1, t1, e), Together(p2, t2, e);
      JoinedField(w, x1, p1, t1, e);
      JoinedField(w, x2, p2, t2, e);
      TogetherSum(p1, t1, p2, t2, e);
      WholeAgain(d, e);
    }
  }

  lemma {:induction false} WholeAgain(n: nat, e: nat)
    ensures Together(Chop(n, e), Shr(n, e), e) == n
  {
    PartsOf(n, e);
  }

  lemma {:induction false} JoinedField(w: nat, x: nat, p: nat, t: nat, e: nat)
    requires e > 0 && Bit(w, e) && (forall j: nat :: 0 < j < e ==> !Bit(w, j))
    requires p <= Chop(x, e) && Admits(Shr(w, e), Shr(x, e), t, false, true)
    ensures Admits(w, x, Together(p, t, e), false, true)
  {
    hide Admits, Chop, Shr, Exp, Together, Bit;
    PartsOf(x, e);
    PartsOfTogether(p, t, e);
    FieldStep(w, x, Together(p, t, e), false, e);
  }

  // ----- exact sums

  lemma {:induction false} SameUpperWalls(w: nat, v: nat, x: nat, d: nat)
    requires Tl(w) == Tl(v)
    ensures Admits(w, x, d, false, true) <==> Admits(v, x, d, false, true)
  {
    hide Admits;
    AdmitsStep(w, x, d, false, true);
    AdmitsStep(v, x, d, false, true);
  }

  /** A sum has exactly the walls of both operands that no carry of the extents crosses. */
  lemma {:induction false} SumWalls(u: Unum, v: Unum, i: nat)
    ensures Bit(u.Add(v).walls, i)
       <==> Bit(u.walls, i) && Bit(v.walls, i) && Chop(u.extent, i) + Chop(v.extent, i) < Exp(i)
  {
    hide Map, CarryOut, Exp, Chop, Bit;
    var co := CarryOut(u.extent, v.extent, false);
    MapBit(And, u.walls, v.walls, i);
    MapBit(AndNot, BwAnd(u.walls, v.walls), 2 * co, i);
    DoubledBit(co, i);
    if i > 0 {
      CarryIsOverflow(u.extent, v.extent, false, i - 1);
    } else {
      ChopNone(u.extent, v.extent, i);
      ExpPos(i);
    }
  }

  lemma {:induction false} DoubledBit(n: nat, i: nat)
    ensures Bit(2 * n, i) == (i > 0 && Bit(n, i - 1))
  {
  }

  /** With the same walls in both operands and no carry across one, the sum keeps them all. */
  lemma {:induction false} KeptWalls(u: Unum, v: Unum)
    requires Tl(u.walls) == Tl(v.walls) && NoCarryAcross(u.walls, u.extent, v.extent)
    ensures Tl(u.Add(v).walls) == Tl(u.walls)
  {
    hide Map, CarryOut, Exp, Chop, SharedWalls;
    var w := u.Add(v).walls;
    forall i: nat
      ensures Bit(Tl(w), i) == Bit(Tl(u.walls), i)
    {
      SumWalls(u, v, i + 1);
      assert Bit(w, i + 1) == Bit(Tl(w), i) && Bit(u.walls, i + 1) == Bit(Tl(u.walls), i);
      assert Bit(v.walls, i + 1) == Bit(Tl(v.walls), i);
    }
    EqFromBits(Tl(w), Tl(u.walls));
  }

  /** With the same walls in both operands and no carry across one, the sum holds exactly the sums of members. */
  lemma {:induction false} UnumAddExact(u: Unum, v: Unum, k: nat)
    requires Tl(u.walls) == Tl(v.walls) && NoCarryAcross(u.walls, u.extent, v.extent)
    ensures u.Add(v).Has(k) <==> exists m: nat, n: nat :: u.Has(m) && v.Has(n) && m + n == k
  {
    hide Admits, SharedWalls, Tl, NoCarryAcross;
    if u.Add(v).Has(k) {
      var off := k - (u.base + v.base);
      KeptWalls(u, v);
      SameUpperWalls(u.Add(v).walls, u.walls, u.extent + v.extent, off);
      var d1, d2 := SplitOffset(u.walls, u.extent, v.extent, off);
      SameUpperWalls(u.walls, v.walls, v.extent, d2);
      assert u.Has(u.base + d1) && v.Has(v.base + d2) && (u.base + d1) + (v.base + d2) == k;
    }
    if m: nat, n: nat :| u.Has(m) && v.Has(n) && m + n == k {
      UnumAddSound(u, v, m, n);
    }
  }

  /** In particular operands of a single field add exactly. */
  lemma {:induction false} SingleFieldsAddExactly(u: Unum, v: Unum, k: nat)
    requires u.walls == 0 && v.walls == 0
    ensures u.Add(v).Has(k) <==> exists m: nat, n: nat :: u.Has(m) && v.Has(n) && m + n == k
  {
    hide Admits, CarryOut, Map, Chop, Exp;
    forall i: nat ensures !Bit(u.walls, i) { BitZero(i); }
    UnumAddExact(u, v, k);
  }
}
