/**
  What the borrow walk of a unum decides: in every field delimited by walls the
  slice of the offset is at most the slice of the extent.
 */
module UnumFields {
  import opened Bitstrings
  import opened Unums

  /** Positions s to e - 1 are one field: it starts at 0 or at a wall and ends at the next wall. */
  ghost predicate IsField(w: nat, s: nat, e: nat) {
    s < e && (s == 0 || Bit(w, s)) && Bit(w, e) && forall j: nat :: s < j < e ==> !Bit(w, j)
  }

  /** The topmost field has no end. */
  ghost predicate IsTopField(w: nat, s: nat) {
    (s == 0 || Bit(w, s)) && forall j: nat :: s < j ==> !Bit(w, j)
  }

  function Slice(n: nat, s: nat, e: nat): nat
    requires s <= e
  {
    Chop(Shr(n, s), e - s)
  }

  /** A slice is a quotient reduced to the width of the field. */
  lemma {:induction false} SliceIsDivMod(n: nat, s: nat, e: nat)
    requires s <= e
    ensures Exp(s) > 0 && Exp(e - s) > 0
    ensures Slice(n, s, e) == n / Exp(s) % Exp(e - s) && Shr(n, s) == n / Exp(s)
  {
    hide Exp, Chop, Shr;
    ShrIsDiv(n, s);
    ChopIsMod(Shr(n, s), e - s);
  }

  /** The bound of one field; a borrow owed from below is charged to the lowest field. */
  ghost predicate FieldFits(w: nat, x: nat, d: nat, b: bool, s: nat, e: nat) {
    IsField(w, s, e) ==> Slice(d, s, e) + N(s == 0 && b) <= Slice(x, s, e)
  }

  ghost predicate TopFits(w: nat, x: nat, d: nat, b: bool, s: nat) {
    IsTopField(w, s) ==> Shr(d, s) + N(s == 0 && b) <= Shr(x, s)
  }

  ghost predicate AllFit(w: nat, x: nat, d: nat, b: bool) {
    && (forall s: nat, e: nat :: FieldFits(w, x, d, b, s, e))
    && (forall s: nat :: TopFits(w, x, d, b, s))
  }

  // ----- one position up

  lemma {:induction false} FieldShift(w: nat, s: nat, e: nat)
    ensures s > 0 || Hd(Tl(w)) ==> (IsField(w, s + 1, e + 1) <==> IsField(Tl(w), s, e))
    ensures !Hd(Tl(w)) ==> (e > 0 && IsField(w, 0, e + 1) <==> IsField(Tl(w), 0, e))
    ensures s > 0 || Hd(Tl(w)) ==> (IsTopField(w, s + 1) <==> IsTopField(Tl(w), s))
    ensures !Hd(Tl(w)) ==> (IsTopField(w, 0) <==> IsTopField(Tl(w), 0))
  {
    forall j: nat
      ensures Bit(w, j + 1) == Bit(Tl(w), j)
    {
    }
    assert Bit(w, 1) == Hd(Tl(w)) == Bit(Tl(w), 0);
    assert forall j: nat :: j > 0 ==> Bit(w, j) == Bit(Tl(w), j - 1);
  }

  lemma {:induction false} FieldsAtWall(w: nat, e: nat)
    requires Hd(Tl(w))
    ensures IsField(w, 0, e) <==> e == 1
    ensures !IsTopField(w, 0)
  {
    assert Bit(w, 1) == Hd(Tl(w));
  }

  lemma {:induction false} NoFieldAtOne(w: nat, e: nat)
    requires !Hd(Tl(w))
    ensures !IsField(w, 1, e) && !IsTopField(w, 1) && !IsField(w, 0, 1)
  {
    assert Bit(w, 1) == Hd(Tl(w));
  }

  lemma {:induction false} SliceShift(n: nat, s: nat, e: nat)
    requires s <= e
    ensures Slice(n, s + 1, e + 1) == Slice(Tl(n), s, e)
    ensures Slice(n, 0, e + 1) == 2 * Slice(Tl(n), 0, e) + N(Hd(n))
    ensures Shr(n, s + 1) == Shr(Tl(n), s)
    ensures Slice(n, 0, 1) == N(Hd(n))
  {
    assert Shr(n, 0) == n && Shr(Tl(n), 0) == Tl(n);
  }

  lemma CompareStep(x: nat, d: nat, hx: bool, hd: bool, b: bool)
    ensures 2 * d + N(hd) + N(b) <= 2 * x + N(hx) <==> d + N(Borrow(hx, hd, b)) <= x
  {
  }

  // ----- the two ways a position relates to the next

  lemma {:induction false} AllFitAtWall(w: nat, x: nat, d: nat, b: bool)
    requires Hd(Tl(w))
    ensures AllFit(w, x, d, b) <==> N(Hd(d)) + N(b) <= N(Hd(x)) && AllFit(Tl(w), Tl(x), Tl(d), false)
  {
    hide IsField, IsTopField, Slice, Shr, Hd, Tl, Bit;
    FieldsAtWall(w, 1);
    SliceShift(x, 0, 0);
    SliceShift(d, 0, 0);
    forall s: nat, e: nat
      ensures FieldFits(w, x, d, b, s + 1, e + 1) <==> FieldFits(Tl(w), Tl(x), Tl(d), false, s, e)
      ensures TopFits(w, x, d, b, s + 1) <==> TopFits(Tl(w), Tl(x), Tl(d), false, s)
    {
      FieldShift(w, s, e);
      ShiftedFits(w, x, d, b, s, e);
    }
    if AllFit(w, x, d, b) {
      assert FieldFits(w, x, d, b, 0, 1);
      forall s: nat, e: nat
        ensures FieldFits(Tl(w), Tl(x), Tl(d), false, s, e) && TopFits(Tl(w), Tl(x), Tl(d), false, s)
      {
        assert FieldFits(w, x, d, b, s + 1, e + 1) && TopFits(w, x, d, b, s + 1);
      }
      forall s: nat
        ensures TopFits(Tl(w), Tl(x), Tl(d), false, s)
      {
        assert FieldFits(Tl(w), Tl(x), Tl(d), false, s, 0);
      }
    }
    if N(Hd(d)) + N(b) <= N(Hd(x)) && AllFit(Tl(w), Tl(x), Tl(d), false) {
      forall s: nat, e: nat
        ensures FieldFits(w, x, d, b, s, e) && TopFits(w, x, d, b, s)
      {
        FieldsAtWall(w, e);
        if s > 0 && e > 0 {
          assert FieldFits(Tl(w), Tl(x), Tl(d), false, s - 1, e - 1);
        }
        if s > 0 {
          assert FieldFits(Tl(w), Tl(x), Tl(d), false, s - 1, 0) && TopFits(Tl(w), Tl(x), Tl(d), false, s - 1);
        }
        FieldIsNonempty(w, s, e);
      }
      forall s: nat
        ensures TopFits(w, x, d, b, s)
      {
        assert FieldFits(w, x, d, b, s, 0);
      }
    }
  }

  lemma FieldIsNonempty(w: nat, s: nat, e: nat)
    ensures IsField(w, s, e) ==> s < e
  {
  }

  lemma {:induction false} ShiftedFits(w: nat, x: nat, d: nat, b: bool, s: nat, e: nat)
    requires s > 0 || Hd(Tl(w))
    ensures FieldFits(w, x, d, b, s + 1, e + 1) <==> FieldFits(Tl(w), Tl(x), Tl(d), false, s, e)
    ensures TopFits(w, x, d, b, s + 1) <==> TopFits(Tl(w), Tl(x), Tl(d), false, s)
  {
    hide IsField, IsTopField, Slice, Shr, Hd, Tl, Bit;
    FieldShift(w, s, e);
    FieldIsNonempty(w, s + 1, e + 1);
    FieldIsNonempty(Tl(w), s, e);
    if s <= e {
      SliceShift(x, s, e);
      SliceShift(d, s, e);
    }
    SliceShift(x, s, s);
    SliceShift(d, s, s);
  }

  lemma {:induction false} LowestFits(w: nat, x: nat, d: nat, b: bool, e: nat)
    requires !Hd(Tl(w))
    ensures var nb := Borrow(Hd(x), Hd(d), b);
            && (FieldFits(w, x, d, b, 0, e + 1) <==> FieldFits(Tl(w), Tl(x), Tl(d), nb, 0, e))
            && (TopFits(w, x, d, b, 0) <==> TopFits(Tl(w), Tl(x), Tl(d), nb, 0))
  {
    hide IsField, IsTopField, Slice, Hd, Tl, Bit, Borrow;
    FieldShift(w, 0, e);
    NoFieldAtOne(w, e);
    FieldIsNonempty(Tl(w), 0, e);
    SliceShift(x, 0, e);
    SliceShift(d, 0, e);
    CompareStep(Slice(Tl(x), 0, e), Slice(Tl(d), 0, e), Hd(x), Hd(d), b);
    ConsHdTl(x);
    ConsHdTl(d);
    CompareStep(Tl(x), Tl(d), Hd(x), Hd(d), b);
  }

  lemma {:induction false} AllFitInside(w: nat, x: nat, d: nat, b: bool)
    requires !Hd(Tl(w))
    ensures AllFit(w, x, d, b) <==> AllFit(Tl(w), Tl(x), Tl(d), Borrow(Hd(x), Hd(d), b))
  {
    hide IsField, IsTopField, Slice, Shr, Hd, Tl, Bit, Borrow;
    var nb := Borrow(Hd(x), Hd(d), b);
    if AllFit(w, x, d, b) {
      forall s: nat, e: nat
        ensures FieldFits(Tl(w), Tl(x), Tl(d), nb, s, e) && TopFits(Tl(w), Tl(x), Tl(d), nb, s)
      {
        if s == 0 {
          LowestFits(w, x, d, b, e);
          assert FieldFits(w, x, d, b, 0, e + 1) && TopFits(w, x, d, b, 0);
        } else {
          ShiftedFits(w, x, d, b, s, e);
          assert FieldFits(w, x, d, b, s + 1, e + 1) && TopFits(w, x, d, b, s + 1);
        }
      }
      forall s: nat
        ensures TopFits(Tl(w), Tl(x), Tl(d), nb, s)
      {
        assert FieldFits(Tl(w), Tl(x), Tl(d), nb, s, 0);
      }
    }
    if AllFit(Tl(w), Tl(x), Tl(d), nb) {
      forall s: nat, e: nat
        ensures FieldFits(w, x, d, b, s, e) && TopFits(w, x, d, b, s)
      {
        FieldIsNonempty(w, s, e);
        NoFieldAtOne(w, e);
        var f := if e > 0 then e - 1 else 0;
        if s == 0 {
          LowestFits(w, x, d, b, f);
          assert FieldFits(Tl(w), Tl(x), Tl(d), nb, 0, f) && TopFits(Tl(w), Tl(x), Tl(d), nb, 0);
        } else if s > 1 {
          ShiftedFits(w, x, d, b, s - 1, f);
          assert FieldFits(Tl(w), Tl(x), Tl(d), nb, s - 1, f) && TopFits(Tl(w), Tl(x), Tl(d), nb, s - 1);
        }
      }
      forall s: nat
        ensures TopFits(w, x, d, b, s)
      {
        assert FieldFits(w, x, d, b, s, 0);
      }
    }
  }

  lemma {:induction false} AllFitZero(w: nat, x: nat, d: nat, b: bool)
    requires w == x == d == 0
    ensures AllFit(w, x, d, b) <==> !b
  {
    forall j: nat
      ensures !Bit(w, j)
    {
      BitZero(j);
    }
    assert IsTopField(w, 0);
    assert TopFits(w, x, d, b, 0) <==> !b;
  }

  // ----- the walk decides the fields

  lemma {:induction false} AdmitsIffFit(w: nat, x: nat, d: nat, b: bool)
    ensures Admits(w, x, d, b, true) <==> AllFit(w, x, d, b)
    decreases w + x + d
  {
    hide Admits, AllFit, Hd, Tl;
    if w == 0 && x == 0 && d == 0 {
      AllFitZero(w, x, d, b);
      AdmitsZero(b, true);
    } else {
      var nb := Borrow(Hd(x), Hd(d), b);
      TlSmaller6(w, x, d, 0, 0, 0);
      AdmitsStep(w, x, d, b, true);
      AdmitsStep(Tl(w), Tl(x), Tl(d), nb, false);
      AdmitsStep(Tl(w), Tl(x), Tl(d), nb, true);
      AdmitsIffFit(Tl(w), Tl(x), Tl(d), nb);
      if Hd(Tl(w)) {
        AllFitAtWall(w, x, d, b);
      } else {
        AllFitInside(w, x, d, b);
      }
    }
  }

  /**
    A unum admits an offset exactly when every field of the offset is at most the
    same field of the extent.
   */
  lemma {:induction false} AdmitsExactlyFields(u: Unum, n: nat)
    requires u.base <= n
    ensures u.Has(n) <==>
              && (forall s: nat, e: nat :: IsField(u.walls, s, e) ==>
                    Slice(n - u.base, s, e) <= Slice(u.extent, s, e))
              && (forall s: nat :: IsTopField(u.walls, s) ==> Shr(n - u.base, s) <= Shr(u.extent, s))
  {
    hide Admits, Slice, Shr, IsTopField;
    var d := n - u.base;
    AdmitsIffFit(u.walls, u.extent, d, false);
    assert forall s: nat, e: nat :: FieldFits(u.walls, u.extent, d, false, s, e) <==>
      (IsField(u.walls, s, e) ==> Slice(d, s, e) <= Slice(u.extent, s, e));
    assert forall s: nat :: TopFits(u.walls, u.extent, d, false, s) <==>
      (IsTopField(u.walls, s) ==> Shr(d, s) <= Shr(u.extent, s));
  }
}
