/** Wrapping addition, negation and subtraction of arcs, which lose nothing. */
module WrappedArithmetic {
  import opened WrappedIntervals

  function Add(a: Wrapped, b: Wrapped, m: nat): (r: Wrapped)
    requires a.Wf(m) && b.Wf(m)
    ensures r.Wf(m)
  {
    if a.Top? || b.Top? then Top
    else if Distance(a.lo, a.hi, m) + Distance(b.lo, b.hi, m) >= m then Top
    else New(Wrap(a.lo + b.lo, m), Wrap(a.hi + b.hi, m), m)
  }

  function WordNeg(x: nat, m: nat): (r: nat)
    requires x < m
    ensures r < m
  {
    if x == 0 then 0 else m - x
  }

  function Neg(a: Wrapped, m: nat): (r: Wrapped)
    requires a.Wf(m)
    ensures r.Wf(m)
  {
    if a.Top? then Top else New(WordNeg(a.hi, m), WordNeg(a.lo, m), m)
  }

  function Sub(a: Wrapped, b: Wrapped, m: nat): (r: Wrapped)
    requires a.Wf(m) && b.Wf(m)
    ensures r.Wf(m)
  {
    Add(a, Neg(b, m), m)
  }

  /** Distances add when both words move. */
  lemma AddDistance(p: nat, q: nat, x: nat, y: nat, m: nat)
    requires p < m && q < m && x < m && y < m
    requires Distance(p, x, m) + Distance(q, y, m) < m
    ensures Distance(Wrap(p + q, m), Wrap(x + y, m), m) == Distance(p, x, m) + Distance(q, y, m)
  {
  }

  lemma NegDistance(p: nat, x: nat, m: nat)
    requires p < m && x < m
    ensures Distance(WordNeg(p, m), WordNeg(x, m), m) == Distance(x, p, m)
  {
  }

  lemma AddSound(a: Wrapped, b: Wrapped, m: nat, x: nat, y: nat)
    requires a.Wf(m) && b.Wf(m) && a.Has(x, m) && b.Has(y, m)
    ensures Add(a, b, m).Has(Wrap(x + y, m), m)
  {
    hide Wrap, New, Distance;
    if a.Arc? && b.Arc? && Distance(a.lo, a.hi, m) + Distance(b.lo, b.hi, m) < m {
      AddDistance(a.lo, b.lo, x, y, m);
      AddDistance(a.lo, b.lo, a.hi, b.hi, m);
      NewHas(Wrap(a.lo + b.lo, m), Wrap(a.hi + b.hi, m), m, Wrap(x + y, m));
    }
  }

  /** Every member of the sum is a sum of members. */
  lemma AddComplete(a: Wrapped, b: Wrapped, m: nat, z: nat) returns (x: nat, y: nat)
    requires a.Wf(m) && b.Wf(m) && Add(a, b, m).Has(z, m)
    ensures a.Has(x, m) && b.Has(y, m) && Wrap(x + y, m) == z
  {
    hide Wrap, New;
    if a.Top? {
      Member(b, m);
      y := if b.Top? then 0 else b.lo;
      x := Wrap(z - y, m);
      WrapBack(x, y, z, m);
    } else if b.Top? {
      Member(a, m);
      x := a.lo;
      y := Wrap(z - x, m);
      WrapBack(y, x, z, m);
    } else {
      x, y := SplitSum(a, b, m, z);
    }
  }

  /** Walks along the first arc as far as it goes and then along the second. */
  lemma SplitSum(a: Wrapped, b: Wrapped, m: nat, z: nat) returns (x: nat, y: nat)
    requires a.Wf(m) && b.Wf(m) && a.Arc? && b.Arc? && Add(a, b, m).Has(z, m)
    ensures a.Has(x, m) && b.Has(y, m) && Wrap(x + y, m) == z
  {
    hide Wrap, New, Distance;
    var da, lo := Distance(a.lo, a.hi, m), Wrap(a.lo + b.lo, m);
    var t := Distance(lo, z, m);
    assert t <= da + Distance(b.lo, b.hi, m) by {
      if da + Distance(b.lo, b.hi, m) < m {
        AddDistance(a.lo, b.lo, a.hi, b.hi, m);
        NewHas(lo, Wrap(a.hi + b.hi, m), m, z);
      }
    }
    var s := if t <= da then t else da;
    x, y := Wrap(a.lo + s, m), Wrap(b.lo + (t - s), m);
    Step(a.lo, s, m);
    Step(b.lo, t - s, m);
    AddDistance(a.lo, b.lo, x, y, m);
    Injective(lo, Wrap(x + y, m), z, m);
  }

  lemma Step(p: nat, s: nat, m: nat)
    requires p < m && s < m
    ensures Distance(p, Wrap(p + s, m), m) == s
  {
  }

  lemma WrapBack(x: nat, y: nat, z: nat, m: nat)
    requires y < m && z < m && x == Wrap(z - y, m)
    ensures Wrap(x + y, m) == z && Wrap(y + x, m) == z
  {
  }

  /** The sum holds exactly the wrapped sums of members. */
  lemma AddExact(a: Wrapped, b: Wrapped, m: nat, z: nat)
    requires a.Wf(m) && b.Wf(m)
    ensures Add(a, b, m).Has(z, m) <==> exists x: nat, y: nat :: a.Has(x, m) && b.Has(y, m) && Wrap(x + y, m) == z
  {
    if Add(a, b, m).Has(z, m) {
      var x, y := AddComplete(a, b, m, z);
      assert a.Has(x, m) && b.Has(y, m) && Wrap(x + y, m) == z;
    }
    if x: nat, y: nat :| a.Has(x, m) && b.Has(y, m) && Wrap(x + y, m) == z {
      AddSound(a, b, m, x, y);
    }
  }

  /** Negation holds exactly the negations of members. */
  lemma NegExact(a: Wrapped, m: nat, z: nat)
    requires a.Wf(m) && z < m
    ensures Neg(a, m).Has(z, m) <==> a.Has(WordNeg(z, m), m)
  {
    if a.Arc? {
      var w := WordNeg(z, m);
      assert WordNeg(w, m) == z;
      NegDistance(a.hi, w, m);
      NegDistance(a.hi, a.lo, m);
      NewHas(WordNeg(a.hi, m), WordNeg(a.lo, m), m, z);
    }
  }

  /** The difference holds exactly the wrapped differences of members. */
  lemma SubExact(a: Wrapped, b: Wrapped, m: nat, z: nat)
    requires a.Wf(m) && b.Wf(m)
    ensures Sub(a, b, m).Has(z, m) <==> exists x: nat, y: nat :: a.Has(x, m) && b.Has(y, m) && Wrap(x - y, m) == z
  {
    hide Add, Neg;
    if Sub(a, b, m).Has(z, m) {
      var x: int, w: nat := AddComplete(a, Neg(b, m), m, z);
      NegExact(b, m, w);
      var y: int := WordNeg(w, m);
      AddNegIsSub(x, y, w, m);
      assert a.Has(x, m) && b.Has(y, m) && Wrap(x - y, m) == z;
    }
    if x: nat, y: nat :| a.Has(x, m) && b.Has(y, m) && Wrap(x - y, m) == z {
      var w := WordNeg(y, m);
      NegExact(b, m, w);
      AddNegIsSub(x, y, w, m);
      AddSound(a, Neg(b, m), m, x, w);
    }
  }

  lemma AddNegIsSub(x: int, y: int, w: int, m: nat)
    requires 0 <= x < m && 0 <= y < m && 0 <= w < m && (y == WordNeg(w, m) || w == WordNeg(y, m))
    ensures Wrap(x + w, m) == Wrap(x - y, m) && y == WordNeg(w, m)
  {
  }
}
