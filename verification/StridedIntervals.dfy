/**
  Strided intervals over words: lo, lo + stride, ..., hi. Stride 0 is kept for
  singletons, and otherwise hi lies on the grid, so that each set has one triple.
 */
module StridedIntervals {
  import opened DivModFacts
  import opened Gcds
  import opened Lattice

  datatype Strided = Strided(stride: nat, lo: nat, hi: nat) {
    predicate Wf(m: nat) {
      && lo <= hi < m
      && (stride == 0 <==> lo == hi)
      && (stride > 0 ==> Divides(stride, hi - lo))
    }

    predicate Has(x: nat) {
      lo <= x <= hi && (stride == 0 || Divides(stride, x - lo))
    }
  }

  function Min(x: nat, y: nat): nat { if x <= y then x else y }

  function Max(x: nat, y: nat): nat { if x <= y then y else x }

  /** The points of the grid from lo up to hi, with hi moved down to the grid. */
  function Mk(stride: nat, lo: nat, hi: nat): Strided
    requires lo <= hi
  {
    if stride == 0 || lo == hi then Strided(0, lo, lo)
    else
      var top := LastOnGrid(stride, lo, hi);
      if top == lo then Strided(0, lo, lo) else Strided(stride, lo, top)
  }

  function LastOnGrid(stride: nat, lo: nat, hi: nat): (top: nat)
    requires lo <= hi && stride > 0
    ensures lo <= top <= hi < top + stride && Divides(stride, top - lo)
  {
    var q := (hi - lo) / stride;
    DivAnti(hi - lo, 1, stride);
    MulMono(0, q, stride);
    MultipleMod(stride, q);
    assert hi - (hi - lo) % stride == lo + stride * q;
    hi - (hi - lo) % stride
  }

  predicate Leq(a: Strided, b: Strided, m: nat)
    requires a.Wf(m) && b.Wf(m)
  {
    if a.lo == a.hi then b.Has(a.lo)
    else if !(b.lo <= a.lo && a.hi <= b.hi) then false
    else Divides(b.stride, a.lo - b.lo) && Divides(b.stride, a.stride)
  }

  /** The grid of the join: an operand's stride when it fits both operands, and else 1. */
  function CommonStride(a: Strided, b: Strided): nat {
    var gap := Gap(a.lo, b.lo);
    if a.stride == 0 && b.stride == 0 then gap
    else if a.stride != 0 && b.stride % a.stride == 0 && gap % a.stride == 0 then a.stride
    else if b.stride != 0 && a.stride % b.stride == 0 && gap % b.stride == 0 then b.stride
    else 1
  }

  function Join(a: Strided, b: Strided): Strided {
    if a.stride == 0 && b.stride == 0 && a.lo == b.lo then a
    else Strided(CommonStride(a, b), Min(a.lo, b.lo), Max(a.hi, b.hi))
  }

  /** The first grid point at or above l. */
  function RoundUp(base: nat, l: nat, s: nat): (lo: nat)
    requires base <= l && s > 0
    ensures l <= lo < l + s && Divides(s, lo - base)
  {
    var rem := (l - base) % s;
    var q := (l - base) / s;
    assert l - base == s * q + rem;
    MultipleMod(s, q);
    MultipleMod(s, q + 1);
    assert s * (q + 1) == s * q + s;
    if rem == 0 then l else l + (s - rem)
  }

  /** The points of a from l to h. */
  function Clip(a: Strided, l: nat, h: nat, m: nat): BotOr<Strided>
    requires a.stride > 0 && a.lo <= l <= h <= a.hi
  {
    var lo := RoundUp(a.lo, l, a.stride);
    if lo >= m || h < lo then Bot
    else if h == a.hi then Val(Strided(if lo == h then 0 else a.stride, lo, h))
    else Val(Mk(a.stride, lo, h))
  }

  /** Meet of two progressions when a has the larger stride. */
  function MeetUnequal(a: Strided, b: Strided, m: nat): BotOr<Strided>
    requires a.Wf(m) && b.Wf(m) && a.stride > b.stride > 0 && a.lo <= b.hi && b.lo <= a.hi
  {
    if a.stride % b.stride == 0 && Gap(a.lo, b.lo) % b.stride != 0 then Bot
    else Clip(a, Max(a.lo, b.lo), Min(a.hi, b.hi), m)
  }

  function Meet(a: Strided, b: Strided, m: nat): BotOr<Strided>
    requires a.Wf(m) && b.Wf(m)
  {
    if a.hi < b.lo || b.hi < a.lo then Bot
    else if a.lo == a.hi then (if b.Has(a.lo) then Val(a) else Bot)
    else if b.lo == b.hi then (if a.Has(b.lo) then Val(b) else Bot)
    else if a.stride == b.stride then
      var lo, hi := Max(a.lo, b.lo), Min(a.hi, b.hi);
      if Gap(a.lo, b.lo) % a.stride != 0 || hi < lo then Bot
      else Val(Strided(if lo == hi then 0 else a.stride, lo, hi))
    else if b.stride < a.stride then MeetUnequal(a, b, m)
    else MeetUnequal(b, a, m)
  }

  ghost predicate Subset(a: Strided, b: Strided) { forall x: nat | a.Has(x) :: b.Has(x) }

  // ----- divisibility of differences

  /** Grids through points a whole number of strides apart coincide. */
  lemma SameGrid(d: nat, x: int, p: int, q: int)
    requires Divides(d, p - q)
    ensures Divides(d, x - p) <==> Divides(d, x - q)
  {
    if Divides(d, x - p) { DividesSum(d, x - p, p - q); }
    if Divides(d, x - q) { DividesSum(d, x - q, p - q); }
  }

  // ----- members

  lemma Ends(a: Strided, m: nat)
    requires a.Wf(m)
    ensures a.Has(a.lo) && a.Has(a.hi)
    ensures a.stride > 0 ==> a.lo + a.stride <= a.hi && a.Has(a.lo + a.stride)
  {
    if a.stride > 0 {
      SelfDivides(a.stride);
      DividesBound(a.stride, a.hi - a.lo);
      MultipleMod(a.stride, 0);
    }
  }

  /** The smart constructor keeps exactly the grid points in range. */
  lemma MkExact(stride: nat, lo: nat, hi: nat, m: nat, x: nat)
    requires lo <= hi < m
    ensures Mk(stride, lo, hi).Wf(m)
    ensures Mk(stride, lo, hi).Has(x) <==> if stride == 0 then x == lo else lo <= x <= hi && Divides(stride, x - lo)
  {
    hide Divides, LastOnGrid;
    if stride > 0 {
      var top := LastOnGrid(stride, lo, hi);
      assert Divides(stride, lo - lo) by { MultipleMod(stride, 0); MakeDivides(stride, 0); }
      if lo <= x <= hi && Divides(stride, x - lo) && x > top {
        DividesSum(stride, x - lo, top - lo);
        assert x - lo - (top - lo) == x - top;
        DividesBound(stride, x - top);
        assert false;
      }
      if lo < x <= hi && Divides(stride, x - lo) && top == lo {
        DividesBound(stride, x - lo);
        assert false;
      }
    }
  }

  // ----- order

  lemma SubsetStride(a: Strided, b: Strided, m: nat)
    requires a.Wf(m) && b.Wf(m) && Subset(a, b)
    ensures b.lo <= a.lo && a.hi <= b.hi && b.Has(a.lo)
    ensures a.stride > 0 ==> Divides(b.stride, a.stride) && Divides(b.stride, a.lo - b.lo)
  {
    hide Divides;
    Ends(a, m);
    if a.stride > 0 {
      DividesSum(b.stride, a.lo + a.stride - b.lo, a.lo - b.lo);
      assert a.lo + a.stride - b.lo - (a.lo - b.lo) == a.stride;
    }
  }

  lemma LeqSound(a: Strided, b: Strided, m: nat, x: nat)
    requires a.Wf(m) && b.Wf(m) && Leq(a, b, m) && a.Has(x)
    ensures b.Has(x)
  {
    hide Divides;
    if a.stride > 0 {
      DividesChain(b.stride, a.stride, x - a.lo);
      DividesSum(b.stride, x - a.lo, a.lo - b.lo);
      assert x - a.lo + (a.lo - b.lo) == x - b.lo;
    }
  }

  /** The inclusion test decides inclusion. */
  lemma LeqExact(a: Strided, b: Strided, m: nat)
    requires a.Wf(m) && b.Wf(m)
    ensures Leq(a, b, m) <==> Subset(a, b)
  {
    if Leq(a, b, m) {
      forall x: nat | a.Has(x) ensures b.Has(x) { LeqSound(a, b, m, x); }
    }
    if Subset(a, b) {
      SubsetStride(a, b, m);
    }
  }

  /** Equal sets have equal triples. */
  lemma Canonical(a: Strided, b: Strided, m: nat)
    requires a.Wf(m) && b.Wf(m) && Subset(a, b) && Subset(b, a)
    ensures a == b
  {
    SubsetStride(a, b, m);
    SubsetStride(b, a, m);
    if a.stride > 0 {
      SameDivisors(a.stride, b.stride);
    }
  }

  // ----- join

  lemma JoinFacts(a: Strided, b: Strided, m: nat)
    requires a.Wf(m) && b.Wf(m)
    ensures var g := Join(a, b).stride;
            g == 0 ==> a == b
    ensures var g := Join(a, b).stride;
            g > 0 ==> a.stride % g == 0 && b.stride % g == 0 && Divides(g, a.lo - b.lo)
    ensures Join(a, b).lo == Min(a.lo, b.lo) && Join(a, b).hi == Max(a.hi, b.hi)
  {
    var g := Join(a, b).stride;
    if g > 0 {
      SelfDivides(g);
      MultipleMod(g, 0);
      Unique(a.stride, 1, a.stride, 0);
      Unique(b.stride, 1, b.stride, 0);
      Unique(Gap(a.lo, b.lo), 1, Gap(a.lo, b.lo), 0);
      GapDivides(g, a.lo, b.lo);
    }
  }

  /** An operand on a coarser grid lies on the grid through any point of it. */
  lemma OperandOnGrid(a: Strided, m: nat, g: nat, base: nat, x: nat)
    requires a.Wf(m) && a.Has(x) && g > 0 && a.stride % g == 0 && Divides(g, a.lo - base)
    ensures Divides(g, x - base)
  {
    hide Divides;
    if a.stride > 0 {
      assert Divides(g, a.stride) by { MakeDivides(g, a.stride); }
      DividesChain(g, a.stride, x - a.lo);
      SameGrid(g, x, a.lo, base);
    }
  }

  lemma JoinCovers(a: Strided, b: Strided, m: nat, x: nat)
    requires a.Wf(m) && b.Wf(m) && (a.Has(x) || b.Has(x))
    ensures Join(a, b).Has(x)
  {
    hide Join;
    JoinFacts(a, b, m);
    var g, base := Join(a, b).stride, Join(a, b).lo;
    if g > 0 {
      DividesNegated(g, a.lo - b.lo);
      MultipleMod(g, 0);
      if a.Has(x) { OperandOnGrid(a, m, g, base, x); }
      if b.Has(x) { OperandOnGrid(b, m, g, base, x); }
    }
  }

  lemma JoinWf(a: Strided, b: Strided, m: nat)
    requires a.Wf(m) && b.Wf(m)
    ensures Join(a, b).Wf(m)
  {
    JoinFacts(a, b, m);
    Ends(a, m);
    Ends(b, m);
    JoinCovers(a, b, m, a.hi);
    JoinCovers(a, b, m, b.hi);
  }

  lemma {:induction false} JoinLeast(a: Strided, b: Strided, m: nat, c: Strided)
    requires a.Wf(m) && b.Wf(m) && c.Wf(m) && Subset(a, c) && Subset(b, c)
    requires Join(a, b).stride == BestStride(a, b)
    ensures Subset(Join(a, b), c)
  {
    hide Gcd, Join, Divides;
    JoinFacts(a, b, m);
    JoinWf(a, b, m);
    var j := Join(a, b);
    if j.stride > 0 {
      UpperBoundStride(a, b, m, c);
      LeqExact(j, c, m);
    }
  }

  /** An upper bound's stride divides both strides and the distance of the starts. */
  lemma {:induction false} UpperBoundStride(a: Strided, b: Strided, m: nat, c: Strided)
    requires a.Wf(m) && b.Wf(m) && c.Wf(m) && Subset(a, c) && Subset(b, c) && Join(a, b).stride > 0
    ensures c.lo <= Min(a.lo, b.lo) && Max(a.hi, b.hi) <= c.hi
    ensures Divides(c.stride, BestStride(a, b))
    ensures Divides(c.stride, Min(a.lo, b.lo) - c.lo)
  {
    hide Gcd;
    JoinFacts(a, b, m);
    SubsetStride(a, c, m);
    SubsetStride(b, c, m);
    assert c.stride > 0 by { JoinSpreads(a, b, m); }
    MultipleMod(c.stride, 0);
    DividesSum(c.stride, a.lo - c.lo, b.lo - c.lo);
    assert a.lo - c.lo - (b.lo - c.lo) == a.lo - b.lo;
    GapDivides(c.stride, a.lo, b.lo);
    GcdDivisors(a.stride, b.stride, c.stride);
    GcdDivisors(Gcd(a.stride, b.stride), Gap(a.lo, b.lo), c.stride);
  }

  lemma JoinSpreads(a: Strided, b: Strided, m: nat)
    requires a.Wf(m) && b.Wf(m) && Join(a, b).stride > 0
    ensures Min(a.lo, b.lo) < Max(a.hi, b.hi)
  {
  }

  /** The coarsest grid on which both operands lie. */
  function BestStride(a: Strided, b: Strided): nat { Gcd(Gcd(a.stride, b.stride), Gap(a.lo, b.lo)) }

  /** Both operands are single points, or the coarsest common grid is that of an operand or of all words. */
  predicate GridAvailable(a: Strided, b: Strided) {
    (a.stride == 0 && b.stride == 0) || BestStride(a, b) in {1, a.stride, b.stride}
  }

  /** An operand's stride fits both operands exactly when it is the best one. */
  lemma {:induction false} StrideFits(a: Strided, b: Strided, s: nat, t: nat)
    requires (s == a.stride && t == b.stride) || (s == b.stride && t == a.stride)
    requires s > 0
    ensures t % s == 0 && Gap(a.lo, b.lo) % s == 0 <==> BestStride(a, b) == s
  {
    hide Gcd;
    var g, gg := BestStride(a, b), Gcd(a.stride, b.stride);
    GcdPos(a.stride, b.stride);
    GcdPos(gg, Gap(a.lo, b.lo));
    SelfDivides(s);
    SelfDivides(g);
    GcdDivisors(a.stride, b.stride, s);
    GcdDivisors(gg, Gap(a.lo, b.lo), s);
    GcdDivisors(a.stride, b.stride, g);
    GcdDivisors(gg, Gap(a.lo, b.lo), g);
    if Divides(s, g) {
      SameDivisors(s, g);
    }
  }

  lemma BestOfPoints(a: Strided, b: Strided)
    requires a.stride == 0 && b.stride == 0
    ensures BestStride(a, b) == Gap(a.lo, b.lo)
  {
    GcdOfZero(0);
    GcdOfZero(Gap(a.lo, b.lo));
  }

  lemma {:induction false} JoinStrideIsBest(a: Strided, b: Strided, m: nat)
    requires a.Wf(m) && b.Wf(m)
    ensures Join(a, b).stride == BestStride(a, b) <==> GridAvailable(a, b)
  {
    hide BestStride;
    if a.stride == 0 && b.stride == 0 {
      BestOfPoints(a, b);
    } else {
      BestPositive(a, b);
      if a.stride > 0 { StrideFits(a, b, a.stride, b.stride); }
      if b.stride > 0 { StrideFits(a, b, b.stride, a.stride); }
    }
  }

  lemma {:induction false} BestPositive(a: Strided, b: Strided)
    requires a.stride > 0 || b.stride > 0
    ensures BestStride(a, b) > 0
  {
    hide Gcd;
    GcdPos(a.stride, b.stride);
    GcdPos(Gcd(a.stride, b.stride), Gap(a.lo, b.lo));
  }

  /** The join is the least upper bound exactly when the best stride is one the program tries. */
  lemma {:induction false} JoinIsLubIff(a: Strided, b: Strided, m: nat)
    requires a.Wf(m) && b.Wf(m)
    ensures (forall c: Strided | c.Wf(m) && Subset(a, c) && Subset(b, c) :: Subset(Join(a, b), c))
       <==> GridAvailable(a, b)
  {
    hide BestStride, Join, Divides, GridAvailable;
    JoinStrideIsBest(a, b, m);
    if Join(a, b).stride == BestStride(a, b) {
      forall c: Strided | c.Wf(m) && Subset(a, c) && Subset(b, c) ensures Subset(Join(a, b), c) {
        JoinLeast(a, b, m, c);
      }
    } else {
      GcdJoinIsSmaller(a, b, m);
    }
  }

  /** Otherwise the progression on the gcd is a smaller upper bound. */
  lemma {:induction false} GcdJoinIsSmaller(a: Strided, b: Strided, m: nat)
    requires a.Wf(m) && b.Wf(m)
    requires Join(a, b).stride != BestStride(a, b)
    ensures exists c: Strided :: c.Wf(m) && Subset(a, c) && Subset(b, c) && !Subset(Join(a, b), c)
  {
    hide Gcd, Join;
    JoinFacts(a, b, m);
    JoinWf(a, b, m);
    var j, gg := Join(a, b), Gcd(a.stride, b.stride);
    var g := Gcd(gg, Gap(a.lo, b.lo));
    GcdPos(a.stride, b.stride);
    GcdPos(gg, Gap(a.lo, b.lo));
    if a.stride == 0 && b.stride == 0 && Gap(a.lo, b.lo) == 0 {
      JoinOfSame(a, b);
      assert false;
    }
    SelfDivides(g);
    GcdDivisors(gg, Gap(a.lo, b.lo), g);
    GcdDivisors(a.stride, b.stride, g);
    GapDivides(g, a.lo, b.lo);
    var c := Strided(g, Min(a.lo, b.lo), Max(a.hi, b.hi));
    forall x: nat | a.Has(x) || b.Has(x) ensures c.Has(x) {
      MultipleMod(g, 0);
      if a.Has(x) { OperandOnGrid(a, m, g, c.lo, x); }
      if b.Has(x) { OperandOnGrid(b, m, g, c.lo, x); }
    }
    Ends(a, m);
    Ends(b, m);
    assert c.Wf(m) by { GridSpreads(a, b, m, g); }
    if Subset(j, c) {
      SubsetStride(j, c, m);
      GapDivides(j.stride, a.lo, b.lo);
      GcdDivisors(gg, Gap(a.lo, b.lo), j.stride);
      GcdDivisors(a.stride, b.stride, j.stride);
      SameDivisors(j.stride, g);
    }
  }

  lemma JoinOfSame(a: Strided, b: Strided)
    requires a.stride == 0 && b.stride == 0 && Gap(a.lo, b.lo) == 0
    ensures Join(a, b).stride == 0
  {
  }

  lemma GridSpreads(a: Strided, b: Strided, m: nat, g: nat)
    requires a.Wf(m) && b.Wf(m) && g > 0 && !(a.stride == 0 && b.stride == 0 && Gap(a.lo, b.lo) == 0)
    ensures Min(a.lo, b.lo) < Max(a.hi, b.hi)
  {
  }

  /** The join can miss the least upper bound: {0, 4} and {6} share the grid of even numbers. */
  lemma JoinNotLeast(m: nat, a: Strided, b: Strided, c: Strided)
    requires m > 6 && a == Strided(4, 0, 4) && b == Strided(0, 6, 6) && c == Strided(2, 0, 6)
    ensures a.Wf(m) && b.Wf(m) && c.Wf(m) && Subset(a, c) && Subset(b, c) && !Subset(Join(a, b), c)
  {
    assert Join(a, b) == Strided(1, 0, 6);
    assert Join(a, b).Has(1) && !c.Has(1);
  }

  // ----- meet

  predicate HasBot(v: BotOr<Strided>, x: nat) { v.Val? && v.value.Has(x) }

  predicate WfBot(v: BotOr<Strided>, m: nat) { v.Val? ==> v.value.Wf(m) }

  lemma RoundUpLeast(base: nat, l: nat, s: nat, x: nat)
    requires base <= l && s > 0 && l <= x && Divides(s, x - base)
    ensures RoundUp(base, l, s) <= x && Divides(s, x - RoundUp(base, l, s))
  {
    hide Divides, RoundUp;
    var lo := RoundUp(base, l, s);
    DividesSum(s, x - base, lo - base);
    assert x - base - (lo - base) == x - lo;
    if x < lo {
      DividesNegated(s, x - lo);
      DividesBound(s, lo - x);
    }
  }

  /** Clipping keeps exactly the points in range. */
  lemma ClipExact(a: Strided, l: nat, h: nat, m: nat, x: nat)
    requires a.Wf(m) && a.stride > 0 && a.lo <= l <= h <= a.hi
    ensures WfBot(Clip(a, l, h, m), m)
    ensures HasBot(Clip(a, l, h, m), x) <==> a.Has(x) && l <= x <= h
  {
    hide Divides, Mk, RoundUp;
    var s, lo := a.stride, RoundUp(a.lo, l, a.stride);
    if l <= x && Divides(s, x - a.lo) {
      RoundUpLeast(a.lo, l, s, x);
    }
    if lo <= h {
      assert Divides(s, h - lo) || h != a.hi by { SameGrid(s, h, lo, a.lo); }
      SameGrid(s, x, lo, a.lo);
      MkExact(s, lo, h, m, x);
    }
  }

  /** Where one stride divides the other, one test decides whether the grids meet. */
  lemma GridsDisjoint(a: Strided, b: Strided, m: nat, x: nat)
    requires a.Wf(m) && b.Wf(m) && a.stride > 0 && b.stride > 0 && Divides(b.stride, a.stride)
    requires a.Has(x)
    ensures Divides(b.stride, x - b.lo) <==> Gap(a.lo, b.lo) % b.stride == 0
  {
    hide Divides;
    var d := b.stride;
    DividesChain(d, a.stride, x - a.lo);
    GapDivides(d, a.lo, b.lo);
    if Divides(d, x - b.lo) {
      DividesSum(d, x - b.lo, x - a.lo);
      assert x - b.lo - (x - a.lo) == a.lo - b.lo;
    }
    if Divides(d, a.lo - b.lo) {
      DividesSum(d, x - a.lo, a.lo - b.lo);
      assert x - a.lo + (a.lo - b.lo) == x - b.lo;
    }
  }

  lemma MeetUnequalFacts(a: Strided, b: Strided, m: nat, x: nat)
    requires a.Wf(m) && b.Wf(m) && a.stride > b.stride > 0 && a.lo <= b.hi && b.lo <= a.hi
    ensures WfBot(MeetUnequal(a, b, m), m)
    ensures a.Has(x) && b.Has(x) ==> HasBot(MeetUnequal(a, b, m), x)
    ensures a.stride % b.stride == 0 && HasBot(MeetUnequal(a, b, m), x) ==> a.Has(x) && b.Has(x)
  {
    hide Clip;
    ClipExact(a, Max(a.lo, b.lo), Min(a.hi, b.hi), m, x);
    if a.stride % b.stride == 0 && a.Has(x) {
      GridsDisjoint(a, b, m, x);
    }
  }

  predicate Nested(a: Strided, b: Strided) {
    a.stride == 0 || b.stride == 0 || a.stride % b.stride == 0 || b.stride % a.stride == 0
  }

  lemma MeetSameStride(a: Strided, b: Strided, m: nat, x: nat)
    requires a.Wf(m) && b.Wf(m) && a.stride == b.stride > 0 && b.lo <= a.hi && a.lo <= b.hi
    ensures WfBot(Meet(a, b, m), m)
    ensures HasBot(Meet(a, b, m), x) <==> a.Has(x) && b.Has(x)
  {
    hide Divides;
    var d, lo, hi := a.stride, Max(a.lo, b.lo), Min(a.hi, b.hi);
    GapDivides(d, a.lo, b.lo);
    if Gap(a.lo, b.lo) % d == 0 {
      SameGrid(d, x, a.lo, b.lo);
      SameGrid(d, a.hi, a.lo, b.lo);
      SameGrid(d, b.hi, a.lo, b.lo);
    } else if a.Has(x) && b.Has(x) {
      SelfDivides(d);
      GridsDisjoint(a, b, m, x);
    }
  }

  /** The meet keeps every common member, and adds none when a singleton or nested strides are involved. */
  lemma MeetExact(a: Strided, b: Strided, m: nat, x: nat)
    requires a.Wf(m) && b.Wf(m)
    ensures WfBot(Meet(a, b, m), m)
    ensures a.Has(x) && b.Has(x) ==> HasBot(Meet(a, b, m), x)
    ensures Nested(a, b) && HasBot(Meet(a, b, m), x) ==> a.Has(x) && b.Has(x)
  {
    hide Divides, MeetUnequal;
    if a.hi >= b.lo && b.hi >= a.lo && a.stride > 0 && b.stride > 0 {
      if a.stride == b.stride {
        MeetSameStride(a, b, m, x);
      } else if b.stride < a.stride {
        MeetUnequalFacts(a, b, m, x);
        SmallMod(b.stride, a.stride);
      } else {
        MeetUnequalFacts(b, a, m, x);
        SmallMod(a.stride, b.stride);
      }
    }
  }

  /** Two consecutive points of a progression cannot both lie on a grid whose stride does not divide its own. */
  lemma NoTwoPoints(a: Strided, b: Strided, x: nat, y: nat)
    requires a.stride > 0 && b.stride > 0 && b.Has(x) && b.Has(y) && y == x + a.stride
    ensures Divides(b.stride, a.stride)
  {
    DividesSum(b.stride, y - b.lo, x - b.lo);
    assert y - b.lo - (x - b.lo) == a.stride;
  }

  function Coarser(a: Strided, b: Strided): Strided { if b.stride < a.stride then a else b }

  function Finer(a: Strided, b: Strided): Strided { if b.stride < a.stride then b else a }

  /** Where the bounds overlap, the coarser operand has no point, or one point that the finer one shares. */
  predicate OverlapShared(a: Strided, b: Strided)
    requires a.stride > 0 && b.stride > 0
  {
    var p, q, l, h := Coarser(a, b), Finer(a, b), Max(a.lo, b.lo), Min(a.hi, b.hi);
    h < l
    || (var first := RoundUp(p.lo, l, p.stride); h < first || (q.Has(first) && h < first + p.stride))
  }

  /** The overlapping points of p are all in q exactly when there is none, or one that q shares. */
  lemma OverlapPoints(p: Strided, q: Strided, m: nat, l: nat, h: nat)
    requires p.Wf(m) && q.Wf(m) && p.stride > q.stride > 0 && p.stride % q.stride != 0
    requires l == Max(p.lo, q.lo) <= h == Min(p.hi, q.hi)
    ensures (forall x: nat | p.Has(x) && l <= x <= h :: q.Has(x))
       <==> (var first := RoundUp(p.lo, l, p.stride); h < first || (q.Has(first) && h < first + p.stride))
  {
    hide Divides, RoundUp;
    var s, first := p.stride, RoundUp(p.lo, l, p.stride);
    if first <= h {
      assert p.Has(first);
      if q.Has(first) && first + s <= h {
        SelfDivides(s);
        DividesSum(s, first - p.lo, s);
        assert first - p.lo + s == first + s - p.lo;
        assert p.Has(first + s);
        if q.Has(first + s) {
          NoTwoPoints(p, q, first, first + s);
          DividesMeans(q.stride, s);
          assert false;
        }
      }
    }
    forall x: nat | p.Has(x) && l <= x <= h
      ensures first <= x && (h < first + s ==> x == first)
    {
      RoundUpLeast(p.lo, l, s, x);
      if x > first { DividesBound(s, x - first); }
    }
  }

  lemma MeetOfUnnested(a: Strided, b: Strided, m: nat)
    requires a.Wf(m) && b.Wf(m) && !Nested(a, b) && Max(a.lo, b.lo) <= Min(a.hi, b.hi)
    ensures Meet(a, b, m) == Clip(Coarser(a, b), Max(a.lo, b.lo), Min(a.hi, b.hi), m)
  {
    hide Clip, Divides;
    SelfDivides(a.stride);
    DividesMeans(a.stride, a.stride);
    assert a.stride != b.stride;
  }

  /** The meet is exact when strides are nested, and otherwise exactly when the overlap is shared. */
  lemma MeetExactIff(a: Strided, b: Strided, m: nat)
    requires a.Wf(m) && b.Wf(m)
    ensures (forall x: nat :: HasBot(Meet(a, b, m), x) <==> a.Has(x) && b.Has(x))
       <==> Nested(a, b) || OverlapShared(a, b)
  {
    hide Divides, Meet, Clip, RoundUp;
    if Nested(a, b) {
      forall x: nat ensures HasBot(Meet(a, b, m), x) <==> a.Has(x) && b.Has(x) { MeetExact(a, b, m, x); }
    } else if Min(a.hi, b.hi) < Max(a.lo, b.lo) {
      MeetApart(a, b, m);
    } else {
      MeetExactIffOverlap(a, b, m);
    }
  }

  lemma MeetApart(a: Strided, b: Strided, m: nat)
    requires a.Wf(m) && b.Wf(m) && Min(a.hi, b.hi) < Max(a.lo, b.lo)
    ensures forall x: nat :: HasBot(Meet(a, b, m), x) <==> a.Has(x) && b.Has(x)
  {
  }

  lemma MeetExactIffOverlap(a: Strided, b: Strided, m: nat)
    requires a.Wf(m) && b.Wf(m) && !Nested(a, b) && Max(a.lo, b.lo) <= Min(a.hi, b.hi)
    ensures (forall x: nat :: HasBot(Meet(a, b, m), x) <==> a.Has(x) && b.Has(x)) <==> OverlapShared(a, b)
  {
    hide Divides, Meet, Clip, RoundUp;
    var p, q, l, h := Coarser(a, b), Finer(a, b), Max(a.lo, b.lo), Min(a.hi, b.hi);
    MeetOfUnnested(a, b, m);
    assert p.stride > q.stride by { SelfDivides(a.stride); DividesMeans(a.stride, a.stride); }
    OverlapPoints(p, q, m, l, h);
    forall x: nat ensures HasBot(Meet(a, b, m), x) <==> p.Has(x) && l <= x <= h { ClipExact(p, l, h, m, x); }
    if forall x: nat :: HasBot(Meet(a, b, m), x) <==> a.Has(x) && b.Has(x) {
      forall x: nat | p.Has(x) && l <= x <= h ensures q.Has(x) { assert HasBot(Meet(a, b, m), x); }
    }
  }

  /** With strides 3 and 2 the meet of {0, 3, 6} and {0, 2, 4, 6} holds 3. */
  lemma MeetNotExact(m: nat, a: Strided, b: Strided)
    requires m > 6 && a == Strided(3, 0, 6) && b == Strided(2, 0, 6)
    ensures a.Wf(m) && b.Wf(m) && HasBot(Meet(a, b, m), 3) && !b.Has(3)
  {
  }
}
