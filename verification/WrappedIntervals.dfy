/**
  Arcs on the circle of words below m: inclusion, join and meet. An arc runs
  clockwise from lo to hi; the full circle is always represented by Top.
 */
module WrappedIntervals {
  import opened Lattice

  /** Clockwise distance from lo to x. */
  function Distance(lo: nat, x: nat, m: nat): (d: nat)
    requires lo < m && x < m
    ensures d < m
  {
    if lo <= x then x - lo else m - lo + x
  }

  /** A sum or difference of two words, brought back below m. */
  function Wrap(n: int, m: nat): (r: nat)
    requires 0 <= n + m && n < 2 * m
    ensures r < m
  {
    if n < 0 then n + m else if n >= m then n - m else n
  }

  datatype Wrapped = Top | Arc(lo: nat, hi: nat) {
    predicate Wf(m: nat) {
      Arc? ==> lo < m && hi < m && Distance(lo, hi, m) < m - 1
    }

    predicate Has(x: nat, m: nat)
      requires Wf(m)
    {
      x < m && (Arc? ==> Distance(lo, x, m) <= Distance(lo, hi, m))
    }

    /** The number of words in the arc. */
    function Size(m: nat): nat
      requires Wf(m)
    {
      if Top? then m else Distance(lo, hi, m) + 1
    }
  }

  function New(lo: nat, hi: nat, m: nat): (r: Wrapped)
    requires lo < m && hi < m
    ensures r.Wf(m)
  {
    if Distance(lo, hi, m) == m - 1 then Top else Arc(lo, hi)
  }

  ghost predicate Subset(a: Wrapped, b: Wrapped, m: nat)
    requires a.Wf(m) && b.Wf(m)
  {
    forall x: nat | a.Has(x, m) :: b.Has(x, m)
  }

  predicate Leq(a: Wrapped, b: Wrapped, m: nat)
    requires a.Wf(m) && b.Wf(m)
  {
    if b.Top? then true
    else if a.Top? then false
    else a == b || (b.Has(a.lo, m) && b.Has(a.hi, m) && (!a.Has(b.lo, m) || !a.Has(b.hi, m)))
  }

  function Join(a: Wrapped, b: Wrapped, m: nat): (r: Wrapped)
    requires a.Wf(m) && b.Wf(m)
    ensures r.Wf(m)
  {
    if a.Top? || b.Top? then Top
    else if a == b then a
    else
      var ac, ad, ca, cb := a.Has(b.lo, m), a.Has(b.hi, m), b.Has(a.lo, m), b.Has(a.hi, m);
      if ac && ad && ca && cb then Top
      else if ac && ad then a
      else if ca && cb then b
      else if ac then New(a.lo, b.hi, m)
      else if ca then New(b.lo, a.hi, m)
      else
        var n1, n2 := Distance(a.lo, b.hi, m), Distance(b.lo, a.hi, m);
        if n1 < n2 || (n1 == n2 && a.lo <= b.lo) then New(a.lo, b.hi, m) else New(b.lo, a.hi, m)
  }

  function Meet(a: Wrapped, b: Wrapped, m: nat): (r: BotOr<Wrapped>)
    requires a.Wf(m) && b.Wf(m)
    ensures r.Val? ==> r.value.Wf(m)
  {
    if a.Top? then Val(b)
    else if b.Top? then Val(a)
    else
      var ac, ad, ca, cb := a.Has(b.lo, m), a.Has(b.hi, m), b.Has(a.lo, m), b.Has(a.hi, m);
      if ac && ad && ca && cb then
        var n1, n2 := Distance(a.lo, a.hi, m), Distance(b.lo, b.hi, m);
        Val(if n1 < n2 || (n1 == n2 && a.lo <= b.lo) then a else b)
      else if ac && cb then Val(New(b.lo, a.hi, m))
      else if ca && ad then Val(New(a.lo, b.hi, m))
      else if ac && ad then Val(b)
      else if ca && cb then Val(a)
      else Bot
  }

  // ----- the circle

  /** The word just before lo, which no arc from lo but the full circle reaches. */
  function Before(lo: nat, m: nat): (w: nat)
    requires lo < m
    ensures w < m && Distance(lo, w, m) == m - 1
  {
    if lo == 0 then m - 1 else lo - 1
  }

  lemma NewHas(lo: nat, hi: nat, m: nat, x: nat)
    requires lo < m && hi < m && x < m
    ensures New(lo, hi, m).Has(x, m) <==> Distance(lo, x, m) <= Distance(lo, hi, m)
    ensures New(lo, hi, m).Size(m) == Distance(lo, hi, m) + 1
  {
  }

  lemma Ends(a: Wrapped, m: nat)
    requires a.Wf(m) && a.Arc?
    ensures a.Has(a.lo, m) && a.Has(a.hi, m) && !a.Has(Before(a.lo, m), m)
  {
  }

  /** Rotating the circle to start at p keeps distances. */
  lemma Rotate(p: nat, x: nat, y: nat, m: nat)
    requires p < m && x < m && y < m
    ensures Distance(x, y, m) == Distance(Distance(p, x, m), Distance(p, y, m), m)
  {
  }

  /** Seen from p, an arc that avoids the word before p is a plain interval. */
  lemma Unwrap(p: nat, a: Wrapped, m: nat)
    requires p < m && a.Wf(m) && a.Arc? && !a.Has(Before(p, m), m)
    ensures Distance(p, a.lo, m) <= Distance(p, a.hi, m)
    ensures Distance(a.lo, a.hi, m) == Distance(p, a.hi, m) - Distance(p, a.lo, m)
    ensures forall x: nat | x < m :: a.Has(x, m) <==> Distance(p, a.lo, m) <= Distance(p, x, m) <= Distance(p, a.hi, m)
  {
    Rotate(p, a.lo, a.hi, m);
    Rotate(p, a.lo, Before(p, m), m);
    forall x: nat | x < m
      ensures a.Has(x, m) <==> Distance(p, a.lo, m) <= Distance(p, x, m) <= Distance(p, a.hi, m)
    {
      Rotate(p, a.lo, x, m);
    }
  }

  /** Membership from lo to hi on a circle that has been cut open. */
  predicate Linear(lo: nat, hi: nat, x: nat) {
    if lo <= hi then lo <= x <= hi else lo <= x || x <= hi
  }

  lemma HasLinear(p: nat, a: Wrapped, x: nat, m: nat)
    requires p < m && x < m && a.Wf(m) && a.Arc?
    ensures a.Has(x, m) <==> Linear(Distance(p, a.lo, m), Distance(p, a.hi, m), Distance(p, x, m))
  {
    Rotate(p, a.lo, x, m);
    Rotate(p, a.lo, a.hi, m);
  }

  lemma NewLinear(p: nat, lo: nat, hi: nat, x: nat, m: nat)
    requires p < m && lo < m && hi < m && x < m
    ensures New(lo, hi, m).Has(x, m) <==> Linear(Distance(p, lo, m), Distance(p, hi, m), Distance(p, x, m))
  {
    Rotate(p, lo, x, m);
    Rotate(p, lo, hi, m);
  }

  /** Two arcs as seen from the start of the first. */
  lemma FromFirst(a: Wrapped, b: Wrapped, m: nat)
    requires a.Wf(m) && b.Wf(m) && a.Arc? && b.Arc?
    ensures var h, c, d := Distance(a.lo, a.hi, m), Distance(a.lo, b.lo, m), Distance(a.lo, b.hi, m);
            && (a.Has(b.lo, m) <==> c <= h)
            && (a.Has(b.hi, m) <==> d <= h)
            && (b.Has(a.lo, m) <==> Linear(c, d, 0))
            && (b.Has(a.hi, m) <==> Linear(c, d, h))
            && (a == b <==> c == 0 && d == h)
            && h < m - 1 && Distance(c, d, m) < m - 1
            && Distance(b.lo, a.hi, m) == Distance(c, h, m)
  {
    HasLinear(a.lo, b, a.lo, m);
    HasLinear(a.lo, b, a.hi, m);
    Rotate(a.lo, b.lo, b.hi, m);
    Rotate(a.lo, b.lo, a.hi, m);
  }

  // ----- inclusion

  lemma TopSubset(a: Wrapped, b: Wrapped, m: nat)
    requires a.Wf(m) && b.Wf(m) && a.Top? && Subset(a, b, m)
    ensures b.Top?
  {
    if b.Arc? {
      Ends(b, m);
      assert a.Has(Before(b.lo, m), m);
    }
  }

  /** An arc inside another, seen from the start of the outer one. */
  lemma SubsetUnwrap(a: Wrapped, b: Wrapped, m: nat)
    requires a.Wf(m) && b.Wf(m) && a.Arc? && b.Arc? && Subset(a, b, m)
    ensures b.Has(a.lo, m) && b.Has(a.hi, m)
    ensures Distance(b.lo, a.lo, m) <= Distance(b.lo, a.hi, m) <= Distance(b.lo, b.hi, m)
    ensures a.Size(m) == Distance(b.lo, a.hi, m) - Distance(b.lo, a.lo, m) + 1
  {
    Ends(a, m);
    Ends(b, m);
    Unwrap(b.lo, a, m);
  }

  lemma LeqSound(a: Wrapped, b: Wrapped, m: nat)
    requires a.Wf(m) && b.Wf(m) && Leq(a, b, m)
    ensures Subset(a, b, m)
  {
  }

  lemma LeqComplete(a: Wrapped, b: Wrapped, m: nat)
    requires a.Wf(m) && b.Wf(m) && Subset(a, b, m)
    ensures Leq(a, b, m)
  {
    if a.Top? {
      TopSubset(a, b, m);
    } else if b.Arc? {
      SubsetUnwrap(a, b, m);
    }
  }

  /** The inclusion test decides inclusion. */
  lemma LeqExact(a: Wrapped, b: Wrapped, m: nat)
    requires a.Wf(m) && b.Wf(m)
    ensures Leq(a, b, m) <==> Subset(a, b, m)
  {
    if Leq(a, b, m) { LeqSound(a, b, m); }
    if Subset(a, b, m) { LeqComplete(a, b, m); }
  }

  /** Inclusion never decreases the size. */
  lemma SizeMonotone(a: Wrapped, b: Wrapped, m: nat)
    requires a.Wf(m) && b.Wf(m) && Subset(a, b, m)
    ensures a.Size(m) <= b.Size(m)
  {
    if a.Top? {
      TopSubset(a, b, m);
    } else if b.Arc? {
      SubsetUnwrap(a, b, m);
    }
  }

  /** Equal sets have equal representations. */
  lemma Canonical(a: Wrapped, b: Wrapped, m: nat)
    requires a.Wf(m) && b.Wf(m) && Subset(a, b, m) && Subset(b, a, m)
    ensures a == b
  {
    if a.Top? {
      TopSubset(a, b, m);
    } else if b.Top? {
      TopSubset(b, a, m);
    } else {
      SubsetUnwrap(a, b, m);
      SubsetUnwrap(b, a, m);
    }
  }

  // ----- join

  lemma JoinCovers(a: Wrapped, b: Wrapped, m: nat, x: nat)
    requires a.Wf(m) && b.Wf(m) && (a.Has(x, m) || b.Has(x, m))
    ensures Join(a, b, m).Has(x, m)
  {
    hide New;
    if a.Arc? && b.Arc? {
      FromFirst(a, b, m);
      HasLinear(a.lo, b, x, m);
      NewLinear(a.lo, a.lo, b.hi, x, m);
      NewLinear(a.lo, b.lo, a.hi, x, m);
      assert Distance(a.lo, a.lo, m) == 0;
    }
  }

  /** No arc that covers both operands is smaller than the join. */
  lemma JoinMinimum(a: Wrapped, b: Wrapped, m: nat, c: Wrapped)
    requires a.Wf(m) && b.Wf(m) && c.Wf(m) && Subset(a, c, m) && Subset(b, c, m)
    ensures Join(a, b, m).Size(m) <= c.Size(m)
  {
    if a.Top? {
      TopSubset(a, c, m);
    } else if b.Top? {
      TopSubset(b, c, m);
    } else if c.Arc? {
      SubsetUnwrap(a, c, m);
      SubsetUnwrap(b, c, m);
      var p := c.lo;
      Ends(c, m);
      Unwrap(p, a, m);
      Unwrap(p, b, m);
      Rotate(p, a.lo, b.hi, m);
      Rotate(p, b.lo, a.hi, m);
      JoinMinimumUnwrapped(a, b, m, p);
    }
  }

  /** The join of two plain intervals spans at most from the first start to the last end. */
  lemma JoinMinimumUnwrapped(a: Wrapped, b: Wrapped, m: nat, p: nat)
    requires a.Wf(m) && b.Wf(m) && a.Arc? && b.Arc? && p < m
    requires !a.Has(Before(p, m), m) && !b.Has(Before(p, m), m)
    ensures var a1, b1 := Distance(p, a.lo, m), Distance(p, b.lo, m);
            var a2, b2 := Distance(p, a.hi, m), Distance(p, b.hi, m);
            Join(a, b, m).Size(m) <= (if a2 <= b2 then b2 else a2) - (if a1 <= b1 then a1 else b1) + 1
  {
    hide Distance, New;
    Unwrap(p, a, m);
    Unwrap(p, b, m);
    Span(p, a.lo, b.hi, m);
    Span(p, b.lo, a.hi, m);
    NewSize(a.lo, b.hi, m);
    NewSize(b.lo, a.hi, m);
    Injective(p, a.lo, b.lo, m);
    Injective(p, a.hi, b.hi, m);
  }

  lemma Injective(p: nat, x: nat, y: nat, m: nat)
    requires p < m && x < m && y < m
    ensures Distance(p, x, m) == Distance(p, y, m) <==> x == y
  {
  }

  lemma Span(p: nat, x: nat, y: nat, m: nat)
    requires p < m && x < m && y < m
    ensures Distance(p, x, m) <= Distance(p, y, m) ==> Distance(x, y, m) == Distance(p, y, m) - Distance(p, x, m)
    ensures Distance(p, x, m) > Distance(p, y, m) ==> Distance(x, y, m) == m - Distance(p, x, m) + Distance(p, y, m)
  {
  }

  lemma NewSize(lo: nat, hi: nat, m: nat)
    requires lo < m && hi < m
    ensures New(lo, hi, m).Size(m) == Distance(lo, hi, m) + 1
  {
  }

  /** Ties are broken so that the order of the operands does not matter. */
  lemma JoinCommutes(a: Wrapped, b: Wrapped, m: nat)
    requires a.Wf(m) && b.Wf(m)
    ensures Join(a, b, m) == Join(b, a, m)
  {
    hide New;
    if a.Arc? && b.Arc? {
      FromFirst(a, b, m);
    }
  }

  // ----- meet

  /** The arcs overlap at both ends, so that their intersection is two arcs. */
  /** Disjoint arcs with equal gaps on both sides join from the one that starts at the smaller word. */
  lemma JoinTie(a: Wrapped, b: Wrapped, m: nat)
    requires a.Wf(m) && b.Wf(m) && a.Arc? && b.Arc? && forall x: nat | a.Has(x, m) :: !b.Has(x, m)
    requires Distance(a.hi, b.lo, m) == Distance(b.hi, a.lo, m)
    ensures Join(a, b, m)
         == if Distance(a.hi, b.lo, m) == 1 then Top else if a.lo < b.lo then Arc(a.lo, b.hi) else Arc(b.lo, a.hi)
  {
    Ends(a, m);
    Ends(b, m);
    FromFirst(a, b, m);
    Span(a.lo, a.hi, b.lo, m);
    Span(a.lo, b.hi, a.lo, m);
    Span(a.lo, b.lo, a.hi, m);
  }

  predicate CrossTwice(a: Wrapped, b: Wrapped, m: nat)
    requires a.Wf(m) && b.Wf(m)
  {
    a.Arc? && b.Arc? && a != b
    && a.Has(b.lo, m) && a.Has(b.hi, m) && b.Has(a.lo, m) && b.Has(a.hi, m)
  }

  predicate HasBot(v: BotOr<Wrapped>, x: nat, m: nat)
    requires v.Val? ==> v.value.Wf(m)
  {
    v.Val? && v.value.Has(x, m)
  }

  /** The meet covers the intersection, and equals it unless the arcs cross twice. */
  lemma MeetCovers(a: Wrapped, b: Wrapped, m: nat, x: nat)
    requires a.Wf(m) && b.Wf(m)
    ensures a.Has(x, m) && b.Has(x, m) ==> HasBot(Meet(a, b, m), x, m)
    ensures !CrossTwice(a, b, m) && HasBot(Meet(a, b, m), x, m) ==> a.Has(x, m) && b.Has(x, m)
  {
    hide New;
    if a.Arc? && b.Arc? && x < m {
      FromFirst(a, b, m);
      HasLinear(a.lo, b, x, m);
      NewLinear(a.lo, a.lo, b.hi, x, m);
      NewLinear(a.lo, b.lo, a.hi, x, m);
      assert Distance(a.lo, a.lo, m) == 0;
    }
  }

  /** The meet is bottom exactly when the operands are disjoint. */
  lemma MeetBottom(a: Wrapped, b: Wrapped, m: nat)
    requires a.Wf(m) && b.Wf(m) && m >= 2
    ensures Meet(a, b, m).Bot? <==> forall x: nat | a.Has(x, m) :: !b.Has(x, m)
  {
    if Meet(a, b, m).Bot? {
      forall x: nat | a.Has(x, m) ensures !b.Has(x, m) { MeetCovers(a, b, m, x); }
    } else if a.Top? {
      Member(b, m);
    } else if b.Top? {
      Member(a, m);
    } else {
      Ends(a, m);
      Ends(b, m);
    }
  }

  lemma Member(a: Wrapped, m: nat)
    requires a.Wf(m) && m > 0
    ensures a.Has(if a.Top? then 0 else a.lo, m)
  {
  }

  ghost predicate CoversBoth(c: Wrapped, a: Wrapped, b: Wrapped, m: nat)
    requires a.Wf(m) && b.Wf(m) && c.Wf(m)
  {
    forall x: nat | a.Has(x, m) && b.Has(x, m) :: c.Has(x, m)
  }

  /** No arc that covers the intersection is smaller than the meet. */
  lemma MeetMinimum(a: Wrapped, b: Wrapped, m: nat, c: Wrapped)
    requires a.Wf(m) && b.Wf(m) && c.Wf(m) && CoversBoth(c, a, b, m)
    ensures Meet(a, b, m).Val? ==> Meet(a, b, m).value.Size(m) <= c.Size(m)
  {
    var r := Meet(a, b, m);
    if r.Val? && !CrossTwice(a, b, m) {
      forall x: nat | r.value.Has(x, m) ensures c.Has(x, m) { MeetCovers(a, b, m, x); }
      SizeMonotone(r.value, c, m);
    } else if r.Val? && c.Arc? {
      CrossTwiceCover(a, b, m, c);
    }
  }

  /** A cover of two arcs leaves a gap, and the operand that avoids the gap fits inside it. */
  lemma CrossTwiceCover(a: Wrapped, b: Wrapped, m: nat, c: Wrapped)
    requires a.Wf(m) && b.Wf(m) && c.Wf(m) && c.Arc? && CrossTwice(a, b, m) && CoversBoth(c, a, b, m)
    ensures a.Size(m) <= c.Size(m) || b.Size(m) <= c.Size(m)
  {
    Ends(a, m);
    Ends(b, m);
    Ends(c, m);
    var gap := Before(c.lo, m);
    if !a.Has(gap, m) {
      Unwrap(c.lo, a, m);
      assert c.Has(a.hi, m);
    } else {
      assert !b.Has(gap, m);
      Unwrap(c.lo, b, m);
      assert c.Has(b.hi, m);
    }
  }

  /** The meet is the exact intersection if and only if the arcs do not cross twice. */
  lemma MeetExactly(a: Wrapped, b: Wrapped, m: nat)
    requires a.Wf(m) && b.Wf(m)
    ensures (forall x: nat :: HasBot(Meet(a, b, m), x, m) <==> a.Has(x, m) && b.Has(x, m)) <==> !CrossTwice(a, b, m)
  {
    if CrossTwice(a, b, m) {
      var r := Meet(a, b, m).value;
      var other := if r == a then b else a;
      var gap := Before(other.lo, m);
      Ends(other, m);
      CrossTwiceCoversCircle(a, b, m, gap);
      assert HasBot(Meet(a, b, m), gap, m) && !(a.Has(gap, m) && b.Has(gap, m));
    } else {
      forall x: nat ensures HasBot(Meet(a, b, m), x, m) <==> a.Has(x, m) && b.Has(x, m) {
        MeetCovers(a, b, m, x);
      }
    }
  }

  lemma MeetCommutes(a: Wrapped, b: Wrapped, m: nat)
    requires a.Wf(m) && b.Wf(m)
    ensures Meet(a, b, m) == Meet(b, a, m)
  {
    hide New;
    if a.Arc? && b.Arc? {
      FromFirst(a, b, m);
      FromFirst(b, a, m);
    }
  }

  lemma CrossTwiceCoversCircle(a: Wrapped, b: Wrapped, m: nat, x: nat)
    requires a.Wf(m) && b.Wf(m) && CrossTwice(a, b, m) && x < m
    ensures a.Has(x, m) || b.Has(x, m)
  {
    FromFirst(a, b, m);
    HasLinear(a.lo, b, x, m);
  }

  // ----- size

  /** The words from lo up to hi, and how many they are. */
  function Range(lo: nat, hi: nat): (r: set<nat>)
    requires lo <= hi
    ensures |r| == hi - lo
    ensures forall x: nat :: x in r <==> lo <= x < hi
    decreases hi - lo
  {
    if lo == hi then {} else Range(lo + 1, hi) + {lo}
  }

  /** Size is the number of members. */
  lemma {:induction false} SizeIsCount(a: Wrapped, m: nat)
    requires a.Wf(m)
    ensures |set x: nat | x < m && a.Has(x, m)| == a.Size(m)
  {
    hide Range;
    var members := set x: nat | x < m && a.Has(x, m);
    if a.Top? {
      assert members == Range(0, m);
    } else if a.lo <= a.hi {
      assert members == Range(a.lo, a.hi + 1);
    } else {
      assert Range(a.lo, m) !! Range(0, a.hi + 1);
      assert members == Range(a.lo, m) + Range(0, a.hi + 1);
    }
  }
}
