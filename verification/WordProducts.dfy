/** Products of intervals, wrapped intervals and fact records over words below m. */
module WordProducts {
  import opened Lattice
  import opened Reduction
  import I = Intervals
  import W = WrappedIntervals

  /** The channel record: unsigned bounds. */
  datatype Facts = Facts(u: I.Interval)

  datatype WordLeaf = IntervalLeaf(i: I.Interval) | WrappedLeaf(w: W.Wrapped) | FactsLeaf(f: Facts)

  predicate LeafWf(l: WordLeaf, m: nat) {
    match l
    case IntervalLeaf(i) => i.Wf(m)
    case WrappedLeaf(w) => w.Wf(m)
    case FactsLeaf(f) => f.u.Wf(m)
  }

  predicate LeafHas(l: WordLeaf, x: nat, m: nat) {
    match l
    case IntervalLeaf(i) => i.Has(x)
    case WrappedLeaf(w) => w.Wf(m) && w.Has(x, m)
    case FactsLeaf(f) => f.u.Has(x)
  }

  predicate SameDomain(l: WordLeaf, k: WordLeaf) {
    (l.IntervalLeaf? && k.IntervalLeaf?) || (l.WrappedLeaf? && k.WrappedLeaf?) || (l.FactsLeaf? && k.FactsLeaf?)
  }

  predicate LeafLeq(l: WordLeaf, k: WordLeaf, m: nat) {
    match (l, k)
    case (IntervalLeaf(a), IntervalLeaf(b)) => I.Leq(a, b)
    case (WrappedLeaf(a), WrappedLeaf(b)) => a.Wf(m) && b.Wf(m) && W.Leq(a, b, m)
    case (FactsLeaf(a), FactsLeaf(b)) => I.Leq(a.u, b.u)
    case _ => false
  }

  function MeetFacts(f: Facts, g: Facts): BotOr<Facts> {
    match I.Meet(f.u, g.u)
    case Bot => Bot
    case Val(u) => Val(Facts(u))
  }

  function LeafMeet(l: WordLeaf, k: WordLeaf, m: nat): BotOr<WordLeaf> {
    match (l, k)
    case (IntervalLeaf(a), IntervalLeaf(b)) => (match I.Meet(a, b) case Bot => Bot case Val(r) => Val(IntervalLeaf(r)))
    case (WrappedLeaf(a), WrappedLeaf(b)) =>
      if a.Wf(m) && b.Wf(m) then (match W.Meet(a, b, m) case Bot => Bot case Val(r) => Val(WrappedLeaf(r))) else Bot
    case (FactsLeaf(a), FactsLeaf(b)) => (match MeetFacts(a, b) case Bot => Bot case Val(r) => Val(FactsLeaf(r)))
    case _ => Bot
  }

  function TopFacts(m: nat): Facts { Facts(I.Interval(0, if m == 0 then 0 else m - 1)) }

  /** What a leaf can say in the channel; an arc through zero says nothing. */
  function LeafToChannel(l: WordLeaf, m: nat): BotOr<Facts> {
    match l
    case IntervalLeaf(i) => Val(Facts(i))
    case WrappedLeaf(w) => Val(if w.Arc? && w.lo <= w.hi then Facts(I.Interval(w.lo, w.hi)) else TopFacts(m))
    case FactsLeaf(f) => Val(f)
  }

  /** Intersects with the bounds, and keeps the arc when the covering arc would be no part of it. */
  function RefineArc(w: W.Wrapped, u: I.Interval, m: nat): (r: BotOr<W.Wrapped>)
    requires w.Wf(m) && u.Wf(m)
    ensures r.Val? ==> r.value.Wf(m)
  {
    match W.Meet(w, W.New(u.lo, u.hi, m), m)
    case Bot => Bot
    case Val(r) => Val(if W.Leq(r, w, m) then r else w)
  }

  function LeafRefine(l: WordLeaf, f: Facts, m: nat): BotOr<WordLeaf> {
    match l
    case IntervalLeaf(i) => (match I.Meet(i, f.u) case Bot => Bot case Val(r) => Val(IntervalLeaf(r)))
    case WrappedLeaf(w) =>
      if !w.Wf(m) || !f.u.Wf(m) then Bot
      else (match RefineArc(w, f.u, m) case Bot => Bot case Val(r) => Val(WrappedLeaf(r)))
    case FactsLeaf(g) => (match MeetFacts(g, f) case Bot => Bot case Val(r) => Val(FactsLeaf(r)))
  }

  function WordOps(m: nat): Ops<WordLeaf, Facts, nat> {
    Ops(SameDomain,
        l => LeafWf(l, m),
        (l, x) => LeafHas(l, x, m),
        (l, k) => LeafLeq(l, k, m),
        (l, k) => LeafMeet(l, k, m),
        l => LeafToChannel(l, m),
        (l, f) => LeafRefine(l, f, m),
        (f: Facts) => f.u.Wf(m),
        (f: Facts) => f.u.Wf(m),
        (f: Facts, x) => f.u.Has(x),
        MeetFacts,
        (f: Facts) => Val(f))
  }

  // ----- refinement of arcs

  /** Refining an arc keeps the members within the bounds and never enlarges the arc. */
  lemma RefineArcSound(w: W.Wrapped, u: I.Interval, m: nat, x: nat)
    requires w.Wf(m) && u.Wf(m)
    ensures w.Has(x, m) && u.Has(x) ==> W.HasBot(RefineArc(w, u, m), x, m)
    ensures W.HasBot(RefineArc(w, u, m), x, m) ==> w.Has(x, m)
  {
    hide W.Meet, W.New, W.Leq;
    var arc := W.New(u.lo, u.hi, m);
    W.MeetCovers(w, arc, m, x);
    if x < m {
      W.NewHas(u.lo, u.hi, m, x);
    }
    var r := W.Meet(w, arc, m);
    if r.Val? {
      W.LeqExact(r.value, w, m);
    }
  }

  predicate PicksSecond(a: W.Wrapped, b: W.Wrapped, m: nat)
    requires a.Wf(m) && b.Wf(m) && a.Arc? && b.Arc?
  {
    b.Size(m) < a.Size(m) || (b.Size(m) == a.Size(m) && b.lo < a.lo)
  }

  /** A plain meet leaves its first operand exactly when the arcs cross twice and the second is chosen. */
  lemma MeetEnlargesIff(a: W.Wrapped, b: W.Wrapped, m: nat)
    requires a.Wf(m) && b.Wf(m)
    ensures (W.Meet(a, b, m).Val? && !W.Subset(W.Meet(a, b, m).value, a, m))
       <==> W.CrossTwice(a, b, m) && PicksSecond(a, b, m)
  {
    var r := W.Meet(a, b, m);
    if r.Val? {
      if !W.CrossTwice(a, b, m) {
        forall x: nat | r.value.Has(x, m) ensures a.Has(x, m) { W.MeetCovers(a, b, m, x); }
      } else if PicksSecond(a, b, m) {
        var gap := W.Before(a.lo, m);
        W.Ends(a, m);
        W.CrossTwiceCoversCircle(a, b, m, gap);
        assert r.value == b && b.Has(gap, m) && !a.Has(gap, m);
      } else {
        assert r.value == a;
      }
    }
  }

  /** Refining an arc is the exact intersection with the bounds, unless they cross twice; then the arc is kept. */
  lemma RefineArcExact(w: W.Wrapped, u: I.Interval, m: nat, x: nat)
    requires w.Wf(m) && u.Wf(m)
    ensures var arc := W.New(u.lo, u.hi, m);
            if W.CrossTwice(w, arc, m) then RefineArc(w, u, m) == Val(w)
            else W.HasBot(RefineArc(w, u, m), x, m) <==> w.Has(x, m) && u.Has(x)
  {
    hide W.Meet, W.New, W.Leq, W.CrossTwice;
    var arc := W.New(u.lo, u.hi, m);
    var r := W.Meet(w, arc, m);
    W.MeetCovers(w, arc, m, x);
    MeetEnlargesIff(w, arc, m);
    if x < m {
      W.NewHas(u.lo, u.hi, m, x);
    }
    if r.Val? {
      W.LeqExact(r.value, w, m);
    }
    if W.CrossTwice(w, arc, m) {
      CrossTwiceMeet(w, arc, m);
    }
  }

  lemma CrossTwiceMeet(a: W.Wrapped, b: W.Wrapped, m: nat)
    requires a.Wf(m) && b.Wf(m) && W.CrossTwice(a, b, m)
    ensures W.Meet(a, b, m) == Val(if PicksSecond(a, b, m) then b else a)
  {
  }

  /** On 4 bits the meet of the arc from 7 round to 5 with [3, 9] holds 6, which the arc does not. */
  lemma MeetEnlargesExample(m: nat, a: W.Wrapped, u: I.Interval)
    requires m == 16 && a == W.Arc(7, 5) && u == I.Interval(3, 9)
    ensures a.Wf(m) && u.Wf(m) && W.HasBot(W.Meet(a, W.New(u.lo, u.hi, m), m), 6, m) && !a.Has(6, m)
    ensures RefineArc(a, u, m) == Val(a)
  {
  }

  // ----- the laws

  lemma FactsLaws(m: nat)
    requires m > 0
    ensures ChannelLaws(WordOps(m))
  {
    var o := WordOps(m);
    forall f, g, c | o.channelWf(f) && o.channelWf(g)
      ensures HasFacts(o, o.meetExact(f, g), c) <==> o.channelHas(f, c) && o.channelHas(g, c)
    {
    }
    forall f | o.channelWf(f)
      ensures exists c :: o.channelHas(f, c)
    {
      assert o.channelHas(f, f.u.lo);
    }
  }

  lemma ToChannelLaw(m: nat, l: WordLeaf, x: nat)
    requires m > 0 && LeafWf(l, m)
    ensures LeafToChannel(l, m).Val? && LeafToChannel(l, m).value.u.Wf(m)
    ensures LeafHas(l, x, m) ==> LeafToChannel(l, m).value.u.Has(x)
  {
  }

  lemma RefineLaw(m: nat, l: WordLeaf, f: Facts, x: nat)
    requires m > 0 && LeafWf(l, m) && f.u.Wf(m)
    ensures LeafRefine(l, f, m).Val? ==> LeafWf(LeafRefine(l, f, m).value, m)
    ensures LeafHas(l, x, m) && f.u.Has(x) ==> LeafRefine(l, f, m).Val? && LeafHas(LeafRefine(l, f, m).value, x, m)
    ensures LeafRefine(l, f, m).Val? && LeafHas(LeafRefine(l, f, m).value, x, m) ==> LeafHas(l, x, m)
  {
    hide RefineArc;
    if l.WrappedLeaf? {
      RefineArcSound(l.w, f.u, m, x);
    }
  }

  lemma MeetLaw(m: nat, l: WordLeaf, k: WordLeaf, x: nat)
    requires m > 0 && LeafWf(l, m) && LeafWf(k, m) && SameDomain(l, k)
    ensures LeafMeet(l, k, m).Val? ==> LeafWf(LeafMeet(l, k, m).value, m)
    ensures LeafHas(l, x, m) && LeafHas(k, x, m) ==> LeafMeet(l, k, m).Val? && LeafHas(LeafMeet(l, k, m).value, x, m)
  {
    hide W.Meet;
    if l.WrappedLeaf? {
      W.MeetCovers(l.w, k.w, m, x);
    }
  }

  lemma WordWriting(m: nat)
    requires m > 0
    ensures WritingLaws(WordOps(m))
  {
    hide LeafToChannel, LeafWf, LeafHas;
    var o := WordOps(m);
    forall l | o.wf(l) ensures WfFacts(o, o.toChannel(l)) { ToChannelLaw(m, l, 0); }
    forall l, c | o.wf(l) && o.has(l, c) ensures HasFacts(o, o.toChannel(l), c) { ToChannelLaw(m, l, c); }
  }

  lemma WordRefining(m: nat)
    requires m > 0
    ensures RefiningLaws(WordOps(m))
  {
    hide LeafRefine, LeafWf, LeafHas;
    var o := WordOps(m);
    forall l, f | o.wf(l) && o.channelWf(f) ensures o.refine(l, f).Val? ==> o.wf(o.refine(l, f).value) {
      RefineLaw(m, l, f, 0);
    }
    forall l, f, c | o.wf(l) && o.channelWf(f)
      ensures o.has(l, c) && o.channelHas(f, c) ==> HasLeaf(o, o.refine(l, f), c)
      ensures HasLeaf(o, o.refine(l, f), c) ==> o.has(l, c)
    {
      RefineLaw(m, l, f, c);
    }
  }

  lemma WordMeet(m: nat)
    requires m > 0
    ensures MeetLaws(WordOps(m))
  {
    hide LeafMeet, LeafWf, LeafHas;
    var o := WordOps(m);
    forall l, k | o.wf(l) && o.wf(k) && o.sameDomain(l, k) ensures o.meet(l, k).Val? ==> o.wf(o.meet(l, k).value) {
      MeetLaw(m, l, k, 0);
    }
    forall l, k, c | o.wf(l) && o.wf(k) && o.sameDomain(l, k) && o.has(l, c) && o.has(k, c)
      ensures HasLeaf(o, o.meet(l, k), c)
    {
      MeetLaw(m, l, k, c);
    }
  }

  /** The word domains obey every law that reduction rests on. */
  lemma WordLeavesLawful(m: nat)
    requires m > 0
    ensures Lawful(WordOps(m))
  {
    hide WordOps, ChannelLaws, WritingLaws, RefiningLaws, MeetLaws;
    FactsLaws(m);
    WordWriting(m);
    WordRefining(m);
    WordMeet(m);
  }

  /** The word domains are canonical, so that reduction may stop at the first round without progress. */
  lemma WordLeavesCanonical(m: nat)
    requires m > 0
    ensures CanonicalLeaves(WordOps(m))
  {
    var o := WordOps(m);
    forall l, k | o.wf(l) && o.wf(k) && o.leq(l, k) && (forall c | o.has(k, c) :: o.has(l, c))
      ensures l == k
    {
      forall x: nat | LeafHas(k, x, m) ensures LeafHas(l, x, m) { assert o.has(k, x); }
      CanonicalLeaf(m, l, k);
    }
  }

  lemma CanonicalLeaf(m: nat, l: WordLeaf, k: WordLeaf)
    requires m > 0 && LeafWf(l, m) && LeafWf(k, m) && LeafLeq(l, k, m)
    requires forall x: nat | LeafHas(k, x, m) :: LeafHas(l, x, m)
    ensures l == k
  {
    match k
    case IntervalLeaf(i) => assert LeafHas(k, i.lo, m) && LeafHas(k, i.hi, m);
    case FactsLeaf(f) => assert LeafHas(k, f.u.lo, m) && LeafHas(k, f.u.hi, m);
    case WrappedLeaf(w) =>
      W.LeqExact(l.w, w, m);
      forall x: nat | w.Has(x, m) ensures l.w.Has(x, m) { assert LeafHas(k, x, m); }
      W.Canonical(l.w, w, m);
  }

  /** A leaf whose words are an interval: every leaf but an arc that passes zero. */
  predicate Linear(l: WordLeaf) { l.WrappedLeaf? && l.w.Arc? ==> l.w.lo <= l.w.hi }

  lemma LinearArcs(w: W.Wrapped, u: I.Interval, m: nat)
    requires w.Wf(m) && u.Wf(m) && (w.Arc? ==> w.lo <= w.hi)
    ensures !W.CrossTwice(w, W.New(u.lo, u.hi, m), m)
  {
  }

  lemma LinearLeaf(m: nat, l: WordLeaf, f: Facts, x: nat)
    requires m > 0 && LeafWf(l, m) && Linear(l) && f.u.Wf(m)
    ensures LeafToChannel(l, m).Val? && (LeafToChannel(l, m).value.u.Has(x) <==> LeafHas(l, x, m))
    ensures (LeafRefine(l, f, m).Val? && LeafHas(LeafRefine(l, f, m).value, x, m)) <==> LeafHas(l, x, m) && f.u.Has(x)
  {
    hide RefineArc;
    if l.WrappedLeaf? {
      LinearArcs(l.w, f.u, m);
      RefineArcExact(l.w, f.u, m, x);
    }
  }

  /** Leaves that do not pass zero are exact: they write all they know and refine by intersection. */
  lemma LinearLeavesExact(m: nat, l: WordLeaf)
    requires m > 0 && LeafWf(l, m) && Linear(l)
    ensures ExactLeaf(WordOps(m), l)
  {
    hide LeafToChannel, LeafRefine, LeafHas, LeafWf, Linear;
    var o := WordOps(m);
    TopFactsWf(m);
    forall x ensures HasFacts(o, o.toChannel(l), x) <==> o.has(l, x) { LinearLeaf(m, l, TopFacts(m), x); }
    forall f, x | o.channelWf(f) ensures HasLeaf(o, o.refine(l, f), x) <==> o.has(l, x) && o.channelHas(f, x) {
      LinearLeaf(m, l, f, x);
    }
  }

  lemma TopFactsWf(m: nat)
    requires m > 0
    ensures TopFacts(m).u.Wf(m)
  {
  }

  predicate LinearTree(t: Tree<WordLeaf>) {
    match t
    case Leaf(l) => Linear(l)
    case Product(a, b) => LinearTree(a) && LinearTree(b)
  }

  lemma {:induction false} LinearTreeExact(m: nat, t: Tree<WordLeaf>)
    requires m > 0 && Wf(WordOps(m), t) && LinearTree(t)
    ensures ExactLeaves(WordOps(m), t)
  {
    hide WordOps, ExactLeaf, Linear, LeafWf;
    match t
    case Leaf(l) =>
      WordOpsWf(m, l);
      LinearLeavesExact(m, l);
    case Product(a, b) =>
      LinearTreeExact(m, a);
      LinearTreeExact(m, b);
  }

  lemma WordOpsWf(m: nat, l: WordLeaf)
    ensures WordOps(m).wf(l) <==> LeafWf(l, m)
  {
  }

  /** Without an arc through zero one round makes every leaf hold exactly the product, and empty products are bottom. */
  lemma {:induction false} WordReduceComplete(m: nat, t: Tree<WordLeaf>, fuel: nat, x: nat)
    requires m > 0 && Wf(WordOps(m), t) && LinearTree(t) && t.Product? && fuel > 0
    ensures var o := WordOps(m);
            && (Reduce(o, t, fuel).Bot? <==> forall y :: !Has(o, t, y))
            && (Reduce(o, t, fuel).Val? ==> LeavesSay(o, Reduce(o, t, fuel).value, x, Has(o, t, x)))
  {
    hide WordOps, Reduce, Has, Wf, LeavesSay, Lawful, ExactLeaves, LinearTree;
    WordLeavesLawful(m);
    LinearTreeExact(m, t);
    ReduceComplete(WordOps(m), t, fuel, x);
  }

  /** The order test on leaves of one domain decides inclusion. */
  lemma LeafLeqExact(m: nat, l: WordLeaf, k: WordLeaf)
    requires m > 0 && LeafWf(l, m) && LeafWf(k, m)
    ensures LeafLeq(l, k, m) <==> SameDomain(l, k) && forall x: nat | LeafHas(l, x, m) :: LeafHas(k, x, m)
  {
    hide W.Leq;
    if SameDomain(l, k) {
      match l
      case IntervalLeaf(i) => assert LeafHas(l, i.lo, m) && LeafHas(l, i.hi, m);
      case FactsLeaf(f) => assert LeafHas(l, f.u.lo, m) && LeafHas(l, f.u.hi, m);
      case WrappedLeaf(w) =>
        W.LeqExact(w, k.w, m);
        if forall x: nat | LeafHas(l, x, m) :: LeafHas(k, x, m) {
          forall x: nat | w.Has(x, m) ensures k.w.Has(x, m) { assert LeafHas(l, x, m); }
        }
    }
  }

  /** The meet of leaves of one domain is the exact intersection, unless two arcs cross twice. */
  lemma LeafMeetExact(m: nat, l: WordLeaf, k: WordLeaf)
    requires m > 0 && LeafWf(l, m) && LeafWf(k, m) && SameDomain(l, k)
    requires l.WrappedLeaf? ==> !W.CrossTwice(l.w, k.w, m)
    ensures ExactMeet(WordOps(m), l, k)
  {
    hide W.Meet, W.CrossTwice;
    forall x ensures HasLeaf(WordOps(m), WordOps(m).meet(l, k), x) <==> LeafHas(l, x, m) && LeafHas(k, x, m) {
      if l.WrappedLeaf? {
        W.MeetCovers(l.w, k.w, m, x);
      }
    }
  }

  /** Reduction of any nesting of word domains keeps the set, enlarges no leaf and loses nothing by stopping early. */
  lemma {:induction false} WordReduceCorrect(m: nat, t: Tree<WordLeaf>, fuel: nat, x: nat)
    requires m > 0 && Wf(WordOps(m), t) && t.Product?
    ensures var o := WordOps(m);
            && (HasBot(o, Reduce(o, t, fuel), x) <==> Has(o, t, x))
            && (Reduce(o, t, fuel).Val? ==> Shrinks(o, Reduce(o, t, fuel).value, t))
            && Reduce(o, t, fuel) == Rounds(o, t, fuel)
  {
    hide WordOps, Reduce, Rounds, Has, Wf, Shrinks, Lawful, CanonicalLeaves;
    WordLeavesLawful(m);
    WordLeavesCanonical(m);
    ReducePreserves(WordOps(m), t, fuel, x);
    ReduceShrinks(WordOps(m), t, fuel);
    EarlyStopLosesNothing(WordOps(m), t, fuel);
  }
}
