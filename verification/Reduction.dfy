/**
  Reduction of products through a shared channel of facts. Leaves write what they
  know to a channel record, records are met and normalized, and leaves refine
  themselves by the result. Products nest to any depth.
 */
module Reduction {
  import opened Lattice

  /** What a product needs of its leaf domains L and of its channel F over concrete values C. */
  datatype Ops<!L, !F, !C> = Ops(
    sameDomain: (L, L) -> bool,
    wf: L -> bool,
    has: (L, C) -> bool,
    leq: (L, L) -> bool,
    meet: (L, L) -> BotOr<L>,
    toChannel: L -> BotOr<F>,
    refine: (L, F) -> BotOr<L>,
    fieldsWf: F -> bool,
    channelWf: F -> bool,
    channelHas: (F, C) -> bool,
    meetExact: (F, F) -> BotOr<F>,
    normalize: F -> BotOr<F>)

  datatype Tree<L> = Leaf(leaf: L) | Product(a: Tree<L>, b: Tree<L>)

  predicate HasLeaf<L, F, C>(o: Ops<L, F, C>, v: BotOr<L>, c: C) { v.Val? && o.has(v.value, c) }

  predicate HasFacts<L, F, C>(o: Ops<L, F, C>, v: BotOr<F>, c: C) { v.Val? && o.channelHas(v.value, c) }

  predicate WfFacts<L, F, C>(o: Ops<L, F, C>, v: BotOr<F>) { v.Val? ==> o.channelWf(v.value) }

  // ----- the laws of leaves and channels

  ghost predicate ChannelLaws<L(!new), F(!new), C(!new)>(o: Ops<L, F, C>) {
    && (forall f, g | o.channelWf(f) && o.channelWf(g) ::
          o.meetExact(f, g).Val? ==> o.fieldsWf(o.meetExact(f, g).value))
    && (forall f, g, c | o.channelWf(f) && o.channelWf(g) ::
          HasFacts(o, o.meetExact(f, g), c) <==> o.channelHas(f, c) && o.channelHas(g, c))
    && (forall f | o.fieldsWf(f) :: WfFacts(o, o.normalize(f)))
    && (forall f, c | o.fieldsWf(f) :: HasFacts(o, o.normalize(f), c) <==> o.channelHas(f, c))
    && (forall f | o.channelWf(f) :: exists c :: o.channelHas(f, c))
  }

  ghost predicate WritingLaws<L(!new), F(!new), C(!new)>(o: Ops<L, F, C>) {
    && (forall l | o.wf(l) :: WfFacts(o, o.toChannel(l)))
    && (forall l, c | o.wf(l) && o.has(l, c) :: HasFacts(o, o.toChannel(l), c))
  }

  ghost predicate RefiningLaws<L(!new), F(!new), C(!new)>(o: Ops<L, F, C>) {
    && (forall l, f | o.wf(l) && o.channelWf(f) :: o.refine(l, f).Val? ==> o.wf(o.refine(l, f).value))
    && (forall l, f, c | o.wf(l) && o.channelWf(f) && o.has(l, c) && o.channelHas(f, c) ::
          HasLeaf(o, o.refine(l, f), c))
    && (forall l, f, c | o.wf(l) && o.channelWf(f) && HasLeaf(o, o.refine(l, f), c) :: o.has(l, c))
  }

  ghost predicate MeetLaws<L(!new), F(!new), C(!new)>(o: Ops<L, F, C>) {
    && (forall l, k | o.wf(l) && o.wf(k) && o.sameDomain(l, k) ::
          o.meet(l, k).Val? ==> o.wf(o.meet(l, k).value))
    && (forall l, k, c | o.wf(l) && o.wf(k) && o.sameDomain(l, k) && o.has(l, c) && o.has(k, c) ::
          HasLeaf(o, o.meet(l, k), c))
  }

  ghost predicate LeafLaws<L(!new), F(!new), C(!new)>(o: Ops<L, F, C>) {
    WritingLaws(o) && RefiningLaws(o) && MeetLaws(o)
  }

  ghost predicate Lawful<L(!new), F(!new), C(!new)>(o: Ops<L, F, C>) { ChannelLaws(o) && LeafLaws(o) }

  /** A leaf that is included in one of its own subsets is that subset. */
  ghost predicate CanonicalLeaves<L(!new), F(!new), C(!new)>(o: Ops<L, F, C>) {
    forall l, k | o.wf(l) && o.wf(k) && o.leq(l, k) && (forall c | o.has(k, c) :: o.has(l, c)) :: l == k
  }

  // ----- products

  predicate Wf<L, F, C>(o: Ops<L, F, C>, t: Tree<L>) {
    match t
    case Leaf(l) => o.wf(l)
    case Product(a, b) => Wf(o, a) && Wf(o, b)
  }

  predicate Has<L, F, C>(o: Ops<L, F, C>, t: Tree<L>, c: C) {
    match t
    case Leaf(l) => o.has(l, c)
    case Product(a, b) => Has(o, a, c) && Has(o, b, c)
  }

  predicate HasBot<L, F, C>(o: Ops<L, F, C>, v: BotOr<Tree<L>>, c: C) { v.Val? && Has(o, v.value, c) }

  predicate WfBot<L, F, C>(o: Ops<L, F, C>, v: BotOr<Tree<L>>) { v.Val? ==> Wf(o, v.value) }

  predicate Leq<L, F, C>(o: Ops<L, F, C>, t: Tree<L>, u: Tree<L>) {
    match (t, u)
    case (Leaf(l), Leaf(k)) => o.leq(l, k)
    case (Product(a, b), Product(a', b')) => Leq(o, a, a') && Leq(o, b, b')
    case _ => false
  }

  function MeetChannels<L, F, C>(o: Ops<L, F, C>, f: BotOr<F>, g: BotOr<F>): BotOr<F> {
    if f.Bot? || g.Bot? then Bot
    else
      match o.meetExact(f.value, g.value)
      case Bot => Bot
      case Val(h) => o.normalize(h)
  }

  function ToChannel<L, F, C>(o: Ops<L, F, C>, t: Tree<L>): BotOr<F> {
    match t
    case Leaf(l) => o.toChannel(l)
    case Product(a, b) => MeetChannels(o, ToChannel(o, a), ToChannel(o, b))
  }

  function Pair<L>(a: BotOr<Tree<L>>, b: BotOr<Tree<L>>): BotOr<Tree<L>> {
    if a.Val? && b.Val? then Val(Product(a.value, b.value)) else Bot
  }

  function Refine<L, F, C>(o: Ops<L, F, C>, t: Tree<L>, f: F): BotOr<Tree<L>> {
    match t
    case Leaf(l) => (match o.refine(l, f) case Bot => Bot case Val(k) => Val(Leaf(k)))
    case Product(a, b) => Pair(Refine(o, a, f), Refine(o, b, f))
  }

  /** One round: meet what both components know, then refine both by it. */
  function ReduceOnce<L, F, C>(o: Ops<L, F, C>, t: Tree<L>): (r: BotOr<Tree<L>>)
    requires t.Product?
    ensures r.Val? ==> r.value.Product?
  {
    match MeetChannels(o, ToChannel(o, t.a), ToChannel(o, t.b))
    case Bot => Bot
    case Val(f) => Pair(Refine(o, t.a, f), Refine(o, t.b, f))
  }

  /** At most fuel rounds, stopping when a round changes neither component. */
  function Reduce<L, F, C>(o: Ops<L, F, C>, t: Tree<L>, fuel: nat): BotOr<Tree<L>>
    requires t.Product?
    decreases fuel
  {
    if fuel == 0 then Val(t)
    else
      match ReduceOnce(o, t)
      case Bot => Bot
      case Val(p) => if Leq(o, t.a, p.a) && Leq(o, t.b, p.b) then Val(p) else Reduce(o, p, fuel - 1)
  }

  /** Exactly fuel rounds. */
  function Rounds<L, F, C>(o: Ops<L, F, C>, t: Tree<L>, fuel: nat): BotOr<Tree<L>>
    requires t.Product?
    decreases fuel
  {
    if fuel == 0 then Val(t)
    else
      match ReduceOnce(o, t)
      case Bot => Bot
      case Val(p) => Rounds(o, p, fuel - 1)
  }

  function Meet<L, F, C>(o: Ops<L, F, C>, t: Tree<L>, u: Tree<L>): BotOr<Tree<L>> {
    match (t, u)
    case (Leaf(l), Leaf(k)) => (match o.meet(l, k) case Bot => Bot case Val(r) => Val(Leaf(r)))
    case (Product(a, b), Product(a', b')) => Pair(Meet(o, a, a'), Meet(o, b, b'))
    case _ => Bot
  }

  function MeetReduce<L, F, C>(o: Ops<L, F, C>, t: Tree<L>, u: Tree<L>, fuel: nat): BotOr<Tree<L>>
    requires t.Product? && u.Product?
  {
    match Meet(o, t, u)
    case Bot => Bot
    case Val(r) => Reduce(o, r, fuel)
  }

  /** The same nesting of leaves from the same domains. */
  predicate SameShape<L, F, C>(o: Ops<L, F, C>, t: Tree<L>, u: Tree<L>) {
    match (t, u)
    case (Leaf(l), Leaf(k)) => o.sameDomain(l, k)
    case (Product(a, b), Product(a', b')) => SameShape(o, a, a') && SameShape(o, b, b')
    case _ => false
  }

  /** Leaf by leaf, every member of u is a member of t. */
  ghost predicate Shrinks<L, F, C(!new)>(o: Ops<L, F, C>, u: Tree<L>, t: Tree<L>) {
    match (u, t)
    case (Leaf(k), Leaf(l)) => forall c | o.has(k, c) :: o.has(l, c)
    case (Product(a', b'), Product(a, b)) => Shrinks(o, a', a) && Shrinks(o, b', b)
    case _ => false
  }

  // ----- a round changes no meaning

  lemma MeetChannelsWf<L(!new), F(!new), C(!new)>(o: Ops<L, F, C>, f: BotOr<F>, g: BotOr<F>)
    requires ChannelLaws(o) && WfFacts(o, f) && WfFacts(o, g)
    ensures WfFacts(o, MeetChannels(o, f, g))
  {
    if f.Val? && g.Val? {
      var h := o.meetExact(f.value, g.value);
      if h.Val? {
        assert WfFacts(o, o.normalize(h.value));
      }
    }
  }

  lemma MeetChannelsExact<L(!new), F(!new), C(!new)>(o: Ops<L, F, C>, f: BotOr<F>, g: BotOr<F>, c: C)
    requires ChannelLaws(o) && WfFacts(o, f) && WfFacts(o, g)
    ensures WfFacts(o, MeetChannels(o, f, g))
    ensures HasFacts(o, MeetChannels(o, f, g), c) <==> HasFacts(o, f, c) && HasFacts(o, g, c)
  {
    if f.Val? && g.Val? {
      var h := o.meetExact(f.value, g.value);
      assert HasFacts(o, h, c) <==> o.channelHas(f.value, c) && o.channelHas(g.value, c);
      if h.Val? {
        assert WfFacts(o, o.normalize(h.value));
        assert HasFacts(o, o.normalize(h.value), c) <==> o.channelHas(h.value, c);
      }
    }
  }

  lemma {:induction false} ToChannelWf<L(!new), F(!new), C(!new)>(o: Ops<L, F, C>, t: Tree<L>)
    requires Lawful(o) && Wf(o, t)
    ensures WfFacts(o, ToChannel(o, t))
  {
    match t
    case Leaf(l) =>
    case Product(a, b) =>
      ToChannelWf(o, a);
      ToChannelWf(o, b);
      MeetChannelsWf(o, ToChannel(o, a), ToChannel(o, b));
  }

  /** The channel of a tree holds every value of the tree. */
  lemma {:induction false} ToChannelSound<L(!new), F(!new), C(!new)>(o: Ops<L, F, C>, t: Tree<L>, c: C)
    requires Lawful(o) && Wf(o, t)
    ensures WfFacts(o, ToChannel(o, t))
    ensures Has(o, t, c) ==> HasFacts(o, ToChannel(o, t), c)
  {
    match t
    case Leaf(l) =>
    case Product(a, b) =>
      ToChannelSound(o, a, c);
      ToChannelSound(o, b, c);
      MeetChannelsExact(o, ToChannel(o, a), ToChannel(o, b), c);
  }

  /** Refining keeps the values the record accepts and adds none. */
  lemma {:induction false} RefineSound<L(!new), F(!new), C(!new)>(o: Ops<L, F, C>, t: Tree<L>, f: F, c: C)
    requires Lawful(o) && Wf(o, t) && o.channelWf(f)
    ensures WfBot(o, Refine(o, t, f))
    ensures Has(o, t, c) && o.channelHas(f, c) ==> HasBot(o, Refine(o, t, f), c)
    ensures HasBot(o, Refine(o, t, f), c) ==> Has(o, t, c)
  {
    match t
    case Leaf(l) =>
      assert o.has(l, c) && o.channelHas(f, c) ==> HasLeaf(o, o.refine(l, f), c);
      assert HasLeaf(o, o.refine(l, f), c) ==> o.has(l, c);
    case Product(a, b) =>
      RefineSound(o, a, f, c);
      RefineSound(o, b, f, c);
  }

  /** Refining never enlarges a leaf. */
  lemma {:induction false} RefineShrinks<L(!new), F(!new), C(!new)>(o: Ops<L, F, C>, t: Tree<L>, f: F)
    requires Lawful(o) && Wf(o, t) && o.channelWf(f)
    ensures WfBot(o, Refine(o, t, f))
    ensures Refine(o, t, f).Val? ==> Shrinks(o, Refine(o, t, f).value, t)
  {
    match t
    case Leaf(l) =>
      forall c ensures HasLeaf(o, o.refine(l, f), c) ==> o.has(l, c) { }
    case Product(a, b) =>
      RefineShrinks(o, a, f);
      RefineShrinks(o, b, f);
  }

  /** One round keeps the represented set exactly. */
  lemma {:induction false} RoundPreserves<L(!new), F(!new), C(!new)>(o: Ops<L, F, C>, t: Tree<L>, c: C)
    requires Lawful(o) && Wf(o, t) && t.Product?
    ensures WfBot(o, ReduceOnce(o, t))
    ensures HasBot(o, ReduceOnce(o, t), c) <==> Has(o, t, c)
  {
    hide LeafLaws;
    ToChannelSound(o, t, c);
    ToChannelSound(o, t.a, c);
    ToChannelSound(o, t.b, c);
    var f := ToChannel(o, t);
    if f.Val? {
      RefineSound(o, t.a, f.value, c);
      RefineSound(o, t.b, f.value, c);
    }
  }

  lemma {:induction false} RoundShrinks<L(!new), F(!new), C(!new)>(o: Ops<L, F, C>, t: Tree<L>)
    requires Lawful(o) && Wf(o, t) && t.Product?
    ensures WfBot(o, ReduceOnce(o, t))
    ensures ReduceOnce(o, t).Val? ==> Shrinks(o, ReduceOnce(o, t).value, t)
  {
    hide LeafLaws;
    ToChannelWf(o, t);
    var f := ToChannel(o, t);
    if f.Val? {
      RefineShrinks(o, t.a, f.value);
      RefineShrinks(o, t.b, f.value);
    }
  }

  /** For every fuel and every nesting, reduction keeps the represented set exactly. */
  lemma {:induction false} ReducePreserves<L(!new), F(!new), C(!new)>(o: Ops<L, F, C>, t: Tree<L>, fuel: nat, c: C)
    requires Lawful(o) && Wf(o, t) && t.Product?
    ensures WfBot(o, Reduce(o, t, fuel))
    ensures HasBot(o, Reduce(o, t, fuel), c) <==> Has(o, t, c)
    decreases fuel
  {
    hide Lawful, ReduceOnce, Wf, Has, Leq;
    if fuel > 0 {
      RoundPreserves(o, t, c);
      var r := ReduceOnce(o, t);
      if r.Val? && !(Leq(o, t.a, r.value.a) && Leq(o, t.b, r.value.b)) {
        ReducePreserves(o, r.value, fuel - 1, c);
      }
    }
  }

  /** Bottom means that the set was empty. */
  lemma {:induction false} ReduceBottom<L(!new), F(!new), C(!new)>(o: Ops<L, F, C>, t: Tree<L>, fuel: nat)
    requires Lawful(o) && Wf(o, t) && t.Product? && Reduce(o, t, fuel).Bot?
    ensures forall c :: !Has(o, t, c)
  {
    hide Lawful, Reduce;
    forall c ensures !Has(o, t, c) { ReducePreserves(o, t, fuel, c); }
  }

  lemma {:induction false} ShrinksTrans<L, F, C(!new)>(o: Ops<L, F, C>, v: Tree<L>, u: Tree<L>, t: Tree<L>)
    requires Shrinks(o, v, u) && Shrinks(o, u, t)
    ensures Shrinks(o, v, t)
  {
    match (v, u, t)
    case (Leaf(_), Leaf(_), Leaf(_)) =>
    case (Product(a'', b''), Product(a', b'), Product(a, b)) =>
      ShrinksTrans(o, a'', a', a);
      ShrinksTrans(o, b'', b', b);
  }

  lemma {:induction false} ShrinksSelf<L, F, C(!new)>(o: Ops<L, F, C>, t: Tree<L>)
    ensures Shrinks(o, t, t)
  {
    if t.Product? {
      ShrinksSelf(o, t.a);
      ShrinksSelf(o, t.b);
    }
  }

  /** Reduction never enlarges a leaf. */
  lemma {:induction false} ReduceShrinks<L(!new), F(!new), C(!new)>(o: Ops<L, F, C>, t: Tree<L>, fuel: nat)
    requires Lawful(o) && Wf(o, t) && t.Product?
    ensures Reduce(o, t, fuel).Val? ==> Shrinks(o, Reduce(o, t, fuel).value, t)
    decreases fuel
  {
    hide Lawful, ReduceOnce, Wf, Has, Leq, Shrinks;
    ShrinksSelf(o, t);
    if fuel > 0 {
      RoundShrinks(o, t);
      var r := ReduceOnce(o, t);
      if r.Val? && !(Leq(o, t.a, r.value.a) && Leq(o, t.b, r.value.b)) {
        ReduceShrinks(o, r.value, fuel - 1);
        var s := Reduce(o, r.value, fuel - 1);
        if s.Val? { ShrinksTrans(o, s.value, r.value, t); }
      }
    }
  }

  // ----- stopping early

  /** A tree that is included in its own shrinking is that shrinking. */
  lemma {:induction false} UnchangedIsEqual<L(!new), F(!new), C(!new)>(o: Ops<L, F, C>, t: Tree<L>, u: Tree<L>)
    requires CanonicalLeaves(o) && Wf(o, t) && Wf(o, u) && Leq(o, t, u) && Shrinks(o, u, t)
    ensures t == u
  {
    match (t, u)
    case (Leaf(_), Leaf(_)) =>
    case (Product(a, b), Product(a', b')) =>
      UnchangedIsEqual(o, a, a');
      UnchangedIsEqual(o, b, b');
  }

  lemma {:induction false} RoundsAtFixpoint<L, F, C>(o: Ops<L, F, C>, t: Tree<L>, fuel: nat)
    requires t.Product? && ReduceOnce(o, t) == Val(t)
    ensures Rounds(o, t, fuel) == Val(t)
    decreases fuel
  {
    hide ReduceOnce;
    if fuel > 0 {
      RoundsAtFixpoint(o, t, fuel - 1);
    }
  }

  /** With canonical leaves, stopping early gives what all the rounds would give. */
  lemma {:induction false} EarlyStopLosesNothing<L(!new), F(!new), C(!new)>(o: Ops<L, F, C>, t: Tree<L>, fuel: nat)
    requires Lawful(o) && CanonicalLeaves(o) && Wf(o, t) && t.Product?
    ensures Reduce(o, t, fuel) == Rounds(o, t, fuel)
    decreases fuel
  {
    hide Lawful, CanonicalLeaves, ReduceOnce, Has;
    if fuel > 0 {
      RoundShrinks(o, t);
      var r := ReduceOnce(o, t);
      if r.Val? {
        if Leq(o, t.a, r.value.a) && Leq(o, t.b, r.value.b) {
          UnchangedIsEqual(o, t, r.value);
          RoundsAtFixpoint(o, t, fuel - 1);
        } else {
          EarlyStopLosesNothing(o, r.value, fuel - 1);
        }
      }
    }
  }

  // ----- meet

  lemma {:induction false} MeetSound<L(!new), F(!new), C(!new)>(o: Ops<L, F, C>, t: Tree<L>, u: Tree<L>, c: C)
    requires LeafLaws(o) && Wf(o, t) && Wf(o, u) && SameShape(o, t, u)
    ensures WfBot(o, Meet(o, t, u)) && (t.Product? && Meet(o, t, u).Val? ==> Meet(o, t, u).value.Product?)
    ensures Has(o, t, c) && Has(o, u, c) ==> HasBot(o, Meet(o, t, u), c)
  {
    match (t, u)
    case (Leaf(l), Leaf(k)) =>
      assert o.has(l, c) && o.has(k, c) ==> HasLeaf(o, o.meet(l, k), c);
    case (Product(a, b), Product(a', b')) =>
      MeetSound(o, a, a', c);
      MeetSound(o, b, b', c);
  }

  /** A reduced meet keeps every common value. */
  lemma {:induction false} MeetReduceSound<L(!new), F(!new), C(!new)>(
    o: Ops<L, F, C>, t: Tree<L>, u: Tree<L>, fuel: nat, c: C)
    requires Lawful(o) && Wf(o, t) && Wf(o, u) && SameShape(o, t, u) && t.Product? && u.Product?
    ensures WfBot(o, MeetReduce(o, t, u, fuel))
    ensures Has(o, t, c) && Has(o, u, c) ==> HasBot(o, MeetReduce(o, t, u, fuel), c)
  {
    hide Reduce, Meet, Has, Wf, LeafLaws, ChannelLaws;
    MeetSound(o, t, u, c);
    if Meet(o, t, u).Val? {
      ReducePreserves(o, Meet(o, t, u).value, fuel, c);
    }
  }

  /** A meet of leaves that holds exactly the common values. */
  ghost predicate ExactMeet<L, F, C(!new)>(o: Ops<L, F, C>, l: L, k: L) {
    forall c :: HasLeaf(o, o.meet(l, k), c) <==> o.has(l, c) && o.has(k, c)
  }

  ghost predicate ExactMeets<L, F, C(!new)>(o: Ops<L, F, C>, t: Tree<L>, u: Tree<L>) {
    match (t, u)
    case (Leaf(l), Leaf(k)) => ExactMeet(o, l, k)
    case (Product(a, b), Product(a', b')) => ExactMeets(o, a, a') && ExactMeets(o, b, b')
    case _ => false
  }

  lemma {:induction false} MeetExact<L(!new), F(!new), C(!new)>(o: Ops<L, F, C>, t: Tree<L>, u: Tree<L>, c: C)
    requires ExactMeets(o, t, u)
    ensures HasBot(o, Meet(o, t, u), c) <==> Has(o, t, c) && Has(o, u, c)
  {
    match (t, u)
    case (Leaf(l), Leaf(k)) =>
      assert HasLeaf(o, o.meet(l, k), c) <==> o.has(l, c) && o.has(k, c);
    case (Product(a, b), Product(a', b')) =>
      MeetExact(o, a, a', c);
      MeetExact(o, b, b', c);
  }

  /** Where the meets of leaves are exact, a reduced meet holds exactly the common values. */
  lemma {:induction false} MeetReduceExact<L(!new), F(!new), C(!new)>(
    o: Ops<L, F, C>, t: Tree<L>, u: Tree<L>, fuel: nat, c: C)
    requires Lawful(o) && Wf(o, t) && Wf(o, u) && SameShape(o, t, u) && t.Product? && u.Product?
    requires ExactMeets(o, t, u)
    ensures HasBot(o, MeetReduce(o, t, u, fuel), c) <==> Has(o, t, c) && Has(o, u, c)
  {
    hide Reduce, Meet, Has, Wf, LeafLaws, ChannelLaws, ExactMeets;
    MeetSound(o, t, u, c);
    MeetExact(o, t, u, c);
    if Meet(o, t, u).Val? {
      ReducePreserves(o, Meet(o, t, u).value, fuel, c);
    }
  }

  // ----- exact leaves

  /** A leaf whose facts say everything about it and whose refinement is an intersection. */
  ghost predicate ExactLeaf<L, F(!new), C(!new)>(o: Ops<L, F, C>, l: L) {
    && (forall c :: HasFacts(o, o.toChannel(l), c) <==> o.has(l, c))
    && (forall f, c | o.channelWf(f) :: HasLeaf(o, o.refine(l, f), c) <==> o.has(l, c) && o.channelHas(f, c))
  }

  ghost predicate ExactLeaves<L, F(!new), C(!new)>(o: Ops<L, F, C>, t: Tree<L>) {
    match t
    case Leaf(l) => ExactLeaf(o, l)
    case Product(a, b) => ExactLeaves(o, a) && ExactLeaves(o, b)
  }

  /** Every leaf gives the same answer for c. */
  predicate LeavesSay<L, F, C>(o: Ops<L, F, C>, t: Tree<L>, c: C, answer: bool) {
    match t
    case Leaf(l) => o.has(l, c) == answer
    case Product(a, b) => LeavesSay(o, a, c, answer) && LeavesSay(o, b, c, answer)
  }

  lemma {:induction false} ToChannelExact<L(!new), F(!new), C(!new)>(o: Ops<L, F, C>, t: Tree<L>, c: C)
    requires Lawful(o) && Wf(o, t) && ExactLeaves(o, t)
    ensures WfFacts(o, ToChannel(o, t))
    ensures HasFacts(o, ToChannel(o, t), c) <==> Has(o, t, c)
  {
    match t
    case Leaf(l) =>
      assert HasFacts(o, o.toChannel(l), c) <==> o.has(l, c);
    case Product(a, b) =>
      ToChannelExact(o, a, c);
      ToChannelExact(o, b, c);
      MeetChannelsExact(o, ToChannel(o, a), ToChannel(o, b), c);
  }

  /** Refining by a record below every leaf leaves every leaf equal to the record. */
  lemma {:induction false} RefineToRecord<L(!new), F(!new), C(!new)>(o: Ops<L, F, C>, t: Tree<L>, f: F, c: C)
    requires Lawful(o) && Wf(o, t) && ExactLeaves(o, t) && o.channelWf(f)
    requires forall x | o.channelHas(f, x) :: Has(o, t, x)
    ensures Refine(o, t, f).Val? && LeavesSay(o, Refine(o, t, f).value, c, o.channelHas(f, c))
  {
    var x := SomeFact(o, f);
    match t
    case Leaf(l) =>
      assert HasLeaf(o, o.refine(l, f), x) <==> o.has(l, x) && o.channelHas(f, x);
      assert HasLeaf(o, o.refine(l, f), c) <==> o.has(l, c) && o.channelHas(f, c);
    case Product(a, b) =>
      RefineToRecord(o, a, f, c);
      RefineToRecord(o, b, f, c);
  }

  /** After one round on exact leaves every leaf holds the whole product, and an empty product is bottom. */
  lemma {:induction false} RoundComplete<L(!new), F(!new), C(!new)>(o: Ops<L, F, C>, t: Tree<L>, c: C)
    requires Lawful(o) && Wf(o, t) && ExactLeaves(o, t) && t.Product?
    ensures ReduceOnce(o, t).Bot? <==> forall x :: !Has(o, t, x)
    ensures ReduceOnce(o, t).Val? ==> LeavesSay(o, ReduceOnce(o, t).value, c, Has(o, t, c))
  {
    hide LeafLaws, ChannelLaws, ExactLeaf;
    var f := ToChannel(o, t);
    forall x ensures WfFacts(o, f) && (HasFacts(o, f, x) <==> Has(o, t, x)) { ToChannelExact(o, t, x); }
    ToChannelExact(o, t, c);
    if f.Val? {
      var x := SomeFact(o, f.value);
      assert HasFacts(o, f, x) && Has(o, t, x);
      forall y | o.channelHas(f.value, y) ensures Has(o, t.a, y) && Has(o, t.b, y) { assert HasFacts(o, f, y); }
      RefineToRecord(o, t.a, f.value, c);
      RefineToRecord(o, t.b, f.value, c);
      assert o.channelHas(f.value, c) <==> Has(o, t, c);
      assert ReduceOnce(o, t).Val?;
      assert exists y :: Has(o, t, y);
    } else {
      forall x ensures !Has(o, t, x) { assert !HasFacts(o, f, x); }
    }
  }

  lemma SomeFact<L(!new), F(!new), C(!new)>(o: Ops<L, F, C>, f: F) returns (c: C)
    requires ChannelLaws(o) && o.channelWf(f)
    ensures o.channelHas(f, c)
  {
    c :| o.channelHas(f, c);
  }

  lemma {:induction false} ShrinksBetween<L, F, C(!new)>(o: Ops<L, F, C>, u: Tree<L>, t: Tree<L>, c: C, answer: bool)
    requires Shrinks(o, u, t) && LeavesSay(o, t, c, answer) && (answer ==> Has(o, u, c))
    ensures LeavesSay(o, u, c, answer)
  {
    match (u, t)
    case (Leaf(_), Leaf(_)) =>
    case (Product(a', b'), Product(a, b)) =>
      ShrinksBetween(o, a', a, c, answer);
      ShrinksBetween(o, b', b, c, answer);
  }

  /** With exact leaves and any fuel above 0, reduction is complete. */
  lemma {:induction false} ReduceComplete<L(!new), F(!new), C(!new)>(o: Ops<L, F, C>, t: Tree<L>, fuel: nat, c: C)
    requires Lawful(o) && Wf(o, t) && ExactLeaves(o, t) && t.Product? && fuel > 0
    ensures Reduce(o, t, fuel).Bot? <==> forall x :: !Has(o, t, x)
    ensures Reduce(o, t, fuel).Val? ==> LeavesSay(o, Reduce(o, t, fuel).value, c, Has(o, t, c))
  {
    hide LeafLaws, ChannelLaws, ExactLeaves, ReduceOnce, Wf, Has, Leq, Shrinks, LeavesSay;
    RoundComplete(o, t, c);
    RoundPreserves(o, t, c);
    RoundShrinks(o, t);
    var p := ReduceOnce(o, t);
    if p.Val? && !(Leq(o, t.a, p.value.a) && Leq(o, t.b, p.value.b)) {
      var r := Reduce(o, p.value, fuel - 1);
      ReducePreserves(o, p.value, fuel - 1, c);
      ReduceShrinks(o, p.value, fuel - 1);
      if r.Val? {
        ShrinksBetween(o, r.value, p.value, c, Has(o, t, c));
      } else {
        var x :| Has(o, t, x);
        RoundPreserves(o, t, x);
        ReducePreserves(o, p.value, fuel - 1, x);
      }
    }
  }
}
