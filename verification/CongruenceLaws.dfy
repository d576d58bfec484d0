/** The lattice laws of congruences with bottom, as equality of representations. */
module CongruenceLaws {
  import opened Lattice
  import opened Congruences

  function JoinBot(a: BotOr<Congruence>, b: BotOr<Congruence>, m: nat): BotOr<Congruence> {
    match (a, b)
    case (Bot, _) => b
    case (_, Bot) => a
    case (Val(u), Val(v)) => Val(Join(u, v, m))
  }

  function MeetBot(a: BotOr<Congruence>, b: BotOr<Congruence>, m: nat): BotOr<Congruence> {
    match (a, b)
    case (Val(u), Val(v)) => Meet(u, v, m)
    case _ => Bot
  }

  ghost predicate SubsetBot(a: BotOr<Congruence>, b: BotOr<Congruence>, m: nat) {
    forall x: nat | x < m && HasBot(a, x) :: HasBot(b, x)
  }

  lemma CanonicalBot(a: BotOr<Congruence>, b: BotOr<Congruence>, m: nat)
    requires WfBot(a, m) && WfBot(b, m) && SubsetBot(a, b, m) && SubsetBot(b, a, m)
    ensures a == b
  {
    if a.Val? { ResidueMember(a.value, m); assert HasBot(a, a.value.residue); }
    if b.Val? { ResidueMember(b.value, m); assert HasBot(b, b.value.residue); }
    if a.Val? && b.Val? {
      assert Subset(a.value, b.value, m) by {
        forall x: nat | x < m && a.value.Has(x) ensures b.value.Has(x) { assert HasBot(a, x); }
      }
      assert Subset(b.value, a.value, m) by {
        forall x: nat | x < m && b.value.Has(x) ensures a.value.Has(x) { assert HasBot(b, x); }
      }
      Canonical(a.value, b.value, m);
    }
  }

  lemma {:induction false} MeetBotExact(a: BotOr<Congruence>, b: BotOr<Congruence>, m: nat)
    requires WfBot(a, m) && WfBot(b, m) && m > 0
    ensures WfBot(MeetBot(a, b, m), m)
    ensures forall x: nat | x < m :: HasBot(MeetBot(a, b, m), x) <==> HasBot(a, x) && HasBot(b, x)
  {
    hide Meet;
    if a.Val? && b.Val? {
      MeetExact(a.value, b.value, m, 0);
      forall x: nat | x < m
        ensures HasBot(MeetBot(a, b, m), x) <==> HasBot(a, x) && HasBot(b, x)
      {
        MeetExact(a.value, b.value, m, x);
      }
    }
  }

  lemma {:induction false} JoinBotUpper(a: BotOr<Congruence>, b: BotOr<Congruence>, m: nat)
    requires WfBot(a, m) && WfBot(b, m)
    ensures WfBot(JoinBot(a, b, m), m)
    ensures SubsetBot(a, JoinBot(a, b, m), m) && SubsetBot(b, JoinBot(a, b, m), m)
  {
    hide Join;
    if a.Val? && b.Val? {
      JoinUpper(a.value, b.value, m);
    }
  }

  lemma {:induction false} JoinBotLeast(a: BotOr<Congruence>, b: BotOr<Congruence>, m: nat, c: BotOr<Congruence>)
    requires WfBot(a, m) && WfBot(b, m) && WfBot(c, m)
    requires SubsetBot(a, c, m) && SubsetBot(b, c, m)
    ensures SubsetBot(JoinBot(a, b, m), c, m)
  {
    hide Join;
    if a.Val? && b.Val? {
      ResidueMember(a.value, m);
      assert HasBot(a, a.value.residue);
      assert Subset(a.value, c.value, m) by {
        forall x: nat | x < m && a.value.Has(x) ensures c.value.Has(x) { assert HasBot(a, x); }
      }
      assert Subset(b.value, c.value, m) by {
        forall x: nat | x < m && b.value.Has(x) ensures c.value.Has(x) { assert HasBot(b, x); }
      }
      JoinLeast(a.value, b.value, m, c.value);
    }
  }

  lemma TopHas(m: nat)
    requires m >= 2
    ensures Top().Wf(m) && forall x: nat :: Top().Has(x)
  {
  }

  /** Meet is idempotent, commutative and associative, with identity top and zero bottom. */
  lemma {:induction false} MeetLaws(a: BotOr<Congruence>, b: BotOr<Congruence>, c: BotOr<Congruence>, m: nat)
    requires WfBot(a, m) && WfBot(b, m) && WfBot(c, m) && m >= 2
    ensures MeetBot(a, a, m) == a
    ensures MeetBot(a, b, m) == MeetBot(b, a, m)
    ensures MeetBot(MeetBot(a, b, m), c, m) == MeetBot(a, MeetBot(b, c, m), m)
    ensures MeetBot(a, Val(Top()), m) == a
    ensures MeetBot(a, Bot, m) == Bot
  {
    hide Meet, WfBot, HasBot;
    MeetSame(a, m);
    MeetCommutes(a, b, m);
    MeetAssociates(a, b, c, m);
    MeetTop(a, m);
  }

  lemma {:induction false} MeetSame(a: BotOr<Congruence>, m: nat)
    requires WfBot(a, m) && m > 0
    ensures MeetBot(a, a, m) == a
  {
    hide MeetBot, WfBot, HasBot;
    MeetBotExact(a, a, m);
    CanonicalBot(MeetBot(a, a, m), a, m);
  }

  lemma {:induction false} MeetCommutes(a: BotOr<Congruence>, b: BotOr<Congruence>, m: nat)
    requires WfBot(a, m) && WfBot(b, m) && m > 0
    ensures MeetBot(a, b, m) == MeetBot(b, a, m)
  {
    hide MeetBot, WfBot, HasBot;
    MeetBotExact(a, b, m);
    MeetBotExact(b, a, m);
    CanonicalBot(MeetBot(a, b, m), MeetBot(b, a, m), m);
  }

  lemma {:induction false} MeetAssociates(a: BotOr<Congruence>, b: BotOr<Congruence>, c: BotOr<Congruence>, m: nat)
    requires WfBot(a, m) && WfBot(b, m) && WfBot(c, m) && m > 0
    ensures MeetBot(MeetBot(a, b, m), c, m) == MeetBot(a, MeetBot(b, c, m), m)
  {
    hide MeetBot, WfBot, HasBot;
    var ab, bc := MeetBot(a, b, m), MeetBot(b, c, m);
    MeetBotExact(a, b, m);
    MeetBotExact(b, c, m);
    MeetBotExact(ab, c, m);
    MeetBotExact(a, bc, m);
    CanonicalBot(MeetBot(ab, c, m), MeetBot(a, bc, m), m);
  }

  lemma {:induction false} MeetTop(a: BotOr<Congruence>, m: nat)
    requires WfBot(a, m) && m >= 2
    ensures MeetBot(a, Val(Top()), m) == a
  {
    hide MeetBot;
    TopHas(m);
    MeetBotExact(a, Val(Top()), m);
    CanonicalBot(MeetBot(a, Val(Top()), m), a, m);
  }

  /** Join is idempotent, commutative and associative, with identity bottom and zero top. */
  lemma {:induction false} JoinLaws(a: BotOr<Congruence>, b: BotOr<Congruence>, c: BotOr<Congruence>, m: nat)
    requires WfBot(a, m) && WfBot(b, m) && WfBot(c, m) && m >= 2
    ensures JoinBot(a, a, m) == a
    ensures JoinBot(a, b, m) == JoinBot(b, a, m)
    ensures JoinBot(JoinBot(a, b, m), c, m) == JoinBot(a, JoinBot(b, c, m), m)
    ensures JoinBot(a, Val(Top()), m) == Val(Top())
    ensures JoinBot(a, Bot, m) == a
  {
    hide Join, WfBot, HasBot;
    JoinAbsorbs(a, a, m);
    JoinCommutes(a, b, m);
    JoinAssociates(a, b, c, m);
    JoinTop(a, m);
  }

  /** Joining a smaller value changes nothing. */
  lemma {:induction false} JoinAbsorbs(a: BotOr<Congruence>, b: BotOr<Congruence>, m: nat)
    requires WfBot(a, m) && WfBot(b, m) && SubsetBot(a, b, m)
    ensures JoinBot(a, b, m) == b
  {
    hide JoinBot, WfBot, HasBot;
    JoinBotUpper(a, b, m);
    JoinBotLeast(a, b, m, b);
    CanonicalBot(JoinBot(a, b, m), b, m);
  }

  lemma {:induction false} JoinCommutes(a: BotOr<Congruence>, b: BotOr<Congruence>, m: nat)
    requires WfBot(a, m) && WfBot(b, m)
    ensures JoinBot(a, b, m) == JoinBot(b, a, m)
  {
    hide JoinBot, WfBot, HasBot;
    var ab, ba := JoinBot(a, b, m), JoinBot(b, a, m);
    JoinBotUpper(a, b, m);
    JoinBotUpper(b, a, m);
    JoinBotLeast(a, b, m, ba);
    JoinBotLeast(b, a, m, ab);
    CanonicalBot(ab, ba, m);
  }

  lemma SubsetTrans(a: BotOr<Congruence>, b: BotOr<Congruence>, c: BotOr<Congruence>, m: nat)
    requires SubsetBot(a, b, m) && SubsetBot(b, c, m)
    ensures SubsetBot(a, c, m)
  {
  }

  lemma {:induction false} JoinAssociates(a: BotOr<Congruence>, b: BotOr<Congruence>, c: BotOr<Congruence>, m: nat)
    requires WfBot(a, m) && WfBot(b, m) && WfBot(c, m)
    ensures JoinBot(JoinBot(a, b, m), c, m) == JoinBot(a, JoinBot(b, c, m), m)
  {
    hide JoinBot, WfBot, HasBot, SubsetBot;
    var ab, bc := JoinBot(a, b, m), JoinBot(b, c, m);
    JoinBotUpper(a, b, m);
    JoinBotUpper(b, c, m);
    var left, right := JoinBot(ab, c, m), JoinBot(a, bc, m);
    JoinBotUpper(ab, c, m);
    JoinBotUpper(a, bc, m);
    SubsetTrans(b, bc, right, m);
    SubsetTrans(c, bc, right, m);
    JoinBotLeast(a, b, m, right);
    JoinBotLeast(ab, c, m, right);
    SubsetTrans(a, ab, left, m);
    SubsetTrans(b, ab, left, m);
    JoinBotLeast(b, c, m, left);
    JoinBotLeast(a, bc, m, left);
    CanonicalBot(left, right, m);
  }

  lemma {:induction false} JoinTop(a: BotOr<Congruence>, m: nat)
    requires WfBot(a, m) && m >= 2
    ensures JoinBot(a, Val(Top()), m) == Val(Top())
  {
    hide JoinBot;
    TopHas(m);
    JoinAbsorbs(a, Val(Top()), m);
  }
}
