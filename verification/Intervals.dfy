/** Unsigned intervals over words: the lattice operations and division. */
module Intervals {
  import opened DivModFacts
  import opened Lattice

  datatype Interval = Interval(lo: nat, hi: nat) {
    predicate Wf(m: nat) { lo <= hi < m }

    predicate Has(x: nat) { lo <= x <= hi }
  }

  function New(lo: nat, hi: nat): BotOr<Interval> { if lo <= hi then Val(Interval(lo, hi)) else Bot }

  predicate HasBot(v: BotOr<Interval>, x: nat) { v.Val? && v.value.Has(x) }

  predicate WfBot(v: BotOr<Interval>, m: nat) { v.Val? ==> v.value.Wf(m) }

  predicate Leq(a: Interval, b: Interval) { b.lo <= a.lo && a.hi <= b.hi }

  function Meet(a: Interval, b: Interval): BotOr<Interval> {
    New(if a.lo <= b.lo then b.lo else a.lo, if a.hi <= b.hi then a.hi else b.hi)
  }

  // ----- unsigned division

  function LeastDivisor(d: Interval): nat { if d.lo == 0 then 1 else d.lo }

  function ZeroFlag(d: Interval): DivZero {
    if d.hi == 0 then Always else if d.lo == 0 then Maybe else Never
  }

  function Div(a: Interval, d: Interval): BotOr<Interval> {
    if d.hi == 0 then Bot
    else Val(Interval(Quotient(a.lo, d.hi), if d.lo != 0 then Quotient(a.hi, d.lo) else a.hi))
  }

  function Quotient(x: nat, y: nat): (q: nat)
    requires y > 0
    ensures q <= x
  {
    DivAnti(x, 1, y);
    x / y
  }

  function Remainder(x: nat, y: nat): (r: nat)
    requires y > 0
    ensures r < y && r <= x
  {
    DivAnti(x, 1, y);
    MulMono(0, x / y, y);
    x % y
  }

  /** The remainders when every quotient is the same, and otherwise all words below the divisor. */
  function Rem(a: Interval, d: Interval): BotOr<Interval>
    requires a.lo <= a.hi && d.lo <= d.hi
  {
    if d.hi == 0 then Bot
    else
      var least, q := LeastDivisor(d), Quotient(a.lo, d.hi);
      if q == Quotient(a.hi, least) then
        SameQuotientBounds(a, d, q);
        var top := a.hi - q * least;
        Val(Interval(a.lo - q * d.hi, if top <= d.hi - 1 then top else d.hi - 1))
      else
        Val(Interval(0, if a.hi <= d.hi - 1 then a.hi else d.hi - 1))
  }

  lemma SameQuotientBounds(a: Interval, d: Interval, q: nat)
    requires a.lo <= a.hi && d.lo <= d.hi && d.hi > 0
    requires q == a.lo / d.hi == a.hi / LeastDivisor(d)
    ensures a.lo - q * d.hi == a.lo % d.hi
    ensures a.hi - q * LeastDivisor(d) == a.hi % LeastDivisor(d)
  {
  }

  lemma QuotientBounds(a: Interval, d: Interval, x: nat, y: nat)
    requires a.Has(x) && d.Has(y) && y > 0
    ensures a.lo / d.hi <= x / y <= a.hi / LeastDivisor(d)
  {
    DivMono(a.lo, x, y);
    DivAnti(a.lo, y, d.hi);
    DivMono(x, a.hi, y);
    DivAnti(a.hi, LeastDivisor(d), y);
  }

  /** The quotient interval holds every quotient, and both of its ends are quotients. */
  lemma DivIsHull(a: Interval, d: Interval, m: nat, x: nat, y: nat)
    requires a.Wf(m) && d.Wf(m) && a.Has(x) && d.Has(y) && y > 0
    ensures Div(a, d).Val? && Div(a, d).value.Wf(m) && Div(a, d).value.Has(x / y)
    ensures Div(a, d).value.lo == a.lo / d.hi && d.Has(d.hi) && d.hi > 0
    ensures Div(a, d).value.hi == a.hi / LeastDivisor(d) && d.Has(LeastDivisor(d))
  {
    QuotientBounds(a, d, x, y);
    DivAnti(a.hi, 1, LeastDivisor(d));
    DivAnti(a.lo, 1, d.hi);
    QuotientBounds(a, d, a.lo, d.hi);
    Unique(a.hi, 1, a.hi, 0);
  }

  /** The least interval that holds every quotient. */
  lemma DivLeast(a: Interval, d: Interval, m: nat, c: Interval)
    requires a.Wf(m) && d.Wf(m) && d.hi > 0
    requires forall x: nat, y: nat | a.Has(x) && d.Has(y) && y > 0 :: c.Has(x / y)
    ensures Div(a, d).Val? && Leq(Div(a, d).value, c)
  {
    DivIsHull(a, d, m, a.lo, d.hi);
    assert a.Has(a.lo) && d.Has(d.hi);
    assert c.Has(a.lo / d.hi);
    assert a.Has(a.hi) && d.Has(LeastDivisor(d));
    assert c.Has(a.hi / LeastDivisor(d));
  }

  /** With a single quotient q, remainders are x - q * y. */
  lemma SameQuotientRemainder(a: Interval, d: Interval, x: nat, y: nat, q: nat)
    requires a.Has(x) && d.Has(y) && y > 0 && q == x / y
    ensures a.lo - q * d.hi <= x % y <= a.hi - q * LeastDivisor(d)
  {
    assert x % y == x - q * y;
    MulMono(y, d.hi, q);
    MulMono(LeastDivisor(d), y, q);
  }

  /** The remainder interval holds every remainder, and nothing above the dividend or from the divisor on. */
  lemma RemSound(a: Interval, d: Interval, m: nat, x: nat, y: nat)
    requires a.Wf(m) && d.Wf(m) && a.Has(x) && d.Has(y) && y > 0
    ensures Rem(a, d).Val? && Rem(a, d).value.Wf(m) && Rem(a, d).value.Has(x % y)
    ensures Rem(a, d).value.hi <= a.hi && Rem(a, d).value.hi < d.hi
  {
    hide Quotient, Remainder;
    var least, q := LeastDivisor(d), Quotient(a.lo, d.hi);
    assert x % y < y && x % y <= x by { RemainderBounds(x, y); }
    if q == Quotient(a.hi, least) {
      SameQuotientRem(a, d, x, y, q);
    }
  }

  lemma SameQuotientRem(a: Interval, d: Interval, x: nat, y: nat, q: nat)
    requires a.lo <= a.hi && d.lo <= d.hi && a.Has(x) && d.Has(y) && y > 0
    requires q == Quotient(a.lo, d.hi) == Quotient(a.hi, LeastDivisor(d))
    ensures 0 <= a.lo - q * d.hi <= x % y <= a.hi - q * LeastDivisor(d) < LeastDivisor(d)
  {
    QuotientBounds(a, d, x, y);
    SameQuotientRemainder(a, d, x, y, q);
    SameQuotientBounds(a, d, q);
  }

  lemma RemainderBounds(x: nat, y: nat)
    requires y > 0
    ensures x % y < y && x % y <= x
  {
    assert Remainder(x, y) == x % y;
  }

  ghost predicate HoldsRemainders(c: Interval, a: Interval, d: Interval) {
    forall x: nat, y: nat | a.Has(x) && d.Has(y) && y > 0 :: c.Has(x % y)
  }

  /** With a single quotient, no smaller interval holds every remainder. */
  lemma RemLeast(a: Interval, d: Interval, m: nat, c: Interval)
    requires a.Wf(m) && d.Wf(m) && d.hi > 0
    requires a.lo / d.hi == a.hi / LeastDivisor(d)
    requires HoldsRemainders(c, a, d)
    ensures Rem(a, d).Val? && Leq(Rem(a, d).value, c)
  {
    SameQuotientBounds(a, d, a.lo / d.hi);
    assert a.Has(a.lo) && d.Has(d.hi);
    assert c.Has(a.lo % d.hi);
    assert a.Has(a.hi) && d.Has(LeastDivisor(d));
    assert c.Has(a.hi % LeastDivisor(d));
  }

  /** Some divisor has a multiple among the dividends. */
  ghost predicate ZeroReached(a: Interval, d: Interval)
    requires a.lo <= a.hi
  {
    exists y: nat :: d.Has(y) && y > 0 && a.hi % y <= a.hi - a.lo
  }

  /** The dividends lie below the greatest divisor, or one of them is one short of a multiple of it. */
  predicate TopReached(a: Interval, d: Interval)
    requires a.lo <= a.hi && d.hi > 0
  {
    a.hi < d.hi || (a.hi + 1) % d.hi <= a.hi - a.lo
  }

  /** The remainder interval is least exactly when the quotient is single or both ends are remainders. */
  lemma RemLeastIff(a: Interval, d: Interval, m: nat)
    requires a.Wf(m) && d.Wf(m) && d.hi > 0
    ensures (forall c: Interval | HoldsRemainders(c, a, d) :: Rem(a, d).Val? && Leq(Rem(a, d).value, c))
       <==> a.lo / d.hi == a.hi / LeastDivisor(d) || (ZeroReached(a, d) && TopReached(a, d))
  {
    hide HoldsRemainders, ZeroReached, TopReached, Rem;
    if a.lo / d.hi == a.hi / LeastDivisor(d) {
      forall c: Interval | HoldsRemainders(c, a, d) ensures Rem(a, d).Val? && Leq(Rem(a, d).value, c) {
        RemLeast(a, d, m, c);
      }
    } else {
      var top := if a.hi <= d.hi - 1 then a.hi else d.hi - 1;
      SpreadRemainders(a, d, top);
      if ZeroReached(a, d) && TopReached(a, d) {
        forall c: Interval | HoldsRemainders(c, a, d) ensures Leq(Interval(0, top), c) {
          EndsReached(a, d, c, top);
        }
      } else if !ZeroReached(a, d) {
        NoZero(a, d, m, top);
        assert HoldsRemainders(Interval(1, top), a, d) && !Leq(Interval(0, top), Interval(1, top));
      } else {
        NoTop(a, d, m, top);
        assert HoldsRemainders(Interval(0, top - 1), a, d) && !Leq(Interval(0, top), Interval(0, top - 1));
      }
    }
  }

  /** The remainder interval can be too wide: 5 by 2 or 3 leaves 1 or 2, and never 0. */
  lemma RemNotLeast(a: Interval, d: Interval, c: Interval)
    requires a == Interval(5, 5) && d == Interval(2, 3) && c == Interval(1, 2)
    ensures HoldsRemainders(c, a, d) && Rem(a, d) == Val(Interval(0, 2)) && !Leq(Rem(a, d).value, c)
  {
    forall x: nat, y: nat | a.Has(x) && d.Has(y) && y > 0 ensures c.Has(x % y) {
      assert y == 2 || y == 3;
    }
  }

  lemma SpreadRemainders(a: Interval, d: Interval, top: nat)
    requires a.lo <= a.hi && d.lo <= d.hi && d.hi > 0 && a.lo / d.hi != a.hi / LeastDivisor(d)
    requires top == if a.hi <= d.hi - 1 then a.hi else d.hi - 1
    ensures Rem(a, d) == Val(Interval(0, top))
  {
  }

  /** The greatest multiple of y up to n. */
  lemma GreatestMultiple(n: nat, y: nat, k: nat)
    requires y > 0 && k <= n && k % y == 0
    ensures k <= n - n % y
  {
    DivMono(k, n, y);
    MulMono(k / y, n / y, y);
  }

  lemma MultipleBelow(n: nat, y: nat)
    requires y > 0
    ensures 0 <= n - n % y <= n && (n - n % y) % y == 0
  {
    RemainderBounds(n, y);
    MultipleMod(y, n / y);
    assert n - n % y == y * (n / y);
  }

  lemma EndsReached(a: Interval, d: Interval, c: Interval, top: nat)
    requires a.lo <= a.hi && d.lo <= d.hi && d.hi > 0 && HoldsRemainders(c, a, d)
    requires ZeroReached(a, d) && TopReached(a, d)
    requires top == if a.hi <= d.hi - 1 then a.hi else d.hi - 1
    ensures Leq(Interval(0, top), c)
  {
    var y: nat :| d.Has(y) && y > 0 && a.hi % y <= a.hi - a.lo;
    MultipleBelow(a.hi, y);
    assert a.Has(a.hi - a.hi % y) && c.Has((a.hi - a.hi % y) % y);
    if a.hi < d.hi {
      SmallMod(a.hi, d.hi);
      assert a.Has(a.hi) && d.Has(d.hi) && c.Has(a.hi % d.hi);
    } else {
      LastBeforeMultiple(a.hi, d.hi);
      var x := a.hi - (a.hi + 1) % d.hi;
      assert a.Has(x) && d.Has(d.hi) && c.Has(x % d.hi);
    }
  }

  lemma LastBeforeMultiple(n: nat, y: nat)
    requires 0 < y <= n
    ensures 0 <= n - (n + 1) % y && (n - (n + 1) % y) % y == y - 1
  {
    var q := (n + 1) / y;
    assert n + 1 == q * y + (n + 1) % y;
    assert n - (n + 1) % y == (q - 1) * y + (y - 1);
    Unique(n - (n + 1) % y, y, q - 1, y - 1);
  }

  lemma NoZero(a: Interval, d: Interval, m: nat, top: nat)
    requires a.Wf(m) && d.Wf(m) && d.hi > 0 && !ZeroReached(a, d)
    requires top == if a.hi <= d.hi - 1 then a.hi else d.hi - 1
    ensures HoldsRemainders(Interval(1, top), a, d)
  {
    forall x: nat, y: nat | a.Has(x) && d.Has(y) && y > 0 ensures Interval(1, top).Has(x % y) {
      RemainderBounds(x, y);
      if x % y == 0 {
        GreatestMultiple(a.hi, y, x);
      }
    }
  }

  lemma NoTop(a: Interval, d: Interval, m: nat, top: nat)
    requires a.Wf(m) && d.Wf(m) && d.hi > 0 && !TopReached(a, d)
    requires top == if a.hi <= d.hi - 1 then a.hi else d.hi - 1
    ensures top > 0 && HoldsRemainders(Interval(0, top - 1), a, d)
  {
    assert top > 0 by {
      if d.hi == 1 { Unique(a.hi + 1, 1, a.hi + 1, 0); }
    }
    forall x: nat, y: nat | a.Has(x) && d.Has(y) && y > 0 ensures Interval(0, top - 1).Has(x % y) {
      RemainderBounds(x, y);
      if x % y == d.hi - 1 {
        OneShort(x, y);
        GreatestMultiple(a.hi + 1, y, x + 1);
      }
    }
  }

  lemma OneShort(x: nat, y: nat)
    requires y > 0 && x % y == y - 1
    ensures (x + 1) % y == 0
  {
    var q := x / y;
    assert x + 1 == (q + 1) * y + 0 by {
      assert x == q * y + (y - 1);
    }
    Unique(x + 1, y, q + 1, 0);
  }

  /** Bottom exactly when every divisor is zero, and the flag reports the zero divisors exactly. */
  lemma DivFlags(a: Interval, d: Interval)
    requires a.lo <= a.hi && d.lo <= d.hi
    ensures Div(a, d).Bot? <==> ZeroFlag(d).Always?
    ensures Rem(a, d).Bot? <==> ZeroFlag(d).Always?
    ensures ZeroFlag(d).Never? <==> !d.Has(0)
    ensures ZeroFlag(d).Always? <==> forall y: nat | d.Has(y) :: y == 0
  {
    assert d.Has(d.hi);
  }
}
