/** Widening of arcs, and the runs it drives. */
module WrappedWidening {
  import opened Bitstrings
  import opened WrappedIntervals

  /** Keeps the stable end and pushes the other one out by the length of the previous arc. */
  function Widen(a: Wrapped, o: Wrapped, m: nat): (r: Wrapped)
    requires a.Wf(m) && o.Wf(m)
    ensures r.Wf(m)
  {
    if Leq(o, a, m) then a
    else
      var joined := Join(a, o, m);
      if joined.Top? || a.Top? then Top
      else
        var span := Distance(a.lo, a.hi, m) + 1;
        if Distance(joined.lo, joined.hi, m) + span >= m then Top
        else if joined.lo == a.lo then New(joined.lo, Wrap(joined.hi + span, m), m)
        else if joined.hi == a.hi then New(Wrap(joined.lo - span, m), joined.hi, m)
        else Top
  }

  lemma Advance(lo: nat, hi: nat, step: nat, m: nat)
    requires lo < m && hi < m && Distance(lo, hi, m) + step < m
    ensures Distance(lo, Wrap(hi + step, m), m) == Distance(lo, hi, m) + step
    ensures Distance(Wrap(lo - step, m), hi, m) == Distance(lo, hi, m) + step
    ensures Distance(Wrap(lo - step, m), lo, m) == step
  {
  }

  /** Growing either end of an arc keeps its members. */
  lemma GrownCovers(lo: nat, hi: nat, step: nat, m: nat, x: nat)
    requires lo < m && hi < m && x < m && Distance(lo, hi, m) + step < m
    requires Distance(lo, x, m) <= Distance(lo, hi, m)
    ensures New(lo, Wrap(hi + step, m), m).Has(x, m) && New(Wrap(lo - step, m), hi, m).Has(x, m)
  {
    hide New, Wrap;
    var start := Wrap(lo - step, m);
    Advance(lo, hi, step, m);
    NewHas(lo, Wrap(hi + step, m), m, x);
    NewHas(start, hi, m, x);
    Span(start, lo, x, m);
  }

  /** Widening contains both operands. */
  lemma WidenCovers(a: Wrapped, o: Wrapped, m: nat, x: nat)
    requires a.Wf(m) && o.Wf(m) && (a.Has(x, m) || o.Has(x, m))
    ensures Widen(a, o, m).Has(x, m)
  {
    hide Wrap, New, Join, Leq;
    LeqExact(o, a, m);
    JoinCovers(a, o, m, x);
    var joined := Join(a, o, m);
    if !Leq(o, a, m) && joined.Arc? && a.Arc? {
      var span := Distance(a.lo, a.hi, m) + 1;
      if Distance(joined.lo, joined.hi, m) + span < m {
        GrownCovers(joined.lo, joined.hi, span, m, x);
      }
    }
  }

  /** A changed arc that is not Top keeps an end and adds the previous length to the join. */
  lemma WidenShape(a: Wrapped, o: Wrapped, m: nat)
    requires a.Wf(m) && o.Wf(m)
    ensures var r := Widen(a, o, m);
            r == a || r.Top? || (a.Arc? && (r.lo == a.lo || r.hi == a.hi)
                                 && r.Size(m) == Join(a, o, m).Size(m) + a.Size(m))
  {
    hide Wrap, Join, Leq;
    var joined := Join(a, o, m);
    if !Leq(o, a, m) && joined.Arc? && a.Arc? {
      var span := Distance(a.lo, a.hi, m) + 1;
      if Distance(joined.lo, joined.hi, m) + span < m {
        Advance(joined.lo, joined.hi, span, m);
      }
    }
  }

  predicate NoRoom(a: Wrapped, j: Wrapped, m: nat)
    requires a.Wf(m) && j.Wf(m) && a.Arc?
  {
    j.Top? || j.Size(m) + a.Size(m) >= m || (j.lo != a.lo && j.hi != a.hi)
  }

  /** Widening gives up exactly when no end is stable or the grown arc would fill the circle. */
  lemma WidenTop(a: Wrapped, o: Wrapped, m: nat)
    requires a.Wf(m) && o.Wf(m) && a.Arc?
    ensures Widen(a, o, m).Top? <==> !Subset(o, a, m) && NoRoom(a, Join(a, o, m), m)
  {
    hide Wrap, Join, Leq;
    LeqExact(o, a, m);
    var joined := Join(a, o, m);
    if !Leq(o, a, m) && joined.Arc? {
      var span := Distance(a.lo, a.hi, m) + 1;
      if Distance(joined.lo, joined.hi, m) + span < m {
        Advance(joined.lo, joined.hi, span, m);
      }
    }
  }

  /** Widening changes nothing exactly when the new value adds nothing. */
  lemma WidenStable(a: Wrapped, o: Wrapped, m: nat)
    requires a.Wf(m) && o.Wf(m)
    ensures Widen(a, o, m) == a <==> Subset(o, a, m)
  {
    LeqExact(o, a, m);
    if Widen(a, o, m) == a {
      forall x: nat | o.Has(x, m) ensures a.Has(x, m) { WidenCovers(a, o, m, x); }
    }
  }

  /** A change reaches the full circle or at least doubles the arc. */
  lemma WidenDoubles(a: Wrapped, o: Wrapped, m: nat)
    requires a.Wf(m) && o.Wf(m)
    ensures var r := Widen(a, o, m); r == a || r.Top? || r.Size(m) >= 2 * a.Size(m)
  {
    hide Widen, Join;
    WidenShape(a, o, m);
    forall x: nat | a.Has(x, m) ensures Join(a, o, m).Has(x, m) { JoinCovers(a, o, m, x); }
    SizeMonotone(a, Join(a, o, m), m);
  }

  // ----- runs

  ghost predicate AllWf(os: seq<Wrapped>, m: nat) { forall i :: 0 <= i < |os| ==> os[i].Wf(m) }

  /** The value after widening by each input in turn. */
  function Run(a: Wrapped, os: seq<Wrapped>, m: nat): (r: Wrapped)
    requires a.Wf(m) && forall i :: 0 <= i < |os| ==> os[i].Wf(m)
    ensures r.Wf(m)
    decreases |os|
  {
    if os == [] then a else Run(Widen(a, os[0], m), os[1..], m)
  }

  /** How many of those steps changed the value. */
  function Changes(a: Wrapped, os: seq<Wrapped>, m: nat): nat
    requires a.Wf(m) && forall i :: 0 <= i < |os| ==> os[i].Wf(m)
    decreases |os|
  {
    if os == [] then 0
    else
      var next := Widen(a, os[0], m);
      (if next == a then 0 else 1) + Changes(next, os[1..], m)
  }

  lemma SizeBounds(a: Wrapped, m: nat)
    requires a.Wf(m) && m > 0
    ensures 1 <= a.Size(m) <= m
    ensures a.Size(m) == m <==> a.Top?
  {
  }

  /** From an arc of at least 2^k words only n - k changes remain. */
  lemma {:induction false} ChangesFrom(a: Wrapped, os: seq<Wrapped>, m: nat, n: nat, k: nat)
    requires AllWf(os, m) && a.Wf(m) && m == Exp(n) && k <= n && Exp(k) <= a.Size(m)
    ensures Changes(a, os, m) <= n - k
    decreases |os|
  {
    hide Widen, Exp;
    if os != [] {
      var next := Widen(a, os[0], m);
      ExpPos(n);
      if next == a {
        ChangesFrom(a, os[1..], m, n, k);
      } else {
        WidenDoubles(a, os[0], m);
        WidenStable(a, os[0], m);
        SizeBounds(a, m);
        assert a.Arc?;
        if k == n { assert false; }
        ExpStep(k);
        ExpMono(k + 1, n);
        ChangesFrom(next, os[1..], m, n, k + 1);
      }
    }
  }

  /** Every run on n-bit words changes value at most n times. */
  lemma {:induction false} RunChanges(a: Wrapped, os: seq<Wrapped>, m: nat, n: nat)
    requires AllWf(os, m) && a.Wf(m) && m == Exp(n)
    ensures Changes(a, os, m) <= n
  {
    hide Changes;
    ExpPos(n);
    SizeBounds(a, m);
    ChangesFrom(a, os, m, n, 0);
  }

  /** A run ends above its start and above every input. */
  lemma {:induction false} RunCovers(a: Wrapped, os: seq<Wrapped>, m: nat, x: nat)
    requires AllWf(os, m) && a.Wf(m)
    requires a.Has(x, m) || exists i :: 0 <= i < |os| && os[i].Has(x, m)
    ensures Run(a, os, m).Has(x, m)
    decreases |os|
  {
    hide Widen;
    if os != [] {
      if a.Has(x, m) || os[0].Has(x, m) {
        WidenCovers(a, os[0], m, x);
      } else {
        var i :| 0 <= i < |os| && os[i].Has(x, m);
        assert os[1..][i - 1] == os[i];
      }
      RunCovers(Widen(a, os[0], m), os[1..], m, x);
    }
  }
}
