/** Widening of strided intervals, and a bound on the runs it drives. */
module StridedWidening {
  import opened DivModFacts
  import opened Bitstrings
  import opened Gcds
  import opened StridedIntervals

  /** An unstable bound jumps to the last grid point before the end of the range. */
  function Widen(a: Strided, o: Strided, m: nat): Strided
    requires a.Wf(m) && o.Wf(m)
  {
    if Leq(o, a, m) then a
    else
      var j := Join(a, o);
      if j.stride == 0 then j
      else
        var lo := if j.lo < a.lo then Floor(j.lo, j.stride) else j.lo;
        if a.hi < j.hi then Mk(j.stride, lo, m - 1) else Strided(j.stride, lo, j.hi)
  }

  function Floor(x: nat, s: nat): (lo: nat)
    requires s > 0
    ensures lo <= x && lo < s && Divides(s, x - lo) && lo == x % s
  {
    DivAnti(x, 1, s);
    MulMono(0, x / s, s);
    MultipleMod(s, x / s);
    assert x - x % s == s * (x / s);
    x % s
  }

  /** What a step that is not stable produces. */
  lemma WidenShape(a: Strided, o: Strided, m: nat)
    requires a.Wf(m) && o.Wf(m) && !Leq(o, a, m)
    ensures var j, r := Join(a, o), Widen(a, o, m);
            && j.Wf(m) && j.stride > 0 && r.Wf(m) && r.stride == j.stride
            && r.lo <= j.lo && j.hi <= r.hi && Divides(j.stride, j.lo - r.lo)
            && (j.lo == a.lo ==> r.lo == a.lo) && (j.lo < a.lo ==> r.lo < j.stride)
            && (j.hi == a.hi ==> r.hi == a.hi) && (a.hi < j.hi ==> r.hi + j.stride >= m)
  {
    hide Join, Divides, Mk, Leq;
    var j := Join(a, o);
    JoinFacts(a, o, m);
    JoinWf(a, o, m);
    if j.stride == 0 {
      LeqExact(o, a, m);
      assert false;
    }
    var s := j.stride;
    var lo := if j.lo < a.lo then Floor(j.lo, s) else j.lo;
    assert Divides(s, j.lo - j.lo) by { MultipleMod(s, 0); MakeDivides(s, 0); }
    SameGrid(s, j.hi, j.lo, lo);
    if a.hi < j.hi {
      WidenedTop(s, lo, j.hi, m);
    }
  }

  /** Snapping the end of the range to the grid keeps at least the point hi. */
  lemma WidenedTop(s: nat, lo: nat, hi: nat, m: nat)
    requires s > 0 && lo < hi < m && Divides(s, hi - lo)
    ensures var r := Mk(s, lo, m - 1);
            r.Wf(m) && r.stride == s && r.lo == lo && hi <= r.hi && r.hi + s >= m
  {
    hide Divides;
    MkExact(s, lo, m - 1, m, hi);
    assert Mk(s, lo, m - 1).Has(hi);
  }

  lemma WidenWf(a: Strided, o: Strided, m: nat)
    requires a.Wf(m) && o.Wf(m)
    ensures Widen(a, o, m).Wf(m)
  {
    if !Leq(o, a, m) {
      WidenShape(a, o, m);
    }
  }

  /** Widening contains both operands. */
  lemma WidenCovers(a: Strided, o: Strided, m: nat, x: nat)
    requires a.Wf(m) && o.Wf(m) && (a.Has(x) || o.Has(x))
    ensures Widen(a, o, m).Has(x)
  {
    hide Join, Divides, Leq;
    LeqExact(o, a, m);
    if !Leq(o, a, m) {
      WidenShape(a, o, m);
      JoinCovers(a, o, m, x);
      SameGrid(Join(a, o).stride, x, Join(a, o).lo, Widen(a, o, m).lo);
    }
  }

  // ----- progress

  predicate LowFree(v: Strided) { v.lo >= v.stride }

  predicate HighFree(v: Strided, m: nat) { v.hi + v.stride < m }

  /** How many bounds are not yet at the end of their grid. */
  function FreeEnds(v: Strided, m: nat): nat { (if LowFree(v) then 1 else 0) + (if HighFree(v, m) then 1 else 0) }

  predicate FinerGrid(a: Strided, r: Strided) { Divides(r.stride, a.stride) && 2 * r.stride <= a.stride }

  /** Same stride, fewer free ends, and a bound at the end of its grid stays there. */
  predicate EndReached(a: Strided, r: Strided, m: nat) {
    && r.stride == a.stride && FreeEnds(r, m) < FreeEnds(a, m)
    && (!LowFree(a) ==> r.lo == a.lo) && (!HighFree(a, m) ==> r.hi == a.hi)
  }

  /** A change leaves the singleton form, takes a proper divisor as stride, or moves a bound to the end of its grid. */
  lemma WidenProgress(a: Strided, o: Strided, m: nat)
    requires a.Wf(m) && o.Wf(m) && Widen(a, o, m) != a
    ensures var r := Widen(a, o, m);
            r.Wf(m) && r.stride > 0 && (a.stride > 0 ==> FinerGrid(a, r) || EndReached(a, r, m))
  {
    hide Join, Divides, Widen;
    assert !Leq(o, a, m) by { StableWiden(a, o, m); }
    WidenShape(a, o, m);
    JoinFacts(a, o, m);
    var j := Join(a, o);
    if a.stride > 0 {
      MakeDivides(j.stride, a.stride);
      if j.stride == a.stride {
        SameStrideProgress(a, o, m);
      } else {
        DividesBound(j.stride, a.stride);
      }
    }
  }

  /** Widening changes nothing exactly when the new value adds nothing. */
  lemma WidenStable(a: Strided, o: Strided, m: nat)
    requires a.Wf(m) && o.Wf(m)
    ensures Widen(a, o, m) == a <==> Subset(o, a)
  {
    hide Widen, Leq, Divides;
    LeqExact(o, a, m);
    StableWiden(a, o, m);
    if Widen(a, o, m) == a {
      forall x: nat | o.Has(x) ensures a.Has(x) { WidenCovers(a, o, m, x); }
    }
  }

  lemma StableWiden(a: Strided, o: Strided, m: nat)
    requires a.Wf(m) && o.Wf(m)
    ensures Leq(o, a, m) ==> Widen(a, o, m) == a
  {
  }

  lemma SameStrideProgress(a: Strided, o: Strided, m: nat)
    requires a.Wf(m) && o.Wf(m) && !Leq(o, a, m) && a.stride > 0 && Join(a, o).stride == a.stride
    ensures EndReached(a, Widen(a, o, m), m)
  {
    hide Join, Divides, Widen, Leq;
    WidenShape(a, o, m);
    JoinFacts(a, o, m);
    var j, s := Join(a, o), a.stride;
    if j.lo == a.lo && j.hi == a.hi {
      forall x: nat | o.Has(x) ensures a.Has(x) { JoinCovers(a, o, m, x); }
      LeqExact(o, a, m);
      assert false;
    }
    if j.lo < a.lo {
      DividesBound(s, a.lo - o.lo);
    }
    if a.hi < j.hi {
      Ends(a, m);
      Ends(o, m);
      JoinCovers(a, o, m, a.hi);
      JoinCovers(a, o, m, o.hi);
      DividesSum(s, o.hi - j.lo, a.hi - j.lo);
      assert o.hi - j.lo - (a.hi - j.lo) == o.hi - a.hi;
      DividesBound(s, o.hi - a.hi);
    }
  }

  // ----- runs

  ghost predicate AllWf(os: seq<Strided>, m: nat) { forall i :: 0 <= i < |os| ==> os[i].Wf(m) }

  /** The value after widening by each input in turn. */
  function Run(a: Strided, os: seq<Strided>, m: nat): (r: Strided)
    requires a.Wf(m) && forall i :: 0 <= i < |os| ==> os[i].Wf(m)
    ensures r.Wf(m)
    decreases |os|
  {
    if os == [] then a
    else
      WidenWf(a, os[0], m);
      Run(Widen(a, os[0], m), os[1..], m)
  }

  /** How many of those steps changed the value. */
  function Changes(a: Strided, os: seq<Strided>, m: nat): nat
    requires a.Wf(m) && forall i :: 0 <= i < |os| ==> os[i].Wf(m)
    decreases |os|
  {
    if os == [] then 0
    else
      WidenWf(a, os[0], m);
      var next := Widen(a, os[0], m);
      (if next == a then 0 else 1) + Changes(next, os[1..], m)
  }

  /** With a stride below 2^k, three changes for each halving and one for each free end remain. */
  lemma {:induction false} ChangesFrom(a: Strided, os: seq<Strided>, m: nat, k: nat)
    requires AllWf(os, m) && a.Wf(m) && 0 < a.stride < Exp(k) && k > 0
    ensures Changes(a, os, m) <= 3 * (k - 1) + FreeEnds(a, m)
    decreases |os|
  {
    hide Widen, Exp, Divides;
    if os != [] {
      var next := Widen(a, os[0], m);
      WidenWf(a, os[0], m);
      if next == a {
        ChangesFrom(a, os[1..], m, k);
      } else {
        WidenProgress(a, os[0], m);
        if next.stride == a.stride {
          ChangesFrom(next, os[1..], m, k);
        } else {
          ExpHalf(k, next.stride);
          ChangesFrom(next, os[1..], m, k - 1);
        }
      }
    }
  }

  lemma ExpHalf(k: nat, s: nat)
    requires k > 0 && 0 < s && 2 * s < Exp(k)
    ensures k - 1 > 0 && s < Exp(k - 1)
  {
  }

  /** A free end leaves room for two strides. */
  lemma FreeEndsRoom(a: Strided, m: nat)
    requires a.Wf(m) && a.stride > 0 && FreeEnds(a, m) > 0
    ensures 2 * a.stride < m
  {
    Ends(a, m);
  }

  lemma {:induction false} ChangesFromStride(a: Strided, os: seq<Strided>, m: nat, n: nat)
    requires AllWf(os, m) && a.Wf(m) && m == Exp(n) && a.stride > 0
    ensures n > 0 && Changes(a, os, m) <= 3 * n - 3
  {
    hide Changes;
    Ends(a, m);
    if FreeEnds(a, m) > 0 {
      FreeEndsRoom(a, m);
      ExpHalf(n, a.stride);
      ChangesFrom(a, os, m, n - 1);
    } else {
      ChangesFrom(a, os, m, n);
    }
  }

  /** Every run on n-bit words changes value at most 3n - 2 times. */
  lemma {:induction false} RunChanges(a: Strided, os: seq<Strided>, m: nat, n: nat)
    requires AllWf(os, m) && a.Wf(m) && m == Exp(n)
    ensures Changes(a, os, m) <= if n == 0 then 0 else 3 * n - 2
    decreases |os|
  {
    hide Widen, Exp;
    if a.stride > 0 {
      ChangesFromStride(a, os, m, n);
    } else if os != [] {
      var next := Widen(a, os[0], m);
      WidenWf(a, os[0], m);
      if next == a {
        RunChanges(a, os[1..], m, n);
      } else {
        WidenProgress(a, os[0], m);
        ChangesFromStride(next, os[1..], m, n);
      }
    }
  }

  // ----- a long run

  lemma {:induction false} OneChange(a: Strided, os: seq<Strided>, m: nat, next: Strided)
    requires AllWf(os, m) && a.Wf(m) && os != [] && next != a && Widen(a, os[0], m) == next
    ensures next.Wf(m) && Changes(a, os, m) == 1 + Changes(next, os[1..], m)
  {
    hide Widen;
    WidenWf(a, os[0], m);
  }

  /** The values of a run on 6-bit words that starts at 16, and the inputs that drive it. */
  const LONG_RUN: seq<Strided> := [
    Strided(0, 16, 16), Strided(24, 16, 40), Strided(12, 16, 40), Strided(12, 4, 40), Strided(12, 4, 52),
    Strided(6, 4, 52), Strided(6, 4, 58), Strided(3, 4, 58), Strided(3, 1, 58), Strided(3, 1, 61),
    Strided(1, 1, 61), Strided(1, 0, 61), Strided(1, 0, 63)]

  const LONG_RUN_INPUTS: seq<Strided> := [
    Strided(0, 40, 40), Strided(12, 16, 28), Strided(0, 4, 4), Strided(0, 52, 52),
    Strided(6, 4, 10), Strided(0, 58, 58), Strided(3, 4, 7), Strided(0, 1, 1), Strided(0, 61, 61),
    Strided(1, 1, 2), Strided(0, 0, 0), Strided(0, 63, 63)]

  lemma LongRunWf(i: nat, m: nat)
    requires i < 12 && m == 64
    ensures LONG_RUN[i].Wf(m) && LONG_RUN_INPUTS[i].Wf(m) && LONG_RUN[i + 1] != LONG_RUN[i]
  {
  }

  lemma LongRunStart(i: nat, m: nat)
    requires 0 <= i < 3 && m == 64 && LONG_RUN[i].Wf(m) && LONG_RUN_INPUTS[i].Wf(m)
    ensures Widen(LONG_RUN[i], LONG_RUN_INPUTS[i], m) == LONG_RUN[i + 1]
  {
  }

  lemma LongRunTwelve(i: nat, m: nat)
    requires 3 <= i < 6 && m == 64 && LONG_RUN[i].Wf(m) && LONG_RUN_INPUTS[i].Wf(m)
    ensures Widen(LONG_RUN[i], LONG_RUN_INPUTS[i], m) == LONG_RUN[i + 1]
  {
  }

  lemma LongRunThree(i: nat, m: nat)
    requires 6 <= i < 9 && m == 64 && LONG_RUN[i].Wf(m) && LONG_RUN_INPUTS[i].Wf(m)
    ensures Widen(LONG_RUN[i], LONG_RUN_INPUTS[i], m) == LONG_RUN[i + 1]
  {
  }

  lemma LongRunEnd(i: nat, m: nat)
    requires 9 <= i < 12 && m == 64 && LONG_RUN[i].Wf(m) && LONG_RUN_INPUTS[i].Wf(m)
    ensures Widen(LONG_RUN[i], LONG_RUN_INPUTS[i], m) == LONG_RUN[i + 1]
  {
  }

  lemma LongRunStep(i: nat, m: nat)
    requires i < 12 && m == 64 && LONG_RUN[i].Wf(m) && LONG_RUN_INPUTS[i].Wf(m)
    ensures Widen(LONG_RUN[i], LONG_RUN_INPUTS[i], m) == LONG_RUN[i + 1]
  {
    hide Widen;
    if i < 3 {
      LongRunStart(i, m);
    } else if i < 6 {
      LongRunTwelve(i, m);
    } else if i < 9 {
      LongRunThree(i, m);
    } else {
      LongRunEnd(i, m);
    }
  }

  lemma {:induction false} LongRunFrom(i: nat, m: nat)
    requires i <= 12 && m == 64 && LONG_RUN[i].Wf(m) && AllWf(LONG_RUN_INPUTS, m)
    ensures Changes(LONG_RUN[i], LONG_RUN_INPUTS[i..], m) == 12 - i
    decreases 12 - i
  {
    hide Widen;
    if i < 12 {
      var os := LONG_RUN_INPUTS[i..];
      LongRunWf(i, m);
      LongRunStep(i, m);
      OneChange(LONG_RUN[i], os, m, LONG_RUN[i + 1]);
      assert os[1..] == LONG_RUN_INPUTS[i + 1..];
      LongRunFrom(i + 1, m);
    }
  }

  /** On 6-bit words a run of 12 changes exists, so that 2n - 1 is no bound. */
  lemma LongRun(a: Strided, os: seq<Strided>, m: nat)
    requires m == 64 && a == LONG_RUN[0] && os == LONG_RUN_INPUTS
    ensures a.Wf(m) && AllWf(os, m) && Changes(a, os, m) == 12
  {
    forall i | 0 <= i < 12 ensures LONG_RUN_INPUTS[i].Wf(m) && LONG_RUN[i].Wf(m) { LongRunWf(i, m); }
    LongRunFrom(0, m);
    assert LONG_RUN_INPUTS[0..] == LONG_RUN_INPUTS;
  }

  /** A run ends above its start and above every input. */
  lemma {:induction false} RunCovers(a: Strided, os: seq<Strided>, m: nat, x: nat)
    requires AllWf(os, m) && a.Wf(m)
    requires a.Has(x) || exists i :: 0 <= i < |os| && os[i].Has(x)
    ensures Run(a, os, m).Has(x)
    decreases |os|
  {
    hide Widen;
    if os != [] {
      WidenWf(a, os[0], m);
      if a.Has(x) || os[0].Has(x) {
        WidenCovers(a, os[0], m, x);
      } else {
        var i :| 0 <= i < |os| && os[i].Has(x);
        assert os[1..][i - 1] == os[i];
      }
      RunCovers(Widen(a, os[0], m), os[1..], m, x);
    }
  }
}
