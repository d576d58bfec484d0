/** Anums and unums on machine words: guarded sums and differences, and division by a constant. */
module WordAnums {
  import opened DivModFacts
  import opened Bitstrings
  import opened Tnums
  import opened Anums
  import opened Unums
  import opened WordTnums

  predicate FitsWord(a: Anum, w: nat) { a.base < Exp(w) && a.span < Exp(w) }

  function TopWord(w: nat): Anum {
    ExpPos(w);
    Anum(0, Exp(w) - 1)
  }

  /** Wrapping addition and subtraction of words. */
  function WrapAdd(x: nat, y: nat, w: nat): nat
    requires x < Exp(w) && y < Exp(w)
  {
    if x + y >= Exp(w) then x + y - Exp(w) else x + y
  }

  function WrapSub(x: nat, y: nat, w: nat): nat
    requires x < Exp(w) && y < Exp(w)
  {
    if x >= y then x - y else x + Exp(w) - y
  }

  /** The free bits of a sum of free bits, on words. */
  function SpanSum(s: nat, t: nat, w: nat): nat
    requires s < Exp(w) && t < Exp(w)
  {
    BwOr(BwOr(WrapAdd(s, t, w), s), t)
  }

  function AddAnumWord(a: Anum, b: Anum, w: nat): Anum
    requires FitsWord(a, w) && FitsWord(b, w)
  {
    var v, span := WrapAdd(a.base, b.base, w), SpanSum(a.span, b.span, w);
    var max1, max2 := WrapAdd(a.base, a.span, w), WrapAdd(b.base, b.span, w);
    var maxSum := WrapAdd(max1, max2, w);
    if max1 < a.base || max2 < b.base || maxSum < max1 || maxSum < max2 || v < a.base || span < a.span then TopWord(w)
    else Anum(v, span)
  }

  function SubAnumWord(a: Anum, b: Anum, w: nat): Anum
    requires FitsWord(a, w) && FitsWord(b, w)
  {
    var max2 := WrapAdd(b.base, b.span, w);
    var v, span := WrapSub(a.base, max2, w), SpanSum(a.span, b.span, w);
    if max2 < b.base || v > a.base || span < a.span then TopWord(w) else Anum(v, span)
  }

  lemma {:induction false} TopHas(w: nat, x: nat)
    requires x < Exp(w)
    ensures TopWord(w).Has(x)
  {
    BelowOnes(x, w);
  }

  lemma {:induction false} WrapAddIsChop(x: nat, y: nat, w: nat)
    requires x < Exp(w) && y < Exp(w)
    ensures WrapAdd(x, y, w) == Chop(x + y, w)
  {
    hide Exp, Chop;
    ChopIsMod(x + y, w);
    if x + y >= Exp(w) {
      Unique(x + y, Exp(w), 1, x + y - Exp(w));
    } else {
      SmallMod(x + y, Exp(w));
    }
  }

  /** The span sum is the tnum sum of the free parts, on words. */
  lemma {:induction false} SpanSumIsAdd(s: nat, t: nat, w: nat)
    requires s < Exp(w) && t < Exp(w)
    ensures AddWord(Tnum(0, s), Tnum(0, t), w) == Tnum(0, SpanSum(s, t, w))
  {
    hide Exp, Chop, Map;
    ExpPos(w);
    ChopSmall(0, w);
    WrapAddIsChop(s, t, w);
    var sum := Chop(s + t, w);
    ChopBound(s + t, w);
    ChopSmall(sum, w);
    MapNeutral(sum);
    MapNeutral(SpanSum(s, t, w));
  }

  /** Offsets made of free bits sum to an offset made of free bits, as long as the sum is a word. */
  lemma {:induction false} SpanSumHas(s: nat, t: nat, w: nat, d: nat, e: nat)
    requires s < Exp(w) && t < Exp(w) && Tnum(0, s).Has(d) && Tnum(0, t).Has(e) && d + e < Exp(w)
    ensures Tnum(0, SpanSum(s, t, w)).Has(d + e)
  {
    hide Exp, Chop, Map, Tnum.Has, AddWord;
    ExpPos(w);
    FreeInv(s);
    FreeInv(t);
    AddWordSound(Tnum(0, s), Tnum(0, t), w, d, e);
    SpanSumIsAdd(s, t, w);
    ChopSmall(d + e, w);
  }

  lemma {:induction false} OffsetBound(s: nat, d: nat)
    requires Tnum(0, s).Has(d)
    ensures d <= s
  {
    hide Map, Tnum.Has;
    FreeInv(s);
    Bounds(Tnum(0, s), d);
    MapNeutral(s);
  }

  /** Complementing an offset within its free bits. */
  lemma {:induction false} ComplementHas(s: nat, d: nat)
    requires Tnum(0, s).Has(d)
    ensures d <= s && Tnum(0, s).Has(s - d)
    decreases s + d
  {
    OffsetBound(s, d);
    HasStep(Tnum(0, s), d);
    HasStep(Tnum(0, s), s - d);
    ZeroTail(s);
    if s > 0 {
      ComplementHas(Tl(s), Tl(d));
      assert Tl(s - d) == Tl(s) - Tl(d);
    }
  }

  lemma ZeroTail(s: nat)
    ensures Tnum(0, s).Tail() == Tnum(0, Tl(s)) && Tnum(0, s).Head() == TBit(false, Hd(s))
  {
  }

  /** The word sum of anums holds every wrapped sum of members. */
  lemma {:induction false} AddAnumWordSound(a: Anum, b: Anum, w: nat, x: nat, y: nat)
    requires FitsWord(a, w) && FitsWord(b, w) && x < Exp(w) && y < Exp(w) && a.Has(x) && b.Has(y)
    ensures AddAnumWord(a, b, w).Has(WrapAdd(x, y, w))
  {
    hide Exp, Map, Tnum.Has, SpanSum, TopWord;
    TopHas(w, WrapAdd(x, y, w));
    OffsetBound(a.span, x - a.base);
    OffsetBound(b.span, y - b.base);
    var r := AddAnumWord(a, b, w);
    if r != TopWord(w) {
      SpanSumHas(a.span, b.span, w, x - a.base, y - b.base);
      assert (x - a.base) + (y - b.base) == (x + y) - (a.base + b.base);
    }
  }

  /** When no bound wraps, the word sum is the unbounded sum. */
  lemma {:induction false} AddAnumWordIsAdd(a: Anum, b: Anum, w: nat)
    requires FitsWord(a, w) && FitsWord(b, w) && a.base + a.span + b.base + b.span < Exp(w)
    ensures AddAnumWord(a, b, w) == a.Add(b)
  {
    hide Exp, Map, Tnum.Has;
    var sum := a.span + b.span;
    MapNeutral(sum);
    MapNeutral(SpanSum(a.span, b.span, w));
    OrAbove(WrapAdd(a.span, b.span, w), a.span, b.span);
  }

  /** And when some bound wraps, it is everything. */
  lemma {:induction false} AddAnumWordWraps(a: Anum, b: Anum, w: nat)
    requires FitsWord(a, w) && FitsWord(b, w) && a.base + a.span + b.base + b.span >= Exp(w)
    ensures AddAnumWord(a, b, w) == TopWord(w)
  {
    hide Exp, SpanSum;
  }

  lemma {:induction false} OrAbove(x: nat, s: nat, t: nat)
    ensures BwOr(BwOr(x, s), t) >= s
  {
    hide Map, Tnum.Has;
    var m := BwOr(BwOr(x, s), t);
    FreeInv(m);
    forall i: nat
      ensures Tnum(0, m).At(i).Has(Bit(s, i))
    {
      MapBit(Or, BwOr(x, s), t, i);
      MapBit(Or, x, s, i);
      BitZero(i);
    }
    HasFromBits(Tnum(0, m), s);
    OffsetBound(m, s);
  }

  /** The difference starts at the least difference of members, or is everything when that one wraps. */
  lemma {:induction false} SubAnumWordBase(a: Anum, b: Anum, w: nat)
    requires FitsWord(a, w) && FitsWord(b, w)
    ensures a.Has(a.base) && b.Has(b.base + b.span)
    ensures SubAnumWord(a, b, w)
         == if b.base + b.span <= a.base then Anum(a.base - (b.base + b.span), SpanSum(a.span, b.span, w))
            else TopWord(w)
  {
    hide Exp, Map, Tnum.Has;
    OrAbove(WrapAdd(a.span, b.span, w), a.span, b.span);
    FreeInv(a.span);
    FreeInv(b.span);
    Bounds(Tnum(0, b.span), 0);
    MapNeutral(b.span);
  }

  /** When nothing wraps, no anum from there that holds every difference leaves out a member of the result. */
  lemma {:induction false} SubAnumWordLeast(a: Anum, b: Anum, w: nat, c: Anum, n: nat)
    requires FitsWord(a, w) && FitsWord(b, w) && b.base + b.span <= a.base && a.base + a.span < Exp(w)
    requires c.base == a.base - (b.base + b.span) && SubAnumWord(a, b, w).Has(n)
    requires forall x: nat, y: nat | a.Has(x) && b.Has(y) :: x >= y && c.Has(x - y)
    ensures c.Has(n)
  {
    hide Exp, Map, Tnum.Has, Tnum.Add, SubAnumWord;
    SubAnumWordBase(a, b, w);
    var p, q := Anum(0, a.span), Anum(0, b.span);
    assert p.Add(q).span == SpanSum(a.span, b.span, w) by { SpanSumIsMask(a.span, b.span, w); }
    var free := Anum(0, c.span);
    forall d: nat, e: nat | p.Has(d) && q.Has(e) ensures free.Has(d + e) {
      ComplementHas(b.span, e);
      assert a.Has(a.base + d) && b.Has(b.base + (b.span - e));
      assert c.Has((a.base + d) - (b.base + (b.span - e)));
    }
    AnumAddLeast(p, q, free, n - c.base);
  }

  lemma {:induction false} SpanSumIsMask(s: nat, t: nat, w: nat)
    requires s + t < Exp(w)
    ensures Tnum(0, s).Add(Tnum(0, t)).mask == SpanSum(s, t, w)
  {
    hide Exp, Map, Tnum.Has;
    MapNeutral(s + t);
    MapNeutral(SpanSum(s, t, w));
  }

  /** So does the word difference, which the program leaves without a contract. */
  lemma {:induction false} SubAnumWordSound(a: Anum, b: Anum, w: nat, x: nat, y: nat)
    requires FitsWord(a, w) && FitsWord(b, w) && x < Exp(w) && y < Exp(w) && a.Has(x) && b.Has(y)
    ensures SubAnumWord(a, b, w).Has(WrapSub(x, y, w))
  {
    hide Exp, Map, Tnum.Has, SpanSum, TopWord;
    TopHas(w, WrapSub(x, y, w));
    var d, e := x - a.base, y - b.base;
    OffsetBound(a.span, d);
    ComplementHas(b.span, e);
    var r := SubAnumWord(a, b, w);
    if r != TopWord(w) {
      var max2 := b.base + b.span;
      assert x - y == (a.base - max2) + (d + (b.span - e));
      SpanSumHas(a.span, b.span, w, d, b.span - e);
    }
  }

  // ----- unums on words

  predicate FitsUnum(u: Unum, w: nat) { u.base < Exp(w) && u.walls < Exp(w) && u.extent < Exp(w) }

  function TopUnum(w: nat): Unum {
    ExpPos(w);
    Unum(0, 0, Exp(w) - 1)
  }

  /** The field-wise sum when no bound wraps, and everything otherwise. */
  function AddUnumWord(a: Unum, b: Unum, w: nat): Unum
    requires FitsUnum(a, w) && FitsUnum(b, w)
  {
    var v, extent := WrapAdd(a.base, b.base, w), WrapAdd(a.extent, b.extent, w);
    var max1, max2 := WrapAdd(a.base, a.extent, w), WrapAdd(b.base, b.extent, w);
    var maxSum := WrapAdd(max1, max2, w);
    if v < a.base || v < b.base || extent < a.extent || extent < b.extent
       || max1 < a.base || max2 < b.base || maxSum < max1 || maxSum < max2
    then TopUnum(w)
    else
      var carries := BwOr(BwAnd(a.extent, b.extent), BwAndNot(BwOr(a.extent, b.extent), extent));
      Unum(v, BwAndNot(BwAnd(a.walls, b.walls), Chop(2 * carries, w)), extent)
  }

  /** Cutting off the carry register above the word cannot restore a wall. */
  lemma {:induction false} WallsBelowWord(x: nat, y: nat, w: nat)
    requires x < Exp(w)
    ensures BwAndNot(x, Chop(y, w)) == BwAndNot(x, y)
  {
    hide Map, Bit, Exp, Chop;
    ChopSmall(x, w);
    forall i: nat
      ensures Bit(BwAndNot(x, Chop(y, w)), i) == Bit(BwAndNot(x, y), i)
    {
      MapBit(AndNot, x, Chop(y, w), i);
      MapBit(AndNot, x, y, i);
      ChopBit(x, w, i);
      ChopBit(y, w, i);
    }
    EqFromBits(BwAndNot(x, Chop(y, w)), BwAndNot(x, y));
  }

  lemma {:induction false} AndFits(x: nat, y: nat, w: nat)
    requires x < Exp(w) && y < Exp(w)
    ensures BwAnd(x, y) < Exp(w)
  {
    hide Map, Exp, Chop;
    ChopMap(And, x, y, w);
    ChopSmall(x, w);
    ChopSmall(y, w);
    ChopBound(BwAnd(x, y), w);
  }

  /** Without wrapping the word sum is the sum of unums. */
  lemma {:induction false} AddUnumWordIsAdd(a: Unum, b: Unum, w: nat)
    requires FitsUnum(a, w) && FitsUnum(b, w) && a.base + a.extent + b.base + b.extent < Exp(w)
    ensures AddUnumWord(a, b, w) == a.Add(b)
  {
    hide Map, Exp, Chop, CarryOut;
    CarryOutFormula(a.extent, b.extent, false);
    AndFits(a.walls, b.walls, w);
    WallsBelowWord(BwAnd(a.walls, b.walls), 2 * CarryOut(a.extent, b.extent, false), w);
  }

  /** And when some bound wraps, it is everything. */
  lemma {:induction false} AddUnumWordWraps(a: Unum, b: Unum, w: nat)
    requires FitsUnum(a, w) && FitsUnum(b, w) && a.base + a.extent + b.base + b.extent >= Exp(w)
    ensures AddUnumWord(a, b, w) == TopUnum(w)
  {
    hide Exp, Map;
  }

  lemma {:induction false} TopUnumHas(w: nat, x: nat)
    requires x < Exp(w)
    ensures TopUnum(w).Has(x)
  {
    hide Admits, Exp;
    NoWalls(TopUnum(w).extent, x, false, true);
  }

  /** The word sum of unums holds every wrapped sum of members. */
  lemma {:induction false} AddUnumWordSound(a: Unum, b: Unum, w: nat, x: nat, y: nat)
    requires FitsUnum(a, w) && FitsUnum(b, w) && x < Exp(w) && y < Exp(w) && a.Has(x) && b.Has(y)
    ensures AddUnumWord(a, b, w).Has(WrapAdd(x, y, w))
  {
    hide Admits, Exp, Map, Chop, TopUnum, SharedWalls;
    TopUnumHas(w, WrapAdd(x, y, w));
    if a.base + a.extent + b.base + b.extent < Exp(w) {
      AddUnumWordIsAdd(a, b, w);
      UnumAddSound(a, b, x, y);
      UnumBounds(a, x);
      UnumBounds(b, y);
    }
  }

  // ----- division by a constant

  /**
    The least mask of ones that reaches n, by repeated doubling. The loop always
    reaches n, so that no fallback to a full mask follows it.
   */
  method OnesMask(n: nat, w: nat) returns (mask: nat)
    requires n < Exp(w)
    ensures mask == Ones(Len(n)) && n <= mask < Exp(w)
  {
    hide Exp, Len;
    OnesFits(n, w);
    if n == 0 {
      OnesOfZero(n);
      return 0;
    }
    OnesOne(n);
    mask := 1;
    ghost var k := 1;
    var i := 0;
    while mask < n && i < w
      invariant i + 1 == k && mask == Ones(k) && 1 <= k <= Len(n)
      decreases w - i
    {
      OnesDouble(k, n);
      mask := mask + mask + 1;
      k := k + 1;
      i := i + 1;
    }
    OnesReached(k, n, w);
  }

  lemma {:induction false} OnesOfZero(n: nat)
    requires n == 0
    ensures Ones(Len(n)) == 0
  {
  }

  lemma {:induction false} OnesOne(n: nat)
    requires n > 0
    ensures Ones(1) == 1 && 1 <= Len(n)
  {
  }

  lemma {:induction false} LenLeast(n: nat, k: nat)
    ensures Len(n) <= k <==> n < Exp(k)
    decreases k
  {
    ExpPos(k);
    if n > 0 && k > 0 {
      LenLeast(Tl(n), k - 1);
    }
  }

  lemma {:induction false} OnesFits(n: nat, w: nat)
    requires n < Exp(w)
    ensures n <= Ones(Len(n)) < Exp(w) && Len(n) <= w
  {
    hide Exp, Len;
    LenLeast(n, w);
    LenBound(n);
    ExpMono(Len(n), w);
  }

  lemma {:induction false} OnesDouble(k: nat, n: nat)
    requires Ones(k) < n && 1 <= k
    ensures Ones(k + 1) == 2 * Ones(k) + 1 && k + 1 <= Len(n)
  {
    hide Len;
    LenLeast(n, k);
  }

  lemma {:induction false} OnesReached(k: nat, n: nat, w: nat)
    requires 1 <= k <= Len(n) <= w && (Ones(k) >= n || k - 1 >= w)
    ensures k == Len(n)
  {
    hide Len;
    LenLeast(n, k);
  }

  /** The anum from one number to another with the least mask of ones between them. */
  function FromTo(lo: nat, hi: nat): Anum {
    var width := if lo <= hi then hi - lo else 0;
    ExpPos(Len(width));
    Anum(lo, Ones(Len(width)))
  }

  lemma {:induction false} QuotientOffset(a: Anum, d: nat, x: nat, minQ: nat, maxQ: nat)
    requires d > 0 && a.Has(x) && minQ == a.base / d && maxQ == (a.base + a.span) / d && minQ <= maxQ
    ensures x / d >= 0 && Ones(Len(maxQ - minQ)) >= 0 && Anum(minQ, Ones(Len(maxQ - minQ))).Has(x / d)
  {
    hide Exp, Map, Tnum.Has, Len;
    OffsetBound(a.span, x - a.base);
    DivMono(a.base, x, d);
    DivMono(x, a.base + a.span, d);
    LenBound(maxQ - minQ);
    BelowOnes(x / d - minQ, Len(maxQ - minQ));
  }

  /** From the least quotient to the greatest, or everything when the greatest member wraps. */
  function QuotientAnum(a: Anum, d: nat, w: nat): Anum
    requires d > 0
  {
    DivMono(0, a.base, d);
    DivMono(0, a.base + a.span, d);
    if a.base + a.span < Exp(w) then FromTo(a.base / d, (a.base + a.span) / d) else TopWord(w)
  }

  /** It holds every quotient, and on a constant only that one. */
  lemma {:induction false} QuotientAnumSound(a: Anum, d: nat, w: nat, x: nat)
    requires d > 0 && x < Exp(w) && a.Has(x)
    ensures x / d >= 0 && QuotientAnum(a, d, w).Has(x / d)
    ensures a.span == 0 && a.base < Exp(w) ==> QuotientAnum(a, d, w) == Anum(x / d, 0)
  {
    hide Exp, Map, Tnum.Has, Len, TopWord;
    DivMono(0, x, d);
    OffsetBound(a.span, x - a.base);
    if a.base + a.span < Exp(w) {
      DivMono(a.base, a.base + a.span, d);
      var minQ, maxQ := a.base / d, (a.base + a.span) / d;
      QuotientOffset(a, d, x, minQ, maxQ);
      if a.span == 0 {
        OnesOfZero(maxQ - minQ);
      }
    } else {
      DivAnti(x, 1, d);
      Unique(x, 1, x, 0);
      TopHas(w, x / d);
    }
  }

  /** Division of an anum by a constant, on words. */
  method DivAnumConst(a: Anum, d: nat, w: nat) returns (r: Anum)
    requires FitsWord(a, w) && 0 < d < Exp(w)
    ensures forall x: nat | x < Exp(w) && a.Has(x) :: x / d >= 0 && r.Has(x / d)
    ensures a.span == 0 ==> r.base == a.base / d && r.span == 0
    ensures r == QuotientAnum(a, d, w)
  {
    hide Exp, Map, Tnum.Has, Len;
    var maxV := WrapAdd(a.base, a.span, w);
    var minQ, maxQ := a.base / d, maxV / d;
    WordQuotients(a, d, w);
    if maxQ < minQ || maxV < a.base {
      r := TopWord(w);
    } else {
      var mask := OnesMask(maxQ - minQ, w);
      r := Anum(minQ, mask);
    }
    hide QuotientAnum;
    forall x: nat | x < Exp(w) && a.Has(x) ensures x / d >= 0 && r.Has(x / d) {
      QuotientAnumSound(a, d, w, x);
    }
    if a.span == 0 {
      FreeInv(a.span);
      QuotientAnumSound(a, d, w, a.base);
    }
  }

  lemma WordQuotients(a: Anum, d: nat, w: nat)
    requires FitsWord(a, w) && d > 0
    ensures var maxV := WrapAdd(a.base, a.span, w);
            && 0 <= a.base / d < Exp(w) && 0 <= maxV / d < Exp(w)
            && (maxV < a.base <==> a.base + a.span >= Exp(w))
            && (maxV >= a.base ==> a.base / d <= maxV / d)
  {
    hide Exp;
    var maxV := WrapAdd(a.base, a.span, w);
    DivMono(0, a.base, d);
    DivMono(0, maxV, d);
    DivAnti(a.base, 1, d);
    DivAnti(maxV, 1, d);
    Unique(a.base, 1, a.base, 0);
    Unique(maxV, 1, maxV, 0);
    if maxV >= a.base {
      DivMono(a.base, maxV, d);
    }
  }

  /** No smaller mask of ones holds every member of a unum. */
  lemma {:induction false} ToAnumLeast(u: Unum, k: nat, n: nat)
    requires forall x: nat | u.Has(x) :: Ones(k) >= 0 && Anum(u.base, Ones(k)).Has(x)
    requires u.ToAnum().Has(n)
    ensures Ones(k) >= 0 && Anum(u.base, Ones(k)).Has(n)
  {
    hide Admits, Exp, Len, Tnum.Has;
    ExpPos(k);
    UnumBounds(u, u.base + u.extent);
    OffsetBound(Ones(k), u.extent);
    LenLeast(u.extent, k);
    OffsetBound(Ones(Len(u.extent)), n - u.base);
    ExpMono(Len(u.extent), k);
    BelowOnes(n - u.base, k);
  }
}
