/**
  Natural numbers read as infinite bit strings: the lowest bit is `Hd`, the rest
  is `Tl`. Leading zeros never matter, so equal bits mean equal numbers.
 */
module Bitstrings {
  import opened DivModFacts

  function N(b: bool): nat { if b then 1 else 0 }

  predicate Hd(n: nat) { n % 2 == 1 }

  function Tl(n: nat): nat { n / 2 }

  function Cons(n: nat, b: bool): nat { 2 * n + N(b) }

  predicate Bit(n: nat, i: nat)
    decreases i
  {
    if i == 0 then Hd(n) else Bit(Tl(n), i - 1)
  }

  function Exp(i: nat): nat { if i == 0 then 1 else 2 * Exp(i - 1) }

  function Ones(i: nat): int { Exp(i) - 1 }

  /** A two-argument function on bits that keeps zero, given by its other three results. */
  datatype BitOp = BitOp(right: bool, left: bool, both: bool) {
    predicate Apply(x: bool, y: bool) { if x then (if y then both else left) else y && right }
  }

  const And := BitOp(false, false, true)

  const Or := BitOp(true, true, true)

  const Xor := BitOp(true, true, false)

  const AndNot := BitOp(false, true, false)

  /** Applies a bit function at every position. */
  function Map(op: BitOp, a: nat, b: nat): nat
    decreases a + b
  {
    if a == 0 && b == 0 then 0
    else Cons(Map(op, Tl(a), Tl(b)), op.Apply(Hd(a), Hd(b)))
  }

  function BwAnd(a: nat, b: nat): nat { Map(And, a, b) }

  function BwOr(a: nat, b: nat): nat { Map(Or, a, b) }

  function BwXor(a: nat, b: nat): nat { Map(Xor, a, b) }

  function BwAndNot(a: nat, b: nat): nat { Map(AndNot, a, b) }

  predicate Disjoint(a: nat, b: nat) { BwAnd(a, b) == 0 }

  function Prod(a: nat, b: nat): nat {
    MulMono(0, a, b);
    a * b
  }

  /** One full adder: the sum bit and the carry. */
  function FullAdd(a: bool, b: bool, c: bool): (bool, bool) {
    ((a != b) != c, if a then b || c else b && c)
  }

  /** Ripple addition, one full adder per position. */
  function AddCarry(a: nat, b: nat, c: bool): nat
    decreases a + b
  {
    if a == 0 && b == 0 then N(c)
    else
      var (r, c1) := FullAdd(Hd(a), Hd(b), c);
      Cons(AddCarry(Tl(a), Tl(b), c1), r)
  }

  /** Keeps the i low bits. */
  function Chop(n: nat, i: nat): nat
    decreases i
  {
    if i == 0 then 0 else Cons(Chop(Tl(n), i - 1), Hd(n))
  }

  /** Drops the i low bits. */
  function Shr(n: nat, i: nat): nat
    decreases i
  {
    if i == 0 then n else Shr(Tl(n), i - 1)
  }

  /** The number of bits up to the highest one. */
  function Len(n: nat): nat { if n == 0 then 0 else 1 + Len(Tl(n)) }

  // ----- heads, tails and positions

  lemma {:induction false} BitZero(i: nat)
    ensures !Bit(0, i)
  {
    if i > 0 {
      BitZero(i - 1);
    }
  }

  lemma {:induction false} EqFromBits(a: nat, b: nat)
    requires forall i: nat :: Bit(a, i) == Bit(b, i)
    ensures a == b
    decreases a + b
  {
    if a != 0 || b != 0 {
      assert Bit(a, 0) == Bit(b, 0);
      forall i: nat
        ensures Bit(Tl(a), i) == Bit(Tl(b), i)
      {
        assert Bit(a, i + 1) == Bit(b, i + 1);
      }
      EqFromBits(Tl(a), Tl(b));
    }
  }

  lemma {:induction false} HdTlCons(n: nat, b: bool)
    ensures Hd(Cons(n, b)) == b && Tl(Cons(n, b)) == n
  {
  }

  lemma ConsHdTl(n: nat)
    ensures n == Cons(Tl(n), Hd(n))
  {
  }

  lemma {:induction false} MapHdTl(op: BitOp, a: nat, b: nat)
    ensures Hd(Map(op, a, b)) == op.Apply(Hd(a), Hd(b))
    ensures Tl(Map(op, a, b)) == Map(op, Tl(a), Tl(b))
  {
    if a != 0 || b != 0 {
      HdTlCons(Map(op, Tl(a), Tl(b)), op.Apply(Hd(a), Hd(b)));
    }
  }

  /** Every function on bits that keeps zero is one of these operations. */
  lemma BitOpOf(f: (bool, bool) -> bool) returns (op: BitOp)
    requires !f(false, false)
    ensures forall x, y :: op.Apply(x, y) == f(x, y)
  {
    op := BitOp(f(false, true), f(true, false), f(true, true));
  }

  lemma {:induction false} SmallMaps()
    ensures forall op: BitOp, x, y :: Map(op, N(x), N(y)) == N(op.Apply(x, y))
  {
    forall op: BitOp, x, y
      ensures Map(op, N(x), N(y)) == N(op.Apply(x, y))
    {
      assert Tl(N(x)) == 0 && Tl(N(y)) == 0 && Map(op, 0, 0) == 0;
    }
  }

  lemma {:induction false} MapBit(op: BitOp, a: nat, b: nat, i: nat)
    ensures Bit(Map(op, a, b), i) == op.Apply(Bit(a, i), Bit(b, i))
    decreases i
  {
    MapHdTl(op, a, b);
    if i > 0 {
      MapBit(op, Tl(a), Tl(b), i - 1);
    }
  }

  /** Operations with zero or with the operand itself. */
  lemma {:induction false} MapNeutral(n: nat)
    ensures BwXor(n, n) == 0 && BwXor(n, 0) == n && BwOr(n, 0) == n && BwOr(0, n) == n
    ensures BwAndNot(n, 0) == n && BwAndNot(0, n) == 0
  {
    hide Map, Bit;
    forall i: nat
      ensures Bit(BwXor(n, n), i) == Bit(0, i) && Bit(BwXor(n, 0), i) == Bit(n, i)
      ensures Bit(BwOr(n, 0), i) == Bit(n, i) && Bit(BwOr(0, n), i) == Bit(n, i)
      ensures Bit(BwAndNot(n, 0), i) == Bit(n, i) && Bit(BwAndNot(0, n), i) == Bit(0, i)
    {
      BitZero(i);
      MapBit(Xor, n, n, i);
      MapBit(Xor, n, 0, i);
      MapBit(Or, n, 0, i);
      MapBit(Or, 0, n, i);
      MapBit(AndNot, n, 0, i);
      MapBit(AndNot, 0, n, i);
    }
    EqFromBits(BwXor(n, n), 0);
    EqFromBits(BwXor(n, 0), n);
    EqFromBits(BwOr(n, 0), n);
    EqFromBits(BwOr(0, n), n);
    EqFromBits(BwAndNot(n, 0), n);
    EqFromBits(BwAndNot(0, n), 0);
  }

  lemma {:induction false} DisjointHdTl(a: nat, b: nat)
    ensures Disjoint(a, b) <==> !(Hd(a) && Hd(b)) && Disjoint(Tl(a), Tl(b))
  {
  }

  lemma {:induction false} DisjointBit(a: nat, b: nat, i: nat)
    requires Disjoint(a, b)
    ensures !(Bit(a, i) && Bit(b, i))
  {
    MapBit(And, a, b, i);
    BitZero(i);
  }

  lemma {:induction false} DisjointFromBits(a: nat, b: nat)
    requires forall i: nat :: !(Bit(a, i) && Bit(b, i))
    ensures Disjoint(a, b)
  {
    forall i: nat
      ensures Bit(BwAnd(a, b), i) == Bit(0, i)
    {
      MapBit(And, a, b, i);
      BitZero(i);
    }
    EqFromBits(BwAnd(a, b), 0);
  }

  // ----- sums

  lemma {:induction false} FullAddCorrect(a: bool, b: bool, c: bool)
    ensures var (r, c1) := FullAdd(a, b, c); N(a) + N(b) + N(c) == 2 * N(c1) + N(r)
  {
  }

  /** The ripple adder computes the sum. */
  lemma {:induction false} AddCarryCorrect(a: nat, b: nat, c: bool)
    ensures AddCarry(a, b, c) == a + b + N(c)
    decreases a + b
  {
    if a != 0 || b != 0 {
      AddCarryCorrect(Tl(a), Tl(b), FullAdd(Hd(a), Hd(b), c).1);
    }
  }

  lemma {:induction false} SumHdTl(a: nat, b: nat, c: bool)
    ensures var (r, c1) := FullAdd(Hd(a), Hd(b), c);
            Hd(a + b + N(c)) == r && Tl(a + b + N(c)) == Tl(a) + Tl(b) + N(c1)
  {
    var (r, c1) := FullAdd(Hd(a), Hd(b), c);
    FullAddCorrect(Hd(a), Hd(b), c);
    hide FullAdd;
    assert a + b + N(c) == Cons(Tl(a) + Tl(b) + N(c1), r);
    HdTlCons(Tl(a) + Tl(b) + N(c1), r);
  }

  /** Adding numbers without a common bit is taking their union. */
  lemma {:induction false} DisjointSum(a: nat, b: nat)
    requires Disjoint(a, b)
    ensures a + b == BwOr(a, b)
    decreases a + b
  {
    if a != 0 || b != 0 {
      DisjointHdTl(a, b);
      DisjointSum(Tl(a), Tl(b));
    }
  }

  lemma ProdStep(a: nat, b: nat)
    ensures Prod(a, b) == Prod(N(Hd(a)), b) + Prod(Tl(a), 2 * b)
  {
    assert a == 2 * Tl(a) + N(Hd(a));
  }

  // ----- powers and low bits

  lemma {:induction false} ExpPos(i: nat)
    ensures 1 <= Exp(i)
  {
    if i > 0 {
      ExpPos(i - 1);
    }
  }

  lemma ExpStep(i: nat)
    ensures Exp(i + 1) == 2 * Exp(i)
  {
  }

  lemma {:induction false} ExpAdd(i: nat, j: nat)
    ensures Exp(i + j) == Exp(i) * Exp(j)
  {
    hide Exp;
    if i == 0 {
      ExpZero(i);
    } else {
      ExpAdd(i - 1, j);
      ExpStep(i - 1);
      ExpStep(i - 1 + j);
      DoubleProduct(Exp(i - 1), Exp(j));
    }
  }

  lemma ExpZero(i: nat)
    requires i == 0
    ensures Exp(i) == 1
  {
  }

  lemma {:induction false} ExpMono(i: nat, j: nat)
    requires i <= j
    ensures Exp(i) <= Exp(j)
  {
    ExpPos(j);
    if i < j {
      ExpMono(i, j - 1);
    }
  }

  lemma {:induction false} ChopStep(n: nat, i: nat)
    requires i > 0
    ensures Chop(n, i) == 2 * Chop(Tl(n), i - 1) + n % 2
  {
  }

  /** Keeping i low bits is reducing modulo 2^i. */
  lemma {:induction false} ChopIsMod(n: nat, i: nat)
    ensures Exp(i) > 0 && Chop(n, i) == n % Exp(i)
  {
    hide Exp, Chop;
    ExpPos(i);
    if i == 0 {
      ChopNothing(n, i);
    } else {
      ExpPos(i - 1);
      ChopIsMod(Tl(n), i - 1);
      ChopStep(n, i);
      ExpStep(i - 1);
      DoubleDivisor(n, Exp(i - 1));
    }
  }

  lemma {:induction false} ChopNothing(n: nat, i: nat)
    requires i == 0
    ensures Chop(n, i) == 0 == n % Exp(i)
  {
    Unique(n, 1, n, 0);
  }

  lemma {:induction false} ChopSmall(n: nat, i: nat)
    requires n < Exp(i)
    ensures Chop(n, i) == n
  {
    hide Exp, Chop;
    ChopIsMod(n, i);
    SmallMod(n, Exp(i));
  }

  lemma {:induction false} ChopBound(n: nat, i: nat)
    ensures Chop(n, i) < Exp(i)
    ensures Chop(n, i) <= n
  {
    hide Exp, Chop;
    ChopIsMod(n, i);
    ModBelow(n, Exp(i));
  }

  lemma {:induction false} ChopMap(op: BitOp, a: nat, b: nat, i: nat)
    ensures Chop(Map(op, a, b), i) == Map(op, Chop(a, i), Chop(b, i))
  {
    if i > 0 {
      MapHdTl(op, a, b);
      ChopMap(op, Tl(a), Tl(b), i - 1);
      MapHdTl(op, Chop(a, i), Chop(b, i));
    }
  }

  lemma {:induction false} ChopBit(n: nat, i: nat, j: nat)
    ensures Bit(Chop(n, i), j) == (j < i && Bit(n, j))
    decreases j
  {
    if i == 0 {
      BitZero(j);
    } else if j > 0 {
      ChopBit(Tl(n), i - 1, j - 1);
    }
  }

  lemma {:induction false} BitExp(i: nat, j: nat)
    ensures Bit(Exp(i), j) == (i == j)
    decreases j
  {
    if i == 0 && j > 0 {
      BitZero(j - 1);
    } else if j > 0 {
      BitExp(i - 1, j - 1);
    }
  }

  lemma {:induction false} BitShr(n: nat, i: nat, j: nat)
    ensures Bit(Shr(n, i), j) == Bit(n, i + j)
    decreases i
  {
    if i > 0 {
      BitShr(Tl(n), i - 1, j);
    }
  }

  /** Dropping i low bits is dividing by 2^i. */
  lemma {:induction false} ShrIsDiv(n: nat, i: nat)
    ensures Exp(i) > 0 && Shr(n, i) == n / Exp(i)
  {
    hide Exp;
    ExpPos(i);
    if i == 0 {
      ExpZero(i);
      Unique(n, 1, n, 0);
    } else {
      ExpPos(i - 1);
      ShrIsDiv(Tl(n), i - 1);
      ExpStep(i - 1);
      DoubleDivisor(n, Exp(i - 1));
    }
  }

  /** Flipping w bits and adding one is the two's complement. */
  lemma {:induction false} FlipIsComplement(y: nat, w: nat)
    requires y < Exp(w)
    ensures Ones(w) >= 0 && BwXor(y, Ones(w)) + 1 == Exp(w) - y
    decreases w
  {
    ExpPos(w);
    if w > 0 {
      ExpPos(w - 1);
      FlipIsComplement(Tl(y), w - 1);
      assert Tl(Ones(w)) == Ones(w - 1) && Hd(Ones(w));
      MapHdTl(Xor, y, Ones(w));
    }
  }

  lemma {:induction false} LenBound(n: nat)
    ensures n < Exp(Len(n))
  {
    if n > 0 {
      LenBound(Tl(n));
    }
  }
}
