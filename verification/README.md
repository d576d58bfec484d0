# Verified models of the numeric abstract domains

This project models the numeric abstract-domain library in `abstract-domains/src`
and proves what its domains promise. A machine word is a natural number below a
modulus `m`, which is left arbitrary; where a bit width matters, `m == Exp(n)`.
Every theorem therefore holds at every width. Where a signed reading is used, `m`
is even.

The project has four parts.

* **Bit-level domains on unbounded naturals.** `Bitstrings` reads a natural as an
  infinite bitstring through its head and tail. `Tnums`, `TnumLattice`,
  `TnumAddition` and `TnumDivision` are the known-or-unknown bits, `Anums` is a base
  plus free bits together with tnum multiplication, `TnumProducts` and `TnumQuotients`
  say how tight products and quotients are, and `Unums`, `UnumFields`
  and `UnumSplit` are a base plus bounded fields between walls. `WordTnums` and
  `WordAnums` are the fixed-width versions.
* **Congruences.** `Gcds` and `Crt` hold the Euclidean algorithm, the modular
  inverse and product loops and the Chinese remainder merge. `Congruences`,
  `CongruenceLaws`, `CongruenceArithmetic` and `CongruenceMixed` are the domain on top
  of them.
* **Circular and strided intervals.** `Intervals`, `WrappedIntervals`,
  `WrappedWidening`, `WrappedArithmetic`, `WrappedDivision`, `WrappedDivRem`,
  `StridedIntervals` and `StridedWidening`. `WrappedPrecision`, `WrappedQuotients` and
  `WrappedRemainders` say how tight division of arcs is.
* **The reduced product.** `Reduction` is generic in its leaf domains and its
  channel, which it takes as a record of functions with laws; `WordProducts` shows
  that intervals, wrapped intervals and fact records obey those laws.

`Lattice` holds the values every domain shares, and `DivModFacts` holds facts about
Euclidean division.

Loops of the program are methods with loops, proved equal to a function or to a
property: the shift-and-add product (`WordTnums.MulWord`), the modular product and
inverse (`Crt.DoubleAndAdd`, `Crt.InverseMod`), the pieces of an arc and the nested
loops over them (`WrappedDivision.Piece`, `WrappedDivRem.SignedLoop`) and the mask of
ones (`WordAnums.OnesMask`). The rest of the program builds new values and is modelled
by functions.

## Where the code and its descriptions differ

* The test `meet_ok` (`abstract-domains/src/tnum.rs:927-929`) is stated as the
  precondition of `meet`, but it looks at one side only: the constants 0 and 1 pass it
  and have no common member. `TnumLattice.MeetOkBothWays` proves that a common member
  exists exactly when the test passes in both directions.
* Tnum division is described for divisors whose least member is positive and whose
  greatest member fits the width, and for the quotient only
  (`abstract-domains/src/div.rs:521-540`). `TnumDivision.DivSound` needs only that the
  chosen divisor is not zero, and covers the remainder.
* `ExecAnum::sub` (`abstract-domains/src/domains.rs:720-732`) has no containment
  contract. `WordAnums.SubAnumWordSound` proves that it contains every wrapped
  difference. Its last guard never fires, because the mask contains the span.
* Strided `join` is described as not the best one (`abstract-domains/src/strided.rs:1012-1015`).
  `StridedIntervals.JoinIsLubIff` gives the exact condition on the operands under which it
  is the least upper bound, and `StridedIntervals.JoinNotLeast` an input where it is not.
* Strided `meet` is described as possibly keeping points off the finer grid
  (`abstract-domains/src/strided.rs:838-843`). `StridedIntervals.MeetExactIff` gives the
  exact condition on the operands under which it does not, and
  `StridedIntervals.MeetNotExact` an input where it does.
* Congruence `add` and `sub` are described as conservative for mixed wrapping
  (`abstract-domains/src/congruence.rs:288-289`). `CongruenceMixed.AddLeastIff` and
  `CongruenceMixed.SubLeastIff` decide on the operands when the result is the least class
  all the same.
* Negation of a congruence class goes the same way. `CongruenceMixed.NegLeastIff` says
  when it is least: always, except for a class {0, p} whose other member is hidden by
  the wrap.
* Division of arcs (`abstract-domains/src/wrapped.rs:738-878`) is described by what it
  holds. It is also tight: `WrappedQuotients.HalfCircle` and
  `WrappedQuotients.SignedQuotientSmallest` bound it from above. Where it is not,
  `WrappedQuotients.UnsignedSmallestIff` and
  `WrappedRemainders.SignedRemainderSmallestIff` give the exact condition on the
  operands, and `WrappedQuotients.UnsignedNotSmallest` and
  `WrappedRemainders.RemainderEscapes` an input.
* Strided `widen` is described as leaving termination to fuel
  (`abstract-domains/src/strided.rs:1155-1160`). `StridedWidening.RunChanges` bounds the
  changes of every run.

## Model

| member | source | states |
|---|---|---|
| `Bitstrings.EqFromBits` | abstract-domains/src/nats.rs:83-121 | naturals that agree on every bit are equal |
| `Bitstrings.MapBit` | abstract-domains/src/nats.rs:128-151 | a bitwise operation acts on each bit separately, for every bit function that keeps zero |
| `Bitstrings.BitOpOf` | abstract-domains/src/nats.rs:128-134 | every bit function that keeps zero is one of the modelled operations |
| `Bitstrings.AddCarryCorrect` | abstract-domains/src/nats.rs:200-227 | bit-by-bit addition with a carry is addition |
| `Bitstrings.DisjointSum` | abstract-domains/src/nats.rs:291-313 | the sum of numbers with no common bit is their union |
| `Bitstrings.ChopIsMod` | abstract-domains/src/nats.rs:771-810 | keeping the low i bits is the remainder modulo 2^i |
| `Bitstrings.ChopMap` | abstract-domains/src/nats.rs:487-499 | truncation commutes with every bitwise operation, for every bit function that keeps zero |
| `Bitstrings.FlipIsComplement` | abstract-domains/src/nats.rs:951-978 | flipping the low w bits and adding one subtracts from 2^w |
| `Tnums.HasIsBroadword` | abstract-domains/src/tnum.rs:35-99 | bit-by-bit membership is one masked comparison |
| `Tnums.Bounds` | abstract-domains/src/div.rs:33-63 | the least and greatest members are the known ones, and these plus the unknown bits |
| `Tnums.Extensional` | abstract-domains/src/tnum.rs:758-919 | tnums with the same members are equal |
| `TnumLattice.JoinSound` | abstract-domains/src/tnum.rs:297-342 | the join holds every member of both operands |
| `TnumLattice.JoinLeast` | abstract-domains/src/tnum.rs:297-299 | and lies inside every tnum that does |
| `TnumLattice.MeetExact` | abstract-domains/src/tnum.rs:932-965 | the meet holds exactly the common members |
| `TnumLattice.MeetOkFromMember` | abstract-domains/src/tnum.rs:927-929 | a common member makes the test pass |
| `TnumLattice.MeetOkIsOneSided` | abstract-domains/src/tnum.rs:927-929 | the test passes for the constants 0 and 1, which are disjoint |
| `TnumLattice.MeetOkBothWays` | abstract-domains/src/tnum.rs:927-934 | operands have a common member exactly when the test passes both ways |
| `TnumAddition.BitAddSound` | abstract-domains/src/tbit.rs:142-162 | one tristate full adder holds every concrete sum and carry |
| `TnumAddition.SumAttained` | abstract-domains/src/tbit.rs:142-154 | every bit its sum allows is the sum of bits its operands allow |
| `TnumAddition.CarryAttained` | abstract-domains/src/tbit.rs:142-154 | the same for its carry |
| `TnumAddition.CarryCompensation` | abstract-domains/src/tbit.rs:212-236 | the unknown carry counts the mask carry and the carry between the two lower sums |
| `TnumAddition.BroadwordIsRipple` | abstract-domains/src/tnum.rs:475-755 | for any consistent tristate carry, the three-addition formula gives the ripple sum, as the same tnum |
| `TnumAddition.RippleSound` | abstract-domains/src/tnum.rs:353-409 | the ripple sum is well formed and holds every sum with carry |
| `TnumAddition.RippleBest` | abstract-domains/src/tnum.rs:353-362 | it lies inside every tnum that holds all those sums |
| `TnumAddition.AddSound` | abstract-domains/src/tnum.rs:593-600 | the formula holds every sum of members |
| `TnumAddition.AddInv` | abstract-domains/src/tnum.rs:532-541 | and is well formed |
| `TnumAddition.AddBest` | abstract-domains/src/tnum.rs:475-482 | and is the best abstraction: any tnum that holds all sums holds everything in it |
| `Anums.FromTnumExact` | abstract-domains/src/anum.rs:31-51 | a tnum read as base plus free bits keeps exactly its members |
| `Anums.ToTnumSound` | abstract-domains/src/anum.rs:233-249 | converting back loses no member |
| `TnumProducts.ToTnumBest` | abstract-domains/src/anum.rs:233-249 | and is the best abstraction: any tnum that holds the members holds everything in it |
| `Anums.AnumAddSound` | abstract-domains/src/anum.rs:104-148 | the anum sum holds every sum of members |
| `Anums.AnumAddLeast` | abstract-domains/src/anum.rs:104-107 | no anum with the same base that holds every sum leaves out a member of it |
| `Anums.MulBitSound` | abstract-domains/src/tnum.rs:1036-1096 | a tnum times one tristate bit holds every product |
| `TnumProducts.MulBitBest` | abstract-domains/src/tnum.rs:1036-1096 | and is the best abstraction: any tnum that holds every product holds everything in it |
| `Anums.MulStepSound` | abstract-domains/src/anum.rs:169-482 | the shift-and-add recursions, ending in a tnum or in an anum, hold accumulator plus product |
| `Anums.MulSound` | abstract-domains/src/anum.rs:305-318 | tnum multiplication holds every product |
| `Anums.MulOfUnits` | abstract-domains/src/anum.rs:305-307 | and is exact on constants |
| `TnumProducts.MulByPower` | abstract-domains/src/anum.rs:305-307 | multiplying by 2^k shifts the known and the unknown bits, and nothing else |
| `TnumProducts.MulLowZeros` | abstract-domains/src/anum.rs:305-307 | low zero bits of the factors add up in the product, for the recursion and for the loop |
| `TnumProducts.MulStepOfAnum` | abstract-domains/src/anum.rs:169-437 | the recursion that ends in an anum yields the same tnum, with an exact base |
| `Anums.HoistedIsMul` | abstract-domains/src/anum.rs:346-419 | accumulating only masks and adding the known product at the end gives the identical tnum |
| `WordTnums.AddWordIsChopped` | abstract-domains/src/domains.rs:365-431 | the wrapping word formula is the truncation of the unbounded one |
| `WordTnums.AddWordSound` | abstract-domains/src/domains.rs:365-431 | and holds every sum modulo 2^w |
| `WordTnums.AddWordBest` | abstract-domains/src/domains.rs:365-431 | and is the best abstraction: any tnum that holds all wrapped sums holds everything in it |
| `WordTnums.MulWord` | abstract-domains/src/domains.rs:516-544 | the fixed-width shift-and-add loop is the unbounded shift-and-add product cut to the word; it holds every product modulo 2^w, and of constants yields the constant |
| `TnumProducts.WordByPower` | abstract-domains/src/domains.rs:516-544 | a constant power of two on either side shifts the other factor and cuts it |
| `TnumProducts.WordLowZeros` | abstract-domains/src/domains.rs:516-544 | low zero bits of the factors add up on words |
| `TnumDivision.LongDivCorrect` | abstract-domains/src/nats.rs:865-879 | concrete long division yields the true quotient and remainder of the low w bits |
| `TnumDivision.NegSound` | abstract-domains/src/div.rs:349-424 | abstract negation holds the two's complement of every member that fits |
| `TnumQuotients.NegBest` | abstract-domains/src/div.rs:349-351 | and is the best abstraction of them |
| `TnumDivision.SubSound` | abstract-domains/src/div.rs:354-468 | abstract subtraction holds every wrapped difference, and x - y itself when it does not wrap |
| `TnumQuotients.SubBest` | abstract-domains/src/div.rs:354-356 | any tnum that holds the wrapped sums of members and of the negation holds everything in it |
| `TnumQuotients.SubConstBest` | abstract-domains/src/div.rs:83-85 | subtracting a constant is the best abstraction of the wrapped differences |
| `TnumDivision.DivLoopSound` | abstract-domains/src/div.rs:498-665 | every state of abstract long division follows every concrete run |
| `TnumQuotients.DivStep` | abstract-domains/src/div.rs:498-519 | a step sets a known bit exactly when every member compares alike with every divisor, and joins both outcomes otherwise |
| `TnumDivision.DivSound` | abstract-domains/src/div.rs:494-540 | it holds the true quotient and remainder of the low w bits for all members and nonzero divisors |
| `TnumDivision.DivOfUnits` | abstract-domains/src/div.rs:494-519 | and is exact on constants |
| `TnumQuotients.DivByPower` | abstract-domains/src/div.rs:494-519 | dividing by 2^k is exact when only the low k bits are unknown: the quotient is known and the remainder is the low k bits |
| `TnumDivision.DivConstIsDiv` | abstract-domains/src/div.rs:83-176 | the loop for a constant divisor gives what the general loop gives |
| `Unums.NoWalls` | abstract-domains/src/unum.rs:567-576 | without walls the borrow walk is one comparison |
| `Unums.UnumBounds` | abstract-domains/src/unum.rs:441-504 | the least and greatest members are the base, and the base plus the extent |
| `Unums.CarryOutFormula` | abstract-domains/src/unum.rs:40-106 | the carry register is the and of the operands, or their or without their sum |
| `Unums.CarryIsOverflow` | abstract-domains/src/unum.rs:835-865 | its bit i is set exactly when the low i + 1 bits overflow |
| `Unums.BorrowBudget` | abstract-domains/src/unum.rs:215-275 | carries of offsets plus borrow never exceed carries of extents plus both borrows, at every bit |
| `Unums.AdmitsAdd` | abstract-domains/src/unum.rs:129-209 | the walk of the sum succeeds, from any state with that budget |
| `Unums.UnumAddSound` | abstract-domains/src/unum.rs:108-127 | the sum, with walls removed where a carry crosses, holds every sum of members |
| `UnumSplit.SumWalls` | abstract-domains/src/unum.rs:108-112 | a wall stays exactly where both operands have one and no carry of the extents crosses it |
| `Unums.UnumAddTight` | abstract-domains/src/unum.rs:108-112 | its ends are sums of ends |
| `UnumSplit.FieldStep` | abstract-domains/src/unum.rs:17-30 | up to a wall the borrow walk compares one field, and above it the walk starts afresh |
| `UnumSplit.UnumAddExact` | abstract-domains/src/unum.rs:108-112 | with the same walls above bit 0 in both operands and no carry of the extents across one, the sum holds exactly the sums of members |
| `UnumSplit.SingleFieldsAddExactly` | abstract-domains/src/unum.rs:108-112 | in particular without walls |
| `Unums.UnumMulSound` | abstract-domains/src/unum.rs:509-564 | the product holds every product of members and its ends are products of ends |
| `Unums.ToAnumSound` | abstract-domains/src/unum.rs:820-832 | rounding the extent up to ones keeps every member, with or without walls |
| `WordAnums.ToAnumLeast` | abstract-domains/src/unum.rs:820-832 | no smaller mask of ones holds every member |
| `UnumFields.SliceIsDivMod` | abstract-domains/src/unum.rs:17-30 | the slice of a field is the quotient by the power of its start, reduced to its width |
| `UnumFields.AdmitsExactlyFields` | abstract-domains/src/unum.rs:17-38 | an offset is admitted exactly when in every field between walls its slice is at most the extent's slice |
| `WordAnums.AddAnumWordSound` | abstract-domains/src/domains.rs:636-719 | the guarded word sum of anums holds every wrapped sum |
| `WordAnums.AddAnumWordIsAdd` | abstract-domains/src/domains.rs:636-660 | when no bound wraps, it is the unbounded anum sum |
| `WordAnums.AddAnumWordWraps` | abstract-domains/src/domains.rs:636-660 | and when one does, it is everything |
| `WordAnums.SubAnumWordSound` | abstract-domains/src/domains.rs:720-732 | the guarded word difference holds every wrapped difference |
| `WordAnums.SubAnumWordBase` | abstract-domains/src/domains.rs:720-732 | it starts at the least difference of members with the span of a sum, or is everything when that difference wraps |
| `WordAnums.SubAnumWordLeast` | abstract-domains/src/domains.rs:720-732 | when nothing wraps, no anum from there that holds every difference leaves out a member of it |
| `WordAnums.AddUnumWordIsAdd` | abstract-domains/src/domains.rs:912-1003 | when no bound wraps, the word sum of unums is the unbounded sum, walls included |
| `WordAnums.AddUnumWordWraps` | abstract-domains/src/domains.rs:912-1003 | and when one does, it is everything |
| `WordAnums.AddUnumWordSound` | abstract-domains/src/domains.rs:912-1003 | it holds every wrapped sum |
| `WordAnums.OnesMask` | abstract-domains/src/domains.rs:781-806 | the doubling loop yields the least mask of ones that reaches n, and it fits the word |
| `WordAnums.DivAnumConst` | abstract-domains/src/domains.rs:733-780 | holds every quotient by the constant, and runs from the least quotient over the least mask of ones that reaches the greatest, or is everything when the greatest member wraps |
| `Gcds.GcdDivisors` | abstract-domains/src/arithmetic.rs:690-701 | the divisors of the gcd are exactly the common divisors |
| `Gcds.GcdGreatest` | abstract-domains/src/arithmetic.rs:629-649 | the gcd is 0 for two zeros, and otherwise a common divisor and the greatest one |
| `Gcds.GcdSymmetric` | abstract-domains/src/arithmetic.rs:664-675 | the gcd does not depend on the order |
| `Gcds.GcdReduced` | abstract-domains/src/arithmetic.rs:802-827 | dividing by the gcd leaves coprime numbers |
| `Gcds.GcdModulusCorrect` | abstract-domains/src/arithmetic.rs:1100-1117 | the gcd of a nonzero word and its complement is the gcd with the machine modulus |
| `Crt.AddReduced` | abstract-domains/src/word.rs:349-370 | the sum modulo m of reduced words |
| `Crt.NativeProduct` | abstract-domains/src/word.rs:381-390 | one product of reduced factors is the product modulo m and fits the 128-bit word |
| `Crt.DoubleAndAdd` | abstract-domains/src/word.rs:391-448 | doubling and adding is the product modulo m, with every intermediate value reduced |
| `Crt.MulModWord` | abstract-domains/src/word.rs:374-448 | both paths compute the product modulo m |
| `Crt.SubReduced` | abstract-domains/src/arithmetic.rs:781-799 | the difference modulo m of reduced words |
| `Crt.InverseStep` | abstract-domains/src/arithmetic.rs:861-887 | one iteration keeps coefficient times a equal to the remainder, modulo n |
| `Crt.InverseCorrect` | abstract-domains/src/arithmetic.rs:831-896 | the iteration ends with an inverse modulo n of every a coprime to n |
| `Crt.InverseMod` | abstract-domains/src/arithmetic.rs:831-896 | the loop on words returns that inverse |
| `Crt.Incompatible` | abstract-domains/src/arithmetic.rs:429-443 | residues that differ modulo the gcd have no common solution |
| `Crt.CandidateCorrect` | abstract-domains/src/arithmetic.rs:464-508 | for compatible residues the candidate solves both congruences and is below the lcm |
| `Crt.CommonMultiple` | abstract-domains/src/arithmetic.rs:566-600 | a multiple of both moduli is a multiple of the lcm |
| `Crt.SolutionClass` | abstract-domains/src/arithmetic.rs:603-626 | the integer solutions are exactly one class modulo the lcm |
| `Crt.MergeExact` | abstract-domains/src/arithmetic.rs:910-1007 | class, singleton or empty: the merge holds exactly the words below m that satisfy both congruences, and a class is canonical |
| `Crt.MergeWords` | abstract-domains/src/arithmetic.rs:910-1007 | the computation with checked products and sums returns that merge |
| `Congruences.NewExact` | abstract-domains/src/congruence.rs:493-529 | normalization keeps exactly the words of the raw class and is well formed |
| `Congruences.RefinesExact` | abstract-domains/src/congruence.rs:85-123 | the refinement test decides inclusion |
| `Congruences.Canonical` | abstract-domains/src/congruence.rs:640-667 | classes with the same words are the same pair |
| `Congruences.JoinUpper` | abstract-domains/src/congruence.rs:168-248 | the join is well formed and holds both operands |
| `Congruences.JoinIsLub` | abstract-domains/src/congruence.rs:168-248 | the join lies below exactly the common upper bounds |
| `Congruences.MeetExact` | abstract-domains/src/congruence.rs:411-466 | the meet holds exactly the common words, and so is bottom exactly when there are none |
| `CongruenceLaws.CanonicalBot` | abstract-domains/src/congruence_laws.rs:20-41 | with bottom included, equal sets are equal values |
| `CongruenceLaws.MeetLaws` | abstract-domains/src/congruence_laws.rs:119-144 | the five meet laws as equality of values |
| `CongruenceLaws.JoinLaws` | abstract-domains/src/congruence_laws.rs:149-180 | the five join laws as equality of values |
| `CongruenceArithmetic.MaxMemberCorrect` | abstract-domains/src/congruence.rs:251-286 | a member that no member exceeds |
| `CongruenceArithmetic.AddSound` | abstract-domains/src/congruence.rs:290-339 | the sum holds every wrapped sum |
| `CongruenceArithmetic.AddLeast` | abstract-domains/src/congruence.rs:290-339 | when no sum wraps or all do, it is the least class that holds them |
| `CongruenceArithmetic.AddMixedNotLeast` | abstract-domains/src/congruence.rs:301-306 | with mixed wrapping it need not be least: {0, 200} + {100} on 8 bits |
| `CongruenceArithmetic.AddMixed` | abstract-domains/src/congruence.rs:301-309 | with mixed wrapping it holds exactly the words congruent to the sum of residues modulo the gcd of the stride and m |
| `CongruenceArithmetic.SubMixed` | abstract-domains/src/congruence.rs:370-379 | the same for differences |
| `CongruenceMixed.MixedLeastIff` | abstract-domains/src/congruence.rs:301-309 | for two progressions added to a base that wrap in part, the class modulo the gcd of both steps and m is least exactly when each step is seen on one side of the wrap, or the gcd with the distance the wrap leaves is no coarser |
| `CongruenceMixed.AddLeastIff` | abstract-domains/src/congruence.rs:290-309 | the sum is the least class of wrapped sums if and only if wrapping is uniform or that condition holds of the operands |
| `CongruenceMixed.SubLeastIff` | abstract-domains/src/congruence.rs:363-379 | the same for differences |
| `CongruenceMixed.SubMixedNotLeast` | abstract-domains/src/congruence.rs:370-379 | with mixed wrapping the difference need not be least: {0, 200} - {100} on 8 bits |
| `CongruenceArithmetic.SubSound` | abstract-domains/src/congruence.rs:363-408 | the difference holds every wrapped difference |
| `CongruenceArithmetic.SubLeast` | abstract-domains/src/congruence.rs:363-408 | when no difference wraps or all do, it is the least class that holds them |
| `CongruenceArithmetic.NegSound` | abstract-domains/src/congruence.rs:343-360 | the negation holds every wrapped negation |
| `CongruenceArithmetic.NegConstant` | abstract-domains/src/congruence.rs:343-360 | a constant negates to the constant |
| `CongruenceMixed.NegLeastIff` | abstract-domains/src/congruence.rs:341-360 | the negation is the least class of wrapped negations unless the class is {0, p} and the distance m - p is not the gcd of p and m |
| `Intervals.DivIsHull` | abstract-domains/src/interval.rs:363-423 | the quotient interval holds every quotient and both of its ends are quotients |
| `Intervals.DivLeast` | abstract-domains/src/interval.rs:363-423 | no smaller interval holds them |
| `Intervals.RemSound` | abstract-domains/src/interval.rs:429-519 | the remainder interval holds every remainder, and nothing above the dividend or from the divisor on |
| `Intervals.RemLeast` | abstract-domains/src/interval.rs:451-502 | with a single quotient no smaller interval holds them |
| `Intervals.RemLeastIff` | abstract-domains/src/interval.rs:429-507 | the remainder interval is least exactly when the quotient is single, or some divisor has a multiple among the dividends and the top end is a remainder |
| `Intervals.RemNotLeast` | abstract-domains/src/interval.rs:501-518 | 5 by 2 or 3 gives [0, 2], where [1, 2] would do |
| `Intervals.DivFlags` | abstract-domains/src/interval.rs:363-445 | bottom exactly when every divisor is zero, with an exact flag |
| `WrappedIntervals.NewHas` | abstract-domains/src/wrapped.rs:109-120 | normalizing keeps the words of the arc and its size |
| `WrappedIntervals.LeqExact` | abstract-domains/src/wrapped.rs:272-308 | the inclusion test decides inclusion |
| `WrappedIntervals.SizeMonotone` | abstract-domains/src/wrapped.rs:173-202 | inclusion never decreases the size |
| `WrappedIntervals.SizeIsCount` | abstract-domains/src/wrapped.rs:152-158 | size is the number of words |
| `WrappedIntervals.Canonical` | abstract-domains/src/wrapped.rs:232-254 | equal sets are equal values |
| `WrappedIntervals.JoinCovers` | abstract-domains/src/wrapped.rs:310-334 | the join holds both operands |
| `WrappedIntervals.JoinMinimum` | abstract-domains/src/wrapped.rs:310-334 | no arc that does is smaller |
| `WrappedIntervals.JoinTie` | abstract-domains/src/wrapped.rs:324-326 | disjoint arcs with equal gaps join from the one that starts at the smaller word |
| `WrappedIntervals.JoinCommutes` | abstract-domains/src/wrapped.rs:323-326 | the tie-break makes the join independent of the order of its operands |
| `WrappedIntervals.MeetCommutes` | abstract-domains/src/wrapped.rs:346-353 | and the meet too |
| `WrappedIntervals.MeetCovers` | abstract-domains/src/wrapped.rs:335-368 | the meet holds the common words |
| `WrappedIntervals.MeetMinimum` | abstract-domains/src/wrapped.rs:335-368 | no arc that does is smaller |
| `WrappedIntervals.MeetBottom` | abstract-domains/src/wrapped.rs:335-337 | the meet is bottom exactly when the operands are disjoint |
| `WrappedIntervals.MeetExactly` | abstract-domains/src/wrapped.rs:335-368 | the meet is the intersection if and only if the arcs do not cross twice |
| `WrappedWidening.WidenCovers` | abstract-domains/src/wrapped.rs:375-438 | widening holds both operands |
| `WrappedWidening.WidenShape` | abstract-domains/src/wrapped.rs:386-436 | a changed arc short of the circle keeps one end and is longer than the join by the previous length |
| `WrappedWidening.WidenTop` | abstract-domains/src/wrapped.rs:386-436 | widening gives up exactly when no end is stable or the grown arc would fill the circle |
| `WrappedWidening.WidenStable` | abstract-domains/src/wrapped.rs:381-383 | nothing changes exactly when the new value is included |
| `WrappedWidening.WidenDoubles` | abstract-domains/src/wrapped.rs:375-380 | a change reaches the full circle or at least doubles the arc |
| `WrappedWidening.RunChanges` | abstract-domains/src/wrapped.rs:370-438 | every run on n-bit words changes value at most n times |
| `WrappedWidening.RunCovers` | abstract-domains/src/wrapped.rs:375-380 | a run ends above its start and above every input |
| `WrappedArithmetic.AddExact` | abstract-domains/src/wrapped.rs:473-498 | the sum holds exactly the wrapped sums of members |
| `WrappedArithmetic.NegExact` | abstract-domains/src/wrapped.rs:499-514 | the negation holds exactly the negations of members |
| `WrappedArithmetic.SubExact` | abstract-domains/src/wrapped.rs:515-531 | the difference holds exactly the wrapped differences of members |
| `WrappedDivision.UnsignedPieceExact` | abstract-domains/src/wrapped.rs:579-618 | the two unsigned pieces partition the arc at zero |
| `WrappedDivision.PieceExact` | abstract-domains/src/wrapped.rs:621-661 | the four pieces partition the arc at zero and by sign |
| `WrappedDivision.Piece` | abstract-domains/src/wrapped.rs:628-651 | moving the bounds computes that piece |
| `WrappedDivision.FromLinearHas` | abstract-domains/src/wrapped.rs:687-699 | an interval read as an arc keeps its words |
| `WrappedDivision.MagnitudeHas` | abstract-domains/src/wrapped.rs:901-918 | the magnitudes of a one-signed piece |
| `WrappedDivision.SignedOpOnMagnitudes` | abstract-domains/src/wrapped.rs:922-955 | a signed result is the unsigned result of the magnitudes, negated by the sign rule |
| `WrappedDivision.SignedPieceOpSound` | abstract-domains/src/wrapped.rs:956-973 | a pair of one-signed pieces holds every signed result, including MIN / -1 |
| `WrappedDivision.SignedDivAttained` | abstract-domains/src/wrapped.rs:956-973 | each end of a signed piece quotient is the quotient of two members |
| `WrappedDivision.UnsignedPieceOpSound` | abstract-domains/src/wrapped.rs:975-987 | a pair of unsigned pieces holds every result |
| `WrappedDivRem.ZeroFlagExact` | abstract-domains/src/wrapped.rs:662-685 | never exactly when zero is no divisor, always exactly when every divisor is zero |
| `WrappedDivRem.UnsignedSound` | abstract-domains/src/wrapped.rs:704-733 | the four-piece join holds every unsigned result |
| `WrappedDivRem.UnsignedLinear` | abstract-domains/src/wrapped.rs:704-733 | on arcs that do not pass zero it is the interval result |
| `WrappedDivRem.UnsignedDivLeast` | abstract-domains/src/wrapped.rs:704-733 | and for quotients the least interval that holds them |
| `WrappedDivRem.SignedSound` | abstract-domains/src/wrapped.rs:813-877 | the join over sixteen pairs of pieces holds every signed result |
| `WrappedDivRem.FastPathAgrees` | abstract-domains/src/wrapped.rs:769-811 | for nonnegative arcs the fast path is the whole join |
| `WrappedDivRem.OneSidedUpTo` | abstract-domains/src/wrapped.rs:813-864 | for operands of one sign each, a single pair of pieces is the whole join |
| `WrappedDivRem.SignedLoop` | abstract-domains/src/wrapped.rs:813-864 | the nested loops compute the join over all pairs |
| `WrappedDivRem.DivRemWords` | abstract-domains/src/wrapped.rs:738-878 | the operation with its fast paths computes the specified result and flag |
| `WrappedDivRem.DivRemSound` | abstract-domains/src/wrapped.rs:738-743 | signed or unsigned, quotient or remainder, every result for a nonzero divisor is contained |
| `WrappedDivRem.DivRemBottom` | abstract-domains/src/wrapped.rs:744-746 | the result is bottom exactly when every divisor is zero, and the flag is exact |
| `WrappedDivRem.DivRemConstants` | abstract-domains/src/wrapped.rs:738-878 | on constants the result is the concrete one |
| `WrappedQuotients.QuotientEnds` | abstract-domains/src/wrapped.rs:738-878 | whatever the operands, both ends of a quotient arc are quotients of members |
| `WrappedQuotients.HalfCircle` | abstract-domains/src/wrapped.rs:738-878 | whatever the operands, an arc of at most half the circle that holds every quotient holds the whole result |
| `WrappedQuotients.SignedQuotientSmallest` | abstract-domains/src/wrapped.rs:738-878 | for operands of one sign each, no arc that holds every signed quotient is smaller, and both ends are quotients |
| `WrappedQuotients.UnsignedQuotientLeast` | abstract-domains/src/wrapped.rs:738-766 | on arcs that do not pass zero, the unsigned quotient is the least interval that holds every quotient |
| `WrappedQuotients.UnsignedSmallestIff` | abstract-domains/src/wrapped.rs:738-766 | it is also the smallest arc exactly when the quotients nowhere drop, from one divisor to the next, by more than the words outside them |
| `WrappedQuotients.UnsignedNotSmallest` | abstract-domains/src/wrapped.rs:738-766 | 15 by [1, 15] on 4 bits: an arc through zero is smaller |
| `WrappedQuotients.QuotientByOne` | abstract-domains/src/wrapped.rs:738-878 | dividing any arc by one gives it back, signed or unsigned |
| `WrappedRemainders.RemainderExact` | abstract-domains/src/wrapped.rs:738-878 | on arcs that are a single piece, the remainder is exactly the words with the sign of the dividend and the size of an interval remainder |
| `WrappedRemainders.RemainderBounded` | abstract-domains/src/wrapped.rs:738-878 | so it has the sign of the dividend, is no larger than it, and is smaller than the greatest divisor |
| `WrappedRemainders.UnsignedRemainderLeastIff` | abstract-domains/src/wrapped.rs:738-766 | the unsigned remainder there is the least interval exactly when the quotient is single or both ends are remainders |
| `WrappedRemainders.SignedRemainderSmallestIff` | abstract-domains/src/wrapped.rs:738-878 | the signed remainder of operands of one sign each is the smallest arc under exactly that condition on their magnitudes |
| `WrappedRemainders.RemainderSmall` | abstract-domains/src/wrapped.rs:738-878 | whatever the operands, a bound on the size of the dividends or the divisors that stays within half the circle bounds the result |
| `WrappedRemainders.RemainderEscapes` | abstract-domains/src/wrapped.rs:738-878 | past half the circle it need not: on 4 bits the words from 5 to -5 by -8 give an arc that holds -8 |
| `StridedIntervals.MkExact` | abstract-domains/src/strided.rs:127-264 | the constructor keeps exactly the grid points in range and is well formed |
| `StridedIntervals.LeqExact` | abstract-domains/src/strided.rs:982-1010 | the inclusion test is sound and complete |
| `StridedIntervals.Canonical` | abstract-domains/src/strided.rs:1236-1255 | equal sets are equal triples |
| `StridedIntervals.JoinCovers` | abstract-domains/src/strided.rs:1016-1068 | the join holds both operands |
| `StridedIntervals.JoinWf` | abstract-domains/src/strided.rs:1016-1068 | and is well formed |
| `StridedIntervals.JoinIsLubIff` | abstract-domains/src/strided.rs:1012-1068 | the join is the least upper bound exactly when both operands are points, or the gcd of both strides and the distance is 1 or an operand's stride |
| `StridedIntervals.JoinNotLeast` | abstract-domains/src/strided.rs:1039-1052 | {0, 4} joined with {6} is not least |
| `StridedIntervals.ClipExact` | abstract-domains/src/strided.rs:735-836 | clipping keeps exactly the points in range |
| `StridedIntervals.MeetUnequalFacts` | abstract-domains/src/strided.rs:844-914 | with unequal strides no common point is lost, and none is added when one stride divides the other |
| `StridedIntervals.MeetExact` | abstract-domains/src/strided.rs:1070-1153 | the meet is the intersection when an operand is a singleton, or the strides are equal or nested; otherwise it loses no common point |
| `StridedIntervals.MeetExactIff` | abstract-domains/src/strided.rs:838-914 | the meet is the intersection exactly when the strides are nested, or within the common bounds the coarser operand has no point or one that the finer one shares |
| `StridedIntervals.MeetNotExact` | abstract-domains/src/strided.rs:890-914 | {0, 3, 6} met with {0, 2, 4, 6} holds 3 |
| `StridedWidening.WidenCovers` | abstract-domains/src/strided.rs:1161-1228 | widening holds both operands |
| `StridedWidening.WidenShape` | abstract-domains/src/strided.rs:1161-1228 | it keeps the join's grid, keeps stable bounds and moves unstable ones to the end of the grid |
| `StridedWidening.WidenStable` | abstract-domains/src/strided.rs:1162-1164 | nothing changes exactly when the new value is included |
| `StridedWidening.WidenProgress` | abstract-domains/src/strided.rs:1161-1228 | a change leaves the singleton form, takes a proper divisor as stride, or keeps the stride and moves a bound to the end of its grid, where it stays |
| `StridedWidening.RunChanges` | abstract-domains/src/strided.rs:1016-1228 | every run on n-bit words changes value at most 3n - 2 times |
| `StridedWidening.LongRun` | abstract-domains/src/strided.rs:1016-1228 | a run on 6-bit words that changes 12 times, so that 2n - 1 is no bound |
| `StridedWidening.RunCovers` | abstract-domains/src/strided.rs:1161-1228 | a run ends above its start and above every input |
| `Reduction.MeetChannelsExact` | abstract-domains/src/reduce.rs:95-122 | met and normalized records hold exactly the common values |
| `Reduction.ToChannelSound` | abstract-domains/src/reduce.rs:325-335 | the record of a nested product holds every value of the product |
| `Reduction.RefineSound` | abstract-domains/src/reduce.rs:340-367 | refinement keeps the values the record accepts and adds none |
| `Reduction.RefineShrinks` | abstract-domains/src/reduce.rs:337-367 | refinement enlarges no leaf at any depth |
| `Reduction.RoundPreserves` | abstract-domains/src/reduce.rs:137-195 | one round keeps the represented set exactly |
| `Reduction.ReducePreserves` | abstract-domains/src/reduce.rs:200-228 | for every fuel and every nesting, reduction keeps the represented set exactly |
| `Reduction.ReduceBottom` | abstract-domains/src/reduce.rs:197-228 | bottom means that the set was empty |
| `Reduction.ReduceShrinks` | abstract-domains/src/reduce.rs:200-228 | reduction enlarges no leaf |
| `Reduction.EarlyStopLosesNothing` | abstract-domains/src/reduce.rs:210-217 | with canonical leaves, stopping at the first round without progress gives what all rounds would give |
| `Reduction.ReduceComplete` | abstract-domains/src/reduce.rs:200-228 | with exact leaves and some fuel, every leaf ends as the whole product and an empty product is bottom |
| `Reduction.MeetReduceSound` | abstract-domains/src/reduce.rs:231-253 | a reduced meet keeps every common value |
| `Reduction.MeetReduceExact` | abstract-domains/src/reduce.rs:231-253 | and holds nothing else when the meets of its leaves are exact |
| `WordProducts.RefineArcSound` | abstract-domains/src/wrapped.rs:1054-1071 | refining an arc keeps its words within the bounds and never enlarges it |
| `WordProducts.RefineArcExact` | abstract-domains/src/wrapped.rs:1051-1071 | it is the exact intersection unless arc and bounds cross twice, and then the arc is kept |
| `WordProducts.MeetEnlargesIff` | abstract-domains/src/wrapped.rs:1051-1060 | a plain meet leaves its first operand exactly when the arcs cross twice and the second is chosen |
| `WordProducts.MeetEnlargesExample` | abstract-domains/src/wrapped.rs:1051-1060 | an input on 4 bits where the meet enlarges and the refinement does not |
| `WordProducts.WordLeavesLawful` | abstract-domains/src/facts.rs:125-198 | intervals, arcs and fact records obey the laws that reduction rests on |
| `WordProducts.WordLeavesCanonical` | abstract-domains/src/facts.rs:113-123 | and are canonical |
| `WordProducts.LinearLeavesExact` | abstract-domains/src/facts.rs:168-198 | intervals, fact records and arcs that do not pass zero write and refine exactly |
| `WordProducts.WordReduceCorrect` | abstract-domains/src/reduce.rs:200-228 | any nesting of word domains keeps its set, enlarges no leaf and loses nothing by stopping early |
| `WordProducts.WordReduceComplete` | abstract-domains/src/reduce.rs:200-228 | without an arc through zero, one round makes every leaf the whole product, and an empty product is bottom |
| `WordProducts.LeafLeqExact` | abstract-domains/src/facts.rs:91-93 | the order of leaves of one domain is inclusion |
| `WordProducts.LeafMeetExact` | abstract-domains/src/facts.rs:101-106 | the meet of leaves of one domain is the intersection unless two arcs cross twice |

## Left out

- Bitwise and, or, xor, not and shifts of tnums beyond what addition, multiplication and division use: they act bit by bit and would only add easy members.
- The remaining guarded word operations: `ExecUnum::mul`, `ExecUnum::from_interval` and the conversions between word domains.
- `ExecUnum::neg`, `ExecUnum::sub` and `ExecAnum::to_etn`: the program gives them no containment contract, and negating base 0 or converting base 1 with span 1 drops values.
- `main.rs` and `exec_tnum.rs`: older or narrower copies of the library modules.
- `bool4.rs`, `sign.rs`, `interval_z.rs`, `facts_z.rs` and `facts_ops.rs`: case tables and thin lifts.
- Interval addition, subtraction, negation, multiplication and widening: only inclusion, meet, division and remainder are used by the other domains.
- `ibig.rs`: unbounded integers are built into the model.
- `chopped.rs` and the bridges between native words and naturals: words are naturals here.
- `gcd_machine_modulus_exponent` and the count of trailing zeros: only the gcd with the machine modulus is used by the domains.
- Arithmetic, comparison and the combination of division flags on products: componentwise.
- `au-verus`, the e-graph, the containers and the traversal crates.
- Macro stamping per width, inlining, performance notes and solver limits.
- Crt.MulModWord: the 64-bit variants of the product, which differ only in the width of the intermediate word, are not separate members.
- Reduction.MeetReduceSound: keeps every common value; the meet of leaves may add some, as a wrapped meet does. `Reduction.MeetReduceExact` says when it adds none.
