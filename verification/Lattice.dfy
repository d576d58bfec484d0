/** Values shared by the domains over words. */
module Lattice {
  /** A domain value or bottom. */
  datatype BotOr<T> = Bot | Val(value: T)

  /** Whether a divisor can be zero: for no member, for some, for every one. */
  datatype DivZero = Never | Maybe | Always
}
