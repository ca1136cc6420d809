/**
 * Reals extended with the two infinities the planner uses as sentinels:
 * `float('inf')` for an impossible edge or a missing path, `float('-inf')`
 * for the fitness of an invalid individual.
 */
module ExtReals {
  datatype ExtReal = NegInf | Finite(value: real) | PosInf

  /** The order Python's `<` gives on floats, restricted to these values. */
  predicate Less(a: ExtReal, b: ExtReal)
  {
    match (a, b)
    case (NegInf, NegInf) => false
    case (NegInf, _) => true
    case (Finite(x), Finite(y)) => x < y
    case (Finite(_), PosInf) => true
    case (_, _) => false
  }

  predicate LessEq(a: ExtReal, b: ExtReal)
  {
    a == b || Less(a, b)
  }

  /** Addition where an infinite summand wins (never used with both infinities). */
  function Add(a: ExtReal, b: ExtReal): ExtReal
  {
    match (a, b)
    case (Finite(x), Finite(y)) => Finite(x + y)
    case (PosInf, _) => PosInf
    case (_, PosInf) => PosInf
    case (_, _) => NegInf
  }

  lemma LessIsStrictTotalOrder(a: ExtReal, b: ExtReal, c: ExtReal)
    ensures !Less(a, a)
    ensures Less(a, b) && Less(b, c) ==> Less(a, c)
    ensures a == b || Less(a, b) || Less(b, a)
  {
  }
}
