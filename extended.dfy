/**
 * Integers extended with the two infinities. The search code starts its
 * accumulators (`best`, `best_score`, `alpha`, `beta`) at `-math.inf` or
 * `math.inf`; this type models those sentinels exactly, with Python's
 * ordering, `max` and `min`.
 */
module Extended {
  datatype ExtInt = NegInf | Fin(n: int) | PosInf

  /** `x <= y` in the order NegInf < every integer < PosInf. */
  predicate Le(x: ExtInt, y: ExtInt) {
    x.NegInf? || y.PosInf? || (x.Fin? && y.Fin? && x.n <= y.n)
  }

  predicate Lt(x: ExtInt, y: ExtInt) {
    !Le(y, x)
  }

  function Max(x: ExtInt, y: ExtInt): ExtInt {
    if Le(x, y) then y else x
  }

  function Min(x: ExtInt, y: ExtInt): ExtInt {
    if Le(x, y) then x else y
  }

  lemma LeTrans(x: ExtInt, y: ExtInt, z: ExtInt)
    requires Le(x, y) && Le(y, z)
    ensures Le(x, z)
  {
  }
}
