/** The three operators of an s-expression and their simulated execution cost. */
module OpTypes {

  datatype OpType = Plus | Minus | Mul

  /** Execution cost of one operator node, in simulated time units. */
  function Cost(op: OpType): (r: nat)
    ensures r > 0
  {
    match op
    case Plus => 2
    case Minus => 3
    case Mul => 10
  }

  /** The concrete cost table. */
  lemma CostTable()
    ensures Cost(Plus) == 2 && Cost(Minus) == 3 && Cost(Mul) == 10
  {}
}
