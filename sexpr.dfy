/**
 * The expression tree and its pure queries: arithmetic value, children,
 * own cost, critical-path cost, total work and the leaf-operator test.
 * Every `iter().fold(init, |acc, s| step(acc, q(s)))` over the children is
 * written as the children mapped through `q`, then folded with `step`.
 */
module Sexprs {
  import opened OpTypes
  import Folds

  /**
   * An operator node with its ordered children and the depth-cost annotation
   * (written by the annotation pass, 0 when the tree is built), or a literal.
   * The literal's 64-bit value is an unbounded integer here.
   */
  datatype Sexpr =
    | Op(opType: OpType, sexprs: seq<Sexpr>, depthCost: nat)
    | Int(value: int)

  /** The children: those of an operator, none for a literal. */
  function Exprs(t: Sexpr): (r: seq<Sexpr>)
    ensures t.Int? ==> r == []
    ensures t.Op? ==> r == t.sexprs
    ensures forall i | 0 <= i < |r| :: r[i] < t
  {
    match t
    case Op(_, v, _) => v
    case Int(_) => []
  }

  /** Own cost: the operator's cost, 0 for a literal. */
  function OpCost(t: Sexpr): (r: nat)
    ensures r == 0 <==> t.Int?
    ensures t.Op? ==> r == Cost(t.opType)
  {
    match t
    case Op(op, _, _) => Cost(op)
    case Int(_) => 0
  }

  /** Arithmetic value. `-` depends on its number of children: none gives 0, one is negated, more are subtracted left to right. */
  function Interpret(t: Sexpr): (r: int)
    decreases t, 1
  {
    match t
    case Int(n) => n
    case Op(op, v, _) =>
      match op
      case Plus => Folds.FoldLeft(Folds.Add, 0, Values(v))
      case Minus =>
        if |v| == 0 then 0
        else if |v| == 1 then -Interpret(v[0])
        else Folds.FoldLeft(Folds.Subtract, Interpret(v[0]), Values(v[1..]))
      case Mul => Folds.FoldLeft(Folds.Multiply, 1, Values(v))
  }

  /** The values of `v`, in order. */
  function Values(v: seq<Sexpr>): (r: seq<int>)
    decreases v, 0
    ensures |r| == |v|
    ensures forall i | 0 <= i < |v| :: r[i] == Interpret(v[i])
  {
    if v == [] then [] else [Interpret(v[0])] + Values(v[1..])
  }

  /** Critical-path cost: own cost plus the largest child's, 0 when there are no children. */
  function NetworkCost(t: Sexpr): (r: nat)
    decreases t, 1
  {
    OpCost(t) + Folds.FoldLeft(Folds.Max, 0, NetworkCosts(t, Exprs(t)))
  }

  /** The critical-path costs of `v`, in order; `parent` only bounds the recursion. */
  function NetworkCosts(ghost parent: Sexpr, v: seq<Sexpr>): (r: seq<nat>)
    requires forall i | 0 <= i < |v| :: v[i] < parent
    decreases parent, 0, |v|
    ensures |r| == |v|
    ensures forall i | 0 <= i < |v| :: r[i] == NetworkCost(v[i])
  {
    if v == [] then [] else [NetworkCost(v[0])] + NetworkCosts(parent, v[1..])
  }

  /** Whether every child has no children of its own (vacuously so for a literal). */
  function IsLeafOp(t: Sexpr): (r: bool)
  {
    Folds.FoldLeft(Folds.And, true, Childless(Exprs(t)))
  }

  /** For each of `v`, whether it has no children. */
  function Childless(v: seq<Sexpr>): (r: seq<bool>)
    ensures |r| == |v|
    ensures forall i | 0 <= i < |v| :: r[i] == (Exprs(v[i]) == [])
  {
    if v == [] then [] else [Exprs(v[0]) == []] + Childless(v[1..])
  }

  /** Total work: own cost plus the sum of the children's. */
  function CpuCost(t: Sexpr): (r: nat)
    decreases t, 1
  {
    OpCost(t) + Folds.FoldLeft(Folds.AddNat, 0, CpuCosts(t, Exprs(t)))
  }

  /** The total-work costs of `v`, in order; `parent` only bounds the recursion. */
  function CpuCosts(ghost parent: Sexpr, v: seq<Sexpr>): (r: seq<nat>)
    requires forall i | 0 <= i < |v| :: v[i] < parent
    decreases parent, 0, |v|
    ensures |r| == |v|
    ensures forall i | 0 <= i < |v| :: r[i] == CpuCost(v[i])
  {
    if v == [] then [] else [CpuCost(v[0])] + CpuCosts(parent, v[1..])
  }
}
