/**
 * What the queries of Sexprs compute, each stated against an independent
 * reference: the value against sums and products of the children's values,
 * the critical-path cost against the costs of root-to-node paths, the total
 * work against the costs of all nodes, the leaf test against a quantifier.
 */
module SexprLaws {
  import opened OpTypes
  import opened Sexprs
  import opened Paths
  import opened Folds

  // ---- Interpret ----------------------------------------------------------

  lemma InterpretInt(n: int)
    ensures Interpret(Int(n)) == n
  {}

  /** `+` is the sum of its children's values: 0 with no children. */
  lemma InterpretPlus(v: seq<Sexpr>, d: nat)
    ensures Interpret(Op(Plus, v, d)) == Sum(Values(v))
    ensures v == [] ==> Interpret(Op(Plus, v, d)) == 0
  {
    FoldAddIsSum(0, Values(v));
  }

  /** `*` is the product of its children's values: 1 with no children. */
  lemma InterpretMul(v: seq<Sexpr>, d: nat)
    ensures Interpret(Op(Mul, v, d)) == Product(Values(v))
    ensures v == [] ==> Interpret(Op(Mul, v, d)) == 1
  {
    FoldMultiplyIsProduct(1, Values(v));
  }

  /** `-` by arity: 0, the negated value, or the first value minus the sum of the rest. */
  lemma InterpretMinus(v: seq<Sexpr>, d: nat)
    ensures |v| == 0 ==> Interpret(Op(Minus, v, d)) == 0
    ensures |v| == 1 ==> Interpret(Op(Minus, v, d)) == -Interpret(v[0])
    ensures |v| >= 2 ==> Interpret(Op(Minus, v, d)) == Interpret(v[0]) - Sum(Values(v[1..]))
  {
    if |v| >= 2 {
      FoldSubtractIsDifference(Interpret(v[0]), Values(v[1..]));
    }
  }

  /** With exactly two children `-` is ordinary subtraction, first minus second. */
  lemma InterpretMinusBinary(a: Sexpr, b: Sexpr, d: nat)
    ensures Interpret(Op(Minus, [a, b], d)) == Interpret(a) - Interpret(b)
  {
    InterpretMinus([a, b], d);
    assert [a, b][1..] == [b];
    assert Values([b]) == [Interpret(b)];
  }

  // ---- OpCost and Exprs ---------------------------------------------------

  /** A literal costs nothing at all and has no children. */
  lemma IntCostsNothing(n: int)
    ensures Exprs(Int(n)) == [] && OpCost(Int(n)) == 0
    ensures NetworkCost(Int(n)) == 0 && CpuCost(Int(n)) == 0
  {}

  // ---- NetworkCost: critical path -----------------------------------------

  /** The critical-path cost is own cost plus the maximum of the children's, 0 for no children. */
  lemma NetworkCostIsOwnPlusMax(t: Sexpr)
    ensures forall i | 0 <= i < |Exprs(t)| :: OpCost(t) + NetworkCost(Exprs(t)[i]) <= NetworkCost(t)
    ensures Exprs(t) == [] ==> NetworkCost(t) == OpCost(t)
    ensures Exprs(t) != [] ==>
              exists i | 0 <= i < |Exprs(t)| :: NetworkCost(t) == OpCost(t) + NetworkCost(Exprs(t)[i])
  {
    var cs := NetworkCosts(t, Exprs(t));
    FoldMaxIsMaximum(0, cs);
    if Exprs(t) != [] && FoldLeft(Max, 0, cs) == 0 {
      assert cs[0] <= 0;
      assert NetworkCost(t) == OpCost(t) + NetworkCost(Exprs(t)[0]);
    }
  }

  /** No root-to-node path costs more than the critical-path cost. */
  lemma {:induction false} NetworkCostBoundsEveryPath(t: Sexpr, p: seq<nat>)
    requires ValidPath(t, p)
    ensures PathCost(t, p) <= NetworkCost(t)
    decreases |p|
  {
    if p != [] {
      NetworkCostIsOwnPlusMax(t);
      NetworkCostBoundsEveryPath(Exprs(t)[p[0]], p[1..]);
    }
  }

  /** Some root-to-node path costs exactly the critical-path cost. */
  lemma {:induction false} CriticalPathExists(t: Sexpr)
    ensures exists p :: ValidPath(t, p) && PathCost(t, p) == NetworkCost(t)
    decreases t
  {
    NetworkCostIsOwnPlusMax(t);
    if Exprs(t) == [] {
      assert ValidPath(t, []) && PathCost(t, []) == NetworkCost(t);
    } else {
      var i :| 0 <= i < |Exprs(t)| && NetworkCost(t) == OpCost(t) + NetworkCost(Exprs(t)[i]);
      var c := Exprs(t)[i];
      CriticalPathExists(c);
      var q :| ValidPath(c, q) && PathCost(c, q) == NetworkCost(c);
      var p := [i] + q;
      assert p[0] == i && p[1..] == q;
      assert ValidPath(t, p) && PathCost(t, p) == NetworkCost(t);
    }
  }

  // ---- CpuCost: total work ------------------------------------------------

  /** Every node of the tree, in pre-order. */
  ghost function Nodes(t: Sexpr): seq<Sexpr>
    decreases t, 1
  {
    match t
    case Int(_) => [t]
    case Op(_, v, _) => [t] + NodesOf(v)
  }

  ghost function NodesOf(v: seq<Sexpr>): seq<Sexpr>
    decreases v, 0
  {
    if v == [] then [] else Nodes(v[0]) + NodesOf(v[1..])
  }

  /** Sum of the own costs of `ns`. */
  ghost function TotalCost(ns: seq<Sexpr>): nat
  {
    if ns == [] then 0 else OpCost(ns[0]) + TotalCost(ns[1..])
  }

  lemma {:induction false} TotalCostAppend(a: seq<Sexpr>, b: seq<Sexpr>)
    ensures TotalCost(a + b) == TotalCost(a) + TotalCost(b)
    decreases |a|
  {
    if a == [] {
      assert a + b == b;
    } else {
      assert (a + b)[0] == a[0];
      assert (a + b)[1..] == a[1..] + b;
      TotalCostAppend(a[1..], b);
    }
  }

  /** The total-work cost is the sum of the own costs of all nodes of the tree. */
  lemma {:induction false} CpuCostIsTotalWork(t: Sexpr)
    ensures CpuCost(t) == TotalCost(Nodes(t))
    decreases t, 1
  {
    var cs := CpuCosts(t, Exprs(t));
    FoldAddNatIsSum(0, cs);
    match t
    case Int(_) =>
    case Op(_, v, _) =>
      SumOfCpuCosts(v, cs);
      TotalCostAppend([t], NodesOf(v));
  }

  lemma {:induction false} SumOfCpuCosts(v: seq<Sexpr>, cs: seq<nat>)
    requires |cs| == |v|
    requires forall i | 0 <= i < |v| :: cs[i] == CpuCost(v[i])
    ensures Sum(cs) == TotalCost(NodesOf(v))
    decreases v, 0
  {
    if v != [] {
      CpuCostIsTotalWork(v[0]);
      SumOfCpuCosts(v[1..], cs[1..]);
      TotalCostAppend(Nodes(v[0]), NodesOf(v[1..]));
    }
  }

  /** The total-work cost is own cost plus the sum of the children's. */
  lemma CpuCostIsOwnPlusSum(t: Sexpr, cs: seq<nat>)
    requires |cs| == |Exprs(t)|
    requires forall i | 0 <= i < |cs| :: cs[i] == CpuCost(Exprs(t)[i])
    ensures CpuCost(t) == OpCost(t) + Sum(cs)
  {
    assert CpuCosts(t, Exprs(t)) == cs;
    FoldAddNatIsSum(0, cs);
  }

  /** The total-work cost is own cost plus at least each child's. */
  lemma CpuCostBoundsChildren(t: Sexpr)
    ensures forall i | 0 <= i < |Exprs(t)| :: OpCost(t) + CpuCost(Exprs(t)[i]) <= CpuCost(t)
  {
    var cs := CpuCosts(t, Exprs(t));
    FoldAddNatIsSum(0, cs);
    SumOfNatsBoundsTerms(cs);
  }

  /** The critical path never costs more than the total work. */
  lemma {:induction false} NetworkCostAtMostCpuCost(t: Sexpr)
    ensures NetworkCost(t) <= CpuCost(t)
    decreases t
  {
    NetworkCostIsOwnPlusMax(t);
    CpuCostBoundsChildren(t);
    if Exprs(t) == [] {
      assert CpuCosts(t, Exprs(t)) == [];
    } else {
      var i :| 0 <= i < |Exprs(t)| && NetworkCost(t) == OpCost(t) + NetworkCost(Exprs(t)[i]);
      NetworkCostAtMostCpuCost(Exprs(t)[i]);
    }
  }

  // ---- IsLeafOp -----------------------------------------------------------

  /** Leaf operator exactly when no child has children, i.e. each is a literal or a childless operator. */
  lemma IsLeafOpIff(t: Sexpr)
    ensures IsLeafOp(t) <==> forall i | 0 <= i < |Exprs(t)| :: Exprs(Exprs(t)[i]) == []
    ensures IsLeafOp(t) <==>
              forall i | 0 <= i < |Exprs(t)| :: Exprs(t)[i].Int? || Exprs(t)[i].sexprs == []
    ensures t.Int? ==> IsLeafOp(t)
  {
    FoldAndIsAll(true, Childless(Exprs(t)));
  }
}
