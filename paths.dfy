/**
 * Root-to-node paths: a path is the sequence of child indices taken from the
 * root. Used to state critical-path and depth-cost facts node by node.
 */
module Paths {
  import opened Sexprs

  /** Each index of `p` picks an existing child of the node reached so far. */
  ghost predicate ValidPath(t: Sexpr, p: seq<nat>)
    decreases |p|
  {
    p == [] || (p[0] < |Exprs(t)| && ValidPath(Exprs(t)[p[0]], p[1..]))
  }

  /** The subtree that `p` reaches. */
  ghost function At(t: Sexpr, p: seq<nat>): Sexpr
    requires ValidPath(t, p)
    decreases |p|
  {
    if p == [] then t else At(Exprs(t)[p[0]], p[1..])
  }

  /** Sum of the own costs of every node on `p`, both ends included. */
  ghost function PathCost(t: Sexpr, p: seq<nat>): nat
    requires ValidPath(t, p)
    decreases |p|
  {
    OpCost(t) + if p == [] then 0 else PathCost(Exprs(t)[p[0]], p[1..])
  }

  /** Sum of the own costs of the strict ancestors of the node `p` reaches. */
  ghost function AncestorCost(t: Sexpr, p: seq<nat>): nat
    requires ValidPath(t, p)
    decreases |p|
  {
    if p == [] then 0 else OpCost(t) + AncestorCost(Exprs(t)[p[0]], p[1..])
  }

  /** Extending a path by one child index. */
  lemma {:induction false} PathSnoc(t: Sexpr, p: seq<nat>, i: nat)
    requires ValidPath(t, p)
    ensures ValidPath(t, p + [i]) <==> i < |Exprs(At(t, p))|
    ensures ValidPath(t, p + [i]) ==>
              At(t, p + [i]) == Exprs(At(t, p))[i] &&
              AncestorCost(t, p + [i]) == AncestorCost(t, p) + OpCost(At(t, p))
    decreases |p|
  {
    if p == [] {
      assert [] + [i] == [i];
      assert [i][1..] == [];
    } else {
      assert (p + [i])[0] == p[0];
      assert (p + [i])[1..] == p[1..] + [i];
      PathSnoc(Exprs(t)[p[0]], p[1..], i);
    }
  }
}
