/**
 * The depth-cost annotation pass: every operator node receives the cost
 * accumulated by its ancestors, starting from a given cost at the root.
 * The pass is a method that walks the children with a loop, proved equal to
 * the function WithDepthCost; the lemmas say what that function does and what
 * it leaves alone.
 */
module DepthCost {
  import opened OpTypes
  import opened Sexprs
  import opened Paths

  /** `t` with its root annotated `cost` and each operator child annotated the parent's cost plus the parent operator's cost. */
  function WithDepthCost(t: Sexpr, cost: nat): (r: Sexpr)
    decreases t, 1
  {
    match t
    case Int(_) => t
    case Op(op, v, _) => Op(op, WithDepthCosts(v, cost + Cost(op)), cost)
  }

  function WithDepthCosts(v: seq<Sexpr>, cost: nat): (r: seq<Sexpr>)
    decreases v, 0
    ensures |r| == |v|
    ensures forall i | 0 <= i < |v| :: r[i] == WithDepthCost(v[i], cost)
  {
    if v == [] then [] else [WithDepthCost(v[0], cost)] + WithDepthCosts(v[1..], cost)
  }

  /** The annotation pass: set the root's annotation, then annotate each child in turn. */
  method UpdateDepthCost(t: Sexpr, cost: nat) returns (u: Sexpr)
    ensures u == WithDepthCost(t, cost)
    decreases t
  {
    u := t;
    if t.Op? {
      var op, e := t.opType, t.sexprs;
      u := u.(depthCost := cost);
      for i := 0 to |e|
        invariant u.Op? && u.opType == op && u.depthCost == cost && |u.sexprs| == |e|
        invariant forall k | 0 <= k < i :: u.sexprs[k] == WithDepthCost(e[k], cost + Cost(op))
        invariant forall k | i <= k < |e| :: u.sexprs[k] == e[k]
      {
        var child := UpdateDepthCost(u.sexprs[i], cost + Cost(op));
        u := u.(sexprs := u.sexprs[i := child]);
      }
      assert u.sexprs == WithDepthCosts(e, cost + Cost(op));
    }
  }

  // ---- Shape: the tree with every annotation cleared ----------------------

  /** `t` with every depth-cost annotation set to 0: its operators, child order and count, and literals. */
  function Erase(t: Sexpr): (r: Sexpr)
    decreases t, 1
    ensures r.Int? <==> t.Int?
    ensures t.Int? ==> r == t
    ensures t.Op? ==> r.opType == t.opType && r.depthCost == 0 && |r.sexprs| == |t.sexprs|
  {
    match t
    case Int(_) => t
    case Op(op, v, _) => Op(op, EraseAll(v), 0)
  }

  function EraseAll(v: seq<Sexpr>): (r: seq<Sexpr>)
    decreases v, 0
    ensures |r| == |v|
    ensures forall i | 0 <= i < |v| :: r[i] == Erase(v[i])
  {
    if v == [] then [] else [Erase(v[0])] + EraseAll(v[1..])
  }

  /** Two trees have the same erasure exactly when they agree on everything but the annotations. */
  lemma {:induction false} EraseEqualIff(a: Sexpr, b: Sexpr)
    ensures Erase(a) == Erase(b) <==>
              (a.Int? && b.Int? && a.value == b.value) ||
              (a.Op? && b.Op? && a.opType == b.opType && |a.sexprs| == |b.sexprs| &&
               forall i | 0 <= i < |a.sexprs| :: Erase(a.sexprs[i]) == Erase(b.sexprs[i]))
  {
    if a.Op? && b.Op? {
      var ea, eb := EraseAll(a.sexprs), EraseAll(b.sexprs);
      assert Erase(a) == Op(a.opType, ea, 0);
      assert Erase(b) == Op(b.opType, eb, 0);
      if Erase(a) == Erase(b) {
        assert ea == eb;
        forall i | 0 <= i < |a.sexprs|
          ensures Erase(a.sexprs[i]) == Erase(b.sexprs[i])
        {
          assert ea[i] == eb[i];
        }
      }
      if a.opType == b.opType && |a.sexprs| == |b.sexprs| &&
         forall i | 0 <= i < |a.sexprs| :: Erase(a.sexprs[i]) == Erase(b.sexprs[i])
      {
        assert ea == eb;
      }
    }
  }

  /** The value does not depend on annotations. */
  lemma {:induction false} EraseKeepsValue(t: Sexpr)
    ensures Interpret(Erase(t)) == Interpret(t)
    decreases t
  {
    match t
    case Int(_) =>
    case Op(op, v, _) =>
      var w := EraseAll(v);
      forall i | 0 <= i < |v|
        ensures Interpret(w[i]) == Interpret(v[i])
      {
        EraseKeepsValue(v[i]);
      }
      assert Values(w) == Values(v);
      if |v| >= 2 {
        assert Values(w[1..]) == Values(v[1..]);
      }
  }

  /** The critical-path cost does not depend on annotations. */
  lemma {:induction false} EraseKeepsNetworkCost(t: Sexpr)
    ensures NetworkCost(Erase(t)) == NetworkCost(t)
    decreases t
  {
    match t
    case Int(_) =>
    case Op(op, v, _) =>
      var w := EraseAll(v);
      forall i | 0 <= i < |v|
        ensures NetworkCost(w[i]) == NetworkCost(v[i])
      {
        EraseKeepsNetworkCost(v[i]);
      }
      assert NetworkCosts(Erase(t), w) == NetworkCosts(t, v);
  }

  /** The total-work cost does not depend on annotations. */
  lemma {:induction false} EraseKeepsCpuCost(t: Sexpr)
    ensures CpuCost(Erase(t)) == CpuCost(t)
    decreases t
  {
    match t
    case Int(_) =>
    case Op(op, v, _) =>
      var w := EraseAll(v);
      forall i | 0 <= i < |v|
        ensures CpuCost(w[i]) == CpuCost(v[i])
      {
        EraseKeepsCpuCost(v[i]);
      }
      assert CpuCosts(Erase(t), w) == CpuCosts(t, v);
  }

  /** The leaf test does not depend on annotations. */
  lemma EraseKeepsLeafTest(t: Sexpr)
    ensures IsLeafOp(Erase(t)) == IsLeafOp(t)
  {
    if t.Op? {
      var w := EraseAll(t.sexprs);
      assert Childless(w) == Childless(t.sexprs);
    }
  }

  /** Trees that differ only in their annotations answer every query alike. */
  lemma SameShapeSameQueries(a: Sexpr, b: Sexpr)
    requires Erase(a) == Erase(b)
    ensures Interpret(a) == Interpret(b)
    ensures NetworkCost(a) == NetworkCost(b)
    ensures CpuCost(a) == CpuCost(b)
    ensures IsLeafOp(a) == IsLeafOp(b)
  {
    EraseKeepsValue(a);
    EraseKeepsValue(b);
    EraseKeepsNetworkCost(a);
    EraseKeepsNetworkCost(b);
    EraseKeepsCpuCost(a);
    EraseKeepsCpuCost(b);
    EraseKeepsLeafTest(a);
    EraseKeepsLeafTest(b);
  }

  // ---- What the pass changes and what it keeps -----------------------------

  /** The pass changes nothing but annotations. */
  lemma {:induction false} WithDepthCostKeepsShape(t: Sexpr, cost: nat)
    ensures Erase(WithDepthCost(t, cost)) == Erase(t)
    decreases t
  {
    match t
    case Int(_) =>
    case Op(op, v, _) =>
      forall i | 0 <= i < |v|
        ensures Erase(WithDepthCosts(v, cost + Cost(op))[i]) == Erase(v[i])
      {
        WithDepthCostKeepsShape(v[i], cost + Cost(op));
      }
      assert EraseAll(WithDepthCosts(v, cost + Cost(op))) == EraseAll(v);
  }

  /** After the pass the value, both costs and the leaf test are as before. */
  lemma WithDepthCostKeepsQueries(t: Sexpr, cost: nat)
    ensures Interpret(WithDepthCost(t, cost)) == Interpret(t)
    ensures NetworkCost(WithDepthCost(t, cost)) == NetworkCost(t)
    ensures CpuCost(WithDepthCost(t, cost)) == CpuCost(t)
    ensures IsLeafOp(WithDepthCost(t, cost)) == IsLeafOp(t)
  {
    WithDepthCostKeepsShape(t, cost);
    SameShapeSameQueries(WithDepthCost(t, cost), t);
  }

  /** The result of the pass depends only on the shape, not on earlier annotations. */
  lemma {:induction false} WithDepthCostIgnoresAnnotations(t: Sexpr, cost: nat)
    ensures WithDepthCost(Erase(t), cost) == WithDepthCost(t, cost)
    decreases t
  {
    match t
    case Int(_) =>
    case Op(op, v, _) =>
      var w := EraseAll(v);
      forall i | 0 <= i < |v|
        ensures WithDepthCost(w[i], cost + Cost(op)) == WithDepthCost(v[i], cost + Cost(op))
      {
        WithDepthCostIgnoresAnnotations(v[i], cost + Cost(op));
      }
      assert WithDepthCosts(w, cost + Cost(op)) == WithDepthCosts(v, cost + Cost(op));
  }

  /** Running the pass twice with the same cost gives the tree that running it once does. */
  lemma WithDepthCostIdempotent(t: Sexpr, cost: nat)
    ensures WithDepthCost(WithDepthCost(t, cost), cost) == WithDepthCost(t, cost)
  {
    var u := WithDepthCost(t, cost);
    WithDepthCostKeepsShape(t, cost);
    WithDepthCostIgnoresAnnotations(u, cost);
    WithDepthCostIgnoresAnnotations(t, cost);
  }

  // ---- The annotation it writes --------------------------------------------

  /** Root annotated `cost` if an operator; each operator child annotated its parent's annotation plus the parent operator's cost. */
  ghost predicate DepthsFrom(t: Sexpr, cost: nat)
    decreases t
  {
    match t
    case Int(_) => true
    case Op(op, v, d) =>
      d == cost && forall i | 0 <= i < |v| :: DepthsFrom(v[i], cost + Cost(op))
  }

  lemma {:induction false} WithDepthCostAnnotates(t: Sexpr, cost: nat)
    ensures DepthsFrom(WithDepthCost(t, cost), cost)
    decreases t
  {
    match t
    case Int(_) =>
    case Op(op, v, _) =>
      var w := WithDepthCosts(v, cost + Cost(op));
      forall i | 0 <= i < |v|
        ensures DepthsFrom(w[i], cost + Cost(op))
      {
        WithDepthCostAnnotates(v[i], cost + Cost(op));
      }
  }

  /** A tree with the shape of `t` and annotated from `cost` is the result of the pass: shape and annotation rule determine it. */
  lemma {:induction false} AnnotationIsUnique(t: Sexpr, u: Sexpr, cost: nat)
    requires Erase(u) == Erase(t) && DepthsFrom(u, cost)
    ensures u == WithDepthCost(t, cost)
    decreases u
  {
    EraseEqualIff(u, t);
    if u.Op? {
      var c := cost + Cost(u.opType);
      var v, tv := u.sexprs, t.sexprs;
      forall i | 0 <= i < |v|
        ensures v[i] == WithDepthCost(tv[i], c)
      {
        AnnotationIsUnique(tv[i], v[i], c);
      }
      var w := WithDepthCosts(tv, c);
      assert v == w;
      assert WithDepthCost(t, cost) == Op(u.opType, w, cost);
    }
  }

  /** The subtree of the annotated tree at a path is the annotated subtree, started from `cost` plus the ancestors' costs. */
  lemma {:induction false} WithDepthCostAt(t: Sexpr, cost: nat, p: seq<nat>)
    requires ValidPath(t, p)
    ensures ValidPath(WithDepthCost(t, cost), p)
    ensures At(WithDepthCost(t, cost), p) == WithDepthCost(At(t, p), cost + AncestorCost(t, p))
    decreases |p|
  {
    if p != [] {
      var u := WithDepthCost(t, cost);
      var i, rest, c := p[0], p[1..], cost + OpCost(t);
      var child := Exprs(t)[i];
      AnnotatedChild(t, cost, i);
      WithDepthCostAt(child, c, rest);
      assert ValidPath(u, p) by {
        assert i < |Exprs(u)| && ValidPath(Exprs(u)[i], rest);
      }
      calc {
        At(u, p);
        At(Exprs(u)[i], rest);
        At(WithDepthCost(child, c), rest);
        WithDepthCost(At(child, rest), c + AncestorCost(child, rest));
        { assert At(child, rest) == At(t, p) && c + AncestorCost(child, rest) == cost + AncestorCost(t, p); }
        WithDepthCost(At(t, p), cost + AncestorCost(t, p));
      }
    }
  }

  /** Child `i` of the annotated tree is child `i` of the tree, annotated from the root's cost plus its own. */
  lemma AnnotatedChild(t: Sexpr, cost: nat, i: nat)
    requires i < |Exprs(t)|
    ensures i < |Exprs(WithDepthCost(t, cost))|
    ensures Exprs(WithDepthCost(t, cost))[i] == WithDepthCost(Exprs(t)[i], cost + OpCost(t))
  {
    assert Exprs(WithDepthCost(t, cost)) == WithDepthCosts(t.sexprs, cost + OpCost(t));
  }

  /** After the pass an operator node's annotation is the root cost plus the costs of all its ancestors. */
  lemma DepthIsAncestorCost(t: Sexpr, cost: nat, p: seq<nat>)
    requires ValidPath(t, p) && At(t, p).Op?
    ensures ValidPath(WithDepthCost(t, cost), p)
    ensures At(WithDepthCost(t, cost), p).Op?
    ensures At(WithDepthCost(t, cost), p).depthCost == cost + AncestorCost(t, p)
  {
    WithDepthCostAt(t, cost, p);
  }

  /** After the pass the annotation grows by the parent operator's cost, so strictly, from an operator to each operator child. */
  lemma DepthIncreasesDownward(t: Sexpr, cost: nat, p: seq<nat>, i: nat)
    requires ValidPath(t, p + [i]) && At(t, p + [i]).Op?
    ensures ValidPath(t, p) && ValidPath(WithDepthCost(t, cost), p) && ValidPath(WithDepthCost(t, cost), p + [i])
    ensures At(WithDepthCost(t, cost), p).Op? && At(WithDepthCost(t, cost), p + [i]).Op?
    ensures At(WithDepthCost(t, cost), p + [i]).depthCost ==
              At(WithDepthCost(t, cost), p).depthCost + Cost(At(WithDepthCost(t, cost), p).opType)
    ensures At(WithDepthCost(t, cost), p + [i]).depthCost > At(WithDepthCost(t, cost), p).depthCost
  {
    PrefixValid(t, p, [i]);
    PathSnoc(t, p, i);
    var parent := At(t, p);
    assert parent.Op?;
    DepthIsAncestorCost(t, cost, p + [i]);
    WithDepthCostAt(t, cost, p);
    assert At(WithDepthCost(t, cost), p) == WithDepthCost(parent, cost + AncestorCost(t, p));
  }

  lemma {:induction false} PrefixValid(t: Sexpr, p: seq<nat>, q: seq<nat>)
    requires ValidPath(t, p + q)
    ensures ValidPath(t, p)
    decreases |p|
  {
    if p != [] {
      assert (p + q)[0] == p[0] && (p + q)[1..] == p[1..] + q;
      PrefixValid(Exprs(t)[p[0]], p[1..], q);
    }
  }
}
