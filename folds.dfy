/**
 * Left folds over sequences, the shape of every `iter().fold(init, step)` in
 * the evaluator, with the step functions it uses and reference definitions
 * (sum, product, maximum, conjunction) each fold is proved to compute.
 */
module Folds {

  /** `acc` combined with each element of `xs` in turn, first element first. */
  function FoldLeft<A, B>(f: (A, B) -> A, acc: A, xs: seq<B>): A
    decreases |xs|
  {
    if xs == [] then acc else FoldLeft(f, f(acc, xs[0]), xs[1..])
  }

  // Step functions passed to FoldLeft.
  function Add(acc: int, x: int): int { acc + x }
  function Subtract(acc: int, x: int): int { acc - x }
  function Multiply(acc: int, x: int): int { acc * x }
  // Add at type nat, so that the total-work fold stays in nat as the source's usize costs do.
  function AddNat(acc: nat, x: nat): nat { acc + x }
  function Max(acc: nat, x: nat): nat { if acc < x then x else acc }
  function And(acc: bool, x: bool): bool { acc && x }

  /** Reference sum, recursive from the front. */
  function Sum(xs: seq<int>): int
  {
    if xs == [] then 0 else xs[0] + Sum(xs[1..])
  }

  /** Reference product, recursive from the front. */
  function Product(xs: seq<int>): int
  {
    if xs == [] then 1 else xs[0] * Product(xs[1..])
  }

  lemma {:induction false} FoldAddIsSum(acc: int, xs: seq<int>)
    ensures FoldLeft(Add, acc, xs) == acc + Sum(xs)
    decreases |xs|
  {
    if xs != [] {
      FoldAddIsSum(acc + xs[0], xs[1..]);
    }
  }

  /** Subtracting each element in turn subtracts their sum. */
  lemma {:induction false} FoldSubtractIsDifference(acc: int, xs: seq<int>)
    ensures FoldLeft(Subtract, acc, xs) == acc - Sum(xs)
    decreases |xs|
  {
    if xs != [] {
      FoldSubtractIsDifference(acc - xs[0], xs[1..]);
    }
  }

  lemma {:induction false} FoldMultiplyIsProduct(acc: int, xs: seq<int>)
    ensures FoldLeft(Multiply, acc, xs) == acc * Product(xs)
    decreases |xs|
  {
    if xs != [] {
      FoldMultiplyIsProduct(acc * xs[0], xs[1..]);
      assert acc * xs[0] * Product(xs[1..]) == acc * (xs[0] * Product(xs[1..]));
    }
  }

  /** FoldAddIsSum at type nat, for the AddNat step. */
  lemma {:induction false} FoldAddNatIsSum(acc: nat, xs: seq<nat>)
    ensures FoldLeft(AddNat, acc, xs) == acc + Sum(xs)
    decreases |xs|
  {
    if xs != [] {
      FoldAddNatIsSum(acc + xs[0], xs[1..]);
    }
  }

  /** A sum of naturals is a natural and bounds each of its terms. */
  lemma {:induction false} SumOfNatsBoundsTerms(xs: seq<nat>)
    ensures 0 <= Sum(xs)
    ensures forall i | 0 <= i < |xs| :: xs[i] <= Sum(xs)
    decreases |xs|
  {
    if xs != [] {
      SumOfNatsBoundsTerms(xs[1..]);
      forall i | 1 <= i < |xs|
        ensures xs[i] <= Sum(xs)
      {
        assert xs[i] == xs[1..][i - 1];
      }
    }
  }

  /** The max-fold is the least upper bound of `acc` and the elements: it bounds all of them and is one of them. */
  lemma {:induction false} FoldMaxIsMaximum(acc: nat, xs: seq<nat>)
    ensures acc <= FoldLeft(Max, acc, xs)
    ensures forall i | 0 <= i < |xs| :: xs[i] <= FoldLeft(Max, acc, xs)
    ensures FoldLeft(Max, acc, xs) == acc || exists i | 0 <= i < |xs| :: FoldLeft(Max, acc, xs) == xs[i]
    decreases |xs|
  {
    if xs != [] {
      var m := Max(acc, xs[0]);
      var r := FoldLeft(Max, acc, xs);
      assert r == FoldLeft(Max, m, xs[1..]);
      FoldMaxIsMaximum(m, xs[1..]);
      forall i | 1 <= i < |xs|
        ensures xs[i] <= r
      {
        assert xs[i] == xs[1..][i - 1];
      }
      if r != m {
        var j :| 0 <= j < |xs[1..]| && r == xs[1..][j];
        assert r == xs[j + 1];
      } else if m != acc {
        assert r == xs[0];
      }
    }
  }

  /** The and-fold holds exactly when `acc` and every element hold. */
  lemma {:induction false} FoldAndIsAll(acc: bool, xs: seq<bool>)
    ensures FoldLeft(And, acc, xs) <==> acc && forall i | 0 <= i < |xs| :: xs[i]
    decreases |xs|
  {
    if xs != [] {
      FoldAndIsAll(acc && xs[0], xs[1..]);
      assert (forall i | 0 <= i < |xs| :: xs[i]) <==> xs[0] && forall i | 0 <= i < |xs[1..]| :: xs[1..][i];
    }
  }
}
