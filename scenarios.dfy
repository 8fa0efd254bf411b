/**
 * The evaluator's unit tests, with each expression built directly as a tree
 * (depth annotations 0, as a freshly built tree has them).
 */
module Scenarios {
  import opened OpTypes
  import opened Sexprs
  import opened DepthCost

  // (+ (* 4 4) (* 2 (- 7 5)) 1)
  const Calc1Expr: Sexpr :=
    Op(Plus, [Op(Mul, [Int(4), Int(4)], 0),
              Op(Mul, [Int(2), Op(Minus, [Int(7), Int(5)], 0)], 0),
              Int(1)], 0)

  // 10
  const Calc2Expr: Sexpr := Int(10)

  // (* 10 (- 0 1))
  const Calc3Expr: Sexpr := Op(Mul, [Int(10), Op(Minus, [Int(0), Int(1)], 0)], 0)

  // (- (+ 10 10) -5 0)
  const Calc4Expr: Sexpr := Op(Minus, [Op(Plus, [Int(10), Int(10)], 0), Int(-5), Int(0)], 0)

  // (+ (- (* (+ (- (* 1))))))
  const Calc5Expr: Sexpr :=
    Op(Plus, [Op(Minus, [Op(Mul, [Op(Plus, [Op(Minus, [Op(Mul, [Int(1)], 0)], 0)], 0)], 0)], 0)], 0)

  // (* 2 (+ (- 10 9) (- 3 (* 2 1))) (+ (- 10 9) (- 3 (* 2 1))))
  const Calc6Expr: Sexpr :=
    Op(Mul, [Int(2),
             Op(Plus, [Op(Minus, [Int(10), Int(9)], 0), Op(Minus, [Int(3), Op(Mul, [Int(2), Int(1)], 0)], 0)], 0),
             Op(Plus, [Op(Minus, [Int(10), Int(9)], 0), Op(Minus, [Int(3), Op(Mul, [Int(2), Int(1)], 0)], 0)], 0)], 0)

  // (+ (* 2 1) (+ 8 8) (- (+ 4 3 2 1) (* 3 3) (* 2 2)) (* 5 7))
  const Calc7Expr: Sexpr :=
    Op(Plus, [Op(Mul, [Int(2), Int(1)], 0),
              Op(Plus, [Int(8), Int(8)], 0),
              Op(Minus, [Op(Plus, [Int(4), Int(3), Int(2), Int(1)], 0),
                         Op(Mul, [Int(3), Int(3)], 0),
                         Op(Mul, [Int(2), Int(2)], 0)], 0),
              Op(Mul, [Int(5), Int(7)], 0)], 0)

  // (- (+ (+ 3 3) (- 3 3) (+ 3 3) (- 3 3)) (* 2 2))
  const Calc8Expr: Sexpr :=
    Op(Minus, [Op(Plus, [Op(Plus, [Int(3), Int(3)], 0), Op(Minus, [Int(3), Int(3)], 0),
                         Op(Plus, [Int(3), Int(3)], 0), Op(Minus, [Int(3), Int(3)], 0)], 0),
               Op(Mul, [Int(2), Int(2)], 0)], 0)

  // (+ (- 6 1) (+ 0 1 1) (- 7 2) (* 3 4 5) (- 3 1) (+ 2) (- 0 10))
  const Calc9Expr: Sexpr :=
    Op(Plus, [Op(Minus, [Int(6), Int(1)], 0), Op(Plus, [Int(0), Int(1), Int(1)], 0),
              Op(Minus, [Int(7), Int(2)], 0), Op(Mul, [Int(3), Int(4), Int(5)], 0),
              Op(Minus, [Int(3), Int(1)], 0), Op(Plus, [Int(2)], 0),
              Op(Minus, [Int(0), Int(10)], 0)], 0)

  lemma Calc1()
    ensures Interpret(Calc1Expr) == 21 && NetworkCost(Calc1Expr) == 15
  {}

  lemma Calc2()
    ensures Interpret(Calc2Expr) == 10 && NetworkCost(Calc2Expr) == 0
  {}

  lemma Calc3()
    ensures Interpret(Calc3Expr) == -10 && NetworkCost(Calc3Expr) == 13
  {}

  lemma Calc4()
    ensures Interpret(Calc4Expr) == 25 && NetworkCost(Calc4Expr) == 5
  {}

  lemma Calc5()
    ensures Interpret(Calc5Expr) == 1 && NetworkCost(Calc5Expr) == 30
  {
    var m1 := Op(Mul, [Int(1)], 0);
    var m2 := Op(Mul, [Op(Plus, [Op(Minus, [m1], 0)], 0)], 0);
    assert Interpret(m1) == 1 && NetworkCost(m1) == 10;
    assert Interpret(Op(Minus, [m1], 0)) == -1 && NetworkCost(Op(Minus, [m1], 0)) == 13;
    assert Interpret(m2) == -1 && NetworkCost(m2) == 25;
    assert Calc5Expr == Op(Plus, [Op(Minus, [m2], 0)], 0);
  }

  lemma Calc6()
    ensures Interpret(Calc6Expr) == 8 && NetworkCost(Calc6Expr) == 25
  {
    Calc6Value();
    Calc6NetworkCost();
  }

  lemma Calc6Value()
    ensures Interpret(Calc6Expr) == 8
  {}

  lemma Calc6NetworkCost()
    ensures NetworkCost(Calc6Expr) == 25
  {}

  lemma Calc7()
    ensures Interpret(Calc7Expr) == 50 && NetworkCost(Calc7Expr) == 15
  {
    Calc7Value();
    Calc7NetworkCost();
  }

  lemma Calc7Value()
    ensures Interpret(Calc7Expr) == 50
  {}

  lemma Calc7NetworkCost()
    ensures NetworkCost(Calc7Expr) == 15
  {}

  lemma Calc8()
    ensures Interpret(Calc8Expr) == 8 && NetworkCost(Calc8Expr) == 13
  {
    Calc8Value();
    Calc8NetworkCost();
  }

  lemma Calc8Value()
    ensures Interpret(Calc8Expr) == 8
  {}

  lemma Calc8NetworkCost()
    ensures NetworkCost(Calc8Expr) == 13
  {}

  lemma Calc9()
    ensures Interpret(Calc9Expr) == 66 && NetworkCost(Calc9Expr) == 12
  {
    Calc9Value();
    Calc9NetworkCost();
  }

  lemma Calc9Value()
    ensures Interpret(Calc9Expr) == 66
  {}

  lemma Calc9NetworkCost()
    ensures NetworkCost(Calc9Expr) == 12
  {}

  /** Annotating calc3 from 0: the root gets 0, its `-` child gets 0 plus the cost of `*`. */
  lemma Calc3Annotated()
    ensures WithDepthCost(Calc3Expr, 0) == Op(Mul, [Int(10), Op(Minus, [Int(0), Int(1)], 10)], 0)
  {
    assert WithDepthCost(Op(Minus, [Int(0), Int(1)], 0), 10) == Op(Minus, [Int(0), Int(1)], 10);
    assert WithDepthCosts(Calc3Expr.sexprs, 10) == [Int(10), Op(Minus, [Int(0), Int(1)], 10)];
  }

  /** Annotating calc5 from 0: each operator's annotation is the sum of its ancestors' costs. */
  lemma Calc5Annotated()
    ensures WithDepthCost(Calc5Expr, 0) ==
            Op(Plus, [Op(Minus, [Op(Mul, [Op(Plus, [Op(Minus, [Op(Mul, [Int(1)], 20)], 17)], 15)], 5)], 2)], 0)
  {
    assert WithDepthCost(Op(Mul, [Int(1)], 0), 20) == Op(Mul, [Int(1)], 20);
    assert WithDepthCost(Op(Minus, [Op(Mul, [Int(1)], 0)], 0), 17) == Op(Minus, [Op(Mul, [Int(1)], 20)], 17);
    assert WithDepthCost(Op(Plus, [Op(Minus, [Op(Mul, [Int(1)], 0)], 0)], 0), 15)
        == Op(Plus, [Op(Minus, [Op(Mul, [Int(1)], 20)], 17)], 15);
    assert WithDepthCost(Op(Mul, [Op(Plus, [Op(Minus, [Op(Mul, [Int(1)], 0)], 0)], 0)], 0), 5)
        == Op(Mul, [Op(Plus, [Op(Minus, [Op(Mul, [Int(1)], 20)], 17)], 15)], 5);
    assert WithDepthCost(Op(Minus, [Op(Mul, [Op(Plus, [Op(Minus, [Op(Mul, [Int(1)], 0)], 0)], 0)], 0)], 0), 2)
        == Op(Minus, [Op(Mul, [Op(Plus, [Op(Minus, [Op(Mul, [Int(1)], 20)], 17)], 15)], 5)], 2);
  }
}
