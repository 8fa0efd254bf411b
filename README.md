# sexpr: an s-expression evaluator and its cost model, in Dafny

The program reads a prefix arithmetic expression such as `(+ (* 4 4) (* 2 (- 7 5)) 1)` into a tree. Each node is an operator (`+`, `-`, `*`) with ordered children, or an integer literal. The program then works out:

- the value of the tree;
- its critical-path cost (`network_cost`): a node's own operator cost plus the largest cost among its children;
- its total work (`cpu_cost`): a node's own cost plus the sum over its children;
- whether a node is a leaf operator (`is_leaf_op`).

An annotation pass (`update_depth_cost`) writes into every operator node the total cost of its ancestors, measured from a starting cost given at the root.

This project models that core as follows:

- `op_type.dfy` (`OpTypes`): the operators and their cost table (`+` 2, `-` 3, `*` 10).
- `sexpr.dfy` (`Sexprs`): the tree datatype and the pure queries. Each Rust `iter().fold(init, |acc, s| step(acc, q(s)))` becomes the children mapped through `q` and then a left fold with `step`.
- `folds.dfy` (`Folds`): that left fold, its step functions, and reference sum, product, maximum and conjunction. Each fold is proved to compute its reference.
- `paths.dfy` (`Paths`): root-to-node paths, given as sequences of child indices. They are used to state facts node by node.
- `sexpr_laws.dfy` (`SexprLaws`): what each query means:
  - the value, by arity rule;
  - the critical-path cost is the cost of the most expensive root-to-node path;
  - the total work is the sum of the own costs of all nodes;
  - total work is never less than the critical path;
  - the leaf test as a quantifier.
- `depth_cost.dfy` (`DepthCost`): the annotation pass. It is a method that walks the children in a loop, proved equal to the function `WithDepthCost`. The lemmas show:
  - which annotation the pass writes, and that this annotation is the only one fitting the rule;
  - that it changes nothing else;
  - that every query gives the same answer afterwards;
  - that running it twice is the same as running it once.
- `scenarios.dfy` (`Scenarios`): the nine unit tests, with the trees built directly, plus two annotated trees.

## Model

| member | source | states |
|---|---|---|
| OpTypes.Cost | src/main.rs:11-19 | every operator's cost is positive |
| OpTypes.CostTable | src/main.rs:12-18 | `+` costs 2, `-` costs 3, `*` costs 10 |
| Sexprs.Exprs | src/main.rs:43-48 | a literal has no children; an operator's children are its own, in order, each structurally smaller than the node |
| Sexprs.OpCost | src/main.rs:50-55 | own cost is the operator's cost for an operator and 0 for a literal; it is 0 exactly for literals |
| Folds.FoldAddIsSum | src/main.rs:31 | the `+` fold from an accumulator is the accumulator plus the sum of the elements |
| Folds.FoldSubtractIsDifference | src/main.rs:35 | the `-` fold from an accumulator is the accumulator minus the sum of the elements |
| Folds.FoldMultiplyIsProduct | src/main.rs:37 | the `*` fold from an accumulator is the accumulator times the product of the elements |
| Folds.FoldMaxIsMaximum | src/main.rs:58-59 | the max fold bounds the accumulator and every element, and equals the accumulator or one of the elements |
| Folds.FoldAddNatIsSum | src/main.rs:67-68 | the sum fold over naturals is the accumulator plus the sum of the elements |
| Folds.FoldAndIsAll | src/main.rs:63 | the and-fold holds exactly when the accumulator and every element hold |
| SexprLaws.InterpretInt | src/main.rs:39 | a literal evaluates to its own value |
| SexprLaws.InterpretPlus | src/main.rs:31 | `+` evaluates to the sum of its children's values; with no children it gives 0 |
| SexprLaws.InterpretMul | src/main.rs:37 | `*` evaluates to the product of its children's values; with no children it gives 1 |
| SexprLaws.InterpretMinus | src/main.rs:32-36 | `-` with no children gives 0, with one child its negation, with two or more the first value minus all the following ones |
| SexprLaws.InterpretMinusBinary | src/main.rs:35 | `-` with two children is the first value minus the second |
| SexprLaws.IntCostsNothing | src/main.rs:43-69 | a literal has no children, and its own cost, critical-path cost and total work are all 0 |
| SexprLaws.NetworkCostIsOwnPlusMax | src/main.rs:57-60 | critical-path cost is own cost plus the largest child critical-path cost: it is at least own cost plus each child's cost, equals one of these when there are children, and is the own cost when there are none |
| SexprLaws.NetworkCostBoundsEveryPath | src/main.rs:57-60 | no root-to-node path has a higher total own cost than the critical-path cost |
| SexprLaws.CriticalPathExists | src/main.rs:57-60 | some root-to-node path has total own cost equal to the critical-path cost |
| SexprLaws.CpuCostIsOwnPlusSum | src/main.rs:66-69 | total work is own cost plus the sum of the children's total work |
| SexprLaws.CpuCostIsTotalWork | src/main.rs:66-69 | total work is the sum of the own costs of all nodes of the tree |
| SexprLaws.CpuCostBoundsChildren | src/main.rs:66-69 | total work is at least own cost plus any one child's total work |
| SexprLaws.NetworkCostAtMostCpuCost | src/main.rs:57-69 | the critical-path cost is never more than the total work |
| SexprLaws.IsLeafOpIff | src/main.rs:62-64 | leaf operator exactly when no child has children, that is, when each child is a literal or a childless operator; always true for a literal |
| DepthCost.UpdateDepthCost | src/main.rs:71-78 | the annotation pass, which sets the root and then walks each child in order, returns exactly `WithDepthCost` of the input |
| DepthCost.WithDepthCostAnnotates | src/main.rs:71-78 | after the pass the root operator carries the starting cost, and each operator child carries its parent's annotation plus the parent operator's cost |
| DepthCost.AnnotationIsUnique | src/main.rs:71-78 | any tree with the input's shape that satisfies that annotation rule is the pass's result |
| DepthCost.WithDepthCostAt | src/main.rs:71-78 | the subtree of the result at any path is the original subtree annotated from the starting cost plus the ancestors' costs |
| DepthCost.DepthIsAncestorCost | src/main.rs:72-75 | after the pass every operator node's annotation is the starting cost plus the own costs of all its ancestors |
| DepthCost.DepthIncreasesDownward | src/main.rs:74-76 | from an operator to any operator child, the annotation grows by the parent operator's cost, so it strictly increases along every root-to-leaf path |
| DepthCost.EraseEqualIff | src/main.rs:21-25 | two trees are equal once annotations are cleared exactly when they have the same literals, operators, child order and child count |
| DepthCost.WithDepthCostKeepsShape | src/main.rs:71-78 | the pass changes only annotations: operators, child order and count, and literal values are unchanged |
| DepthCost.EraseKeepsValue | src/main.rs:28-41 | the value does not depend on annotations |
| DepthCost.EraseKeepsNetworkCost | src/main.rs:57-60 | the critical-path cost does not depend on annotations |
| DepthCost.EraseKeepsCpuCost | src/main.rs:66-69 | the total work does not depend on annotations |
| DepthCost.EraseKeepsLeafTest | src/main.rs:62-64 | the leaf test does not depend on annotations |
| DepthCost.SameShapeSameQueries | src/main.rs:28-69 | trees that differ only in their annotations have the same value, critical-path cost, total work and leaf test |
| DepthCost.WithDepthCostKeepsQueries | src/main.rs:71-78 | after the pass, value, critical-path cost, total work and leaf test are what they were before |
| DepthCost.WithDepthCostIgnoresAnnotations | src/main.rs:71-78 | the pass's result does not depend on the annotations already in the tree |
| DepthCost.WithDepthCostIdempotent | src/main.rs:71-78 | running the pass twice with the same starting cost gives the same tree as running it once |
| Scenarios.Calc1 | src/main.rs:162 | `(+ (* 4 4) (* 2 (- 7 5)) 1)` has value 21 and critical-path cost 15 |
| Scenarios.Calc2 | src/main.rs:164 | `10` has value 10 and critical-path cost 0 |
| Scenarios.Calc3 | src/main.rs:166 | `(* 10 (- 0 1))` has value -10 and critical-path cost 13 |
| Scenarios.Calc4 | src/main.rs:168 | `(- (+ 10 10) -5 0)` has value 25 and critical-path cost 5 |
| Scenarios.Calc5 | src/main.rs:170 | `(+ (- (* (+ (- (* 1))))))` has value 1 and critical-path cost 30 |
| Scenarios.Calc6 | src/main.rs:172 | the calc6 tree has value 8 and critical-path cost 25 |
| Scenarios.Calc7 | src/main.rs:174 | the calc7 tree has value 50 and critical-path cost 15 |
| Scenarios.Calc8 | src/main.rs:176 | the calc8 tree has value 8 and critical-path cost 13 |
| Scenarios.Calc9 | src/main.rs:178 | the calc9 tree has value 66 and critical-path cost 12 |
| Scenarios.Calc3Annotated | src/main.rs:71-78 | annotating calc3 from 0 gives the root 0 and its `-` child 10 |
| Scenarios.Calc5Annotated | src/main.rs:71-78 | annotating calc5 from 0 gives the chain of operators 0, 2, 5, 15, 17, 20 |

## Left out

- The parser (`open_bracket`, `close_bracket`, `operation`, `integer`, `sexpr_brackets`, `parse_sexpr` and the glue `collect_sexprs`, src/main.rs:85-131). Its behaviour is defined by parser-combinator macros whose semantics are not part of this model. Test trees are built directly instead, with depth annotation 0, as the parser builds them.
- `main` (src/main.rs:133-150): command-line handling and printing are input/output.
- `interpret_cpu` (src/main.rs:81-83): commented out; the code has no scheduler or per-node schedule slot.
- In-place update: `UpdateDepthCost` returns the annotated tree instead of writing into the caller's tree. In the source every node is owned by exactly one parent, so no other reference can see the tree change, and returning the new value loses nothing but the update in place.
- 64-bit arithmetic: literal values and `Interpret` use unbounded integers, so `i64` overflow (a panic in debug builds, wrap-around in release builds) is not modelled. The `usize` costs and annotations are unbounded naturals, so their overflow is not modelled either.
- The derived `Debug` printing and the `Clone`/`Copy` derivations carry no behaviour that is modelled.
