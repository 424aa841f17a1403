# SAT core of constructive-script, modelled in Dafny

This project models the propositional-logic core of `constructive-script`
(`src/SAT`). It covers:

- the seven-variant formula tree;
- the explicit-stack fold engine `traversExpressionsTree`;
- the three rewriting passes that `toCNF` pipes together: `eliminateImplications`, `pushNegations` and `distributeOrOverAnd`;
- the renderer `exprToLogicString`;
- the brute-force solver: `evalCNF`, `collectVars` and `solve`.

The code mutates local state step by step in four places: the engine's stack/buffer loop, `collectVars`'s stack walk, the `for` loop in `distributeOr` and the two loops of `solve`. Each of these is an imperative Dafny `method` with loop invariants. The engine takes its unroll table as a pure function, so the table of `distributeOrOverAnd` calls the function `DistributeOrNode`. The method `Distribution.DistributeOr`, which runs the `for` loop (`FindFirstAnd`), is proved to compute that same node. Each method is proved against a recursive specification function:

- `TraverseExpressionsTree` is generic in the result type and in both handler tables. It returns `spec(root)` for any handler tables whose unroll decisions make progress and that satisfy the one-step fixpoint equation of `spec`.
- Each pass is instantiated with its own tables. Beside each one sits a recursive function stating what the pass computes (`Eliminated`, `NegationsPushed`, `Distributed`), together with lemmas for:
  - the fixpoint equation;
  - progress;
  - the properties of that function: the same meaning, no new variables, negation normal form, the failure cases, idempotence, and the cases where the pass returns its input unchanged.
- `EvalCnf` is tied to the reference semantics `Holds`. `Solve` is tied to an exact model of JavaScript's `1 << n` (a shift count taken modulo 32 and a signed 32-bit result).

Unroll handlers are modelled as one of four decisions, which covers every handler in the repository:

- `Value`: a leaf result;
- `Descend(node)`: push the process item of `node` and its children reversed, as `unrollUnary`/`unrollNary`/`unrollBinary`, `eliminateImplies` and `distributeOr` do;
- `Redirect(x)`: push `x` alone, as `unrollNegation` does for `¬¬x` and in its default case;
- `Throw`: the `assertUnrollExpKind` handlers.

The engine terminates on the measure `Pow2(Weight(e))` summed over the stack.

Two behaviours of the code matter for what the model can prove:

- **The output of `toCNF` does not always have the shape of its declared type.** The result of `distributeOrOverAnd` is cast to `CNFExpr` without a check. `CNFExpr` is an `And` at the root whose operands are not implications or equivalences. Since no implication survives `toCNF`, the output has that shape exactly when its root is an `And` (`Cnf.CnfExprShapeIffAnd`). Test 1 already expects `(¬p ∨ q)`, whose root is an `Or` (`Examples.ImplicationNotCnfExpr`).
- **The output is not always a conjunction of clauses.** `distributeOr` flattens only one level of nested `Or`, so an `And` three `Or`s deep survives under an `Or` (`Cnf.NotAlwaysConjunctive`, `Cnf.OrOverAndNotConjunctive`). The model proves what does hold: the output is an equivalent formula in negation normal form and free of implications (`Cnf.CnfCorrect`).
- **The order in which `solve` enumerates variables** is the insertion order of the `Set` that `collectVars` fills. That is the order of first occurrence in a walk that pops the last-pushed operand first. `solve` discards the reversed array that `collectVars` returns (`Solver.Vars`).

## Model

| member | source | states |
|---|---|---|
| Traversal.Pending | src/SAT/index.ts:203-210 | the unroll items for a child list come in reverse, so the leftmost child ends on top of the stack |
| Traversal.Expansion | src/SAT/index.ts:199-213 | an expansion is the node's process item carrying the start index, followed by one unroll item per child in reverse order |
| Traversal.ExpansionShapes | src/SAT/index.ts:190-223 | `unrollUnary` pushes [process, operand]; `unrollBinary` pushes [process, right, left]; `unrollNary` puts the first child on top |
| Traversal.Finish | src/SAT/index.ts:143-153 | the run succeeds only when exactly one value remains, and returns it; a longer buffer is the "expected empty stack" failure |
| Traversal.Fold | src/SAT/index.ts:190-227 | the reference post-order fold: leaves go to the leaf handler, and every other node assembles its children's values left to right; `Traversal.FoldTree` proves that the engine computes it |
| Traversal.TraverseExpressionsTree | src/SAT/index.ts:105-154 | for any unroll table whose decisions make progress and any assembly table satisfying `spec`'s one-step equation, the stack machine returns `spec(root)`: its value, or the first failure raised in post-order |
| Traversal.FoldTree | src/SAT/index.ts:190-227 | the engine run with `identityResult`-style leaves and the structural unroll helpers is exactly the recursive post-order fold |
| SatExpr.Collect | src/SAT/index.ts:117-141 | children's results are gathered left to right: all must succeed, the values keep child order, and the first failure in that order is the one that surfaces |
| Assembly.AssembleExpr | src/SAT/index.ts:178-183 | the `assembly*` helpers: `And`/`Or` take all parts, the unary and binary ones the first one or two, and too few parts is a `PartCount` failure (this never happens; see `Negation.RebuiltNode`) |
| Assembly.Reassemble | src/SAT/index.ts:160-166 | the assembly table of `pushNegations` and `distributeOrOverAnd`: those helpers, with `Implies`/`Equivalent` wrapped by `assertAssemblyExpKind` to fail as an unexpected kind |
| Elimination.Eliminated | src/SAT/cnf.ts:57-91 | the reference definition of `eliminateImplications`: `a → b` becomes `¬a' ∨ b'`, `a ↔ b` becomes `(¬a' ∨ b') ∧ (¬b' ∨ a')`, and other nodes keep their kind and child order; its properties are proved by `Elimination.EliminatedWell` |
| Elimination.ElimUnroll | src/SAT/cnf.ts:60-81 | the unroll table: leaves are values, implications and equivalences are expanded by `EliminateImplies`, and other nodes are descended into |
| Elimination.ElimAssemble | src/SAT/cnf.ts:82-90 | the assembly table: `Or`/`And` of the first two parts for the binary connectives, the shared helpers otherwise |
| Elimination.EliminateImplies | src/SAT/cnf.ts:42-80 | the node expanded in place of `a → b` (`¬a ∨ b`) or of `a ↔ b` (`(a → b) ∧ (b → a)`) is true under exactly the same assignments |
| Elimination.ElimShrinks | src/SAT/cnf.ts:42-80 | both expansions, and the structural ones, replace a node by children of smaller total measure |
| Elimination.ElimFixpoint | src/SAT/cnf.ts:57-91 | the unroll and assembly tables of `eliminateImplications` compute `Eliminated` at every node |
| Elimination.EliminatedWell | src/SAT/cnf.ts:57-91 | the result contains no `Implies`/`Equivalent`, has exactly the variables of the input and holds under exactly the same assignments |
| Elimination.EliminatedKeeps | src/SAT/cnf.ts:57-91 | a formula without implications comes back unchanged: kinds and child order are kept |
| Elimination.EliminateImplications | src/SAT/cnf.ts:57-91 | the engine run never fails and returns `Eliminated(e)` |
| Negation.PushNaryNegation | src/SAT/cnf.ts:98-103 | the dual connective (`Or` exactly for an `And`) over the negated operands, which is true exactly when `inner` is false (De Morgan) |
| Negation.NegationRules | src/SAT/cnf.ts:105-120 | under `¬`, a constant is flipped, a variable is kept as `¬x`, a double negation is dropped and its operand rewritten, and a negated implication or equivalence makes the pass fail |
| Negation.DeMorganRules | src/SAT/cnf.ts:114-116 | `¬(a ∧ …)` is rewritten exactly as `(¬a ∨ …)` is, and `¬(a ∨ …)` exactly as `(¬a ∧ …)` |
| Negation.UnrollNegation | src/SAT/cnf.ts:105-120 | the decision for a `Not` node: flip a constant, keep a negated variable, redirect `¬¬x` to `x`, expand `¬(∧)`/`¬(∨)` by De Morgan, and redirect to the operand otherwise; its effect is stated by `Negation.NegationRules` and `Negation.DeMorganRules` |
| Negation.PushUnroll | src/SAT/cnf.ts:125-133 | the unroll table of `pushNegations`: `identityResult` leaves, `unrollNary` for `And`/`Or`, `unrollNegation` for `Not`, and an unexpected-kind failure for `Implies`/`Equivalent` |
| Negation.NegationsPushed | src/SAT/cnf.ts:122-143 | the reference definition of `pushNegations`: each node handled as `PushUnroll` decides and rebuilt by `Reassemble`; its properties are proved by `Negation.NegationsPushedWell` |
| Negation.NegationShrinks | src/SAT/cnf.ts:105-120 | every decision `unrollNegation` takes makes progress: `¬¬x` and the default case redirect to a lighter node; a De Morgan expansion has lighter children of smaller total measure |
| Negation.DeMorganShrinks | src/SAT/cnf.ts:114-116 | the negated operands of `¬(a ∧ …)` / `¬(a ∨ …)` are each lighter than the negation, and so is their measure |
| Negation.RebuiltNode | src/SAT/cnf.ts:134-139 | rebuilding an `And`/`Or` with `assemblyAnd`/`assemblyOr` succeeds iff every child's rewrite does, keeps the connective and places each rewritten child at its index |
| Negation.PushedChildren | src/SAT/cnf.ts:122-143 | an `And`/`Or` rebuilt from children that were each pushed correctly is itself pushed correctly |
| Negation.DeMorganWell | src/SAT/cnf.ts:114-116 | a negated conjunction or disjunction is pushed correctly when its De Morgan dual is |
| Negation.NegationsPushedWell | src/SAT/cnf.ts:122-143 | `pushNegations` fails exactly when an `Implies`/`Equivalent` occurs anywhere (also under a `Not`); otherwise it yields a formula in negation normal form over the same variables, true under exactly the same assignments |
| Negation.PushFixpoint | src/SAT/cnf.ts:122-143 | the tables of `pushNegations` compute `NegationsPushed` at every node |
| Negation.PushShrinks | src/SAT/cnf.ts:122-143 | every unroll decision of `pushNegations` makes progress |
| Negation.PushNegations | src/SAT/cnf.ts:122-143 | the engine run returns `NegationsPushed(e)`, with the correctness above |
| Distribution.Flatten | src/SAT/cnf.ts:150-153 | the `reduce` splices the operands of each `Or` child in place, one level deep; an `Or` with no `Or` operand is unchanged |
| Distribution.FlattenWeight | src/SAT/cnf.ts:150-153 | flattening adds no weight |
| Distribution.FlattenHolds | src/SAT/cnf.ts:150-153 | the flattened disjunction is true under exactly the same assignments |
| Distribution.FlattenVars | src/SAT/cnf.ts:150-153 | flattening keeps the variables and whether the disjunction is free of implications |
| Distribution.FirstAnd | src/SAT/cnf.ts:155-164 | the index of the first `And` among the flattened operands, or their count when there is none |
| Distribution.FindFirstAnd | src/SAT/cnf.ts:155-164 | the `for` loop stops at exactly `FirstAnd` |
| Distribution.SplitAt | src/SAT/cnf.ts:159 | removing operand `i` (`filter` on `index !== i`) splits the disjunction's meaning, variables and freedom from implications between that operand and the rest |
| Distribution.SplitWeight | src/SAT/cnf.ts:159 | removing operand `i` splits the weight the same way |
| Distribution.DistributeHolds | src/SAT/cnf.ts:159-162 | `And(Or(d_j, ...rest) for each j)` is true exactly when `And(ds)` or `Or(rest)` is |
| Distribution.DistributeVars | src/SAT/cnf.ts:159-162 | the distributed clauses use only variables of `ds` and `rest`, and have no implication when those have none |
| Distribution.Distribute | src/SAT/cnf.ts:159-160 | `childrenExpr.children.map(child => satOr(child, ...rest))`: one `Or(d_j, ...rest)` per operand of the chosen `And`, in order |
| Distribution.DistributeOrNode | src/SAT/cnf.ts:149-167 | the node `distributeOr` expands: the first flattened `And` distributed over the other flattened operands, or else the flattened `Or`; its meaning and variables are stated by the next two rows |
| Distribution.DistributeOr | src/SAT/cnf.ts:149-167 | the `for` loop form of `distributeOr` computes exactly `DistributeOrNode` |
| Distribution.DistributeOrHolds | src/SAT/cnf.ts:149-167 | the node `distributeOr` expands in place of `Or(cs)` is true under exactly the same assignments as `Or(cs)` |
| Distribution.DistributeOrVars | src/SAT/cnf.ts:149-167 | that node uses no new variable and has no implication when `cs` has none |
| Distribution.DistributeOrShrinks | src/SAT/cnf.ts:149-167 | each operand `distributeOr` pushes is lighter than the `Or`, and the expansion lowers the total measure, so repeated distribution terminates |
| Distribution.DistUnroll | src/SAT/cnf.ts:172-180 | the unroll table of `distributeOrOverAnd`: `distributeOr` for `Or`, `unrollNegation` for `Not`, and the same leaves and failures as `pushNegations` |
| Distribution.Distributed | src/SAT/cnf.ts:169-190 | the reference definition of `distributeOrOverAnd`; its properties are proved by `Distribution.DistributedWellProof` |
| Distribution.DistributedWellProof | src/SAT/cnf.ts:169-190 | a formula free of implications is always rewritten; any rewrite is in negation normal form, free of implications, uses no new variable and holds under exactly the same assignments |
| Distribution.DistFixpoint | src/SAT/cnf.ts:169-190 | the tables of `distributeOrOverAnd` compute `Distributed` at every node |
| Distribution.DistShrinks | src/SAT/cnf.ts:169-190 | every unroll decision of `distributeOrOverAnd` makes progress |
| Distribution.DistributeOrOverAnd | src/SAT/cnf.ts:169-190 | the engine run returns `Distributed(e)`, with the correctness above |
| Cnf.Cnf | src/SAT/cnf.ts:192-193 | `toCNF` as the composition of the three reference definitions; a failing pass ends the pipe with its error |
| Cnf.CnfCorrect | src/SAT/cnf.ts:192-193 | `toCNF` never fails and yields a formula in negation normal form, free of implications, over no new variables, true under exactly the assignments that make the input true |
| Cnf.CnfEvalAgrees | src/SAT/cnf.ts:192-193 | wherever `evalCNF` evaluates the input, it gives the converted formula the same value, and it fails on the converted formula only where it fails on the input |
| Cnf.ToCnf | src/SAT/cnf.ts:192-193 | the three engine runs in order return `Cnf(e)`, with the correctness above |
| Cnf.PushKeeps | src/SAT/cnf.ts:122-143 | a formula already in negation normal form and free of implications is returned unchanged by `pushNegations` |
| Cnf.PassesIdempotent | src/SAT/cnf.ts:57-143 | running `eliminateImplications` or `pushNegations` again on its own output changes nothing |
| Cnf.LiteralKept | src/SAT/cnf.ts:169-190 | a constant, a variable or a negated variable passes through `distributeOrOverAnd` unchanged |
| Cnf.ClauseKept | src/SAT/cnf.ts:149-167 | a disjunction of literals passes through `distributeOrOverAnd` unchanged |
| Cnf.DistributedKeeps | src/SAT/cnf.ts:169-190 | a formula already in conjunctive normal form is returned unchanged by `distributeOrOverAnd` |
| Cnf.NotAlwaysConjunctive | src/SAT/cnf.ts:149-167 | for literals `p`, `q`, `r`, the input `Or(Or(Or(p ∧ q)), r)` (a conjunction three `Or`s deep) becomes `Or(And(Or(p), Or(q)), r)`: an `And` is left under an `Or` |
| Cnf.OrOverAndNotConjunctive | src/SAT/cnf.ts:149-167 | a disjunction with a conjunction among its operands is not a conjunction of clauses of literals, so the output of `Cnf.NotAlwaysConjunctive` is not in conjunctive normal form |
| Cnf.CnfExprShape | src/SAT/index.ts:18-19 | `CNFExpr`: an `And` at the root whose operands are constants, variables, negations, conjunctions or disjunctions |
| Cnf.CnfExprShapeIffAnd | src/SAT/index.ts:18-19 | `toCNF`'s output has the `CNFExpr` shape exactly when its root is an `And`, so the unchecked cast is wrong for every other root |
| LogicString.Join | src/SAT/to-string.ts:26-27 | `Array.prototype.join`: the parts with the separator between consecutive ones, and the empty string for no parts |
| LogicString.Rendered | src/SAT/to-string.ts:5-64 | the reference logic notation of a formula, defined by recursion on the formula |
| LogicString.RenderLeaf | src/SAT/to-string.ts:52-53 | the leaf handlers: `value.toString()` for a constant and the name for a variable |
| LogicString.RenderAssemble | src/SAT/to-string.ts:5-40 | the `assembly*ToLogicString` handlers, with the part-count checks of the unary and binary ones |
| LogicString.RenderFold | src/SAT/to-string.ts:5-64 | folding with the rendering tables never trips a part-count check and yields the logic notation: `¬` prefixed, every `∧`/`∨`/`⇒`/`⇔` parenthesised with its operator between the operands |
| LogicString.ExprToLogicString | src/SAT/to-string.ts:43-64 | the engine run returns the logic notation of the formula |
| LogicString.RenderedPair | src/SAT/to-string.ts:26-27 | a two-operand `∧`/`∨` renders as its operands' notations joined around the operator, in parentheses; an empty one renders as `()` |
| Solver.EvalLeaf | src/SAT/index.ts:242-250 | the leaf handlers of `evalCNF`: a constant is its value; a variable is looked up, and one missing from the assignment is an `Unassigned` failure |
| Solver.EvalAssemble | src/SAT/index.ts:252-260 | the assembly table of `evalCNF`: `every` for `And`, `some` for `Or`, and the truth tables of `¬`, `→` and `↔` |
| Solver.Eval | src/SAT/index.ts:233-261 | the reference definition of `evalCNF`: the fold with those tables; its meaning is proved by `Solver.EvalMeaning` |
| Solver.EvalMeaning | src/SAT/index.ts:233-261 | `evalCNF` succeeds iff every variable of the formula is assigned, then returns its truth value; otherwise it fails naming an unassigned variable of the formula |
| Solver.EvalEmpty | src/SAT/index.ts:256-257 | `every` over no parts is true and `some` over no parts is false, so an empty `And` holds and an empty `Or` does not |
| Solver.EvalCnf | src/SAT/index.ts:233-261 | the engine run returns `Eval(e, a)`, with the meaning above |
| Solver.HoldsAgree | src/SAT/index.ts:301-308 | the truth value depends only on the formula's own variables, which is why trying one bit pattern per variable suffices |
| Solver.Add | src/SAT/index.ts:273 | `Set.add` records the name and keeps what was there, in order |
| Solver.AddAllFacts | src/SAT/index.ts:263-290 | adding names keeps the earlier ones in order, records each name once and records exactly the added names |
| Solver.Visit | src/SAT/index.ts:264-287 | the stack walk of `collectVars`: pop the top, record a variable, and push the operands of any other connective in order |
| Solver.VisitVars | src/SAT/index.ts:264-287 | the stack walk meets exactly the variables of the formulas on the stack |
| Examples.VisitVar | src/SAT/index.ts:266-274 | popping a variable records its name ahead of the rest of the walk |
| Examples.VisitNode | src/SAT/index.ts:275-285 | popping a connective pushes its operands in order, so the last one is visited next |
| Solver.Reversed | src/SAT/index.ts:289 | `Array.from(vars).reverse()`: same length, element `i` is element `n-1-i` |
| Solver.CollectVars | src/SAT/index.ts:263-290 | the caller's set ends up holding its old names, in their old order, followed by the formula's variables, each once; the returned array is the set's contents reversed |
| Solver.Vars | src/SAT/index.ts:292-295 | the variables `solve` enumerates: the contents of the `Set` after the walk, in insertion order |
| Solver.VarsFacts | src/SAT/index.ts:293-295 | the variables `solve` enumerates are distinct and are exactly those of the formula |
| Solver.ShiftLeft | src/SAT/index.ts:300 | JavaScript's `1 << n`: the shift count is taken modulo 32 and the result is a signed 32-bit integer; its values are stated by `Solver.ShiftSmall` and `Solver.ShiftWraps` |
| Solver.Bit | src/SAT/index.ts:304 | bit `i` of the mask, standing for `Boolean(mask & (1 << i))` (see the line under "Left out") |
| Solver.Assign | src/SAT/index.ts:302-305 | the assignment the inner loop builds for a mask; `Solver.AssignKeys` and `Solver.AssignValue` state its keys and values |
| Solver.FirstMask | src/SAT/index.ts:301-309 | the outer loop: the first mask below `total` whose assignment satisfies the formula |
| Solver.Solution | src/SAT/index.ts:292-312 | the reference definition of `solve`: the search over `1 << n` masks, with bit indices modulo 32 |
| Solver.IntendedSolution | src/SAT/index.ts:298-300 | the search the comment describes: all `2^n` masks, variable `i` getting bit `i` |
| Solver.FirstMaskFacts | src/SAT/index.ts:301-309 | the search stops at the least mask in range whose assignment satisfies the formula, and finds none only when no mask in range does |
| Solver.AssignKeys | src/SAT/index.ts:302-305 | the inner loop assigns exactly the enumerated variables |
| Solver.AssignValue | src/SAT/index.ts:303-305 | variable `i` gets bit `i` of the mask (bit `i % 32` as JavaScript shifts) |
| Solver.SolutionSound | src/SAT/index.ts:292-312 | whatever `solve` returns satisfies the formula and assigns exactly its variables |
| Solver.IntendedSolutionCorrect | src/SAT/index.ts:292-312 | the intended search over all `2^n` masks is sound, and returns `null` only when no assignment satisfies the formula |
| Solver.SolutionBelow31 | src/SAT/index.ts:300 | with at most 30 variables, `solve` returns exactly what the intended search returns |
| Solver.SolutionAt31 | src/SAT/index.ts:300 | with exactly 31 variables, `1 << n` is negative and `solve` returns `null` for every formula |
| Solver.SatisfiableMissedAt31 | src/SAT/index.ts:292-312 | a satisfiable formula over 31 variables is reported unsatisfiable, although the intended search finds a satisfying assignment |
| Solver.ShiftWraps | src/SAT/index.ts:300 | `1 << 31` is negative |
| Solver.ShiftSmall | src/SAT/index.ts:300 | `1 << n` is `2^n` up to `n = 30` |
| Solver.Solve | src/SAT/index.ts:292-312 | the two loops return `Solution(e)`; any assignment returned satisfies the formula and assigns exactly its variables |
| Examples.ImplicationCase | src/SAT/index.test.ts:17-19 | `toCNF(p → q)` is `¬p ∨ q` |
| Examples.ImplicationCaseRendered | src/SAT/index.test.ts:19 | which renders as `(¬p ∨ q)` |
| Examples.ImplicationNotCnfExpr | src/SAT/index.test.ts:18-19 | the output for `p → q` has an `Or` root, so it does not have the shape `CNFExpr` promises |
| Examples.DistributionCase | src/SAT/index.test.ts:39-41 | `distributeOrOverAnd` turns `p ∨ (q ∧ r)` into `(q ∨ p) ∧ (r ∨ p)` for any literals `p`, `q`, `r` |
| Examples.DistributionCnf | src/SAT/index.test.ts:39-41 | `toCNF(p ∨ (q ∧ r))` is `(q ∨ p) ∧ (r ∨ p)` |
| Examples.DistributionCaseRendered | src/SAT/index.test.ts:41 | which renders as `((q ∨ p) ∧ (r ∨ p))` |
| Examples.BiconditionalCase | src/SAT/index.test.ts:24-25 | `toCNF(p ↔ q)` is `(¬p ∨ q) ∧ (¬q ∨ p)` for any variables `p`, `q` |
| Examples.BiconditionalCaseRendered | src/SAT/index.test.ts:25 | which renders as `((¬p ∨ q) ∧ (¬q ∨ p))` |
| Examples.NegatedConjunctionPushed | src/SAT/index.test.ts:30 | `pushNegations` turns `¬(p ∧ (q ∨ r))` into `¬p ∨ (¬q ∧ ¬r)` |
| Examples.NegatedConjunctionCase | src/SAT/index.test.ts:30-31 | `toCNF(¬(p ∧ (q ∨ r)))` is `(¬q ∨ ¬p) ∧ (¬r ∨ ¬p)` for any variables |
| Examples.NegatedConjunctionCaseRendered | src/SAT/index.test.ts:31 | which renders as `((¬q ∨ ¬p) ∧ (¬r ∨ ¬p))` |
| Examples.DoubleNegationCase | src/SAT/index.test.ts:158-159 | `toCNF(¬¬(p ∨ (q ∧ ¬r)))` is `(q ∨ p) ∧ (¬r ∨ p)` for any variables |
| Examples.DoubleNegationCaseRendered | src/SAT/index.test.ts:159 | which renders as `((q ∨ p) ∧ (¬r ∨ p))` |
| Examples.ConstantsCase | src/SAT/index.test.ts:164-165 | `toCNF(true ∨ (p ∧ false))` is `(p ∨ true) ∧ (false ∨ true)` for any variable `p` |
| Examples.ConstantsCaseRendered | src/SAT/index.test.ts:165 | which renders as `((p ∨ true) ∧ (false ∨ true))` |
| Examples.ImplicationSolved | src/SAT/index.test.ts:20 | `solve(¬p ∨ q)` answers `{p: false, q: false}` |
| Examples.ImplicationVisit | src/SAT/index.ts:263-290 | the walk of `(¬p ∨ q)` meets `q` first, then `p` |
| Examples.DistributionVars | src/SAT/index.ts:263-290 | the walk of `(q ∨ p) ∧ (r ∨ p)` enumerates `p`, `r`, `q` |
| Examples.DistributionMasks | src/SAT/index.ts:300-309 | over that order, mask 0 fails and mask 1 (only `p` true) is the first that satisfies the formula |
| Examples.DistributionSolved | src/SAT/index.test.ts:42 | `solve((q ∨ p) ∧ (r ∨ p))` answers `{p: true, q: false, r: false}` |

## Left out

- The `in` test in `evalCNF`'s variable handler also sees inherited properties of a JavaScript object, such as `toString`. The model looks names up in a map only.
- Error messages are dropped. Each `throw` is modelled as an `Error` value that names its cause: the unexpected kind, the unassigned variable, a wrong part count, or one of the engine's two end-of-run checks.
- The `assembly*` helpers read `parts[0]`/`parts[1]` without checking. JavaScript would pass `undefined` along; the model reports `PartCount` instead. The handler tables of the repository never hand a process item the wrong number of parts.
- Unroll handlers are reduced to the four decisions `Value`, `Descend`, `Redirect` and `Throw`, not arbitrary lists of stack items. Every handler in the repository is one of these.
- `collectVars` fills a `Set` passed by reference. `Solver.CollectVars` takes the set's contents beforehand as a parameter and returns them afterwards as a value.
- Node identity is not modelled, for example `unrollNegation` returning the same `¬x` object. Formulas are values.
- `abusePipe` (`src/utils/pipe.ts`) is modelled only as function composition in `Cnf.Cnf`. The type-level files under `src/types` have no runtime behaviour and are not part of this model.
- Distribution.DistributedWellProof: only states that a formula free of implications is rewritten, not the converse. `distributeOrOverAnd` can also succeed on a formula that has an implication, because distributing over an empty `And` drops the other operands of the `Or`.
- Cnf.ToCnf: does not state that the output is in conjunctive normal form. The code does not guarantee it (see `Cnf.NotAlwaysConjunctive`); the `as CNFExpr` cast is unchecked.
- Solver.Bit: models `mask & (1 << i)` only for masks below `2^31`. Every mask `solve` tries is below `1 << n`, which is at most `2^30` when positive.
- Only six of the fourteen cases in `src/SAT/index.test.ts` are worked through as lemmas: the conversions of tests 1–4, 13 and 14, and the solutions of tests 1 and 4. The larger cases unfold too many nodes for a concrete proof of reasonable size. For those cases only the general properties hold in the model (`Cnf.CnfCorrect`, `Solver.SolutionSound`, `Solver.FirstMaskFacts`), not the exact expected strings and assignments.
- Running time is not modelled: the search is exponential, as the code intends.

## Findings

| source | as written | input that shows it | evidently intended | confidence | as-written member | corrected member |
|---|---|---|---|---|---|---|
| src/SAT/index.ts:300 | `total = 1 << n` is a signed 32-bit shift: for `n = 31` it is `-2^31`, so the loop tries no mask and `solve` returns `null`. For `n >= 32`, both the mask count and the bit index wrap modulo 32. | any satisfiable formula over 31 distinct variables, for example the conjunction of 31 variables | enumerate all `2^n` masks, giving variable `i` bit `i`, and return `null` only for unsatisfiable formulas | not executed | Solver.SatisfiableMissedAt31 | Solver.IntendedSolutionCorrect |
