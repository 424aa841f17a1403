/** Cases from the repository's own test table, worked through the model:
    the rewritten formula, its logic notation, and what `solve` answers. */
module Examples {
  import opened SatExpr
  import opened Traversal
  import opened Assembly
  import opened Elimination
  import opened Negation
  import opened Distribution
  import opened Cnf
  import opened LogicString
  import opened Solver
  import opened Power

  /** `p → q` becomes `(¬p ∨ q)`. */
  lemma ImplicationCase()
    ensures Cnf.Cnf(Implies(Var("p"), Var("q"))) == Ok(Or([Not(Var("p")), Var("q")]))
  {
    var p, q := Var("p"), Var("q");
    var c := Or([Not(p), q]);
    assert Eliminated(Implies(p, q)) == c;
    PushKeeps(c);
    ClauseKept([Not(p), q]);
  }

  /** The output for `p → q` is a disjunction at the root, so it does not
      have the shape its `CNFExpr` type promises. */
  lemma ImplicationNotCnfExpr()
    ensures Cnf.Cnf(Implies(Var("p"), Var("q"))).Ok?
    ensures !CnfExprShape(Cnf.Cnf(Implies(Var("p"), Var("q"))).value)
  {
    ImplicationCase();
  }

  lemma ImplicationCaseRendered()
    ensures Rendered(Or([Not(Var("p")), Var("q")])) == "(¬p ∨ q)"
  {
    RenderedPair(Not(Var("p")), Var("q"));
  }

  /** `p ∨ (q ∧ r)` becomes `((q ∨ p) ∧ (r ∨ p))`: the first conjunction
      is distributed over the remaining operands, which follow each of its
      operands. */
  lemma DistributionCase(p: Expr, q: Expr, r: Expr)
    requires Literal(p) && Literal(q) && Literal(r)
    ensures Distributed(Or([p, And([q, r])])) == Ok(And([Or([q, p]), Or([r, p])]))
  {
    var ks := [Or([q, p]), Or([r, p])];
    DistributionNode(p, q, r);
    ClauseKept([q, p]);
    ClauseKept([r, p]);
    PairResults(ks[0], ks[1], ks[0], ks[1]);
    OrStep([p, And([q, r])], And(ks), ks);
  }

  /** `toCNF` of `p ∨ (q ∧ r)`: the first two passes keep it, the third
      distributes. */
  lemma DistributionCnf()
    ensures Cnf.Cnf(Or([Var("p"), And([Var("q"), Var("r")])])) == Ok(And([Or([Var("q"), Var("p")]), Or([Var("r"), Var("p")])]))
  {
    var e := Or([Var("p"), And([Var("q"), Var("r")])]);
    EliminatedKeeps(e);
    PushKeeps(e);
    DistributionCase(Var("p"), Var("q"), Var("r"));
  }

  lemma DistributionNode(p: Expr, q: Expr, r: Expr)
    requires Literal(p)
    ensures DistributeOrNode([p, And([q, r])]) == And([Or([q, p]), Or([r, p])])
  {
    var cs := [p, And([q, r])];
    assert Flatten(cs) == cs;
    assert FirstAnd(cs) == 1;
    assert cs[..1] + cs[2..] == [p];
    assert [q] + [p] == [q, p] && [r] + [p] == [r, p];
    assert Distribute([q, r], [p]) == [Or([q, p]), Or([r, p])];
  }

  lemma DistributionCaseRendered()
    ensures Rendered(And([Or([Var("q"), Var("p")]), Or([Var("r"), Var("p")])])) == "((q ∨ p) ∧ (r ∨ p))"
  {
    var p, q, r := Var("p"), Var("q"), Var("r");
    RenderedPair(q, p);
    RenderedPair(r, p);
    RenderedPair(Or([q, p]), Or([r, p]));
  }

  /** `p ↔ q` becomes `((¬p ∨ q) ∧ (¬q ∨ p))`: both implications are
      eliminated, and the result is already in conjunctive normal form. */
  lemma BiconditionalCase(p: Expr, q: Expr)
    requires p.Var? && q.Var?
    ensures Cnf.Cnf(Equivalent(p, q)) == Ok(And([Or([Not(p), q]), Or([Not(q), p])]))
  {
    var c := And([Or([Not(p), q]), Or([Not(q), p])]);
    assert Eliminated(Equivalent(p, q)) == c;
    assert NegationNormal(c.children[0]) && ImplicationFree(c.children[0]);
    assert NegationNormal(c.children[1]) && ImplicationFree(c.children[1]);
    PushKeeps(c);
    assert Clause(c.children[0]) && Clause(c.children[1]);
    DistributedKeeps(c);
  }

  lemma BiconditionalCaseRendered()
    ensures Rendered(And([Or([Not(Var("p")), Var("q")]), Or([Not(Var("q")), Var("p")])])) == "((¬p ∨ q) ∧ (¬q ∨ p))"
  {
    var p, q := Var("p"), Var("q");
    RenderedPair(Not(p), q);
    RenderedPair(Not(q), p);
    RenderedPair(Or([Not(p), q]), Or([Not(q), p]));
  }

  /** `¬¬(p ∨ (q ∧ ¬r))` becomes `((q ∨ p) ∧ (¬r ∨ p))`: the double negation
      is dropped before distribution. */
  lemma DoubleNegationCase(p: Expr, q: Expr, r: Expr)
    requires p.Var? && q.Var? && r.Var?
    ensures Cnf.Cnf(Not(Not(Or([p, And([q, Not(r)])])))) == Ok(And([Or([q, p]), Or([Not(r), p])]))
  {
    var x := Or([p, And([q, Not(r)])]);
    assert NegationNormal(x.children[1].children[1]);
    assert ImplicationFree(x.children[1]) && NegationNormal(x.children[1]);
    assert ImplicationFree(x) && NegationNormal(x);
    EliminatedKeeps(Not(Not(x)));
    NegationRules(Not(x));
    PushKeeps(x);
    DistributionCase(p, q, Not(r));
  }

  lemma DoubleNegationCaseRendered()
    ensures Rendered(And([Or([Var("q"), Var("p")]), Or([Not(Var("r")), Var("p")])])) == "((q ∨ p) ∧ (¬r ∨ p))"
  {
    var p, q, r := Var("p"), Var("q"), Var("r");
    RenderedPair(q, p);
    RenderedPair(Not(r), p);
    RenderedPair(Or([q, p]), Or([Not(r), p]));
  }

  /** `true ∨ (p ∧ false)` becomes `((p ∨ true) ∧ (false ∨ true))`:
      constants are literals and are distributed like variables. */
  lemma ConstantsCase(p: Expr)
    requires p.Var?
    ensures Cnf.Cnf(Or([Bool(true), And([p, Bool(false)])])) == Ok(And([Or([p, Bool(true)]), Or([Bool(false), Bool(true)])]))
  {
    var x := Or([Bool(true), And([p, Bool(false)])]);
    assert ImplicationFree(x.children[1]) && NegationNormal(x.children[1]);
    EliminatedKeeps(x);
    PushKeeps(x);
    DistributionCase(Bool(true), p, Bool(false));
  }

  lemma ConstantsCaseRendered()
    ensures Rendered(And([Or([Var("p"), Bool(true)]), Or([Bool(false), Bool(true)])])) == "((p ∨ true) ∧ (false ∨ true))"
  {
    var p, t, f := Var("p"), Bool(true), Bool(false);
    RenderedPair(p, t);
    RenderedPair(f, t);
    RenderedPair(Or([p, t]), Or([f, t]));
  }

  /** `¬(p ∧ (q ∨ r))` becomes `((¬q ∨ ¬p) ∧ (¬r ∨ ¬p))`: De Morgan twice,
      then distribution. */
  lemma NegatedConjunctionCase(p: Expr, q: Expr, r: Expr)
    requires p.Var? && q.Var? && r.Var?
    ensures Cnf.Cnf(Not(And([p, Or([q, r])]))) == Ok(And([Or([Not(q), Not(p)]), Or([Not(r), Not(p)])]))
  {
    var x := And([p, Or([q, r])]);
    assert ImplicationFree(x.children[1]);
    EliminatedKeeps(Not(x));
    NegatedConjunctionPushed(p, q, r);
    DistributionCase(Not(p), Not(q), Not(r));
  }

  lemma NegatedConjunctionPushed(p: Expr, q: Expr, r: Expr)
    requires p.Var? && q.Var? && r.Var?
    ensures NegationsPushed(Not(And([p, Or([q, r])]))) == Ok(Or([Not(p), And([Not(q), Not(r)])]))
  {
    DeMorganRules(And([p, Or([q, r])]));
    assert Negated([p, Or([q, r])]) == [Not(p), Not(Or([q, r]))];
    InnerDeMorgan(q, r);
    NegationRules(p);
    PushedPair(Not(p), Not(Or([q, r])), Not(p), And([Not(q), Not(r)]));
  }

  lemma InnerDeMorgan(q: Expr, r: Expr)
    requires q.Var? && r.Var?
    ensures NegationsPushed(Not(Or([q, r]))) == Ok(And([Not(q), Not(r)]))
  {
    DeMorganRules(Or([q, r]));
    assert Negated([q, r]) == [Not(q), Not(r)];
    PushKeeps(And([Not(q), Not(r)]));
  }

  /** A disjunction of two operands pushed successfully is rebuilt from
      their results. */
  lemma PushedPair(x: Expr, y: Expr, u: Expr, v: Expr)
    requires NegationsPushed(x) == Ok(u) && NegationsPushed(y) == Ok(v)
    ensures NegationsPushed(Or([x, y])) == Ok(Or([u, v]))
  {
    var cs := [x, y];
    assert seq(|cs|, i requires 0 <= i < |cs| => NegationsPushed(cs[i])) == [Ok(u), Ok(v)];
    CollectOks(u, v);
  }

  lemma NegatedConjunctionCaseRendered()
    ensures Rendered(And([Or([Not(Var("q")), Not(Var("p"))]), Or([Not(Var("r")), Not(Var("p"))])])) == "((¬q ∨ ¬p) ∧ (¬r ∨ ¬p))"
  {
    var p, q, r := Not(Var("p")), Not(Var("q")), Not(Var("r"));
    RenderedPair(q, p);
    RenderedPair(r, p);
    RenderedPair(Or([q, p]), Or([r, p]));
  }

  /** `solve` on `(¬p ∨ q)` collects `q` before `p` and answers with mask
      0: both variables false. */
  lemma ImplicationSolved()
    ensures Solution(Or([Not(Var("p")), Var("q")])) == Some(map["p" := false, "q" := false])
  {
    var e := Or([Not(Var("p")), Var("q")]);
    ImplicationVisit();
    assert Vars(e) == ["q", "p"];
    var a := Assign(["q", "p"], 0, 2, true);
    assert a == map["q" := false, "p" := false];
    assert Holds(e.children[0], a);
    assert Holds(e, a);
    assert Pow2(1) == 2 && Pow2(2) == 4;
    ShiftSmall(2);
    assert FirstMask(e, ["q", "p"], 0, 4, true) == Some(0);
    assert Found(["q", "p"], Some(0), true) == Some(a);
    assert a == map["p" := false, "q" := false];
  }

  /** The walk of `(¬p ∨ q)` meets `q`, then `p` under its negation. */
  lemma ImplicationVisit()
    ensures Visit([Or([Not(Var("p")), Var("q")])]) == ["q", "p"]
  {
    var p, q := Var("p"), Var("q");
    var e := Or([Not(p), q]);
    VisitNode([], e);
    assert [] + [e] == [e] && [] + [Not(p), q] == [Not(p)] + [q];
    VisitVar([Not(p)], "q");
    VisitNode([], Not(p));
    assert [] + [Not(p)] == [Not(p)] && [] + [p] == [p];
    VisitVar([], "p");
    assert [] + [p] == [p];
  }

  /** `solve` on `((q ∨ p) ∧ (r ∨ p))` enumerates `p`, `r`, `q` in that
      order: mask 0 fails and mask 1 sets only `p`. */
  lemma DistributionSolved()
    ensures Solution(And([Or([Var("q"), Var("p")]), Or([Var("r"), Var("p")])])) ==
      Some(map["p" := true, "q" := false, "r" := false])
  {
    var e := And([Or([Var("q"), Var("p")]), Or([Var("r"), Var("p")])]);
    DistributionVars();
    ShiftThree();
    DistributionMasks();
  }

  lemma ShiftThree()
    ensures ShiftLeft(|["p", "r", "q"]|) == 8
  {
    assert Pow2(1) == 2 && Pow2(2) == 4 && Pow2(3) == 8;
    ShiftSmall(3);
  }

  /** The walk pops the right operand first, so `p` is met first. */
  lemma DistributionVars()
    ensures Vars(And([Or([Var("q"), Var("p")]), Or([Var("r"), Var("p")])])) == ["p", "r", "q"]
  {
    var o1 := Or([Var("q"), Var("p")]);
    VisitRightOperand(o1);
    VisitLeftOperand();
    assert ["p", "r"] + ["p", "q"] == ["p", "r", "p", "q"];
  }

  /** The right operand `(r ∨ p)` yields `p`, then `r`. */
  lemma VisitRightOperand(o1: Expr)
    ensures Visit([And([o1, Or([Var("r"), Var("p")])])]) == ["p", "r"] + Visit([o1])
  {
    var p, r := Var("p"), Var("r");
    var o2 := Or([r, p]);
    var e := And([o1, o2]);
    VisitNode([], e);
    assert [] + [e] == [e] && [] + [o1, o2] == [o1] + [o2];
    VisitNode([o1], o2);
    assert [o1] + [r, p] == [o1, r] + [p];
    VisitVar([o1, r], "p");
    assert [o1, r] == [o1] + [r];
    VisitVar([o1], "r");
  }

  /** The left operand `(q ∨ p)` yields `p`, then `q`. */
  lemma VisitLeftOperand()
    ensures Visit([Or([Var("q"), Var("p")])]) == ["p", "q"]
  {
    var p, q := Var("p"), Var("q");
    var o1 := Or([q, p]);
    VisitNode([], o1);
    assert [] + [o1] == [o1] && [] + [q, p] == [q] + [p];
    VisitVar([q], "p");
    VisitVar([], "q");
    assert [] + [q] == [q];
  }

  /** One step of the walk: a variable on top is recorded and popped. */
  lemma VisitVar(rest: seq<Expr>, x: string)
    ensures Visit(rest + [Var(x)]) == [x] + Visit(rest)
  {
    var s := rest + [Var(x)];
    assert s[..|s| - 1] == rest;
  }

  /** One step of the walk: a connective on top is replaced by its operands. */
  lemma VisitNode(rest: seq<Expr>, top: Expr)
    requires !top.Bool? && !top.Var?
    ensures Visit(rest + [top]) == Visit(rest + Children(top))
  {
    var s := rest + [top];
    assert s[..|s| - 1] == rest;
  }

  /** Mask 0 (everything false) falsifies the first clause; mask 1 (`p`
      true) satisfies both. */
  lemma DistributionMasks()
    ensures FirstMask(And([Or([Var("q"), Var("p")]), Or([Var("r"), Var("p")])]), ["p", "r", "q"], 0, 8, true) == Some(1)
    ensures Found(["p", "r", "q"], Some(1), true) == Some(map["p" := true, "q" := false, "r" := false])
  {
    var p, q, r := Var("p"), Var("q"), Var("r");
    var e := And([Or([q, p]), Or([r, p])]);
    var vars := ["p", "r", "q"];
    var a0 := Assign(vars, 0, 3, true);
    assert a0 == map["p" := false, "r" := false, "q" := false];
    assert !Holds(e.children[0], a0);
    var a1 := Assign(vars, 1, 3, true);
    assert a1 == map["p" := true, "r" := false, "q" := false];
    assert Holds(e.children[0].children[1], a1);
    assert Holds(e.children[1].children[1], a1);
    assert Holds(e.children[0], a1) && Holds(e.children[1], a1);
    assert FirstMask(e, vars, 1, 8, true) == Some(1);
    assert a1 == map["p" := true, "q" := false, "r" := false];
    assert Found(vars, Some(1), true) == Some(a1);
  }
}
