/** `toCNF`: the three passes piped one into the next. */
module Cnf {
  import opened SatExpr
  import opened Elimination
  import opened Negation
  import opened Distribution
  import opened Traversal
  import opened Assembly
  import opened Solver

  /** What `toCNF` computes: implication elimination, then negation pushing,
      then distribution; a failing pass ends the pipe with its error. */
  function Cnf(e: Expr): Result<Expr> {
    match NegationsPushed(Eliminated(e))
    case Ok(n) => Distributed(n)
    case Err(x) => Err(x)
  }

  /** `toCNF` never fails, and yields a formula in negation normal form,
      free of implications, using no variable `e` does not, and true under
      exactly the assignments that make `e` true. */
  lemma CnfCorrect(e: Expr)
    ensures Cnf(e).Ok?
    ensures NegationNormal(Cnf(e).value) && ImplicationFree(Cnf(e).value)
    ensures VarSet(Cnf(e).value) <= VarSet(e)
    ensures forall a :: Holds(Cnf(e).value, a) == Holds(e, a)
  {
    EliminatedWell(e);
    NegationsPushedWell(Eliminated(e));
    DistributedWellProof(NegationsPushed(Eliminated(e)).value);
  }

  /** A formula already in negation normal form and free of implications is
      returned unchanged by `pushNegations`. */
  lemma {:induction false} PushKeeps(e: Expr)
    requires NegationNormal(e) && ImplicationFree(e)
    ensures NegationsPushed(e) == Ok(e)
  {
    match e
    case And(cs) =>
      KeptChildren(cs);
    case Or(cs) =>
      KeptChildren(cs);
    case _ =>
  }

  lemma {:induction false} KeptChildren(cs: seq<Expr>)
    requires forall i :: 0 <= i < |cs| ==> NegationNormal(cs[i]) && ImplicationFree(cs[i])
    ensures Collect(seq(|cs|, i requires 0 <= i < |cs| => NegationsPushed(cs[i]))) == Ok(cs)
  {
    forall i | 0 <= i < |cs| {
      PushKeeps(cs[i]);
    }
    var r := Collect(seq(|cs|, i requires 0 <= i < |cs| => NegationsPushed(cs[i])));
    assert r.value == cs;
  }

  /** `evalCNF` gives the output of `toCNF` the value it gives the input,
      under every assignment of the input's variables, and fails on the
      output only where it fails on the input. */
  lemma CnfEvalAgrees(e: Expr, a: Assignment)
    ensures Cnf(e).Ok?
    ensures Eval(e, a).Ok? ==> Eval(Cnf(e).value, a) == Eval(e, a)
    ensures Eval(Cnf(e).value, a).Err? ==> Eval(e, a).Err?
  {
    CnfCorrect(e);
    EvalMeaning(e, a);
    EvalMeaning(Cnf(e).value, a);
  }

  /** The first two passes are idempotent: running either again on its own
      output changes nothing. */
  lemma PassesIdempotent(e: Expr)
    ensures Eliminated(Eliminated(e)) == Eliminated(e)
    ensures NegationsPushed(e).Ok? ==> NegationsPushed(NegationsPushed(e).value) == NegationsPushed(e)
  {
    EliminatedWell(e);
    EliminatedKeeps(Eliminated(e));
    NegationsPushedWell(e);
    if NegationsPushed(e).Ok? {
      PushKeeps(NegationsPushed(e).value);
    }
  }

  /** `toCNF`: the three engine runs in order. */
  method ToCnf(e: Expr) returns (r: Expr)
    ensures Cnf(e) == Ok(r)
    ensures NegationNormal(r) && ImplicationFree(r) && VarSet(r) <= VarSet(e)
    ensures forall a :: Holds(r, a) == Holds(e, a)
  {
    CnfCorrect(e);
    var eliminated := EliminateImplications(e);
    EliminatedWell(e);
    var pushed := PushNegations(eliminated.value);
    var distributed := DistributeOrOverAnd(pushed.value);
    r := distributed.value;
  }

  /** A literal: a constant, a variable or a negated variable. */
  predicate Literal(e: Expr) {
    e.Bool? || e.Var? || (e.Not? && e.expr.Var?)
  }

  /** A clause: a literal or a disjunction of literals. */
  predicate Clause(e: Expr) {
    Literal(e) || (e.Or? && forall i :: 0 <= i < |e.children| ==> Literal(e.children[i]))
  }

  /** Conjunctive normal form, allowing conjunctions to nest: a clause, or
      a conjunction of such formulas. */
  predicate ConjunctiveNormal(e: Expr) {
    Clause(e) || (e.And? && forall i :: 0 <= i < |e.children| ==> ConjunctiveNormal(e.children[i]))
  }

  lemma LiteralKept(e: Expr)
    requires Literal(e)
    ensures Distributed(e) == Ok(e)
  {
    if e.Not? {
      assert UnrollNegation(e) == Value(e);
    }
  }

  lemma ClauseKept(cs: seq<Expr>)
    requires forall j :: 0 <= j < |cs| ==> Literal(cs[j])
    ensures Distributed(Or(cs)) == Ok(Or(cs))
  {
    assert Flatten(cs) == cs;
    assert FirstAnd(cs) == |cs|;
    assert DistributeOrNode(cs) == Or(cs);
    forall j | 0 <= j < |cs| {
      LiteralKept(cs[j]);
    }
    var rs := seq(|cs|, j requires 0 <= j < |cs| => Distributed(cs[j]));
    assert Collect(rs).value == cs;
  }

  /** A formula already in conjunctive normal form is returned unchanged
      by `distributeOrOverAnd`. */
  lemma {:induction false} DistributedKeeps(e: Expr)
    requires ConjunctiveNormal(e)
    ensures Distributed(e) == Ok(e)
  {
    if Literal(e) {
      LiteralKept(e);
    } else if e.Or? {
      ClauseKept(e.children);
    } else {
      var cs := e.children;
      forall j | 0 <= j < |cs| {
        DistributedKeeps(cs[j]);
      }
      var rs := seq(|cs|, j requires 0 <= j < |cs| => Distributed(cs[j]));
      assert Collect(rs).value == cs;
    }
  }

  /** Two operands distributed successfully are gathered in order. */
  lemma PairResults(x: Expr, y: Expr, u: Expr, v: Expr)
    requires Distributed(x) == Ok(u) && Distributed(y) == Ok(v)
    ensures Collect(Applied(Distributed, [x, y])) == Ok([u, v])
  {
    AppliedPair(Distributed, x, y);
    CollectOks(u, v);
  }

  /** An `Or` is rebuilt from the results of the operands of the node
      `distributeOr` expands it into. */
  lemma OrStep(cs: seq<Expr>, node: Expr, parts: seq<Expr>)
    requires DistributeOrNode(cs) == node && (node.And? || node.Or?)
    requires Collect(Applied(Distributed, node.children)) == Ok(parts)
    ensures Distributed(Or(cs)) == Ok(if node.And? then And(parts) else Or(parts))
  {
    DistributedOr(cs);
    RebuiltBy(node, parts);
  }

  /** Rebuilding a conjunction or disjunction from its rewritten operands. */
  lemma RebuiltBy(node: Expr, parts: seq<Expr>)
    requires node.And? || node.Or?
    ensures Children(node) == node.children
    ensures Combine(KindOf(node), Ok(parts), Reassemble) == Ok(if node.And? then And(parts) else Or(parts))
  {
  }

  /** An `Or` over a single conjunction of literals is distributed into a
      conjunction of one-literal clauses. */
  lemma SingleConjunction(p: Expr, q: Expr)
    requires Literal(p) && Literal(q)
    ensures Distributed(Or([And([p, q])])) == Ok(And([Or([p]), Or([q])]))
  {
    var ks := [Or([p]), Or([q])];
    SingleNode(p, q);
    ClauseKept([p]);
    ClauseKept([q]);
    PairResults(ks[0], ks[1], ks[0], ks[1]);
    OrStep([And([p, q])], And(ks), ks);
  }

  lemma SingleNode(p: Expr, q: Expr)
    ensures DistributeOrNode([And([p, q])]) == And([Or([p]), Or([q])])
  {
    var conj := And([p, q]);
    assert Flatten([conj]) == [conj];
    assert FirstAnd([conj]) == 0;
    SingletonParts(p);
    SingletonParts(q);
    SingletonParts(conj);
    assert Distribute([p, q], []) == [Or([p]), Or([q])];
  }

  /** The top `Or` of the example below flattens to its inner `Or` and the
      last literal, neither of which is an `And`. */
  lemma TopNode(p: Expr, q: Expr, r: Expr)
    requires Literal(r)
    ensures DistributeOrNode([Or([Or([And([p, q])])]), r]) == Or([Or([And([p, q])]), r])
  {
    var inner := Or([And([p, q])]);
    var top := [Or([inner]), r];
    var flat := [inner, r];
    assert Flatten([r]) == [r];
    assert top[1..] == [r];
    assert Flatten(top) == flat;
    assert FirstAnd(flat) == 2;
  }

  /** `distributeOr` flattens a single level of `Or`, so a conjunction three
      disjunctions deep ends up under an `Or` (which, by the next lemma, is
      not conjunctive normal form): the output of `distributeOrOverAnd`, and
      so of `toCNF`, is not always in conjunctive normal form. */
  lemma NotAlwaysConjunctive(p: Expr, q: Expr, r: Expr)
    requires Literal(p) && Literal(q) && Literal(r)
    ensures Distributed(Or([Or([Or([And([p, q])])]), r])) == Ok(Or([And([Or([p]), Or([q])]), r]))
  {
    var inner := Or([And([p, q])]);
    var d := And([Or([p]), Or([q])]);
    TopNode(p, q, r);
    SingleConjunction(p, q);
    LiteralKept(r);
    PairResults(inner, r, d, r);
    OrStep([Or([inner]), r], Or([inner, r]), [d, r]);
  }

  /** A disjunction with a conjunction among its operands is not in
      conjunctive normal form. */
  lemma OrOverAndNotConjunctive(d: Expr, r: Expr)
    requires d.And?
    ensures !ConjunctiveNormal(Or([d, r]))
  {
    assert !Literal(Or([d, r]).children[0]);
  }

  /** The shape the `CNFExpr` type describes: an `And` at the root whose
      operands are constants, variables, negations, conjunctions or
      disjunctions; anything may occur below those operands. */
  predicate CnfExprShape(e: Expr) {
    e.And? && forall i :: 0 <= i < |e.children| ==> !e.children[i].Implies? && !e.children[i].Equivalent?
  }

  /** Since `toCNF` leaves no implication anywhere, its output has the shape
      of `CNFExpr` exactly when its root is an `And`; the cast to `CNFExpr`
      is unchecked and wrong for any other root. */
  lemma CnfExprShapeIffAnd(e: Expr)
    ensures Cnf(e).Ok?
    ensures CnfExprShape(Cnf(e).value) <==> Cnf(e).value.And?
  {
    CnfCorrect(e);
    var r := Cnf(e).value;
    if r.And? {
      forall i | 0 <= i < |r.children|
        ensures !r.children[i].Implies? && !r.children[i].Equivalent?
      {
        assert ImplicationFree(r.children[i]);
      }
    }
  }
}
