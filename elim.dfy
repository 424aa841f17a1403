/** `eliminateImplications`: implication and equivalence elimination, run on
    the traversal engine. The unroll table replaces an `Implies` or
    `Equivalent` node by its definition before the operands are visited. */
module Elimination {
  import opened SatExpr
  import opened Power
  import opened Traversal
  import opened Assembly

  /** What `eliminateImplications` computes: `Implies(a, b)` becomes
      `Or(Not a', b')` and `Equivalent(l, r)` becomes
      `And(Or(Not l', r'), Or(Not r', l'))`, where primes mark the rewritten
      operands; every other node is rebuilt with its kind and child order. */
  function Eliminated(e: Expr): Expr {
    match e
    case Bool(_) => e
    case Var(_) => e
    case Not(x) => Not(Eliminated(x))
    case And(cs) => And(seq(|cs|, i requires 0 <= i < |cs| => Eliminated(cs[i])))
    case Or(cs) => Or(seq(|cs|, i requires 0 <= i < |cs| => Eliminated(cs[i])))
    case Implies(l, r) => Or([Not(Eliminated(l)), Eliminated(r)])
    case Equivalent(l, r) =>
      And([Or([Not(Eliminated(l)), Eliminated(r)]), Or([Not(Eliminated(r)), Eliminated(l)])])
  }

  /** `eliminateImplies` and the `equivalent` handler: the node to expand in
      place of an implication or equivalence. */
  function EliminateImplies(e: Expr): (p: Expr)
    requires e.Implies? || e.Equivalent?
    ensures forall a :: Holds(p, a) == Holds(e, a)
  {
    PairMeaning(Not(e.left), e.right);
    PairMeaning(Implies(e.left, e.right), Implies(e.right, e.left));
    if e.Implies? then Or([Not(e.left), e.right])
    else And([Implies(e.left, e.right), Implies(e.right, e.left)])
  }

  /** The unroll table of `eliminateImplications`. */
  function ElimUnroll(e: Expr): Unrolled<Expr> {
    match e
    case Bool(_) => Value(e)
    case Var(_) => Value(e)
    case Implies(_, _) => Descend(EliminateImplies(e))
    case Equivalent(_, _) => Descend(EliminateImplies(e))
    case _ => Descend(e)
  }

  /** The assembly table of `eliminateImplications`: the shared helpers, but
      `Or`/`And` of the first two parts for the binary connectives. */
  function ElimAssemble(k: Kind, parts: seq<Expr>): Result<Expr> {
    if k == ImpliesK then
      (if |parts| < 2 then Err(PartCount(k)) else Ok(Or([parts[0], parts[1]])))
    else if k == EquivalentK then
      (if |parts| < 2 then Err(PartCount(k)) else Ok(And([parts[0], parts[1]])))
    else AssembleExpr(k, parts)
  }

  /** `Eliminated` as the result the engine is expected to return. */
  function EliminatedResult(e: Expr): Result<Expr> {
    Ok(Eliminated(e))
  }

  lemma ElimShrinks(e: Expr)
    ensures Shrinks(e, ElimUnroll(e))
  {
    match e
    case Implies(l, r) =>
      TotalWeightPair(Not(l), r);
      DescendBound([Not(l), r], Weight(e));
    case Equivalent(l, r) =>
      var ks := [Implies(l, r), Implies(r, l)];
      TotalWeightPair(ks[0], ks[1]);
      DescendBound(ks, Weight(e));
    case _ =>
      ChildrenWeight(e);
      DescendBound(Children(e), Weight(e));
  }

  /** The handler tables of `eliminateImplications` are correct for
      `Eliminated`. */
  lemma ElimFixpoint(e: Expr)
    ensures EliminatedResult(e) == Step(ElimUnroll(e), ElimAssemble, EliminatedResult)
  {
    match e
    case Not(x) =>
      assert Applied(EliminatedResult, [x]) == [Ok(Eliminated(x))];
    case And(_) =>
      ElimNaryFixpoint(e);
    case Or(_) =>
      ElimNaryFixpoint(e);
    case Implies(_, _) =>
      ElimBinaryFixpoint(e);
    case Equivalent(_, _) =>
      ElimBinaryFixpoint(e);
    case _ =>
  }

  /** `ElimFixpoint` for a conjunction or disjunction: the operands are
      rewritten one by one. */
  lemma ElimNaryFixpoint(e: Expr)
    requires e.And? || e.Or?
    ensures EliminatedResult(e) == Step(ElimUnroll(e), ElimAssemble, EliminatedResult)
  {
    var cs := e.children;
    var rs := Applied(EliminatedResult, cs);
    assert Collect(rs).value == seq(|cs|, i requires 0 <= i < |cs| => Eliminated(cs[i]));
  }

  /** `ElimFixpoint` for an implication or equivalence: the redirected
      formula is rebuilt from the two rewritten operands. */
  lemma ElimBinaryFixpoint(e: Expr)
    requires e.Implies? || e.Equivalent?
    ensures EliminatedResult(e) == Step(ElimUnroll(e), ElimAssemble, EliminatedResult)
  {
    var l, r := e.left, e.right;
    if e.Implies? {
      AppliedPair(EliminatedResult, Not(l), r);
      CollectOks(Not(Eliminated(l)), Eliminated(r));
    } else {
      AppliedPair(EliminatedResult, Implies(l, r), Implies(r, l));
      CollectOks(Eliminated(Implies(l, r)), Eliminated(Implies(r, l)));
    }
  }

  /** Implication elimination leaves no `Implies` or `Equivalent` node,
      keeps the variables and keeps the meaning. */
  lemma {:induction false} EliminatedWell(e: Expr)
    ensures ImplicationFree(Eliminated(e))
    ensures VarSet(Eliminated(e)) == VarSet(e)
    ensures forall a :: Holds(Eliminated(e), a) == Holds(e, a)
  {
    match e
    case Bool(_) =>
    case Var(_) =>
    case Not(x) =>
      EliminatedWell(x);
    case And(cs) =>
      EliminatedChildren(cs);
    case Or(cs) =>
      EliminatedChildren(cs);
    case Implies(l, r) =>
      EliminatedWell(l);
      EliminatedWell(r);
      PairMeaning(Not(Eliminated(l)), Eliminated(r));
    case Equivalent(l, r) =>
      EliminatedWell(l);
      EliminatedWell(r);
      var l', r' := Eliminated(l), Eliminated(r);
      PairMeaning(Not(l'), r');
      PairMeaning(Not(r'), l');
      PairMeaning(Or([Not(l'), r']), Or([Not(r'), l']));
  }

  lemma {:induction false} EliminatedChildren(cs: seq<Expr>)
    ensures var ps := seq(|cs|, i requires 0 <= i < |cs| => Eliminated(cs[i]));
      (forall i :: 0 <= i < |ps| ==> ImplicationFree(ps[i])) &&
      VarsOf(ps) == VarsOf(cs) &&
      forall a :: Holds(And(ps), a) == Holds(And(cs), a) && Holds(Or(ps), a) == Holds(Or(cs), a)
    decreases cs, 0
  {
    var ps := seq(|cs|, i requires 0 <= i < |cs| => Eliminated(cs[i]));
    forall i | 0 <= i < |cs| {
      EliminatedWell(cs[i]);
    }
    VarsPointwise(ps, cs);
    VarsPointwise(cs, ps);
    forall a {
      HoldsPointwise(ps, cs, a);
    }
  }

  /** A formula with no implication or equivalence is rebuilt unchanged:
      every other node keeps its kind and child order. */
  lemma {:induction false} EliminatedKeeps(e: Expr)
    requires ImplicationFree(e)
    ensures Eliminated(e) == e
  {
    match e
    case Not(x) =>
      EliminatedKeeps(x);
    case And(cs) =>
      forall i | 0 <= i < |cs| {
        EliminatedKeeps(cs[i]);
      }
      assert seq(|cs|, i requires 0 <= i < |cs| => Eliminated(cs[i])) == cs;
    case Or(cs) =>
      forall i | 0 <= i < |cs| {
        EliminatedKeeps(cs[i]);
      }
      assert seq(|cs|, i requires 0 <= i < |cs| => Eliminated(cs[i])) == cs;
    case _ =>
  }

  /** `eliminateImplications`: the engine run with the tables above. */
  method EliminateImplications(e: Expr) returns (r: Result<Expr>)
    ensures r == Ok(Eliminated(e))
  {
    forall x ensures Shrinks(x, ElimUnroll(x)) {
      ElimShrinks(x);
    }
    forall x ensures EliminatedResult(x) == Step(ElimUnroll(x), ElimAssemble, EliminatedResult) {
      ElimFixpoint(x);
    }
    r := TraverseExpressionsTree(e, ElimUnroll, ElimAssemble, EliminatedResult);
  }
}
