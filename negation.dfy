/** `pushNegations`: De Morgan's laws and double-negation removal, run on the
    traversal engine. The unroll table rewrites a `Not` node before its
    operand is visited; the shared assembly table rebuilds every other node. */
module Negation {
  import opened SatExpr
  import opened Power
  import opened Traversal
  import opened Assembly

  function Negated(cs: seq<Expr>): (ns: seq<Expr>)
    ensures |ns| == |cs| && forall i :: 0 <= i < |cs| ==> ns[i] == Not(cs[i])
  {
    seq(|cs|, i requires 0 <= i < |cs| => Not(cs[i]))
  }

  /** `pushNaryNegation`: the dual connective over the negated operands,
      which by De Morgan's laws means the negation of `inner`. */
  function PushNaryNegation(inner: Expr): (r: Expr)
    requires inner.And? || inner.Or?
    ensures r.Or? <==> inner.And?
    ensures (r.And? || r.Or?) && r.children == Negated(inner.children)
    ensures forall a :: Holds(r, a) == !Holds(inner, a)
  {
    if inner.Or? then And(Negated(inner.children)) else Or(Negated(inner.children))
  }

  /** `unrollNegation`: the decision taken for a `Not` node. */
  function UnrollNegation(e: Expr): Unrolled<Expr>
    requires e.Not?
  {
    var inner := e.expr;
    match inner
    case Bool(v) => Value(Bool(!v))
    case Var(_) => Value(e)
    case Not(y) => Redirect(y)
    case And(_) => Descend(PushNaryNegation(inner))
    case Or(_) => Descend(PushNaryNegation(inner))
    case Implies(_, _) => Redirect(inner)
    case Equivalent(_, _) => Redirect(inner)
  }

  /** Negating every operand doubles the engine measure of a sequence. */
  lemma {:induction false} NegatedSpread(cs: seq<Expr>)
    ensures Spread(Negated(cs)) == 2 * Spread(cs)
  {
    if cs != [] {
      assert Negated(cs)[1..] == Negated(cs[1..]);
      NegatedSpread(cs[1..]);
    }
  }

  /** Every decision of `unrollNegation` makes progress: a redirection goes
      to a lighter node, and a De Morgan expansion to lighter children whose
      measure is below that of the `Not` node. */
  lemma NegationShrinks(e: Expr)
    requires e.Not?
    ensures Shrinks(e, UnrollNegation(e))
    ensures UnrollNegation(e).Redirect? ==> Weight(UnrollNegation(e).target) < Weight(e)
    ensures UnrollNegation(e).Descend? ==>
      var ks := Children(UnrollNegation(e).node);
      forall j :: 0 <= j < |ks| ==> Weight(ks[j]) < Weight(e)
  {
    if e.expr.And? || e.expr.Or? {
      var p := PushNaryNegation(e.expr);
      assert UnrollNegation(e) == Descend(p);
      assert Children(p) == Negated(e.expr.children);
      DeMorganShrinks(e);
    }
  }

  /** The negated operands of a De Morgan expansion are each lighter than
      the negated `And`/`Or`, and so is their total measure. */
  lemma DeMorganShrinks(e: Expr)
    requires e.Not? && (e.expr.And? || e.expr.Or?)
    ensures var ns := Negated(e.expr.children);
      (forall j :: 0 <= j < |ns| ==> Weight(ns[j]) < Weight(e)) &&
      1 + Spread(ns) < Pow2(Weight(e))
  {
    var cs := e.expr.children;
    var t := TotalWeight(cs);
    assert Weight(e) == 2 + t;
    NegatedSpread(cs);
    SpreadBound(cs);
    assert Pow2(2 + t) == 4 * Pow2(t);
  }

  /** The unroll table of `pushNegations`. */
  function PushUnroll(e: Expr): Unrolled<Expr> {
    match e
    case Bool(_) => Value(e)
    case Var(_) => Value(e)
    case Not(_) => UnrollNegation(e)
    case And(_) => Descend(e)
    case Or(_) => Descend(e)
    case Implies(_, _) => Throw(UnexpectedKind(ImpliesK))
    case Equivalent(_, _) => Throw(UnexpectedKind(EquivalentK))
  }

  /** What `pushNegations` computes, as a recursive function: each node is
      handled as `PushUnroll` decides, and rebuilt by `Reassemble` from the
      rewritten children. */
  function NegationsPushed(e: Expr): Result<Expr>
    decreases Weight(e)
  {
    match e
    case Not(_) =>
      NegationShrinks(e);
      (match UnrollNegation(e)
       case Value(v) => Ok(v)
       case Throw(x) => Err(x)
       case Redirect(x) => NegationsPushed(x)
       case Descend(p) =>
         var ks := Children(p);
         Combine(KindOf(p), Collect(seq(|ks|, j requires 0 <= j < |ks| => NegationsPushed(ks[j]))), Reassemble))
    case And(cs) => Combine(AndK, Collect(seq(|cs|, i requires 0 <= i < |cs| => NegationsPushed(cs[i]))), Reassemble)
    case Or(cs) => Combine(OrK, Collect(seq(|cs|, i requires 0 <= i < |cs| => NegationsPushed(cs[i]))), Reassemble)
    case Bool(_) => Ok(e)
    case Var(_) => Ok(e)
    case Implies(_, _) => Err(UnexpectedKind(ImpliesK))
    case Equivalent(_, _) => Err(UnexpectedKind(EquivalentK))
  }

  /** The rewrite rules of `unrollNegation` for a negated leaf, negation,
      implication or equivalence: a constant is flipped, a variable kept, a
      double negation dropped (no process item), and an implication or
      equivalence fails. */
  lemma NegationRules(x: Expr)
    ensures x.Bool? ==> NegationsPushed(Not(x)) == Ok(Bool(!x.value))
    ensures x.Var? ==> NegationsPushed(Not(x)) == Ok(Not(x))
    ensures x.Not? ==> NegationsPushed(Not(x)) == NegationsPushed(x.expr)
    ensures x.Implies? || x.Equivalent? ==> NegationsPushed(Not(x)).Err?
  {
  }

  /** De Morgan: a negated conjunction is rewritten as the disjunction of the
      negated operands, and dually. */
  lemma DeMorganRules(x: Expr)
    requires x.And? || x.Or?
    ensures x.And? ==> NegationsPushed(Not(x)) == NegationsPushed(Or(Negated(x.children)))
    ensures x.Or? ==> NegationsPushed(Not(x)) == NegationsPushed(And(Negated(x.children)))
  {
    var p := PushNaryNegation(x);
    assert UnrollNegation(Not(x)) == Descend(p);
    assert Children(p) == Negated(x.children);
  }

  /** Rebuilding an `And`/`Or` node from rewritten children succeeds exactly
      when every child's rewrite does, and keeps the connective. */
  lemma RebuiltNode(p: Expr, rs: seq<Result<Expr>>)
    requires p.And? || p.Or?
    ensures Combine(KindOf(p), Collect(rs), Reassemble).Ok? <==> forall j :: 0 <= j < |rs| ==> rs[j].Ok?
    ensures Combine(KindOf(p), Collect(rs), Reassemble).Ok? ==>
      var f := Combine(KindOf(p), Collect(rs), Reassemble).value;
      (f.And? <==> p.And?) && (f.And? || f.Or?) &&
      |f.children| == |rs| && forall j :: 0 <= j < |rs| ==> rs[j] == Ok(f.children[j])
  {
  }

  /** The variables of negated operands are the operands' variables. */
  lemma NegatedVars(cs: seq<Expr>)
    ensures VarsOf(Negated(cs)) == VarsOf(cs)
  {
    VarsPointwise(Negated(cs), cs);
    VarsPointwise(cs, Negated(cs));
  }

  /** What `pushNegations` promises about one formula `e` and its outcome
      `r`: it fails exactly on formulas with an implication or equivalence,
      and otherwise yields a formula in negation normal form, free of
      implications, over the same variables and with the same meaning. */
  ghost predicate PushedWell(e: Expr, r: Result<Expr>) {
    (r.Ok? <==> ImplicationFree(e)) &&
    (r.Ok? ==>
      NegationNormal(r.value) && ImplicationFree(r.value) && VarSet(r.value) == VarSet(e) &&
      forall a :: Holds(r.value, a) == Holds(e, a))
  }

  /** Rebuilding an `And`/`Or` node from children that were pushed well
      pushes the node well. */
  lemma PushedChildren(p: Expr, rs: seq<Result<Expr>>)
    requires p.And? || p.Or?
    requires |rs| == |p.children|
    requires forall j :: 0 <= j < |rs| ==> PushedWell(p.children[j], rs[j])
    ensures PushedWell(p, Combine(KindOf(p), Collect(rs), Reassemble))
  {
    var ks := p.children;
    var r := Combine(KindOf(p), Collect(rs), Reassemble);
    RebuiltNode(p, rs);
    if r.Ok? {
      var ps := r.value.children;
      assert forall j :: 0 <= j < |rs| ==> rs[j].value == ps[j];
      VarsPointwise(ps, ks);
      VarsPointwise(ks, ps);
      forall a {
        HoldsPointwise(ps, ks, a);
      }
    }
  }

  /** A negated conjunction or disjunction is pushed well when its De Morgan
      dual is. */
  lemma DeMorganWell(e: Expr, r: Result<Expr>)
    requires e.Not? && (e.expr.And? || e.expr.Or?)
    requires PushedWell(PushNaryNegation(e.expr), r)
    ensures PushedWell(e, r)
  {
    var cs := e.expr.children;
    var p := PushNaryNegation(e.expr);
    NegatedVars(cs);
    assert ImplicationFree(p) == ImplicationFree(e.expr) by {
      assert forall i :: 0 <= i < |cs| ==> ImplicationFree(p.children[i]) == ImplicationFree(cs[i]);
    }
  }

  /** `pushNegations` fails exactly on formulas that still hold an
      implication or an equivalence, anywhere (also under a `Not`); on every
      other formula it yields an equivalent formula in negation normal form
      over the same variables. */
  lemma {:induction false} NegationsPushedWell(e: Expr)
    ensures PushedWell(e, NegationsPushed(e))
    decreases Weight(e)
  {
    match e
    case Not(inner) =>
      NegationShrinks(e);
      match UnrollNegation(e) {
        case Value(_) =>
        case Throw(_) =>
        case Redirect(x) =>
          NegationsPushedWell(x);
        case Descend(p) =>
          var ks := Children(p);
          var rs := seq(|ks|, j requires 0 <= j < |ks| => NegationsPushed(ks[j]));
          forall j | 0 <= j < |ks| {
            NegationsPushedWell(ks[j]);
          }
          PushedChildren(p, rs);
          DeMorganWell(e, NegationsPushed(e));
      }
    case And(cs) =>
      var rs := seq(|cs|, i requires 0 <= i < |cs| => NegationsPushed(cs[i]));
      forall i | 0 <= i < |cs| {
        NegationsPushedWell(cs[i]);
      }
      PushedChildren(e, rs);
    case Or(cs) =>
      var rs := seq(|cs|, i requires 0 <= i < |cs| => NegationsPushed(cs[i]));
      forall i | 0 <= i < |cs| {
        NegationsPushedWell(cs[i]);
      }
      PushedChildren(e, rs);
    case _ =>
  }

  /** The handler tables of `pushNegations` are correct for
      `NegationsPushed`. */
  lemma PushFixpoint(e: Expr)
    ensures NegationsPushed(e) == Step(PushUnroll(e), Reassemble, NegationsPushed)
  {
    match PushUnroll(e)
    case Descend(p) =>
      var ks := Children(p);
      assert Applied(NegationsPushed, ks) == seq(|ks|, j requires 0 <= j < |ks| => NegationsPushed(ks[j]));
    case _ =>
  }

  lemma PushShrinks(e: Expr)
    ensures Shrinks(e, PushUnroll(e))
  {
    if e.Not? {
      NegationShrinks(e);
    } else {
      ChildrenWeight(e);
      DescendBound(Children(e), Weight(e));
    }
  }

  /** `pushNegations`: the engine run with the tables above. */
  method PushNegations(e: Expr) returns (r: Result<Expr>)
    ensures r == NegationsPushed(e)
    ensures PushedWell(e, r)
  {
    forall x ensures Shrinks(x, PushUnroll(x)) {
      PushShrinks(x);
    }
    forall x ensures NegationsPushed(x) == Step(PushUnroll(x), Reassemble, NegationsPushed) {
      PushFixpoint(x);
    }
    r := TraverseExpressionsTree(e, PushUnroll, Reassemble, NegationsPushed);
    NegationsPushedWell(e);
  }
}
