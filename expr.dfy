/** Propositional formulas: the seven-variant expression tree, the errors the
    engine can raise, and the structural measures and predicates every other
    module uses. */
module SatExpr {

  /** The tag of an expression node; assembly handlers are chosen by it. */
  datatype Kind = BoolK | VarK | NotK | AndK | OrK | ImpliesK | EquivalentK

  /** A formula. `And` and `Or` are n-ary (zero children allowed), `Implies`
      and `Equivalent` strictly binary. The datatype constructors are the
      smart constructors `satBool` .. `satEquivalent`. */
  datatype Expr =
    | Bool(value: bool)
    | Var(name: string)
    | Not(expr: Expr)
    | And(children: seq<Expr>)
    | Or(children: seq<Expr>)
    | Implies(left: Expr, right: Expr)
    | Equivalent(left: Expr, right: Expr)

  /** The fatal errors: a handler wired to "unexpected kind", a variable with
      no assigned value, an assembly handler given the wrong number of parts,
      and the engine's two end-of-run consistency checks. */
  datatype Error =
    | UnexpectedKind(kind: Kind)
    | Unassigned(name: string)
    | PartCount(kind: Kind)
    | ExtraResults
    | NoResult

  datatype Result<T> = Ok(value: T) | Err(error: Error)

  function KindOf(e: Expr): Kind {
    match e
    case Bool(_) => BoolK
    case Var(_) => VarK
    case Not(_) => NotK
    case And(_) => AndK
    case Or(_) => OrK
    case Implies(_, _) => ImpliesK
    case Equivalent(_, _) => EquivalentK
  }

  /** The operands of a node, left to right. */
  function Children(e: Expr): seq<Expr> {
    match e
    case Bool(_) => []
    case Var(_) => []
    case Not(x) => [x]
    case And(cs) => cs
    case Or(cs) => cs
    case Implies(l, r) => [l, r]
    case Equivalent(l, r) => [l, r]
  }

  /** A size in which `Implies` and `Equivalent` weigh more than the nodes
      implication elimination replaces them by (`Equivalent(l, r)` becomes two
      implications between `l` and `r`), so that every rewrite shrinks the
      exponential measure the traversal engine terminates by. */
  function Weight(e: Expr): (weight: nat)
    ensures weight >= 1
  {
    match e
    case Bool(_) => 1
    case Var(_) => 1
    case Not(x) => 1 + Weight(x)
    case And(cs) => 1 + TotalWeight(cs)
    case Or(cs) => 1 + TotalWeight(cs)
    case Implies(l, r) => 2 + Weight(l) + Weight(r)
    case Equivalent(l, r) => 5 + 2 * (Weight(l) + Weight(r))
  }

  function TotalWeight(es: seq<Expr>): (total: nat)
    ensures total >= |es|
    ensures forall i {:trigger Weight(es[i])} :: 0 <= i < |es| ==> Weight(es[i]) <= total
  {
    if es == [] then 0 else Weight(es[0]) + TotalWeight(es[1..])
  }

  lemma {:induction false} TotalWeightAppend(a: seq<Expr>, b: seq<Expr>)
    ensures TotalWeight(a + b) == TotalWeight(a) + TotalWeight(b)
  {
    if a == [] {
      assert a + b == b;
    } else {
      assert (a + b)[1..] == a[1..] + b;
      TotalWeightAppend(a[1..], b);
    }
  }

  /** The variables occurring anywhere in `e`. */
  function VarSet(e: Expr): set<string> {
    match e
    case Bool(_) => {}
    case Var(x) => {x}
    case Not(x) => VarSet(x)
    case And(cs) => VarsOf(cs)
    case Or(cs) => VarsOf(cs)
    case Implies(l, r) => VarSet(l) + VarSet(r)
    case Equivalent(l, r) => VarSet(l) + VarSet(r)
  }

  function VarsOf(cs: seq<Expr>): set<string> {
    set i, x | 0 <= i < |cs| && x in VarSet(cs[i]) :: x
  }

  /** An assignment of truth values to variable names. */
  type Assignment = map<string, bool>

  /** Classical meaning of a formula; a variable missing from `a` reads as
      false (`Eval` in the solver instead fails on it). */
  predicate Holds(e: Expr, a: Assignment) {
    match e
    case Bool(v) => v
    case Var(x) => x in a && a[x]
    case Not(x) => !Holds(x, a)
    case And(cs) => forall i :: 0 <= i < |cs| ==> Holds(cs[i], a)
    case Or(cs) => exists i :: 0 <= i < |cs| && Holds(cs[i], a)
    case Implies(l, r) => !Holds(l, a) || Holds(r, a)
    case Equivalent(l, r) => Holds(l, a) == Holds(r, a)
  }

  /** No `Implies` or `Equivalent` node anywhere. */
  predicate ImplicationFree(e: Expr) {
    match e
    case Bool(_) => true
    case Var(_) => true
    case Not(x) => ImplicationFree(x)
    case And(cs) => forall i :: 0 <= i < |cs| ==> ImplicationFree(cs[i])
    case Or(cs) => forall i :: 0 <= i < |cs| ==> ImplicationFree(cs[i])
    case Implies(_, _) => false
    case Equivalent(_, _) => false
  }

  /** Negation normal form: every `Not` wraps a variable. */
  predicate NegationNormal(e: Expr) {
    match e
    case Bool(_) => true
    case Var(_) => true
    case Not(x) => x.Var?
    case And(cs) => forall i :: 0 <= i < |cs| ==> NegationNormal(cs[i])
    case Or(cs) => forall i :: 0 <= i < |cs| ==> NegationNormal(cs[i])
    case Implies(l, r) => NegationNormal(l) && NegationNormal(r)
    case Equivalent(l, r) => NegationNormal(l) && NegationNormal(r)
  }

  /** The results of processing a node's children, gathered left to right;
      the first failure, in that order, is the one that surfaces. */
  function Collect<T>(rs: seq<Result<T>>): (r: Result<seq<T>>)
    ensures r.Ok? <==> forall i :: 0 <= i < |rs| ==> rs[i].Ok?
    ensures r.Ok? ==> |r.value| == |rs| && forall i :: 0 <= i < |rs| ==> rs[i] == Ok(r.value[i])
    ensures r.Err? ==> exists k :: 0 <= k < |rs| && rs[k] == Err(r.error) && forall j :: 0 <= j < k ==> rs[j].Ok?
  {
    if rs == [] then Ok([])
    else
      match rs[0]
      case Err(x) => Err(x)
      case Ok(v) =>
        match Collect(rs[1..])
        case Ok(vs) => Ok([v] + vs)
        case Err(x) => Err(x)
  }

  /** Children with the same meaning make connectives with the same meaning. */
  lemma HoldsPointwise(ps: seq<Expr>, cs: seq<Expr>, a: Assignment)
    requires |ps| == |cs|
    requires forall i :: 0 <= i < |cs| ==> Holds(ps[i], a) == Holds(cs[i], a)
    ensures Holds(And(ps), a) == Holds(And(cs), a)
    ensures Holds(Or(ps), a) == Holds(Or(cs), a)
  {
    if Holds(Or(cs), a) {
      var i :| 0 <= i < |cs| && Holds(cs[i], a);
      assert Holds(ps[i], a);
    }
    if Holds(Or(ps), a) {
      var i :| 0 <= i < |ps| && Holds(ps[i], a);
      assert Holds(cs[i], a);
    }
  }

  /** Children using fewer variables make connectives using fewer variables. */
  lemma VarsPointwise(ps: seq<Expr>, cs: seq<Expr>)
    requires |ps| == |cs|
    requires forall i :: 0 <= i < |cs| ==> VarSet(ps[i]) <= VarSet(cs[i])
    ensures VarsOf(ps) <= VarsOf(cs)
  {
    forall x | x in VarsOf(ps)
      ensures x in VarsOf(cs)
    {
      var i :| 0 <= i < |ps| && x in VarSet(ps[i]);
      assert x in VarSet(cs[i]);
    }
  }

  lemma TotalWeightPair(x: Expr, y: Expr)
    ensures TotalWeight([x, y]) == Weight(x) + Weight(y)
  {
    assert TotalWeight([y]) == Weight(y) by {
      assert [y][1..] == [];
    }
    assert TotalWeight([x, y]) == Weight(x) + TotalWeight([y]) by {
      assert [x, y][1..] == [y];
    }
  }

  /** A two-operand `Or` or `And` means the disjunction or conjunction of
      its operands, and uses their variables. */
  lemma PairMeaning(x: Expr, y: Expr)
    ensures forall a :: Holds(Or([x, y]), a) == (Holds(x, a) || Holds(y, a))
    ensures forall a :: Holds(And([x, y]), a) == (Holds(x, a) && Holds(y, a))
    ensures VarsOf([x, y]) == VarSet(x) + VarSet(y)
  {
    forall a
      ensures Holds(Or([x, y]), a) == (Holds(x, a) || Holds(y, a))
      ensures Holds(And([x, y]), a) == (Holds(x, a) && Holds(y, a))
    {
      assert [x, y][0] == x && [x, y][1] == y;
    }
    forall v | v in VarSet(x) + VarSet(y)
      ensures v in VarsOf([x, y])
    {
      assert [x, y][0] == x && [x, y][1] == y;
    }
  }

  lemma AppendAssoc<T>(a: seq<T>, b: seq<T>, c: seq<T>)
    ensures (a + b) + c == a + (b + c)
  {
  }

  /** Two successes are gathered in order. */
  lemma CollectOks<T>(x: T, y: T)
    ensures Collect([Ok(x), Ok(y)]) == Ok([x, y])
  {
    var c := Collect([Ok(x), Ok(y)]);
    assert c.Ok? && |c.value| == 2 && c.value[0] == x && c.value[1] == y;
    assert c.value == [x, y];
  }

  /** Removing the only element of a singleton leaves nothing. */
  lemma SingletonParts<T>(x: T)
    ensures [x][..0] + [x][1..] == [] && [x] + [] == [x]
  {
  }

  /** A sequence is its prefix, the element at `i` and its suffix. */
  lemma SplitSeq<T>(s: seq<T>, i: nat)
    requires i < |s|
    ensures s == s[..i] + ([s[i]] + s[i + 1..])
  {
  }

  lemma TotalWeightSingle(x: Expr)
    ensures TotalWeight([x]) == Weight(x)
  {
    assert [x][1..] == [];
  }

  /** `Or(x + y)` holds when `Or(x)` or `Or(y)` does. */
  lemma AppendHolds(x: seq<Expr>, y: seq<Expr>, a: Assignment)
    ensures Holds(Or(x + y), a) == (Holds(Or(x), a) || Holds(Or(y), a))
  {
    var xy := x + y;
    if Holds(Or(xy), a) {
      var i :| 0 <= i < |xy| && Holds(xy[i], a);
      if i >= |x| {
        assert y[i - |x|] == xy[i];
      }
    }
    if Holds(Or(x), a) {
      var i :| 0 <= i < |x| && Holds(x[i], a);
      assert xy[i] == x[i];
    }
    if Holds(Or(y), a) {
      var i :| 0 <= i < |y| && Holds(y[i], a);
      assert xy[|x| + i] == y[i];
    }
  }

  lemma AppendVars(x: seq<Expr>, y: seq<Expr>)
    ensures VarsOf(x + y) == VarsOf(x) + VarsOf(y)
  {
    var xy := x + y;
    forall v | v in VarsOf(xy)
      ensures v in VarsOf(x) + VarsOf(y)
    {
      var i :| 0 <= i < |xy| && v in VarSet(xy[i]);
      if i >= |x| {
        assert y[i - |x|] == xy[i];
      }
    }
    forall v | v in VarsOf(x)
      ensures v in VarsOf(xy)
    {
      var i :| 0 <= i < |x| && v in VarSet(x[i]);
      assert xy[i] == x[i];
    }
    forall v | v in VarsOf(y)
      ensures v in VarsOf(xy)
    {
      var i :| 0 <= i < |y| && v in VarSet(y[i]);
      assert xy[|x| + i] == y[i];
    }
  }

  lemma AppendImplicationFree(x: seq<Expr>, y: seq<Expr>)
    ensures ImplicationFree(Or(x + y)) == (ImplicationFree(Or(x)) && ImplicationFree(Or(y)))
  {
    var xy := x + y;
    if ImplicationFree(Or(x)) && ImplicationFree(Or(y)) {
      forall i | 0 <= i < |xy|
        ensures ImplicationFree(xy[i])
      {
        if i >= |x| {
          assert y[i - |x|] == xy[i];
        }
      }
    }
    if ImplicationFree(Or(xy)) {
      forall i | 0 <= i < |x|
        ensures ImplicationFree(x[i])
      {
        assert xy[i] == x[i];
      }
      forall i | 0 <= i < |y|
        ensures ImplicationFree(y[i])
      {
        assert xy[|x| + i] == y[i];
      }
    }
  }

  /** A one-operand `Or` means its operand. */
  lemma SingleHolds(c: Expr, a: Assignment)
    ensures Holds(Or([c]), a) == Holds(c, a)
  {
    assert [c][0] == c;
  }

  lemma SingleVars(c: Expr)
    ensures VarsOf([c]) == VarSet(c)
    ensures ImplicationFree(Or([c])) == ImplicationFree(c)
  {
    forall v | v in VarSet(c)
      ensures v in VarsOf([c])
    {
      assert [c][0] == c;
    }
    assert [c][0] == c;
  }
}
