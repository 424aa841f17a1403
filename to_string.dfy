/** `exprToLogicString`: the rendering of a formula in logic notation, run on
    the traversal engine with the structural unroll helpers. */
module LogicString {
  import opened SatExpr
  import opened Traversal

  /** `Array.prototype.join`. */
  function Join(parts: seq<string>, sep: string): string {
    if |parts| == 0 then ""
    else if |parts| == 1 then parts[0]
    else parts[0] + sep + Join(parts[1..], sep)
  }

  /** The logic notation of a formula: constants as `true`/`false`,
      variables by name, `¬` prefixed to its operand, and every other
      connective parenthesised with its operator between the operands. */
  function Rendered(e: Expr): string {
    match e
    case Bool(v) => if v then "true" else "false"
    case Var(x) => x
    case Not(x) => "¬" + Rendered(x)
    case And(cs) => "(" + Join(seq(|cs|, i requires 0 <= i < |cs| => Rendered(cs[i])), " ∧ ") + ")"
    case Or(cs) => "(" + Join(seq(|cs|, i requires 0 <= i < |cs| => Rendered(cs[i])), " ∨ ") + ")"
    case Implies(l, r) => "(" + Rendered(l) + " ⇒ " + Rendered(r) + ")"
    case Equivalent(l, r) => "(" + Rendered(l) + " ⇔ " + Rendered(r) + ")"
  }

  /** The leaf handlers: `value.toString()` and the variable name. (The
      engine only hands leaves to this function.) */
  function RenderLeaf(e: Expr): Result<string> {
    match e
    case Bool(v) => Ok(if v then "true" else "false")
    case Var(x) => Ok(x)
    case _ => Err(UnexpectedKind(KindOf(e)))
  }

  /** The `assembly*ToLogicString` handlers: the unary and binary ones
      insist on their exact number of parts. */
  function RenderAssemble(k: Kind, parts: seq<string>): Result<string> {
    match k
    case BoolK => if |parts| != 1 then Err(PartCount(k)) else Ok(parts[0])
    case VarK => if |parts| != 1 then Err(PartCount(k)) else Ok(parts[0])
    case NotK => if |parts| != 1 then Err(PartCount(k)) else Ok("¬" + parts[0])
    case AndK => Ok("(" + Join(parts, " ∧ ") + ")")
    case OrK => Ok("(" + Join(parts, " ∨ ") + ")")
    case ImpliesK => if |parts| != 2 then Err(PartCount(k)) else Ok("(" + parts[0] + " ⇒ " + parts[1] + ")")
    case EquivalentK => if |parts| != 2 then Err(PartCount(k)) else Ok("(" + parts[0] + " ⇔ " + parts[1] + ")")
  }

  /** Folding with the rendering handlers never trips a part-count check and
      yields the logic notation of the formula. */
  lemma {:induction false} RenderFold(e: Expr)
    ensures Fold(e, RenderLeaf, RenderAssemble) == Ok(Rendered(e))
  {
    match e
    case Bool(_) =>
    case Var(_) =>
    case Not(x) =>
      RenderFold(x);
    case And(cs) =>
      RenderChildren(cs);
    case Or(cs) =>
      RenderChildren(cs);
    case Implies(l, r) =>
      RenderFold(l);
      RenderFold(r);
      assert [Fold(l, RenderLeaf, RenderAssemble), Fold(r, RenderLeaf, RenderAssemble)][1..] == [Ok(Rendered(r))];
    case Equivalent(l, r) =>
      RenderFold(l);
      RenderFold(r);
      assert [Fold(l, RenderLeaf, RenderAssemble), Fold(r, RenderLeaf, RenderAssemble)][1..] == [Ok(Rendered(r))];
  }

  lemma {:induction false} RenderChildren(cs: seq<Expr>)
    ensures Collect(seq(|cs|, i requires 0 <= i < |cs| => Fold(cs[i], RenderLeaf, RenderAssemble))) ==
      Ok(seq(|cs|, i requires 0 <= i < |cs| => Rendered(cs[i])))
  {
    forall i | 0 <= i < |cs| {
      RenderFold(cs[i]);
    }
    var r := Collect(seq(|cs|, i requires 0 <= i < |cs| => Fold(cs[i], RenderLeaf, RenderAssemble)));
    assert r.value == seq(|cs|, i requires 0 <= i < |cs| => Rendered(cs[i]));
  }

  /** Two operands are joined around one separator. */
  lemma JoinPair(a: string, b: string, sep: string)
    ensures Join([a, b], sep) == a + sep + b
  {
    assert [a, b][1..] == [b];
  }

  /** A binary conjunction or disjunction renders as its two operands'
      notations around the operator, in parentheses; an empty one renders as
      `()`. */
  lemma RenderedPair(x: Expr, y: Expr)
    ensures Rendered(And([x, y])) == "(" + Rendered(x) + " ∧ " + Rendered(y) + ")"
    ensures Rendered(Or([x, y])) == "(" + Rendered(x) + " ∨ " + Rendered(y) + ")"
    ensures Rendered(And([])) == "()" && Rendered(Or([])) == "()"
  {
    var cs := [x, y];
    assert seq(|cs|, i requires 0 <= i < |cs| => Rendered(cs[i])) == [Rendered(x), Rendered(y)];
    JoinPair(Rendered(x), Rendered(y), " ∧ ");
    JoinPair(Rendered(x), Rendered(y), " ∨ ");
  }

  /** `exprToLogicString`: the engine run with the tables above. */
  method ExprToLogicString(e: Expr) returns (s: string)
    ensures s == Rendered(e)
  {
    var r := FoldTree(e, RenderLeaf, RenderAssemble);
    RenderFold(e);
    s := r.value;
  }
}
