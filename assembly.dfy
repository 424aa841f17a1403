/** The expression-building assembly helpers shared by the rewriting passes:
    `assemblyLeaf`, `assemblyNot`, `assemblyAnd`, `assemblyOr`,
    `assemblyImplies`, `assemblyEquivalent`, and the `assertAssemblyExpKind`
    wrapper that turns a helper into an "unexpected kind" failure. */
module Assembly {
  import opened SatExpr

  /** The `assembly*` helper of kind `k`. A helper that reads `parts[0]` or
      `parts[1]` beyond the parts it was given fails with `PartCount`. */
  function AssembleExpr(k: Kind, parts: seq<Expr>): Result<Expr> {
    match k
    case BoolK => if |parts| < 1 then Err(PartCount(k)) else Ok(parts[0])
    case VarK => if |parts| < 1 then Err(PartCount(k)) else Ok(parts[0])
    case NotK => if |parts| < 1 then Err(PartCount(k)) else Ok(Not(parts[0]))
    case AndK => Ok(And(parts))
    case OrK => Ok(Or(parts))
    case ImpliesK => if |parts| < 2 then Err(PartCount(k)) else Ok(Implies(parts[0], parts[1]))
    case EquivalentK => if |parts| < 2 then Err(PartCount(k)) else Ok(Equivalent(parts[0], parts[1]))
  }

  /** The assembly table of `pushNegations` and `distributeOrOverAnd`: the
      helpers above, with the two binary connectives wrapped by
      `assertAssemblyExpKind`. */
  function Reassemble(k: Kind, parts: seq<Expr>): Result<Expr> {
    if k == ImpliesK || k == EquivalentK then Err(UnexpectedKind(k))
    else AssembleExpr(k, parts)
  }
}
