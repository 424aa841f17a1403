/** `distributeOrOverAnd`: one level of `or` flattening, then distribution of
    the `or` over the first `and` among its operands, run on the traversal
    engine. `Not` nodes are handled by `unrollNegation`, as in
    `pushNegations`. */
module Distribution {
  import opened SatExpr
  import opened Power
  import opened Traversal
  import opened Assembly
  import opened Negation

  /** The `reduce` in `distributeOr`: every `Or` operand is replaced by its
      own operands (one level only), every other operand is kept, in order. */
  function Flatten(cs: seq<Expr>): (flat: seq<Expr>)
    ensures (forall i :: 0 <= i < |cs| ==> !cs[i].Or?) ==> flat == cs
  {
    if cs == [] then []
    else (if cs[0].Or? then cs[0].children else [cs[0]]) + Flatten(cs[1..])
  }

  /** Flattening adds no weight. */
  lemma {:induction false} FlattenWeight(cs: seq<Expr>)
    ensures TotalWeight(Flatten(cs)) <= TotalWeight(cs)
  {
    if cs != [] {
      var c := cs[0];
      var head := if c.Or? then c.children else [c];
      FlattenWeight(cs[1..]);
      TotalWeightAppend(head, Flatten(cs[1..]));
      TotalWeightSingle(c);
    }
  }

  /** Flattening keeps the meaning of a disjunction. */
  lemma {:induction false} FlattenHolds(cs: seq<Expr>, a: Assignment)
    ensures Holds(Or(Flatten(cs)), a) == Holds(Or(cs), a)
  {
    if cs != [] {
      var c := cs[0];
      var head := if c.Or? then c.children else [c];
      FlattenHolds(cs[1..], a);
      AppendHolds(head, Flatten(cs[1..]), a);
      assert cs == [c] + cs[1..];
      AppendHolds([c], cs[1..], a);
      SingleHolds(c, a);
    }
  }

  /** Flattening keeps the variables and the implication-freedom of a
      disjunction. */
  lemma {:induction false} FlattenVars(cs: seq<Expr>)
    ensures VarsOf(Flatten(cs)) == VarsOf(cs)
    ensures ImplicationFree(Or(Flatten(cs))) == ImplicationFree(Or(cs))
  {
    if cs != [] {
      var c := cs[0];
      var head := if c.Or? then c.children else [c];
      FlattenVars(cs[1..]);
      AppendVars(head, Flatten(cs[1..]));
      AppendImplicationFree(head, Flatten(cs[1..]));
      assert cs == [c] + cs[1..];
      AppendVars([c], cs[1..]);
      AppendImplicationFree([c], cs[1..]);
      SingleVars(c);
    }
  }

  /** The index of the first `And` in `flat`, or `|flat|` when there is none. */
  function FirstAnd(flat: seq<Expr>): (i: nat)
    ensures i <= |flat|
    ensures i < |flat| ==> flat[i].And?
    ensures forall j :: 0 <= j < i ==> !flat[j].And?
  {
    if flat == [] then 0
    else if flat[0].And? then 0
    else 1 + FirstAnd(flat[1..])
  }

  /** The `for` loop of `distributeOr`, scanning the flattened operands for
      the first `And` and stopping there. */
  method FindFirstAnd(flat: seq<Expr>) returns (i: nat)
    ensures i == FirstAnd(flat)
  {
    i := 0;
    while i < |flat|
      invariant i <= |flat|
      invariant forall j :: 0 <= j < i ==> !flat[j].And?
    {
      if flat[i].And? {
        return;
      }
      i := i + 1;
    }
  }

  /** The operands `Or(d_j, ...rest)` built for the operands `d_j` of the
      chosen `And`. */
  function Distribute(ds: seq<Expr>, rest: seq<Expr>): (os: seq<Expr>)
    ensures |os| == |ds| && forall j :: 0 <= j < |ds| ==> os[j] == Or([ds[j]] + rest)
  {
    seq(|ds|, j requires 0 <= j < |ds| => Or([ds[j]] + rest))
  }

  /** `distributeOr`: the node expanded in place of `Or(cs)`. When a
      flattened operand is an `And`, the first one is distributed over the
      other flattened operands, which keep their order; otherwise it is the
      flattened `Or`. */
  function DistributeOrNode(cs: seq<Expr>): Expr {
    var flat := Flatten(cs);
    var i := FirstAnd(flat);
    if i < |flat| then And(Distribute(flat[i].children, flat[..i] + flat[i + 1..]))
    else Or(flat)
  }

  /** `distributeOr` with its `for` loop: flatten, scan for the first
      `And`, and build the node to expand. The engine's unroll table uses
      the function `DistributeOrNode`, which this method computes. */
  method DistributeOr(cs: seq<Expr>) returns (node: Expr)
    ensures node == DistributeOrNode(cs)
  {
    var flat := Flatten(cs);
    var i := FindFirstAnd(flat);
    if i < |flat| {
      var rest := flat[..i] + flat[i + 1..];
      node := And(Distribute(flat[i].children, rest));
    } else {
      node := Or(flat);
    }
  }

  lemma {:induction false} DistributeSpread(ds: seq<Expr>, rest: seq<Expr>)
    ensures Spread(Distribute(ds, rest)) == 2 * Pow2(TotalWeight(rest)) * Spread(ds)
  {
    if ds != [] {
      var t := TotalWeight(rest);
      var w := Weight(ds[0]);
      assert Distribute(ds, rest)[1..] == Distribute(ds[1..], rest);
      DistributeSpread(ds[1..], rest);
      TotalWeightAppend([ds[0]], rest);
      TotalWeightSingle(ds[0]);
      Pow2Add(w, t);
      assert Weight(Distribute(ds, rest)[0]) == 1 + w + t;
      assert Pow2(1 + w + t) == 2 * Pow2(w + t);
      Factor(Pow2(w), Pow2(t), Spread(ds[1..]));
    }
  }

  /** Taking out the operand at `i` splits a disjunction's meaning,
      variables and implication-freedom. */
  lemma SplitAt(flat: seq<Expr>, i: nat, a: Assignment)
    requires i < |flat|
    ensures var rest := flat[..i] + flat[i + 1..];
      (Holds(Or(flat), a) == (Holds(flat[i], a) || Holds(Or(rest), a))) &&
      VarsOf(flat) == VarSet(flat[i]) + VarsOf(rest) &&
      ImplicationFree(Or(flat)) == (ImplicationFree(flat[i]) && ImplicationFree(Or(rest)))
  {
    var pre, x, post := flat[..i], flat[i], flat[i + 1..];
    SplitSeq(flat, i);
    AppendHolds(pre, [x] + post, a);
    AppendHolds([x], post, a);
    AppendHolds(pre, post, a);
    SingleHolds(x, a);
    AppendVars(pre, [x] + post);
    AppendVars([x], post);
    AppendVars(pre, post);
    AppendImplicationFree(pre, [x] + post);
    AppendImplicationFree([x], post);
    AppendImplicationFree(pre, post);
    SingleVars(x);
  }

  /** Taking out the operand at `i` splits the weight of a sequence. */
  lemma SplitWeight(flat: seq<Expr>, i: nat)
    requires i < |flat|
    ensures TotalWeight(flat) == Weight(flat[i]) + TotalWeight(flat[..i] + flat[i + 1..])
  {
    var pre, x, post := flat[..i], flat[i], flat[i + 1..];
    SplitSeq(flat, i);
    TotalWeightAppend(pre, [x] + post);
    TotalWeightAppend([x], post);
    TotalWeightAppend(pre, post);
    TotalWeightSingle(x);
  }

  /** `And(Or(d_j, ...rest) for each j)` means `And(ds) || Or(rest)`. */
  lemma DistributeHolds(ds: seq<Expr>, rest: seq<Expr>, a: Assignment)
    ensures Holds(And(Distribute(ds, rest)), a) == (Holds(And(ds), a) || Holds(Or(rest), a))
  {
    var os := Distribute(ds, rest);
    forall j | 0 <= j < |ds|
      ensures Holds(os[j], a) == (Holds(ds[j], a) || Holds(Or(rest), a))
    {
      AppendHolds([ds[j]], rest, a);
      SingleHolds(ds[j], a);
    }
    if !Holds(Or(rest), a) && !Holds(And(os), a) {
      var j :| 0 <= j < |os| && !Holds(os[j], a);
      assert !Holds(ds[j], a);
    }
  }

  /** The distributed operands use only the variables of `ds` and `rest`,
      and are free of implications when those are. */
  lemma DistributeVars(ds: seq<Expr>, rest: seq<Expr>)
    ensures VarsOf(Distribute(ds, rest)) <= VarsOf(ds) + VarsOf(rest)
    ensures ImplicationFree(And(ds)) && ImplicationFree(Or(rest)) ==> ImplicationFree(And(Distribute(ds, rest)))
  {
    var os := Distribute(ds, rest);
    forall j | 0 <= j < |ds|
      ensures VarSet(os[j]) == VarSet(ds[j]) + VarsOf(rest)
      ensures ImplicationFree(ds[j]) && ImplicationFree(Or(rest)) ==> ImplicationFree(os[j])
    {
      AppendVars([ds[j]], rest);
      AppendImplicationFree([ds[j]], rest);
      SingleVars(ds[j]);
    }
    forall v | v in VarsOf(os)
      ensures v in VarsOf(ds) + VarsOf(rest)
    {
      var j :| 0 <= j < |os| && v in VarSet(os[j]);
      if v in VarSet(ds[j]) {
        assert v in VarsOf(ds);
      }
    }
  }

  /** The distributed operands are each no heavier than `And(ds)` and `rest`
      together. */
  lemma DistributeWeight(ds: seq<Expr>, rest: seq<Expr>)
    ensures var os := Distribute(ds, rest);
      forall j :: 0 <= j < |os| ==> Weight(os[j]) <= 1 + TotalWeight(ds) + TotalWeight(rest)
  {
    var os := Distribute(ds, rest);
    forall j | 0 <= j < |ds|
      ensures Weight(os[j]) <= 1 + TotalWeight(ds) + TotalWeight(rest)
    {
      TotalWeightAppend([ds[j]], rest);
      TotalWeightSingle(ds[j]);
    }
  }

  /** The measure of the distributed operands is at most two to the weight
      of `And(ds)` and `rest` together, so it stays below twice `Pow2` of
      any larger weight. */
  lemma DistributeMeasure(ds: seq<Expr>, rest: seq<Expr>, total: nat)
    requires 1 + TotalWeight(ds) + TotalWeight(rest) <= total
    ensures 1 + Spread(Distribute(ds, rest)) < 2 * Pow2(total)
  {
    DistributeSpread(ds, rest);
    SpreadBound(ds);
    SpreadArith(Spread(Distribute(ds, rest)), Spread(ds), TotalWeight(ds), TotalWeight(rest), total);
  }

  /** Each operand built by `distributeOr` is lighter than the `Or` it
      replaces, and the expansion lowers the engine measure. */
  lemma DistributeOrShrinks(cs: seq<Expr>)
    ensures var ks := Children(DistributeOrNode(cs));
      (forall j :: 0 <= j < |ks| ==> Weight(ks[j]) < Weight(Or(cs))) &&
      1 + Spread(ks) < Pow2(Weight(Or(cs)))
  {
    var flat := Flatten(cs);
    var i := FirstAnd(flat);
    if i < |flat| {
      OrNodeSplit(cs, flat, i);
      SplitBudget(cs, flat, i);
      DistributedShrink(flat[i].children, flat[..i] + flat[i + 1..], cs);
    } else {
      assert DistributeOrNode(cs) == Or(flat);
      FlatShrinks(cs);
    }
  }

  /** Flattening keeps every operand lighter than `Or(cs)` and the measure
      below its own. */
  lemma FlatShrinks(cs: seq<Expr>)
    ensures var flat := Flatten(cs);
      (forall j :: 0 <= j < |flat| ==> Weight(flat[j]) < Weight(Or(cs))) &&
      1 + Spread(flat) < Pow2(Weight(Or(cs)))
  {
    FlattenWeight(cs);
    DescendBound(Flatten(cs), Weight(Or(cs)));
  }

  /** Distributing within the weight of `cs`: every operand is lighter than
      `Or(cs)` and their measure stays below its own. */
  lemma DistributedShrink(ds: seq<Expr>, rest: seq<Expr>, cs: seq<Expr>)
    requires 1 + TotalWeight(ds) + TotalWeight(rest) <= TotalWeight(cs)
    ensures var ks := Distribute(ds, rest);
      (forall j :: 0 <= j < |ks| ==> Weight(ks[j]) < Weight(Or(cs))) &&
      1 + Spread(ks) < Pow2(Weight(Or(cs)))
  {
    DistributeWeight(ds, rest);
    DistributeMeasure(ds, rest, TotalWeight(cs));
    OrMeasure(cs);
  }

  lemma OrMeasure(cs: seq<Expr>)
    ensures Weight(Or(cs)) == 1 + TotalWeight(cs)
    ensures Pow2(Weight(Or(cs))) == 2 * Pow2(TotalWeight(cs))
  {
  }

  /** Taking the first conjunction out of the flattened `Or(cs)` leaves
      operands whose weights, with that conjunction's, fit in `cs`. */
  lemma SplitBudget(cs: seq<Expr>, flat: seq<Expr>, i: nat)
    requires flat == Flatten(cs) && i < |flat| && flat[i].And?
    ensures 1 + TotalWeight(flat[i].children) + TotalWeight(flat[..i] + flat[i + 1..]) <= TotalWeight(cs)
  {
    FlattenWeight(cs);
    SplitWeight(flat, i);
    assert Weight(flat[i]) == 1 + TotalWeight(flat[i].children);
  }

  lemma OrNodeSplit(cs: seq<Expr>, flat: seq<Expr>, i: nat)
    requires flat == Flatten(cs) && i == FirstAnd(flat) && i < |flat|
    ensures DistributeOrNode(cs) == And(Distribute(flat[i].children, flat[..i] + flat[i + 1..]))
  {
  }

  /** The node built by `distributeOr` means what `Or(cs)` means. */
  lemma DistributeOrHolds(cs: seq<Expr>, a: Assignment)
    ensures Holds(DistributeOrNode(cs), a) == Holds(Or(cs), a)
  {
    var flat := Flatten(cs);
    var i := FirstAnd(flat);
    FlattenHolds(cs, a);
    if i < |flat| {
      SplitAt(flat, i, a);
      DistributeHolds(flat[i].children, flat[..i] + flat[i + 1..], a);
    }
  }

  /** The node built by `distributeOr` uses no variable `Or(cs)` does not,
      and has no implication when `cs` has none. */
  lemma DistributeOrVars(cs: seq<Expr>)
    ensures VarSet(DistributeOrNode(cs)) <= VarsOf(cs)
    ensures ImplicationFree(Or(cs)) ==> ImplicationFree(DistributeOrNode(cs))
  {
    var flat := Flatten(cs);
    var i := FirstAnd(flat);
    FlattenVars(cs);
    if i < |flat| {
      SplitAt(flat, i, map[]);
      DistributeVars(flat[i].children, flat[..i] + flat[i + 1..]);
    }
  }

  /** The unroll table of `distributeOrOverAnd`. */
  function DistUnroll(e: Expr): Unrolled<Expr> {
    match e
    case Bool(_) => Value(e)
    case Var(_) => Value(e)
    case Not(_) => UnrollNegation(e)
    case And(_) => Descend(e)
    case Or(cs) => Descend(DistributeOrNode(cs))
    case Implies(_, _) => Throw(UnexpectedKind(ImpliesK))
    case Equivalent(_, _) => Throw(UnexpectedKind(EquivalentK))
  }

  /** What `distributeOrOverAnd` computes, as a recursive function: each node
      is handled as `DistUnroll` decides, and rebuilt by `Reassemble` from the
      rewritten children. */
  function Distributed(e: Expr): Result<Expr>
    decreases Weight(e)
  {
    match e
    case Not(_) =>
      NegationShrinks(e);
      (match UnrollNegation(e)
       case Value(v) => Ok(v)
       case Throw(x) => Err(x)
       case Redirect(x) => Distributed(x)
       case Descend(p) =>
         var ks := Children(p);
         Combine(KindOf(p), Collect(seq(|ks|, j requires 0 <= j < |ks| => Distributed(ks[j]))), Reassemble))
    case And(cs) => Combine(AndK, Collect(seq(|cs|, i requires 0 <= i < |cs| => Distributed(cs[i]))), Reassemble)
    case Or(cs) =>
      DistributeOrShrinks(cs);
      var p := DistributeOrNode(cs);
      var ks := Children(p);
      Combine(KindOf(p), Collect(seq(|ks|, j requires 0 <= j < |ks| => Distributed(ks[j]))), Reassemble)
    case Bool(_) => Ok(e)
    case Var(_) => Ok(e)
    case Implies(_, _) => Err(UnexpectedKind(ImpliesK))
    case Equivalent(_, _) => Err(UnexpectedKind(EquivalentK))
  }

  /** What `distributeOrOverAnd` promises about one formula `e` and its
      outcome `r`: a formula free of implications is always rewritten, and a
      rewritten formula is in negation normal form, free of implications,
      uses no new variable and has the meaning of `e`. */
  ghost predicate DistributedWell(e: Expr, r: Result<Expr>) {
    (ImplicationFree(e) ==> r.Ok?) &&
    (r.Ok? ==>
      NegationNormal(r.value) && ImplicationFree(r.value) && VarSet(r.value) <= VarSet(e) &&
      forall a :: Holds(r.value, a) == Holds(e, a))
  }

  /** Rebuilding an `And`/`Or` node from children that were distributed well
      distributes the node well. */
  lemma DistributedNode(p: Expr, rs: seq<Result<Expr>>)
    requires p.And? || p.Or?
    requires |rs| == |p.children|
    requires forall j :: 0 <= j < |rs| ==> DistributedWell(p.children[j], rs[j])
    ensures DistributedWell(p, Combine(KindOf(p), Collect(rs), Reassemble))
  {
    var ks := p.children;
    var r := Combine(KindOf(p), Collect(rs), Reassemble);
    RebuiltNode(p, rs);
    if r.Ok? {
      var ps := r.value.children;
      assert forall j :: 0 <= j < |rs| ==> rs[j].value == ps[j];
      VarsPointwise(ps, ks);
      forall a {
        HoldsPointwise(ps, ks, a);
      }
    }
  }

  /** A rewrite of `p` is a good rewrite of any `e` that `p` stands for. */
  lemma WellTransfer(p: Expr, e: Expr, r: Result<Expr>)
    requires DistributedWell(p, r)
    requires ImplicationFree(e) ==> ImplicationFree(p)
    requires VarSet(p) <= VarSet(e)
    requires forall a :: Holds(p, a) == Holds(e, a)
    ensures DistributedWell(e, r)
  {
  }

  /** `distributeOrOverAnd` rewrites every formula free of implications, and
      whatever it yields is an equivalent formula in negation normal form over
      no new variables. */
  lemma {:induction false} DistributedWellProof(e: Expr)
    ensures DistributedWell(e, Distributed(e))
    decreases Weight(e)
  {
    match e
    case Not(inner) =>
      NegationShrinks(e);
      match UnrollNegation(e) {
        case Value(_) =>
        case Throw(_) =>
        case Redirect(x) =>
          DistributedWellProof(x);
          if inner.Not? {
            assert ImplicationFree(e) == ImplicationFree(inner) == ImplicationFree(x);
            WellTransfer(x, e, Distributed(x));
          }
        case Descend(p) =>
          var ks := Children(p);
          var rs := seq(|ks|, j requires 0 <= j < |ks| => Distributed(ks[j]));
          forall j | 0 <= j < |ks| {
            DistributedWellProof(ks[j]);
          }
          DistributedNode(p, rs);
          NegatedVars(inner.children);
          if ImplicationFree(e) {
            assert (inner.And? || inner.Or?) && ImplicationFree(inner);
            forall j | 0 <= j < |ks|
              ensures ImplicationFree(ks[j])
            {
              assert ks[j] == Not(inner.children[j]);
            }
          }
          WellTransfer(p, e, Combine(KindOf(p), Collect(rs), Reassemble));
      }
    case And(cs) =>
      var rs := seq(|cs|, i requires 0 <= i < |cs| => Distributed(cs[i]));
      forall i | 0 <= i < |cs| {
        DistributedWellProof(cs[i]);
      }
      DistributedNode(e, rs);
    case Or(cs) =>
      DistributeOrShrinks(cs);
      var p := DistributeOrNode(cs);
      var ks := Children(p);
      var rs := seq(|ks|, j requires 0 <= j < |ks| => Distributed(ks[j]));
      forall j | 0 <= j < |ks| {
        DistributedWellProof(ks[j]);
      }
      DistributedNode(p, rs);
      DistributeOrVars(cs);
      forall a ensures Holds(p, a) == Holds(e, a) {
        DistributeOrHolds(cs, a);
      }
      WellTransfer(p, e, Combine(KindOf(p), Collect(rs), Reassemble));
    case _ =>
  }

  /** The handler tables of `distributeOrOverAnd` are correct for
      `Distributed`. */
  lemma DistFixpoint(e: Expr)
    ensures Distributed(e) == Step(DistUnroll(e), Reassemble, Distributed)
  {
    match DistUnroll(e)
    case Descend(p) =>
      var ks := Children(p);
      assert Applied(Distributed, ks) == seq(|ks|, j requires 0 <= j < |ks| => Distributed(ks[j]));
    case _ =>
  }

  /** The `Or` case of `Distributed`, through `Applied`. */
  lemma DistributedOr(cs: seq<Expr>)
    ensures var p := DistributeOrNode(cs);
      Distributed(Or(cs)) == Combine(KindOf(p), Collect(Applied(Distributed, Children(p))), Reassemble)
  {
    var ks := Children(DistributeOrNode(cs));
    assert Applied(Distributed, ks) == seq(|ks|, j requires 0 <= j < |ks| => Distributed(ks[j]));
  }

  lemma DistShrinks(e: Expr)
    ensures Shrinks(e, DistUnroll(e))
  {
    match e
    case Not(_) =>
      NegationShrinks(e);
    case Or(cs) =>
      DistributeOrShrinks(cs);
    case _ =>
      ChildrenWeight(e);
      DescendBound(Children(e), Weight(e));
  }

  /** `distributeOrOverAnd`: the engine run with the tables above. */
  method DistributeOrOverAnd(e: Expr) returns (r: Result<Expr>)
    ensures r == Distributed(e)
    ensures DistributedWell(e, r)
  {
    forall x ensures Shrinks(x, DistUnroll(x)) {
      DistShrinks(x);
    }
    forall x ensures Distributed(x) == Step(DistUnroll(x), Reassemble, Distributed) {
      DistFixpoint(x);
    }
    r := TraverseExpressionsTree(e, DistUnroll, Reassemble, Distributed);
    DistributedWellProof(e);
  }
}
