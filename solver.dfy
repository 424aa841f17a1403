/** The brute-force satisfiability solver: `evalCNF` (evaluation on the
    traversal engine), `collectVars` (an explicit-stack walk that records
    variables in a JavaScript `Set`) and `solve` (enumeration of bit masks). */
module Solver {
  import opened SatExpr
  import opened Power
  import opened Traversal

  datatype Option<T> = None | Some(value: T)

  //  ===========
  //  = evalCNF =
  //  ===========

  /** The leaf handlers of `evalCNF`: a constant is its value, a variable is
      looked up and one missing from the assignment is fatal. (The engine
      only hands leaves to this function; other nodes are descended into.) */
  function EvalLeaf(a: Assignment, e: Expr): Result<bool> {
    match e
    case Var(x) => if x in a then Ok(a[x]) else Err(Unassigned(x))
    case Bool(v) => Ok(v)
    case _ => Err(UnexpectedKind(KindOf(e)))
  }

  function Leaf(a: Assignment): Expr -> Result<bool> {
    e => EvalLeaf(a, e)
  }

  /** The assembly table of `evalCNF`: `every` for `and`, `some` for `or`,
      and the truth tables of the unary and binary connectives. */
  function EvalAssemble(k: Kind, parts: seq<bool>): Result<bool> {
    match k
    case BoolK => if |parts| < 1 then Err(PartCount(k)) else Ok(parts[0])
    case VarK => if |parts| < 1 then Err(PartCount(k)) else Ok(parts[0])
    case NotK => if |parts| < 1 then Err(PartCount(k)) else Ok(!parts[0])
    case AndK => Ok(forall i :: 0 <= i < |parts| ==> parts[i])
    case OrK => Ok(exists i :: 0 <= i < |parts| && parts[i])
    case ImpliesK => if |parts| < 2 then Err(PartCount(k)) else Ok(!parts[0] || parts[1])
    case EquivalentK => if |parts| < 2 then Err(PartCount(k)) else Ok(parts[0] == parts[1])
  }

  /** What `evalCNF` computes. */
  function Eval(e: Expr, a: Assignment): Result<bool> {
    Fold(e, Leaf(a), EvalAssemble)
  }

  /** `evalCNF` succeeds exactly when every variable of `e` is assigned; it
      then yields the classical truth value of `e`, and otherwise fails
      naming a variable of `e` that is not assigned. */
  lemma {:induction false} EvalMeaning(e: Expr, a: Assignment)
    ensures Eval(e, a).Ok? <==> VarSet(e) <= a.Keys
    ensures Eval(e, a).Ok? ==> Eval(e, a).value == Holds(e, a)
    ensures Eval(e, a).Err? ==> Eval(e, a).error.Unassigned? && Eval(e, a).error.name in VarSet(e) - a.Keys
    decreases e, 1
  {
    match e
    case Bool(_) =>
    case Var(_) =>
    case Not(x) =>
      EvalMeaning(x, a);
    case And(cs) =>
      EvalChildren(cs, a);
    case Or(cs) =>
      EvalChildren(cs, a);
    case Implies(l, r) =>
      EvalMeaning(l, a);
      EvalMeaning(r, a);
      EvalBinary(e, a);
    case Equivalent(l, r) =>
      EvalMeaning(l, a);
      EvalMeaning(r, a);
      EvalBinary(e, a);
  }

  /** The step of `EvalMeaning` for an implication or equivalence, from the
      meaning of its two operands. */
  lemma EvalBinary(e: Expr, a: Assignment)
    requires e.Implies? || e.Equivalent?
    requires Eval(e.left, a).Ok? <==> VarSet(e.left) <= a.Keys
    requires Eval(e.left, a).Ok? ==> Eval(e.left, a).value == Holds(e.left, a)
    requires Eval(e.left, a).Err? ==> Eval(e.left, a).error.Unassigned? && Eval(e.left, a).error.name in VarSet(e.left) - a.Keys
    requires Eval(e.right, a).Ok? <==> VarSet(e.right) <= a.Keys
    requires Eval(e.right, a).Ok? ==> Eval(e.right, a).value == Holds(e.right, a)
    requires Eval(e.right, a).Err? ==> Eval(e.right, a).error.Unassigned? && Eval(e.right, a).error.name in VarSet(e.right) - a.Keys
    ensures Eval(e, a).Ok? <==> VarSet(e) <= a.Keys
    ensures Eval(e, a).Ok? ==> Eval(e, a).value == Holds(e, a)
    ensures Eval(e, a).Err? ==> Eval(e, a).error.Unassigned? && Eval(e, a).error.name in VarSet(e) - a.Keys
  {
    CollectPair(Eval(e.left, a), Eval(e.right, a));
  }

  /** `every` is true and `some` is false on no parts: an empty `And` holds
      and an empty `Or` fails, under any assignment. */
  lemma EvalEmpty(a: Assignment)
    ensures Eval(And([]), a) == Ok(true) && Eval(Or([]), a) == Ok(false)
  {
  }

  /** Gathering two results: both must succeed, and the left failure is
      the one that surfaces. */
  lemma CollectPair<T>(x: Result<T>, y: Result<T>)
    ensures Collect([x, y]).Ok? <==> x.Ok? && y.Ok?
    ensures Collect([x, y]).Ok? ==> Collect([x, y]).value == [x.value, y.value]
    ensures Collect([x, y]).Err? ==> Collect([x, y]).error == (if x.Err? then x.error else y.error)
  {
    assert [x, y][1..] == [y];
  }

  lemma {:induction false} EvalChildren(cs: seq<Expr>, a: Assignment)
    ensures var rs := seq(|cs|, i requires 0 <= i < |cs| => Fold(cs[i], Leaf(a), EvalAssemble));
      (Collect(rs).Ok? <==> VarsOf(cs) <= a.Keys) &&
      (Collect(rs).Ok? ==> forall i :: 0 <= i < |cs| ==> Collect(rs).value[i] == Holds(cs[i], a)) &&
      (Collect(rs).Err? ==> Collect(rs).error.Unassigned? && Collect(rs).error.name in VarsOf(cs) - a.Keys)
    decreases cs, 0
  {
    var rs := seq(|cs|, i requires 0 <= i < |cs| => Fold(cs[i], Leaf(a), EvalAssemble));
    forall i | 0 <= i < |cs| {
      EvalMeaning(cs[i], a);
    }
    if VarsOf(cs) <= a.Keys {
      forall i | 0 <= i < |cs|
        ensures rs[i].Ok?
      {
        assert VarSet(cs[i]) <= VarsOf(cs);
      }
    } else {
      var x :| x in VarsOf(cs) && x !in a.Keys;
      var i :| 0 <= i < |cs| && x in VarSet(cs[i]);
      assert rs[i].Err?;
    }
    if Collect(rs).Err? {
      var k :| 0 <= k < |rs| && rs[k] == Err(Collect(rs).error);
      assert VarSet(cs[k]) <= VarsOf(cs);
    }
  }

  /** `evalCNF`: the engine run with the structural unroll helpers and the
      tables above. */
  method EvalCnf(e: Expr, a: Assignment) returns (r: Result<bool>)
    ensures r == Eval(e, a)
    ensures r.Ok? <==> VarSet(e) <= a.Keys
    ensures r.Ok? ==> r.value == Holds(e, a)
    ensures r.Err? ==> r.error.Unassigned? && r.error.name in VarSet(e) - a.Keys
  {
    r := FoldTree(e, Leaf(a), EvalAssemble);
    EvalMeaning(e, a);
  }

  /** Two assignments that agree on `vs` (a missing variable reading as
      false). */
  ghost predicate Agree(vs: set<string>, a: Assignment, b: Assignment) {
    forall x :: x in vs ==> ((x in a && a[x]) == (x in b && b[x]))
  }

  /** The truth value of a formula depends only on its own variables. */
  lemma {:induction false} HoldsAgree(e: Expr, a: Assignment, b: Assignment)
    requires Agree(VarSet(e), a, b)
    ensures Holds(e, a) == Holds(e, b)
  {
    match e
    case Bool(_) =>
    case Var(_) =>
    case Not(x) =>
      HoldsAgree(x, a, b);
    case And(cs) =>
      forall i | 0 <= i < |cs|
        ensures Holds(cs[i], a) == Holds(cs[i], b)
      {
        assert VarSet(cs[i]) <= VarsOf(cs);
        HoldsAgree(cs[i], a, b);
      }
    case Or(cs) =>
      forall i | 0 <= i < |cs|
        ensures Holds(cs[i], a) == Holds(cs[i], b)
      {
        assert VarSet(cs[i]) <= VarsOf(cs);
        HoldsAgree(cs[i], a, b);
      }
    case Implies(l, r) =>
      HoldsAgree(l, a, b);
      HoldsAgree(r, a, b);
    case Equivalent(l, r) =>
      HoldsAgree(l, a, b);
      HoldsAgree(r, a, b);
  }

  //  ===============
  //  = collectVars =
  //  ===============

  /** The names `collectVars` hands to `vars.add`, in order, from a state
      whose stack is `stack` (top last): the top is popped, a variable is
      recorded, and the operands of any other connective are pushed, left
      operand first. */
  function Visit(stack: seq<Expr>): seq<string>
    decreases TotalWeight(stack)
  {
    if stack == [] then []
    else
      var rest, top := stack[..|stack| - 1], stack[|stack| - 1];
      match top
      case Bool(_) =>
        StackPop(stack);
        Visit(rest)
      case Var(x) =>
        StackPop(stack);
        [x] + Visit(rest)
      case _ =>
        StackExpand(rest, top);
        assert stack == rest + [top];
        Visit(rest + Children(top))
  }

  lemma StackPop(stack: seq<Expr>)
    requires stack != []
    ensures TotalWeight(stack[..|stack| - 1]) < TotalWeight(stack)
  {
    var rest, top := stack[..|stack| - 1], stack[|stack| - 1];
    assert stack == rest + [top];
    TotalWeightAppend(rest, [top]);
    TotalWeightSingle(top);
  }

  /** Replacing a connective on the stack by its operands lightens the
      stack. */
  lemma StackExpand(rest: seq<Expr>, top: Expr)
    ensures TotalWeight(rest + Children(top)) < TotalWeight(rest + [top])
  {
    TotalWeightAppend(rest, Children(top));
    TotalWeightAppend(rest, [top]);
    TotalWeightSingle(top);
    ChildrenWeight(top);
  }

  /** `Set.prototype.add`: a new name goes last, a present one stays where
      it is. */
  function Add(vs: seq<string>, x: string): (ws: seq<string>)
    ensures x in ws && vs <= ws
  {
    if x in vs then vs else vs + [x]
  }

  /** The insertion-ordered contents of a `Set` after adding `xs` in turn. */
  function AddAll(vs: seq<string>, xs: seq<string>): seq<string>
    decreases |xs|
  {
    if xs == [] then vs else AddAll(Add(vs, xs[0]), xs[1..])
  }

  predicate NoDuplicates(s: seq<string>) {
    forall i, j :: 0 <= i < j < |s| ==> s[i] != s[j]
  }

  function Elements(s: seq<string>): set<string> {
    set x | x in s
  }

  /** Adding names keeps the order of the names already present, records
      each name exactly once, and records exactly the added names. */
  lemma {:induction false} AddAllFacts(vs: seq<string>, xs: seq<string>)
    ensures vs <= AddAll(vs, xs)
    ensures NoDuplicates(vs) ==> NoDuplicates(AddAll(vs, xs))
    ensures Elements(AddAll(vs, xs)) == Elements(vs) + Elements(xs)
    decreases |xs|
  {
    if xs != [] {
      var ws := Add(vs, xs[0]);
      AddAllFacts(ws, xs[1..]);
      assert xs == [xs[0]] + xs[1..];
      assert Elements(xs) == {xs[0]} + Elements(xs[1..]);
      assert Elements(ws) == Elements(vs) + {xs[0]};
    }
  }

  /** The operands of a connective carry exactly its variables. */
  lemma ChildrenVars(e: Expr)
    requires !e.Bool? && !e.Var?
    ensures VarsOf(Children(e)) == VarSet(e)
  {
    match e
    case Not(x) =>
      SingleVars(x);
    case Implies(l, r) =>
      PairMeaning(l, r);
    case Equivalent(l, r) =>
      PairMeaning(l, r);
    case _ =>
  }

  /** The walk meets exactly the variables of the formulas on the stack. */
  lemma {:induction false} VisitVars(stack: seq<Expr>)
    ensures Elements(Visit(stack)) == VarsOf(stack)
    decreases TotalWeight(stack)
  {
    if stack != [] {
      var rest, top := stack[..|stack| - 1], stack[|stack| - 1];
      assert stack == rest + [top];
      AppendVars(rest, [top]);
      SingleVars(top);
      match top
      case Bool(_) =>
        StackPop(stack);
        VisitVars(rest);
      case Var(x) =>
        StackPop(stack);
        VisitVars(rest);
        assert Elements([x] + Visit(rest)) == {x} + Elements(Visit(rest));
      case _ =>
        StackExpand(rest, top);
        VisitVars(rest + Children(top));
        AppendVars(rest, Children(top));
        ChildrenVars(top);
    }
  }

  function Reversed(s: seq<string>): (r: seq<string>)
    ensures |r| == |s| && forall i :: 0 <= i < |s| ==> r[i] == s[|s| - 1 - i]
  {
    if s == [] then [] else Reversed(s[1..]) + [s[0]]
  }

  /** `collectVars(expr, vars)`: `init` is what the caller's `Set` holds
      beforehand, in insertion order; `vars` is what it holds afterwards and
      `listed` the returned array (the set's contents reversed). */
  method CollectVars(e: Expr, init: seq<string>) returns (vars: seq<string>, listed: seq<string>)
    ensures vars == AddAll(init, Visit([e]))
    ensures init <= vars
    ensures Elements(vars) == Elements(init) + VarSet(e)
    ensures NoDuplicates(init) ==> NoDuplicates(vars)
    ensures listed == Reversed(vars)
  {
    var stack := [e];
    vars := init;
    while stack != []
      invariant AddAll(vars, Visit(stack)) == AddAll(init, Visit([e]))
      decreases TotalWeight(stack)
    {
      var current := stack[|stack| - 1];
      ghost var before := stack;
      stack := stack[..|stack| - 1];
      match current
      case Bool(_) =>
        StackPop(before);
      case Var(x) =>
        StackPop(before);
        vars := Add(vars, x);
      case _ =>
        StackExpand(stack, current);
        assert before == stack + [current];
        stack := stack + Children(current);
    }
    listed := Reversed(vars);
    AddAllFacts(init, Visit([e]));
    VisitVars([e]);
    SingleVars(e);
  }

  //  =========
  //  = solve =
  //  =========

  /** The variables `solve` enumerates, in the order of its `Set`. */
  function Vars(e: Expr): seq<string> {
    AddAll([], Visit([e]))
  }

  lemma VarsFacts(e: Expr)
    ensures NoDuplicates(Vars(e)) && Elements(Vars(e)) == VarSet(e)
  {
    AddAllFacts([], Visit([e]));
    VisitVars([e]);
    SingleVars(e);
  }

  /** JavaScript's `1 << n`: the shift count is taken modulo 32 and the
      result is a signed 32-bit integer, so `1 << 31` is `-2^31`. */
  function ShiftLeft(n: nat): int {
    if n % 32 == 31 then -0x8000_0000 else Pow2(n % 32)
  }

  /** Bit `i` of a non-negative mask: `(mask & (1 << i)) != 0` for an index
      below 32 and a mask below `2^31`. */
  function Bit(mask: nat, i: nat): bool {
    if i == 0 then mask % 2 == 1 else Bit(mask / 2, i - 1)
  }

  /** The bit read for variable `i`: modulo 32 as JavaScript shifts do
      (`wrap`), or the `i`-th bit itself. */
  function BitIndex(i: nat, wrap: bool): nat {
    if wrap then i % 32 else i
  }

  /** The assignment the inner loop of `solve` has built after `k` steps
      for `mask`. */
  function Assign(vars: seq<string>, mask: nat, k: nat, wrap: bool): Assignment
    requires k <= |vars|
  {
    if k == 0 then map[]
    else Assign(vars, mask, k - 1, wrap)[vars[k - 1] := Bit(mask, BitIndex(k - 1, wrap))]
  }

  /** The outer loop of `solve` from `mask` on: the first mask below
      `total` whose assignment satisfies `e`. */
  function FirstMask(e: Expr, vars: seq<string>, mask: nat, total: int, wrap: bool): Option<nat>
    decreases total - mask
  {
    if mask >= total then None
    else if Holds(e, Assign(vars, mask, |vars|, wrap)) then Some(mask)
    else FirstMask(e, vars, mask + 1, total, wrap)
  }

  /** The assignment of the mask the search stops at, if any. */
  function Found(vars: seq<string>, m: Option<nat>, wrap: bool): Option<Assignment> {
    match m
    case None => None
    case Some(k) => Some(Assign(vars, k, |vars|, wrap))
  }

  /** What `solve` returns, `None` standing for `null`. */
  function Solution(e: Expr): Option<Assignment> {
    Found(Vars(e), FirstMask(e, Vars(e), 0, ShiftLeft(|Vars(e)|), true), true)
  }

  /** The search `solve` is meant to perform: all `2^n` masks, one bit
      per variable. */
  function IntendedSolution(e: Expr): Option<Assignment> {
    Found(Vars(e), FirstMask(e, Vars(e), 0, Pow2(|Vars(e)|), false), false)
  }

  /** The search stops at the least mask in range whose assignment satisfies
      `e`, and finds none only when no mask in range does. */
  lemma {:induction false} FirstMaskFacts(e: Expr, vars: seq<string>, mask: nat, total: int, wrap: bool)
    ensures var r := FirstMask(e, vars, mask, total, wrap);
      (r.Some? ==>
        mask <= r.value < total && Holds(e, Assign(vars, r.value, |vars|, wrap)) &&
        forall m: nat :: mask <= m < r.value ==> !Holds(e, Assign(vars, m, |vars|, wrap))) &&
      (r.None? ==> forall m: nat :: mask <= m < total ==> !Holds(e, Assign(vars, m, |vars|, wrap)))
    decreases total - mask
  {
    if mask < total && !Holds(e, Assign(vars, mask, |vars|, wrap)) {
      FirstMaskFacts(e, vars, mask + 1, total, wrap);
    }
  }

  lemma {:induction false} AssignKeys(vars: seq<string>, mask: nat, k: nat, wrap: bool)
    requires k <= |vars|
    ensures Assign(vars, mask, k, wrap).Keys == Elements(vars[..k])
  {
    if k > 0 {
      AssignKeys(vars, mask, k - 1, wrap);
      assert vars[..k] == vars[..k - 1] + [vars[k - 1]];
      assert Elements(vars[..k]) == Elements(vars[..k - 1]) + {vars[k - 1]};
    }
  }

  /** With distinct names, variable `i` is given bit `i` of the mask. */
  lemma {:induction false} AssignValue(vars: seq<string>, mask: nat, k: nat, wrap: bool, i: nat)
    requires NoDuplicates(vars) && i < k <= |vars|
    ensures vars[i] in Assign(vars, mask, k, wrap)
    ensures Assign(vars, mask, k, wrap)[vars[i]] == Bit(mask, BitIndex(i, wrap))
  {
    if i < k - 1 {
      AssignValue(vars, mask, k - 1, wrap, i);
    }
  }

  /** Whatever `solve` returns satisfies `e` and assigns exactly the
      variables of `e`. */
  lemma SolutionSound(e: Expr)
    ensures Solution(e).Some? ==> Holds(e, Solution(e).value) && Solution(e).value.Keys == VarSet(e)
  {
    var vars := Vars(e);
    VarsFacts(e);
    var r := FirstMask(e, vars, 0, ShiftLeft(|vars|), true);
    FirstMaskFacts(e, vars, 0, ShiftLeft(|vars|), true);
    if r.Some? {
      AssignKeys(vars, r.value, |vars|, true);
      assert vars[..|vars|] == vars;
    }
  }

  /** The mask whose bit `i` is `bits[i]`. */
  function Encode(bits: seq<bool>): nat {
    if bits == [] then 0 else (if bits[0] then 1 else 0) + 2 * Encode(bits[1..])
  }

  lemma {:induction false} EncodeFacts(bits: seq<bool>)
    ensures Encode(bits) < Pow2(|bits|)
    ensures forall i :: 0 <= i < |bits| ==> Bit(Encode(bits), i) == bits[i]
  {
    if bits != [] {
      EncodeFacts(bits[1..]);
      forall i | 0 <= i < |bits|
        ensures Bit(Encode(bits), i) == bits[i]
      {
        if i > 0 {
          assert Encode(bits) / 2 == Encode(bits[1..]);
          assert bits[i] == bits[1..][i - 1];
        }
      }
    }
  }

  /** The intended search is sound and complete: it answers with an
      assignment of exactly the variables of `e` that satisfies `e`, and
      answers `None` only for a formula no assignment satisfies. */
  lemma IntendedSolutionCorrect(e: Expr)
    ensures IntendedSolution(e).None? <==> forall a: Assignment :: !Holds(e, a)
    ensures IntendedSolution(e).Some? ==>
      Holds(e, IntendedSolution(e).value) && IntendedSolution(e).value.Keys == VarSet(e)
  {
    var vars := Vars(e);
    VarsFacts(e);
    var r := FirstMask(e, vars, 0, Pow2(|vars|), false);
    FirstMaskFacts(e, vars, 0, Pow2(|vars|), false);
    if r.Some? {
      AssignKeys(vars, r.value, |vars|, false);
      assert vars[..|vars|] == vars;
    }
    if a: Assignment :| Holds(e, a) {
      var bits := seq(|vars|, i requires 0 <= i < |vars| => vars[i] in a && a[vars[i]]);
      var m := Encode(bits);
      EncodeFacts(bits);
      var b := Assign(vars, m, |vars|, false);
      forall x | x in VarSet(e)
        ensures (x in a && a[x]) == (x in b && b[x])
      {
        var i :| 0 <= i < |vars| && vars[i] == x;
        AssignValue(vars, m, |vars|, false, i);
      }
      HoldsAgree(e, a, b);
    }
  }

  lemma {:induction false} DistinctCount(s: seq<string>)
    requires NoDuplicates(s)
    ensures |Elements(s)| == |s|
  {
    if s != [] {
      var t := s[..|s| - 1];
      DistinctCount(t);
      assert s == t + [s[|s| - 1]];
      assert Elements(s) == Elements(t) + {s[|s| - 1]};
    }
  }

  lemma {:induction false} AssignSmall(vars: seq<string>, mask: nat, k: nat)
    requires k <= |vars| && k <= 32
    ensures Assign(vars, mask, k, true) == Assign(vars, mask, k, false)
  {
    if k > 0 {
      AssignSmall(vars, mask, k - 1);
    }
  }

  lemma {:induction false} FirstMaskSame(e: Expr, vars: seq<string>, mask: nat, total: int)
    requires |vars| <= 32
    ensures FirstMask(e, vars, mask, total, true) == FirstMask(e, vars, mask, total, false)
    decreases total - mask
  {
    if mask < total {
      AssignSmall(vars, mask, |vars|);
      FirstMaskSame(e, vars, mask + 1, total);
    }
  }

  /** Up to 30 variables, `1 << n` is `2^n` and every bit index is below 32:
      `solve` performs the intended search. */
  lemma SolutionBelow31(e: Expr)
    requires |VarSet(e)| <= 30
    ensures Solution(e) == IntendedSolution(e)
  {
    var vars := Vars(e);
    VarsFacts(e);
    DistinctCount(vars);
    var n := |vars|;
    ShiftSmall(n);
    FirstMaskSame(e, vars, 0, Pow2(n));
    var r := FirstMask(e, vars, 0, Pow2(n), false);
    if r.Some? {
      AssignSmall(vars, r.value, n);
    }
  }

  /** Exactly 31 variables make `1 << n` negative: `solve` tries no mask and
      answers `null` whatever the formula. */
  lemma SolutionAt31(e: Expr)
    requires |VarSet(e)| == 31
    ensures Solution(e) == None
  {
    var vars := Vars(e);
    VarsFacts(e);
    DistinctCount(vars);
    ShiftWraps(|vars|);
  }

  /** So a satisfiable formula over 31 variables is reported unsatisfiable,
      where the intended search answers with a satisfying assignment. */
  lemma SatisfiableMissedAt31(e: Expr, a: Assignment)
    requires |VarSet(e)| == 31 && Holds(e, a)
    ensures Solution(e) == None
    ensures IntendedSolution(e).Some? && Holds(e, IntendedSolution(e).value)
  {
    IntendedSolutionCorrect(e);
    assert IntendedSolution(e).Some? by {
      assert Holds(e, a);
    }
    SolutionAt31(e);
  }

  lemma ShiftWraps(n: nat)
    requires n == 31
    ensures ShiftLeft(n) < 0
  {
  }

  lemma ShiftSmall(n: nat)
    requires n <= 30
    ensures ShiftLeft(n) == Pow2(n)
  {
    assert n % 32 == n;
  }

  /** `solve`: enumerate the masks below `1 << n` in increasing order, build
      the assignment of each one bit per variable, and return the first that
      `evalCNF` accepts, or `None` (`null`). */
  method Solve(e: Expr) returns (r: Option<Assignment>)
    ensures r == Solution(e)
    ensures r.Some? ==> Holds(e, r.value) && r.value.Keys == VarSet(e)
  {
    var vars, _ := CollectVars(e, []);
    VarsFacts(e);
    SolutionSound(e);
    var n := |vars|;
    var total := ShiftLeft(n);
    var mask: nat := 0;
    while mask < total
      invariant FirstMask(e, vars, mask, total, true) == FirstMask(e, vars, 0, total, true)
      decreases total - mask
    {
      var assignment: Assignment := map[];
      var i := 0;
      while i < n
        invariant i <= n
        invariant assignment == Assign(vars, mask, i, true)
      {
        assignment := assignment[vars[i] := Bit(mask, i % 32)];
        i := i + 1;
      }
      AssignKeys(vars, mask, n, true);
      assert vars[..n] == vars;
      // every variable of `e` is assigned, so `evalCNF` cannot fail here
      var holds := EvalCnf(e, assignment);
      if holds == Ok(true) {
        return Some(assignment);
      }
      mask := mask + 1;
    }
    return None;
  }
}
