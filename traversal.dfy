/** The explicit-stack fold engine `traversExpressionsTree`: a LIFO stack of
    unroll/process items and a flat result buffer reproduce a post-order fold
    without recursion, while letting an unroll handler replace a node before
    its children are visited. */
module Traversal {
  import opened SatExpr
  import opened Power

  /** A stack entry: a node still to expand, or a node whose children's
      results will have landed in the buffer from `start` onwards. */
  datatype Item = Unroll(expr: Expr) | Process(expr: Expr, start: nat)

  /** What an unroll handler decides for a node: a final leaf value; expand
      `node` (push its process item and its children); continue with
      `target` instead (push only `Unroll(target)`); or fail. */
  datatype Unrolled<T> =
    | Value(value: T)
    | Descend(node: Expr)
    | Redirect(target: Expr)
    | Throw(error: Error)

  /** Unroll items for `es`, pushed in reverse so that `es[0]` ends on top. */
  function Pending(es: seq<Expr>): (items: seq<Item>)
    ensures |items| == |es|
    ensures forall k :: 0 <= k < |es| ==> items[k] == Unroll(es[|es| - 1 - k])
  {
    if es == [] then [] else Pending(es[1..]) + [Unroll(es[0])]
  }

  /** The stack items the shared unroll helpers return for `node`: its
      process item first, then its children in reverse. The top of the stack
      is therefore the leftmost child, and children are folded left to right. */
  function Expansion(node: Expr, start: nat): (items: seq<Item>)
    ensures |items| == 1 + |Children(node)| && items[0] == Process(node, start)
    ensures forall k :: 1 <= k < |items| ==> items[k] == Unroll(Children(node)[|items| - 1 - k])
  {
    [Process(node, start)] + Pending(Children(node))
  }

  /** The unary helper pushes [process, operand]; the binary helper pushes
      [process, right, left], so the left operand is popped first. */
  lemma ExpansionShapes(e: Expr, start: nat)
    ensures e.Not? ==> Expansion(e, start) == [Process(e, start), Unroll(e.expr)]
    ensures e.Implies? || e.Equivalent? ==>
      Expansion(e, start) == [Process(e, start), Unroll(e.right), Unroll(e.left)]
    ensures (e.And? || e.Or?) && |e.children| > 0 ==>
      Expansion(e, start)[|e.children|] == Unroll(e.children[0])
  {
  }

  function Applied<T>(f: Expr -> Result<T>, es: seq<Expr>): (rs: seq<Result<T>>)
    ensures |rs| == |es| && forall i :: 0 <= i < |es| ==> rs[i] == f(es[i])
  {
    seq(|es|, i requires 0 <= i < |es| => f(es[i]))
  }

  lemma AppliedPair<T>(f: Expr -> Result<T>, x: Expr, y: Expr)
    ensures Applied(f, [x, y]) == [f(x), f(y)]
  {
  }

  /** Hand the gathered child results to the assembly handler of `k`. */
  function Combine<T>(k: Kind, parts: Result<seq<T>>, assemble: (Kind, seq<T>) -> Result<T>): Result<T> {
    match parts
    case Ok(ps) => assemble(k, ps)
    case Err(x) => Err(x)
  }

  /** The value a node folds to, given what its unroll handler decided and
      what every other node folds to (`spec`). A handler table is correct for
      `spec` when `spec(e) == Step(unroll(e), assemble, spec)` for every `e`. */
  function Step<T>(u: Unrolled<T>, assemble: (Kind, seq<T>) -> Result<T>, spec: Expr -> Result<T>): Result<T> {
    match u
    case Value(v) => Ok(v)
    case Throw(x) => Err(x)
    case Redirect(x) => spec(x)
    case Descend(p) => Combine(KindOf(p), Collect(Applied(spec, Children(p))), assemble)
  }

  /** Sum of the measures `Pow2(Weight(e))` of a sequence of nodes. */
  function Spread(es: seq<Expr>): nat {
    if es == [] then 0 else Pow2(Weight(es[0])) + Spread(es[1..])
  }

  /** An unroll decision makes progress: expansion and redirection both
      replace a node by strictly less measure. */
  ghost predicate Shrinks<T>(e: Expr, u: Unrolled<T>) {
    match u
    case Descend(p) => 1 + Spread(Children(p)) < Pow2(Weight(e))
    case Redirect(x) => Weight(x) < Weight(e)
    case Value(_) => true
    case Throw(_) => true
  }

  /** Each pending process item starts at most at the current buffer length,
      and starts never decrease towards the top of the stack. */
  ghost predicate Ordered(stack: seq<Item>, n: nat) {
    forall k :: 0 <= k < |stack| && stack[k].Process? ==>
      stack[k].start <= n &&
      forall j :: 0 <= j < k && stack[j].Process? ==> stack[j].start <= stack[k].start
  }

  /** The buffer the machine ends with, if every `Unroll(e)` still on the
      stack appended `spec(e)` in one step: the abstract meaning of a state.
      (A process item starting past the buffer cannot occur on an `Ordered`
      stack; it reads as `NoResult` only to keep this function total.) */
  ghost function Run<T>(stack: seq<Item>, buf: seq<T>, assemble: (Kind, seq<T>) -> Result<T>, spec: Expr -> Result<T>): Result<seq<T>>
    decreases |stack|
  {
    if stack == [] then Ok(buf)
    else
      var rest := stack[..|stack| - 1];
      match stack[|stack| - 1]
      case Unroll(e) =>
        (match spec(e)
         case Ok(v) => Run(rest, buf + [v], assemble, spec)
         case Err(x) => Err(x))
      case Process(p, s) =>
        if s > |buf| then Err(NoResult)
        else
          match assemble(KindOf(p), buf[s..])
          case Ok(v) => Run(rest, buf[..s] + [v], assemble, spec)
          case Err(x) => Err(x)
  }

  function Lift<T>(r: Result<T>): Result<seq<T>> {
    match r
    case Ok(v) => Ok([v])
    case Err(x) => Err(x)
  }

  function ItemLoad(item: Item): nat {
    match item
    case Unroll(e) => Pow2(Weight(e))
    case Process(_, _) => 1
  }

  /** The engine's termination measure: total measure of the stack. */
  function Load(stack: seq<Item>): nat {
    if stack == [] then 0 else Load(stack[..|stack| - 1]) + ItemLoad(stack[|stack| - 1])
  }

  lemma {:induction false} LoadAppend(a: seq<Item>, b: seq<Item>)
    ensures Load(a + b) == Load(a) + Load(b)
  {
    if b == [] {
      assert a + b == a;
    } else {
      var b' := b[..|b| - 1];
      assert (a + b)[..|a + b| - 1] == a + b';
      LoadAppend(a, b');
    }
  }

  lemma LoadPush(stack: seq<Item>, item: Item)
    ensures Load(stack + [item]) == Load(stack) + ItemLoad(item)
  {
    var full := stack + [item];
    assert full[..|full| - 1] == stack;
  }

  lemma {:induction false} PendingLoad(es: seq<Expr>)
    ensures Load(Pending(es)) == Spread(es)
  {
    if es != [] {
      var items := Pending(es);
      assert items[..|items| - 1] == Pending(es[1..]);
      PendingLoad(es[1..]);
    }
  }

  /** The measure of a sequence is bounded by two to its total weight. */
  lemma {:induction false} SpreadBound(es: seq<Expr>)
    ensures Spread(es) <= Pow2(TotalWeight(es))
  {
    if es != [] {
      var tail := es[1..];
      SpreadBound(tail);
      Pow2Add(Weight(es[0]), TotalWeight(tail));
      if tail != [] {
        SumBelowProduct(Pow2(Weight(es[0])), Pow2(TotalWeight(tail)));
      }
    }
  }

  /** Expanding into children of smaller total weight makes progress. */
  lemma DescendBound(es: seq<Expr>, w: nat)
    requires TotalWeight(es) < w
    ensures 1 + Spread(es) < Pow2(w)
  {
    SpreadBound(es);
    if es == [] {
      assert w >= 1;
    } else {
      Pow2Monotone(TotalWeight(es), w - 1);
      assert Pow2(w) == 2 * Pow2(w - 1);
    }
  }

  lemma ChildrenWeight(e: Expr)
    ensures TotalWeight(Children(e)) < Weight(e)
  {
    match e
    case Not(x) =>
      assert TotalWeight([x]) == Weight(x) + TotalWeight([x][1..]);
    case Implies(l, r) =>
      assert TotalWeight([l, r]) == Weight(l) + TotalWeight([r]);
      assert TotalWeight([r]) == Weight(r) + TotalWeight([r][1..]);
    case Equivalent(l, r) =>
      assert TotalWeight([l, r]) == Weight(l) + TotalWeight([r]);
      assert TotalWeight([r]) == Weight(r) + TotalWeight([r][1..]);
    case _ =>
  }

  lemma RedirectBound(x: Expr, e: Expr)
    requires Weight(x) < Weight(e)
    ensures Pow2(Weight(x)) < Pow2(Weight(e))
  {
    Pow2Monotone(Weight(x), Weight(e) - 1);
  }

  /** Pushing unroll items keeps the stack ordered. */
  lemma OrderedPushUnrolls(prefix: seq<Item>, items: seq<Item>, n: nat)
    requires Ordered(prefix, n)
    requires forall k :: 0 <= k < |items| ==> items[k].Unroll?
    ensures Ordered(prefix + items, n)
  {
  }

  /** Pushing a process item that starts at the buffer's end keeps it ordered. */
  lemma OrderedPushProcess(prefix: seq<Item>, p: Expr, n: nat)
    requires Ordered(prefix, n)
    ensures Ordered(prefix + [Process(p, n)], n)
  {
  }

  /** Popping an unroll item keeps the stack ordered, for the same buffer
      and for one that has grown by a value. */
  lemma OrderedPopUnroll(rest: seq<Item>, e: Expr, n: nat)
    requires Ordered(rest + [Unroll(e)], n)
    ensures Ordered(rest, n)
    ensures Ordered(rest, n + 1)
  {
    var full := rest + [Unroll(e)];
    forall k | 0 <= k < |rest| && rest[k].Process?
      ensures rest[k].start <= n
      ensures forall j :: 0 <= j < k && rest[j].Process? ==> rest[j].start <= rest[k].start
    {
      assert full[k] == rest[k];
      forall j | 0 <= j < k && rest[j].Process?
        ensures rest[j].start <= rest[k].start
      {
        assert full[j] == rest[j];
      }
    }
  }

  /** Popping a process item starting at `s`: every item below starts at or
      before `s`, so the buffer may be cut back to `s + 1` values. */
  lemma OrderedPopProcess(rest: seq<Item>, p: Expr, s: nat, n: nat)
    requires Ordered(rest + [Process(p, s)], n)
    ensures s <= n
    ensures Ordered(rest, s + 1)
  {
    var full := rest + [Process(p, s)];
    assert full[|rest|] == Process(p, s);
    forall k | 0 <= k < |rest| && rest[k].Process?
      ensures rest[k].start <= s + 1
      ensures forall j :: 0 <= j < k && rest[j].Process? ==> rest[j].start <= rest[k].start
    {
      assert full[k] == rest[k];
      forall j | 0 <= j < k && rest[j].Process?
        ensures rest[j].start <= rest[k].start
      {
        assert full[j] == rest[j];
      }
    }
  }

  /** Replacing `Unroll(e)` by the expansion of `p` keeps the stack ordered
      and, when the decision shrinks, lowers the load. */
  lemma ExpansionProgress<T>(rest: seq<Item>, e: Expr, p: Expr, buf: seq<T>)
    requires Ordered(rest + [Unroll(e)], |buf|)
    requires 1 + Spread(Children(p)) < Pow2(Weight(e))
    ensures Ordered(rest + Expansion(p, |buf|), |buf|)
    ensures Load(rest + Expansion(p, |buf|)) < Load(rest + [Unroll(e)])
  {
    var n := |buf|;
    OrderedPopUnroll(rest, e, n);
    OrderedPushProcess(rest, p, n);
    OrderedPushUnrolls(rest + [Process(p, n)], Pending(Children(p)), n);
    assert rest + Expansion(p, n) == rest + [Process(p, n)] + Pending(Children(p));
    LoadAppend(rest + [Process(p, n)], Pending(Children(p)));
    LoadPush(rest, Process(p, n));
    LoadPush(rest, Unroll(e));
    PendingLoad(Children(p));
  }

  /** Popping `Unroll(e)` appends what `e` folds to. */
  lemma RunUnroll<T>(rest: seq<Item>, e: Expr, buf: seq<T>,
                     assemble: (Kind, seq<T>) -> Result<T>, spec: Expr -> Result<T>)
    ensures Run(rest + [Unroll(e)], buf, assemble, spec) ==
      var v := spec(e);
      if v.Ok? then Run(rest, buf + [v.value], assemble, spec) else Err(v.error)
  {
    var s := rest + [Unroll(e)];
    assert s[..|s| - 1] == rest;
  }

  /** Running the pending children of a node appends their folded values,
      leftmost first, or stops at the first failure among them. */
  lemma {:induction false} RunPending<T>(prefix: seq<Item>, kids: seq<Expr>, buf: seq<T>,
                                         assemble: (Kind, seq<T>) -> Result<T>, spec: Expr -> Result<T>)
    ensures Run(prefix + Pending(kids), buf, assemble, spec) ==
      var parts := Collect(Applied(spec, kids));
      if parts.Ok? then Run(prefix, buf + parts.value, assemble, spec) else Err(parts.error)
    decreases |kids|
  {
    if kids == [] {
      assert prefix + Pending(kids) == prefix;
      assert buf + [] == buf;
    } else {
      var tail := Pending(kids[1..]);
      AppendAssoc(prefix, tail, [Unroll(kids[0])]);
      RunUnroll(prefix + tail, kids[0], buf, assemble, spec);
      AppliedCons(spec, kids);
      var first := spec(kids[0]);
      if first.Ok? {
        var v := first.value;
        RunPending(prefix, kids[1..], buf + [v], assemble, spec);
        var more := Collect(Applied(spec, kids[1..]));
        if more.Ok? {
          AppendAssoc(buf, [v], more.value);
        }
      }
    }
  }

  /** Gathering the results of a non-empty sequence of children: the first
      child's result, then the rest's. */
  lemma AppliedCons<T>(spec: Expr -> Result<T>, kids: seq<Expr>)
    requires kids != []
    ensures Collect(Applied(spec, kids)) ==
      var first := spec(kids[0]);
      var more := Collect(Applied(spec, kids[1..]));
      if first.Err? then Err(first.error)
      else if more.Err? then Err(more.error)
      else Ok([first.value] + more.value)
  {
    var rs := Applied(spec, kids);
    assert rs[1..] == Applied(spec, kids[1..]);
  }

  /** Running an expansion folds the node exactly as `Step` says. */
  lemma RunExpansion<T>(rest: seq<Item>, p: Expr, buf: seq<T>,
                        assemble: (Kind, seq<T>) -> Result<T>, spec: Expr -> Result<T>)
    ensures Run(rest + Expansion(p, |buf|), buf, assemble, spec) ==
      var folded := Step(Descend(p), assemble, spec);
      if folded.Ok? then Run(rest, buf + [folded.value], assemble, spec) else Err(folded.error)
  {
    var head := rest + [Process(p, |buf|)];
    assert rest + Expansion(p, |buf|) == head + Pending(Children(p));
    RunPending(head, Children(p), buf, assemble, spec);
    match Collect(Applied(spec, Children(p))) {
      case Ok(vs) =>
        var b := buf + vs;
        assert head[..|head| - 1] == rest;
        assert b[|buf|..] == vs;
        assert b[..|buf|] == buf;
      case Err(_) =>
    }
  }

  /** Popping `Process(p, s)` hands the buffer's tail from `s` to the
      assembly handler and replaces that tail by the assembled value. */
  lemma RunProcess<T>(rest: seq<Item>, p: Expr, s: nat, buf: seq<T>,
                      assemble: (Kind, seq<T>) -> Result<T>, spec: Expr -> Result<T>)
    requires s <= |buf|
    ensures Run(rest + [Process(p, s)], buf, assemble, spec) ==
      var v := assemble(KindOf(p), buf[s..]);
      if v.Ok? then Run(rest, buf[..s] + [v.value], assemble, spec) else Err(v.error)
  {
    var full := rest + [Process(p, s)];
    assert full[..|full| - 1] == rest;
  }

  /** The engine's final check: exactly one value must remain. */
  function Finish<T>(buf: seq<T>): (r: Result<T>)
    ensures r.Ok? <==> |buf| == 1
    ensures r.Ok? ==> r.value == buf[0]
    ensures |buf| > 1 ==> r == Err(ExtraResults)
    ensures |buf| == 0 ==> r == Err(NoResult)
  {
    if |buf| > 1 then Err(ExtraResults)
    else if |buf| == 0 then Err(NoResult)
    else Ok(buf[0])
  }

  /** `traversExpressionsTree`: for any handler tables whose unroll decisions
      make progress and that are correct for `spec`, the stack machine
      returns `spec(root)` (its value, or the first failure it meets). */
  method TraverseExpressionsTree<T>(root: Expr, unroll: Expr -> Unrolled<T>,
                                    assemble: (Kind, seq<T>) -> Result<T>, ghost spec: Expr -> Result<T>)
    returns (r: Result<T>)
    requires forall e :: Shrinks(e, unroll(e))
    requires forall e :: spec(e) == Step(unroll(e), assemble, spec)
    ensures r == spec(root)
  {
    var stack := [Unroll(root)];
    var buf: seq<T> := [];
    RunUnroll([], root, buf, assemble, spec);
    assert [] + [Unroll(root)] == stack;
    if spec(root).Ok? {
      assert buf + [spec(root).value] == [spec(root).value];
    }
    while |stack| > 0
      invariant Ordered(stack, |buf|)
      invariant Run(stack, buf, assemble, spec) == Lift(spec(root))
      decreases Load(stack)
    {
      var current := stack[|stack| - 1];
      ghost var before := stack;
      stack := stack[..|stack| - 1];
      assert before == stack + [current];
      LoadPush(stack, current);
      match current {
        case Unroll(e) =>
          var u := unroll(e);
          assert spec(e) == Step(u, assemble, spec);
          RunUnroll(stack, e, buf, assemble, spec);
          match u {
            case Value(v) =>
              OrderedPopUnroll(stack, e, |buf|);
              buf := buf + [v];
            case Throw(x) =>
              return Err(x);
            case Redirect(x) =>
              assert Shrinks(e, u);
              RedirectBound(x, e);
              LoadPush(stack, Unroll(x));
              OrderedPopUnroll(stack, e, |buf|);
              OrderedPushUnrolls(stack, [Unroll(x)], |buf|);
              RunUnroll(stack, x, buf, assemble, spec);
              stack := stack + [Unroll(x)];
            case Descend(p) =>
              assert Shrinks(e, u);
              ExpansionProgress(stack, e, p, buf);
              RunExpansion(stack, p, buf, assemble, spec);
              stack := stack + Expansion(p, |buf|);
          }
        case Process(p, s) =>
          OrderedPopProcess(stack, p, s, |buf|);
          RunProcess(stack, p, s, buf, assemble, spec);
          var combined := assemble(KindOf(p), buf[s..]);
          if combined.Err? {
            return Err(combined.error);
          }
          buf := buf[..s] + [combined.value];
      }
    }
    r := Finish(buf);
  }

  /** The recursive post-order fold: leaves go to `leaf`, every other node
      assembles its children's values, left to right. */
  function Fold<T>(e: Expr, leaf: Expr -> Result<T>, assemble: (Kind, seq<T>) -> Result<T>): Result<T> {
    match e
    case Bool(_) => leaf(e)
    case Var(_) => leaf(e)
    case Not(x) => Combine(NotK, Collect([Fold(x, leaf, assemble)]), assemble)
    case And(cs) => Combine(AndK, Collect(seq(|cs|, i requires 0 <= i < |cs| => Fold(cs[i], leaf, assemble))), assemble)
    case Or(cs) => Combine(OrK, Collect(seq(|cs|, i requires 0 <= i < |cs| => Fold(cs[i], leaf, assemble))), assemble)
    case Implies(l, r) => Combine(ImpliesK, Collect([Fold(l, leaf, assemble), Fold(r, leaf, assemble)]), assemble)
    case Equivalent(l, r) => Combine(EquivalentK, Collect([Fold(l, leaf, assemble), Fold(r, leaf, assemble)]), assemble)
  }

  /** The structural unroll table: `identityResult`-style leaves (through
      `leaf`), and `unrollUnary`, `unrollNary`, `unrollBinary` for the rest. */
  function Structural<T>(leaf: Expr -> Result<T>, e: Expr): Unrolled<T> {
    if e.Bool? || e.Var? then
      match leaf(e)
      case Ok(v) => Value(v)
      case Err(x) => Throw(x)
    else Descend(e)
  }

  lemma StructuralShrinks<T>(leaf: Expr -> Result<T>, e: Expr)
    ensures Shrinks(e, Structural(leaf, e))
  {
    ChildrenWeight(e);
    DescendBound(Children(e), Weight(e));
  }

  lemma FoldFixpoint<T>(e: Expr, leaf: Expr -> Result<T>, assemble: (Kind, seq<T>) -> Result<T>, spec: Expr -> Result<T>)
    requires forall x :: spec(x) == Fold(x, leaf, assemble)
    ensures spec(e) == Step(Structural(leaf, e), assemble, spec)
  {
    match e
    case Bool(_) =>
    case Var(_) =>
    case Not(x) =>
      assert Applied(spec, Children(e)) == [Fold(x, leaf, assemble)];
    case And(cs) =>
      assert Applied(spec, cs) == seq(|cs|, i requires 0 <= i < |cs| => Fold(cs[i], leaf, assemble));
    case Or(cs) =>
      assert Applied(spec, cs) == seq(|cs|, i requires 0 <= i < |cs| => Fold(cs[i], leaf, assemble));
    case Implies(l, r) =>
      assert Applied(spec, Children(e)) == [Fold(l, leaf, assemble), Fold(r, leaf, assemble)];
    case Equivalent(l, r) =>
      assert Applied(spec, Children(e)) == [Fold(l, leaf, assemble), Fold(r, leaf, assemble)];
  }

  /** The engine run with only the structural unroll helpers is exactly the
      recursive post-order fold. */
  method FoldTree<T>(root: Expr, leaf: Expr -> Result<T>, assemble: (Kind, seq<T>) -> Result<T>)
    returns (r: Result<T>)
    ensures r == Fold(root, leaf, assemble)
  {
    var unroll := (e: Expr) => Structural(leaf, e);
    ghost var spec := (e: Expr) => Fold(e, leaf, assemble);
    forall e ensures Shrinks(e, unroll(e)) {
      StructuralShrinks(leaf, e);
    }
    forall e ensures spec(e) == Step(unroll(e), assemble, spec) {
      FoldFixpoint(e, leaf, assemble, spec);
    }
    r := TraverseExpressionsTree(root, unroll, assemble, spec);
  }
}
