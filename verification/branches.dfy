/**
 The logic tree and one tick's walk over it (`BranchContext`,
 `TreeEngine.EvaluateTree`). A branch's `Tick` is a script of `Use`
 declarations that may end in a throw; the walk collects the flow types the
 tree declares this tick.
 */
module Branches {
  import opened Wrappers
  import opened TypeTable

  /** Branches nested this deep are not ticked. */
  const MaxRecursionDepth: nat := 100

  /** What one branch's `Tick` does: its `Use` declarations in order, then possibly a throw. */
  datatype Script = Script(uses: seq<TypeId>, throws: bool)

  /**
   The components one tick sees: the types implementing `IBranch`, those
   implementing `IFlow`, and the script of every branch the scope can
   resolve (a branch type without a script fails to resolve).
   */
  datatype Tree = Tree(branches: set<TypeId>, flows: set<TypeId>, scripts: map<TypeId, Script>)

  /** The declared flow types and the queue of nested branches still to evaluate. */
  datatype BranchContext = BranchContext(collected: set<TypeId>, queue: seq<TypeId>)

  /** `Use<T>`: a branch is queued, a flow is collected, anything else is ignored. */
  function Use(tree: Tree, ctx: BranchContext, t: TypeId): BranchContext {
    if t in tree.branches then ctx.(queue := ctx.queue + [t])
    else if t in tree.flows then ctx.(collected := ctx.collected + {t})
    else ctx
  }

  /** The branch types among `us`, in declaration order. */
  function BranchUses(tree: Tree, us: seq<TypeId>): (r: seq<TypeId>)
    ensures forall c :: c in r <==> c in us && c in tree.branches
  {
    if us == [] then []
    else if us[0] in tree.branches then [us[0]] + BranchUses(tree, us[1..])
    else BranchUses(tree, us[1..])
  }

  /** A flow declaration among `us` that `Use` collects: a flow type that is not also a branch. */
  predicate CollectsFlow(tree: Tree, us: seq<TypeId>, x: TypeId) {
    x in us && x !in tree.branches && x in tree.flows
  }

  /**
   A branch's declarations, one `Use` after another: the branches are queued
   in declaration order, the flows added to the collected set.
   */
  function UseAll(tree: Tree, ctx: BranchContext, us: seq<TypeId>): (r: BranchContext)
    ensures r.queue == ctx.queue + BranchUses(tree, us)
    ensures forall x :: x in r.collected <==> x in ctx.collected || CollectsFlow(tree, us, x)
    decreases |us|
  {
    if us == [] then ctx
    else
      var r := UseAll(tree, Use(tree, ctx, us[0]), us[1..]);
      assert forall x | x in us :: x == us[0] || x in us[1..];
      r
  }

  /** `TakeNestedLogic`: the oldest queued branch, or nothing when the queue is empty. */
  function TakeNestedLogic(ctx: BranchContext): (r: (Option<TypeId>, BranchContext))
    ensures r.0.None? <==> ctx.queue == []
    ensures r.0.Some? ==> r.0.value == ctx.queue[0] && r.1 == ctx.(queue := ctx.queue[1..])
    ensures r.0.None? ==> r.1 == ctx
  {
    if |ctx.queue| > 0 then (Some(ctx.queue[0]), ctx.(queue := ctx.queue[1..])) else (None, ctx)
  }

  /**
   The loop that drains the queue before any child is evaluated: the children
   come out in the order they were queued, and the queue is left empty.
   */
  function TakeAll(ctx: BranchContext): (r: (seq<TypeId>, BranchContext))
    ensures r.0 == ctx.queue && r.1 == ctx.(queue := [])
    decreases |ctx.queue|
  {
    match TakeNestedLogic(ctx)
    case (None, _) => ([], ctx)
    case (Some(t), rest) =>
      var (more, last) := TakeAll(rest);
      ([t] + more, last)
  }

  /** `Snapshot`: an independent copy of the context. */
  function Snapshot(ctx: BranchContext): BranchContext {
    BranchContext(ctx.collected, ctx.queue)
  }

  /** `Rollback`: the collected set and the queue become the snapshot's again. */
  function Rollback(ctx: BranchContext, snapshot: BranchContext): BranchContext {
    BranchContext(snapshot.collected, snapshot.queue)
  }

  /**
   Rolling back to a snapshot taken before any sequence of declarations
   undoes all of them, whatever the declarations were.
   */
  lemma RollbackUndoes(tree: Tree, ctx: BranchContext, us: seq<TypeId>)
    ensures Rollback(UseAll(tree, Snapshot(ctx), us), Snapshot(ctx)) == ctx
  {
  }

  /** How many more levels may still be ticked below `depth`. */
  function Budget(depth: nat): nat {
    if depth >= MaxRecursionDepth then 0 else MaxRecursionDepth - depth
  }

  /**
   The flows a branch evaluated at `depth` contributes: a branch below the
   depth cap that resolves and does not throw contributes the flows it
   declares, and those its nested branches contribute one level deeper.
   */
  ghost predicate Declares(tree: Tree, b: TypeId, x: TypeId, depth: nat)
    decreases Budget(depth)
  {
    && depth < MaxRecursionDepth
    && b in tree.scripts
    && !tree.scripts[b].throws
    && (|| CollectsFlow(tree, tree.scripts[b].uses, x)
        || exists c | c in tree.scripts[b].uses && c in tree.branches :: Declares(tree, c, x, depth + 1))
  }

  /** Some branch in `cs`, evaluated at `depth`, contributes `x`. */
  ghost predicate SomeDeclares(tree: Tree, cs: seq<TypeId>, x: TypeId, depth: nat) {
    exists c | c in cs :: Declares(tree, c, x, depth)
  }

  /**
   `EvaluateTree`: the branch is skipped at the depth cap or when it does
   not resolve; a throwing tick is rolled back to the snapshot taken before
   it; otherwise its children are taken from the queue first and then
   evaluated one level deeper, in order.
   */
  function EvaluateTree(tree: Tree, b: TypeId, ctx: BranchContext, depth: nat): (r: BranchContext)
    ensures ctx.collected <= r.collected
    ensures forall x | x in r.collected && x !in ctx.collected :: x in tree.flows && x !in tree.branches
    ensures ctx.queue == [] ==> r.queue == []
    ensures ctx.queue == [] ==> forall x :: x in r.collected <==> x in ctx.collected || Declares(tree, b, x, depth)
    decreases Budget(depth), 0, 0
  {
    if depth >= MaxRecursionDepth then ctx
    else if b !in tree.scripts then ctx
    else
      var snapshot := Snapshot(ctx);
      var ticked := UseAll(tree, ctx, tree.scripts[b].uses);
      if tree.scripts[b].throws then Rollback(ticked, snapshot)
      else
        var (children, rest) := TakeAll(ticked);
        var r := EvaluateChildren(tree, children, rest, depth + 1);
        assert ctx.queue == [] ==> forall c :: c in children <==> c in tree.scripts[b].uses && c in tree.branches;
        r
  }

  /** The loop over the children, each evaluated at `depth` on the shared context. */
  function EvaluateChildren(tree: Tree, cs: seq<TypeId>, ctx: BranchContext, depth: nat): (r: BranchContext)
    ensures ctx.collected <= r.collected
    ensures forall x | x in r.collected && x !in ctx.collected :: x in tree.flows && x !in tree.branches
    ensures ctx.queue == [] ==> r.queue == []
    ensures ctx.queue == [] ==> forall x :: x in r.collected <==> x in ctx.collected || SomeDeclares(tree, cs, x, depth)
    decreases Budget(depth), 1, |cs|
  {
    if cs == [] then ctx
    else
      var first := EvaluateTree(tree, cs[0], ctx, depth);
      var r := EvaluateChildren(tree, cs[1..], first, depth);
      assert forall c | c in cs :: c == cs[0] || c in cs[1..];
      r
  }

  /** The flow types one tick declares: the walk from the root on a fresh context. */
  function Collect(tree: Tree, root: TypeId): (r: set<TypeId>)
    ensures forall x :: x in r <==> Declares(tree, root, x, 0)
    ensures r <= tree.flows
  {
    EvaluateTree(tree, root, BranchContext({}, []), 0).collected
  }

  /** `a` resolves and declares the nested branch `c`. */
  ghost predicate Nested(tree: Tree, a: TypeId, c: TypeId) {
    a in tree.scripts && c in tree.scripts[a].uses && c in tree.branches
  }

  /**
   A chain of branches that all resolve and do not throw, each nested
   branch declared by the one before it, the last one declaring flow `x`.
   */
  ghost predicate DeclarationPath(tree: Tree, p: seq<TypeId>, x: TypeId) {
    && |p| >= 1
    && (forall i | 0 <= i < |p| :: p[i] in tree.scripts && !tree.scripts[p[i]].throws)
    && (forall i | 1 <= i < |p| :: Nested(tree, p[i - 1], p[i]))
    && CollectsFlow(tree, tree.scripts[p[|p| - 1]].uses, x)
  }

  lemma {:induction false} DeclaresHasPath(tree: Tree, b: TypeId, x: TypeId, depth: nat)
    requires Declares(tree, b, x, depth)
    ensures exists p :: DeclarationPath(tree, p, x) && p[0] == b && |p| <= Budget(depth)
    decreases Budget(depth)
  {
    var uses := tree.scripts[b].uses;
    if CollectsFlow(tree, uses, x) {
      assert DeclarationPath(tree, [b], x);
    } else {
      var c :| c in uses && c in tree.branches && Declares(tree, c, x, depth + 1);
      DeclaresHasPath(tree, c, x, depth + 1);
      var q :| DeclarationPath(tree, q, x) && q[0] == c && |q| <= Budget(depth + 1);
      var p := [b] + q;
      assert forall i | 1 <= i < |p| :: p[i] == q[i - 1];
      assert DeclarationPath(tree, p, x);
    }
  }

  lemma {:induction false} PathDeclares(tree: Tree, p: seq<TypeId>, x: TypeId, depth: nat)
    requires DeclarationPath(tree, p, x) && |p| <= Budget(depth)
    ensures Declares(tree, p[0], x, depth)
    decreases |p|
  {
    if |p| > 1 {
      var q := p[1..];
      assert forall i | 0 <= i < |q| :: q[i] == p[i + 1];
      assert DeclarationPath(tree, q, x);
      PathDeclares(tree, q, x, depth + 1);
      assert Nested(tree, p[0], p[1]);
    }
  }

  /**
   The walk collects exactly the flows at the end of some declaration path
   from the root that is at most `MaxRecursionDepth` branches long.
   */
  lemma CollectIffPath(tree: Tree, root: TypeId, x: TypeId)
    ensures x in Collect(tree, root) <==>
      exists p :: DeclarationPath(tree, p, x) && p[0] == root && |p| <= MaxRecursionDepth
  {
    if x in Collect(tree, root) {
      DeclaresHasPath(tree, root, x, 0);
    }
    if p :| DeclarationPath(tree, p, x) && p[0] == root && |p| <= MaxRecursionDepth {
      PathDeclares(tree, p, x, 0);
    }
  }
}
