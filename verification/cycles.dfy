/**
 Depth-first cycle detection over the dependency graph (`VerifyNoCycles`,
 `DetectCycle`) and its correctness: the check passes exactly when the graph
 has no cycle, and a reported cycle is a real one.
 */
module Cycles {
  import opened Wrappers
  import opened TypeTable

  /** The dependency graph: its keys in insertion order, and each key's dependency list. */
  datatype Graph = Graph(keys: seq<TypeId>, edges: map<TypeId, seq<TypeId>>)

  predicate GraphOk(g: Graph) {
    (forall v | v in g.keys :: v in g.edges) && (forall v | v in g.edges :: v in g.keys)
  }

  /** `graph.TryGetValue`: a node that is not a key has no dependencies. */
  function Succ(g: Graph, v: TypeId): seq<TypeId> {
    if v in g.edges then g.edges[v] else []
  }

  /** Every node that can appear in a search. */
  ghost function Nodes(g: Graph): set<TypeId> {
    g.edges.Keys + set v, w | v in g.edges && w in g.edges[v] :: w
  }

  lemma SuccInNodes(g: Graph, v: TypeId, w: TypeId)
    requires w in Succ(g, v)
    ensures w in Nodes(g)
  {
  }

  /** Consecutive nodes are joined by edges. */
  ghost predicate IsPath(g: Graph, p: seq<TypeId>) {
    forall i | 0 <= i < |p| - 1 :: p[i + 1] in Succ(g, p[i])
  }

  /** A path that comes back to a node it has already passed through. */
  ghost predicate IsCycle(g: Graph, p: seq<TypeId>) {
    IsPath(g, p) && |p| >= 2 && p[|p| - 1] in p[..|p| - 1]
  }

  ghost predicate Acyclic(g: Graph) {
    forall p | IsPath(g, p) :: !(|p| >= 2 && p[|p| - 1] in p[..|p| - 1])
  }

  /** Every finished node's dependencies finished before it. */
  ghost predicate FinishOrder(g: Graph, visited: seq<TypeId>) {
    forall i | 0 <= i < |visited| :: forall w | w in Succ(g, visited[i]) :: w in visited[..i]
  }

  /** The search state after one call: a cycle if one was found, and the two node sets. */
  datatype Search = Search(cycle: Option<seq<TypeId>>, visiting: set<TypeId>, visited: seq<TypeId>)

  /**
   `DetectCycle`. `visiting` holds the nodes on the current search path,
   `visited` the finished nodes in the order they finished (the source keeps
   them in a hash set; the order is what the proof needs).
   */
  function DetectCycle(g: Graph, t: TypeId, visiting: set<TypeId>, visited: seq<TypeId>): (r: Search)
    requires t in Nodes(g) && FinishOrder(g, visited)
    ensures r.cycle.None? ==>
      && r.visiting == visiting
      && |visited| <= |r.visited| && r.visited[..|visited|] == visited
      && t in r.visited
      && FinishOrder(g, r.visited)
    ensures r.cycle.Some? ==>
      var c := r.cycle.value;
      && |c| >= 1 && c[0] == t && IsPath(g, c)
      && (c[|c| - 1] in visiting || c[|c| - 1] in c[..|c| - 1])
    ensures t !in visited && t in visiting ==> r.cycle == Some([t])
    decreases |Nodes(g) - visiting|, 0, 0
  {
    if t in visited then Search(None, visiting, visited)
    else if t in visiting then Search(Some([t]), visiting, visited)
    else
      ShrinkUnvisited(Nodes(g), visiting, t);
      var deps := Succ(g, t);
      var r := DetectInDeps(g, t, deps, 0, visiting + {t}, visited);
      if r.cycle.Some? then
        PrependStep(g, t, r.cycle.value, visiting);
        Search(Some([t] + r.cycle.value), r.visiting, r.visited)
      else
        assert r.visiting - {t} == visiting;
        FinishAppend(g, t, visited, r.visited);
        Search(None, r.visiting - {t}, r.visited + [t])
  }

  /** A path found from a dependency of `t`, with `t` put in front. */
  lemma PrependStep(g: Graph, t: TypeId, c: seq<TypeId>, visiting: set<TypeId>)
    requires |c| >= 1 && c[0] in Succ(g, t) && IsPath(g, c)
    requires c[|c| - 1] in visiting + {t} || c[|c| - 1] in c[..|c| - 1]
    ensures var p := [t] + c;
      && |p| >= 1 && p[0] == t && IsPath(g, p)
      && (p[|p| - 1] in visiting || p[|p| - 1] in p[..|p| - 1])
  {
    var p := [t] + c;
    assert p[1..] == c;
    forall i | 0 <= i < |p| - 1
      ensures p[i + 1] in Succ(g, p[i])
    {
      if i > 0 {
        assert p[i] == c[i - 1] && p[i + 1] == c[i];
      }
    }
    assert p[|p| - 1] == c[|c| - 1];
    assert p[..|p| - 1] == [t] + c[..|c| - 1];
  }

  /** Finishing `t` after all its dependencies keeps the finish order. */
  lemma FinishAppend(g: Graph, t: TypeId, visited: seq<TypeId>, done: seq<TypeId>)
    requires FinishOrder(g, done)
    requires |visited| <= |done| && done[..|visited|] == visited
    requires forall w | w in Succ(g, t) :: w in done
    ensures var r := done + [t];
      && |visited| <= |r| && r[..|visited|] == visited
      && t in r
      && FinishOrder(g, r)
  {
    var r := done + [t];
    assert r[..|done|] == done;
    assert r[..|visited|] == done[..|visited|];
    forall i | 0 <= i < |r|
      ensures forall w | w in Succ(g, r[i]) :: w in r[..i]
    {
      if i < |done| {
        assert r[i] == done[i] && r[..i] == done[..i];
      }
    }
  }

  lemma ShrinkUnvisited(all: set<TypeId>, visiting: set<TypeId>, t: TypeId)
    requires t in all && t !in visiting
    ensures |all - (visiting + {t})| < |all - visiting|
  {
    assert all - (visiting + {t}) == (all - visiting) - {t};
  }

  /** The loop over `t`'s dependencies `deps[i..]`, stopping at the first cycle. */
  function DetectInDeps(g: Graph, t: TypeId, deps: seq<TypeId>, i: nat, visiting: set<TypeId>, visited: seq<TypeId>): (r: Search)
    requires i <= |deps| && deps == Succ(g, t) && t in visiting && t !in visited
    requires FinishOrder(g, visited)
    ensures r.cycle.None? ==>
      && r.visiting == visiting
      && |visited| <= |r.visited| && r.visited[..|visited|] == visited
      && (forall k | i <= k < |deps| :: deps[k] in r.visited)
      && FinishOrder(g, r.visited)
      && t !in r.visited
    ensures r.cycle.Some? ==>
      var c := r.cycle.value;
      && |c| >= 1 && c[0] in deps && IsPath(g, c)
      && (c[|c| - 1] in visiting || c[|c| - 1] in c[..|c| - 1])
    decreases |Nodes(g) - visiting|, 1, |deps| - i
  {
    if i == |deps| then Search(None, visiting, visited)
    else
      SuccInNodes(g, t, deps[i]);
      var r := DetectCycle(g, deps[i], visiting, visited);
      if r.cycle.Some? then r
      else
        var rest := DetectInDeps(g, t, deps, i + 1, r.visiting, r.visited);
        if rest.cycle.Some? then rest
        else
          PrefixGrows(visited, r.visited, rest.visited);
          rest
  }

  /** A prefix of a prefix is a prefix, and what the middle list holds the longest one holds. */
  lemma PrefixGrows(a: seq<TypeId>, b: seq<TypeId>, c: seq<TypeId>)
    requires |a| <= |b| && b[..|a|] == a
    requires |b| <= |c| && c[..|b|] == b
    ensures |a| <= |c| && c[..|a|] == a
    ensures forall x | x in b :: x in c
  {
    assert c[..|a|] == c[..|b|][..|a|];
    forall x | x in b
      ensures x in c
    {
      var j :| 0 <= j < |b| && b[j] == x;
      assert c[j] == b[j];
    }
  }

  /** The loop of `VerifyNoCycles` over the graph's keys, from index `k`. */
  function SearchFrom(g: Graph, k: nat, visited: seq<TypeId>): (r: Result<seq<TypeId>, seq<TypeId>>)
    requires GraphOk(g) && k <= |g.keys| && FinishOrder(g, visited)
    requires forall j | 0 <= j < k :: g.keys[j] in visited
    ensures r.Ok? ==> FinishOrder(g, r.value) && forall v | v in g.keys :: v in r.value
    ensures r.Err? ==> IsCycle(g, r.error)
    decreases |g.keys| - k
  {
    if k == |g.keys| then Ok(visited)
    else
      assert g.keys[k] in g.edges;
      var s := DetectCycle(g, g.keys[k], {}, visited);
      if s.cycle.Some? then
        Err(s.cycle.value)
      else
        assert forall j | 0 <= j < k :: g.keys[j] in s.visited[..|visited|];
        SearchFrom(g, k + 1, s.visited)
  }

  /**
   `VerifyNoCycles`: the first cycle found searching from each key in turn,
   with shared `visiting`/`visited` sets.
   */
  function VerifyNoCycles(g: Graph): (r: Result<(), seq<TypeId>>)
    requires GraphOk(g)
    ensures r.Err? ==> IsCycle(g, r.error)
  {
    match SearchFrom(g, 0, [])
    case Ok(_) => Ok(())
    case Err(c) => Err(c)
  }

  /** The first position of `v` in `s`. */
  function Pos(s: seq<TypeId>, v: TypeId): (i: nat)
    requires v in s
    ensures i < |s| && s[i] == v && v !in s[..i]
  {
    if s[0] == v then 0 else Pos(s[1..], v) + 1
  }

  /** Along a path through finished nodes, first positions strictly decrease. */
  lemma {:induction false} PathDescends(g: Graph, visited: seq<TypeId>, p: seq<TypeId>, i: nat, j: nat)
    requires FinishOrder(g, visited) && IsPath(g, p)
    requires |p| > 0 && p[0] in visited
    requires i < j < |p|
    ensures p[i] in visited && p[j] in visited && Pos(visited, p[j]) < Pos(visited, p[i])
    decreases j - i
  {
    PathInVisited(g, visited, p, i);
    PathInVisited(g, visited, p, i + 1);
    StepDescends(g, visited, p[i], p[i + 1]);
    if i + 1 < j {
      PathDescends(g, visited, p, i + 1, j);
    }
  }

  lemma StepDescends(g: Graph, visited: seq<TypeId>, v: TypeId, w: TypeId)
    requires FinishOrder(g, visited) && v in visited && w in Succ(g, v)
    ensures w in visited && Pos(visited, w) < Pos(visited, v)
  {
    var i := Pos(visited, v);
    assert w in visited[..i];
    var k :| 0 <= k < i && visited[..i][k] == w;
    assert visited[k] == w;
  }

  lemma {:induction false} PathInVisited(g: Graph, visited: seq<TypeId>, p: seq<TypeId>, i: nat)
    requires FinishOrder(g, visited) && IsPath(g, p)
    requires |p| > 0 && p[0] in visited && i < |p|
    ensures p[i] in visited
  {
    if i > 0 {
      PathInVisited(g, visited, p, i - 1);
      StepDescends(g, visited, p[i - 1], p[i]);
    }
  }

  /** A finish order covering every node with edges rules out every cycle. */
  lemma FinishOrderAcyclic(g: Graph, visited: seq<TypeId>)
    requires GraphOk(g) && FinishOrder(g, visited)
    requires forall v | v in g.keys :: v in visited
    ensures Acyclic(g)
  {
    forall p | IsPath(g, p) && |p| >= 2
      ensures p[|p| - 1] !in p[..|p| - 1]
    {
      assert p[1] in Succ(g, p[0]);
      assert p[0] in g.edges;
      if p[|p| - 1] in p[..|p| - 1] {
        var i :| 0 <= i < |p| - 1 && p[i] == p[|p| - 1];
        PathDescends(g, visited, p, i, |p| - 1);
      }
    }
  }

  /** The check passes exactly when the graph has no cycle. */
  lemma VerifyNoCyclesCorrect(g: Graph)
    requires GraphOk(g)
    ensures VerifyNoCycles(g).Ok? <==> Acyclic(g)
  {
    match SearchFrom(g, 0, [])
    case Ok(order) =>
      FinishOrderAcyclic(g, order);
    case Err(c) =>
      assert IsPath(g, c) && |c| >= 2 && c[|c| - 1] in c[..|c| - 1];
  }
}
